# Verified models of the bundled network tools

This project models, in Dafny, the parts of the repository that carry hard logic of their own, and proves what
they promise:

- **HTTP client** (`ChunkedBody`, `HttpHeader`, `HttpResponse`): the reader of chunked, sized and unsized responses,
  fed by arbitrary reads, together with the test server that writes them (section 3.6.1 of RFC 2616). The nested loops
  are refined to an automaton over single bytes; the split of the stream into reads then disappears.
- **minixml and SOAP** (`Xml`, `XmlParser`, `Soap`): the callback scanner, the SOAP request printer and the
  name/value reply parser. Scanning undoes printing for every element tree.
- **NAT-PMP server** (`NatPmp`): the port search, deletion while iterating, and the tracked deadline, over every run
  (sections 3.3 and 3.4 of RFC 6886).
- **iptables-xml** (`IptablesXml`, `IptablesXmlConverter`, `IptablesXmlText`, `IptablesXmlSaved`): the converter that
  defers closing tags, from the text of the file on. It is proved for exactly which inputs its output is balanced, and
  for which it is properly nested; files that iptables-save prints are followed from their text to the output.
- **makegif** (`Gif`): the uncompressed LZW writer, against a reader written after Appendix F of the GIF89a
  specification.
- **bsdqueue** (`Queue`): the list and tail queue macros on a heap of links, as refinements of sequence operations.
- **iptables save and restore** (`Tokenizer`, `SaveRestore`): the two tokenizers, quoting, addresses and interfaces.
- **Extension registration** (`Registration`), **discovery replies** (`Ssdp`, section 1.2 of the UPnP Device
  Architecture 1.0) and the **length-coded device list** (`LengthCode`).

`Sequences` and `Text` hold what these share about sequences, strings and numerals.

Code that changes state step by step is modelled by methods and classes with loops; each is proved equal to a
function, and the promises are lemmas about those functions. Where a promise of the code does not hold for all
inputs, the model keeps the code's behaviour, and a lemma gives the exact condition, as an if-and-only-if.

Conventions: bytes of text protocols are characters; wrap-around of fixed-width integers is written out where it can
happen; a point where the source would write outside its buffers, or where its outcome depends on what it reads outside
them, is an outcome of its own (`Unspecified`, `Overrun`, `Overran`, `Unterminated`, `Beyond`, `Crash` or `Crashed`) and
not given a meaning; the exceptions are named under "Left out".
`dafny verify dfyconfig.toml` checks the whole project.

Where code and comments disagree the code is followed: the comment in `print_iface` says that the mask is byte-bounded
and contiguous, and only such masks are printed here, because the parser makes no others; the documentation of
`parseMSEARCHReply` speaks of the fields "location" and "st", but any header whose name starts with these letters is
taken.

## Model

| member | source | states |
|---|---|---|
| `ChunkedBody.SkipByte` | miniupnpc-1.6/miniwget.c:184-187 | one byte is skipped just when it is the given one, and the automaton run over the rest reaches the same end |
| `ChunkedBody.SkipLeading` | miniupnpc-1.6/miniwget.c:184-188 | skipping the line break left from the previous chunk is what the byte automaton does over those bytes |
| `ChunkedBody.TakeDigits` | miniupnpc-1.6/miniwget.c:189-195 | the digit loop collects the hex digits the automaton collects, up to the size of its buffer |
| `ChunkedBody.SkipExtension` | miniupnpc-1.6/miniwget.c:196-197 | the extension loop discards bytes up to the carriage return, as the automaton does |
| `ChunkedBody.ReadSize` | miniupnpc-1.6/miniwget.c:200-207 | the number read is the value of the collected hex digits modulo the width of the type |
| `ChunkedBody.FinishSizeLine` | miniupnpc-1.6/miniwget.c:198-214 | the end of the size line sets the chunk size, or ends the stream on zero |
| `ChunkedBody.ReadSizeLine` | miniupnpc-1.6/miniwget.c:181-214 | a size line, whole or cut off by the read, is the run of the automaton over its bytes; at least one byte is consumed |
| `ChunkedBody.CopyData` | miniupnpc-1.6/miniwget.c:227-241 | copying takes the smaller of the bytes left in the chunk and in the read |
| `ChunkedBody.FeedChunked` | miniupnpc-1.6/miniwget.c:176-243 | one read of the chunked body through the nested loops leaves the state that the byte automaton reaches over the same bytes, its phase forgotten; the loops end |
| `ChunkedBody.BoundaryInvisible` | miniupnpc-1.6/miniwget.c:176-243 | a read boundary in front of a byte goes unnoticed if and only if the byte is not sensitive in that state |
| `ChunkedBody.SplitInvisible` | miniupnpc-1.6/miniwget.c:176-243 | reads that start at no sensitive byte give what one single read gives |
| `ChunkedBody.ChunkedRoundTrip` | miniupnpc-1.6/miniwget.c:176-243 | for every cut into chunks, spelling of the sizes, trailing bytes and split into reads, decoding gives exactly the data and ends the stream; with extensions, when no read starts with a hex digit of one |
| `ChunkedBody.SizeLineExactly` | miniupnpc-1.6/miniwget.c:184-214 | for every split of a size line with its extension, the size announced is that of the digits together with the hex digits of the extension that start a read, as far as the digit buffer holds them; it is the size meant if and only if that value is, in 32-bit arithmetic |
| `ChunkedBody.SplitWidens` | miniupnpc-1.6/miniwget.c:189-195 | for an extension split in front of a single hex digit, the size announced is sixteen times the size plus the digit, which is right if and only if it is the same modulo 2^32 |
| `HttpHeader.HeaderEndExactly` | miniupnpc-1.6/miniwget.c:98-122 | for every text the scan reports the end of the first blank line, or none when there is none, if and only if an even number of CR and LF characters stands directly before that blank line |
| `HttpHeader.HeaderEndFirst` | miniupnpc-1.6/miniwget.c:98-122 | so it does for every text with line ends of one style |
| `HttpHeader.MixedEndsMissed` | miniupnpc-1.6/miniwget.c:98-122 | behind every line that ends with CR LF, an empty line that ends with LF is missed |
| `HttpHeader.ScanHeaderEnd` | miniupnpc-1.6/miniwget.c:100-122 | the scan loop over the bytes received so far, with its skips, computes the header end |
| `HttpHeader.HeaderEndPrefix` | miniupnpc-1.6/miniwget.c:94-124 | for every prefix of the stream, the rescan finds the header end of the whole stream if it lies in the prefix, and none otherwise |
| `HttpHeader.HeaderEndBlock` | miniupnpc-1.6/miniwget.c:100-122 | for every block of header lines, with either line ending, the scan finds exactly the end of the block whatever follows |
| `HttpHeader.SkipBlanks` | miniupnpc-1.6/miniwget.c:125-167 | the blanks after a colon are skipped up to the value |
| `HttpHeader.FinishLine` | miniupnpc-1.6/miniwget.c:125-167 | at the end of a line its field, if it has one, is applied |
| `HttpHeader.ParseFields` | miniupnpc-1.6/miniwget.c:125-167 | the index loop over the headers gives what all their lines say, the last field of a kind counting |
| `HttpHeader.LinesOfBlock` | miniupnpc-1.6/miniwget.c:125-167 | the line loop sees exactly the lines of a printed block |
| `HttpHeader.HeaderFieldsOfBlock` | miniupnpc-1.6/miniwget.c:125-167 | the fields read from a printed block are those its lines state, in order |
| `HttpResponse.ReadBody` | miniupnpc-1.6/miniwget.c:173-265 | one read of the body, chunked or not, gives the reader state of the body function; bytes beyond the length are not kept |
| `HttpResponse.ReadHeader` | miniupnpc-1.6/miniwget.c:89-172 | one read while the headers are not complete leaves the response to come as it was, and hands what is behind the headers to the body |
| `HttpResponse.GetHttpResponse` | miniupnpc-1.6/miniwget.c:61-284 | the whole loop over the reads, header scan, field parsing and body, gives the response function of the reads |
| `HttpResponse.HeaderSplit` | miniupnpc-1.6/miniwget.c:94-172 | however the stream is split, the headers end at the same byte, the bytes left over are fewer than the last read brought, and the body goes on with the later reads |
| `HttpResponse.BodyFromChunked` | miniupnpc-1.6/miniwget.c:173-280 | for every length announced besides and every split, a chunked body that ends is the response if and only if no read leaves at least that length but not all of the data |
| `HttpResponse.LongEnough` | miniupnpc-1.6/miniwget.c:266-273 | so it is with no length, and with every length not smaller than the data |
| `HttpResponse.ShortLengthCuts` | miniupnpc-1.6/miniwget.c:266-273 | for every body and every positive length smaller than its data there is a split for which the response is cut off at that length |
| `HttpResponse.LengthExactly` | miniupnpc-1.6/miniwget.c:173-273 | for every body, all splits give exactly the data if and only if the length announced besides is not positive or not smaller than the data |
| `HttpResponse.BodyFromPlain` | miniupnpc-1.6/miniwget.c:244-273 | an unchunked body does not depend on the split, and bytes beyond a positive length are dropped |
| `HttpResponse.ChunksOfGood` | miniupnpc-1.6/minihttptestserver.c:96-139 | for every content and random stream, the cut gives non-empty chunks with correct sizes whose data is the content |
| `HttpResponse.WriteChunk` | miniupnpc-1.6/minihttptestserver.c:96-139 | one round writes the next chunk, and what remains completes the same whole |
| `HttpResponse.WriteChunks` | miniupnpc-1.6/minihttptestserver.c:96-139 | the chunking loop, drawing as many random numbers as it says, leaves nothing to write of the encoded chunks |
| `HttpResponse.BuildChunkedResponse` | miniupnpc-1.6/minihttptestserver.c:96-139 | the built response is the header block and the encoded body of the cut, if and only if that fits the buffer allocated; otherwise the buffer is overrun |
| `HttpResponse.SmallChunksOverrun` | miniupnpc-1.6/minihttptestserver.c:103-134 | with chunks of one byte the buffer is overrun if and only if the content has 37 bytes or more |
| `HttpResponse.SendResponse` | miniupnpc-1.6/minihttptestserver.c:155-172 | for every sequence of results of `write`, what is written is a beginning of the buffer in pieces of at most 99 bytes; a failed call ends it, and all of it is sent if every call writes something and there are enough of them |
| `HttpResponse.ChunkedEndToEnd` | miniupnpc-1.6/minihttptestserver.c:96-172 | for every content, chunk cut and split into reads, the client gets exactly the content |
| `HttpResponse.PlainEndToEnd` | miniupnpc-1.6/minihttptestserver.c:286-297 | without a length the client gets everything up to the end of the stream, for every split |
| `HttpResponse.SizedEndToEnd` | miniupnpc-1.6/minihttptestserver.c:272-285 | with a length and bytes after the content the client gets exactly the content, except that a length of zero is ignored |
| `Xml.AttsPrinted` | miniupnpc-1.6/minixml.c:39-106 | for every list of quoted attributes with any blanks, the attribute scan reports each name and value and stops behind the last |
| `Xml.ContentsText` | miniupnpc-1.6/minixml.c:110-206 | text is reported if and only if an end tag follows it |
| `Xml.SectionPrinted` | miniupnpc-1.6/minixml.c:110-206 | a CDATA section reports its data whole and resumes at the next tag |
| `Xml.ScanPrinted` | miniupnpc-1.6/minixml.c:39-206 | for every element tree, scanning its printed form reports exactly its events in order, with no end event for self-closed elements, and goes on right behind it |
| `Xml.ScanForest` | miniupnpc-1.6/minixml.c:110-206 | the same for any list of siblings with text between them |
| `Xml.ScanDocument` | miniupnpc-1.6/minixml.c:110-214 | the same for a document with or without a processing instruction and with trailing text |
| `XmlParser.Parser.ParseValue` | miniupnpc-1.6/minixml.c:39-106 | the value loops give the attribute value function of the text left |
| `XmlParser.Parser.ParseAfterEquals` | miniupnpc-1.6/minixml.c:39-106 | blanks after the equals sign are skipped, then the value is read |
| `XmlParser.Parser.ParseAfterName` | miniupnpc-1.6/minixml.c:39-106 | the equals sign is looked for, then the rest of the attribute is read |
| `XmlParser.Parser.ParseOneAtt` | miniupnpc-1.6/minixml.c:39-106 | one attribute read in place is the scan of one attribute |
| `XmlParser.Parser.ParseAtt` | miniupnpc-1.6/minixml.c:39-106 | the cursor loop over the attributes is the attribute scan |
| `XmlParser.Parser.SkipCData` | miniupnpc-1.6/minixml.c:110-206 | the cursor stops at the end of the section, or gives up where the source does |
| `XmlParser.Parser.ParseAfterData` | miniupnpc-1.6/minixml.c:110-206 | the text after a section is skipped up to the next tag |
| `XmlParser.Parser.ParseCData` | miniupnpc-1.6/minixml.c:110-206 | a section read in place is the scan of a section |
| `XmlParser.Parser.ParseText` | miniupnpc-1.6/minixml.c:110-206 | text is reported just when an end tag follows, and the cursor is at the next tag |
| `XmlParser.Parser.ParseContents` | miniupnpc-1.6/minixml.c:110-206 | what follows a start tag is read as the contents scan says |
| `XmlParser.Parser.ParseName` | miniupnpc-1.6/minixml.c:110-206 | the name loop finds the element name past its prefix |
| `XmlParser.Parser.ParseStartTag` | miniupnpc-1.6/minixml.c:110-206 | a start tag read in place is its scan |
| `XmlParser.Parser.ParseEndTag` | miniupnpc-1.6/minixml.c:110-206 | an end tag read in place is its scan |
| `XmlParser.Parser.ParseTag` | miniupnpc-1.6/minixml.c:110-206 | any tag read in place is its scan |
| `XmlParser.Parser.ParseElt` | miniupnpc-1.6/minixml.c:110-206 | the element loop reports what scanning the text left reports |
| `XmlParser.ParseXml` | miniupnpc-1.6/minixml.c:209-214 | the callbacks made for a text are exactly the events of its scan |
| `Soap.NameValueParser.StartElt` | miniupnpc-1.6/upnpreplyparse.c:15-23 | the current element becomes the name cut to 63 characters |
| `Soap.NameValueParser.GetData` | miniupnpc-1.6/upnpreplyparse.c:25-55 | data is kept whole for the port listing, and otherwise put in front of the list under the current element, cut to 63 characters |
| `Soap.NameValueParser.ParseNameValue` | miniupnpc-1.6/upnpreplyparse.c:57-74 | parsing a buffer handles all its scan events in order |
| `Soap.NameValueParser.GetValue` | miniupnpc-1.6/upnpreplyparse.c:93-107 | the search returns the first pair of the name, nothing if there is none |
| `Soap.WriteArgs` | miniupnpc-1.6/miniupnpc.c:155-178 | the argument loop is refused if and only if a margin check fails that is reached inside the buffer, and otherwise either writes all arguments behind the head or runs past the buffer |
| `Soap.BuildBody` | miniupnpc-1.6/miniupnpc.c:139-186 | a body is built if and only if every margin check passes and the text fits, and is then the envelope of the arguments; it is refused, left without a terminator with the tail cut off, or overruns, each exactly when stated |
| `Soap.EnvelopePrinted` | miniupnpc-1.6/miniupnpc.c:142-186 | for every service, action and argument list the built bytes are the printing of the envelope tree |
| `Soap.EnvelopeHandled` | miniupnpc-1.6/upnpreplyparse.c:15-74 | parsing the envelope handles the arguments one after the other and nothing else |
| `Soap.LookupHandled` | miniupnpc-1.6/upnpreplyparse.c:25-107 | after any arguments a lookup gives the last non-empty value of the name, cut, else what was there before |
| `Soap.SoapRoundTrip` | miniupnpc-1.6/upnpreplyparse.c:15-107 | looking a name up in the parsed request gives the last non-empty value given for it, cut to 63 characters, nothing for other names; a port listing comes back whole |
| `NatPmp.StampOfDescription` | miniupnpd-20090605/natpmp.c:224-226 | the deadline printed in a description is read back, for every 32-bit deadline |
| `NatPmp.SearchFinds` | miniupnpd-20090605/natpmp.c:203-241 | if a port at some cyclic distance is the first available one, the search returns it |
| `NatPmp.SearchIsFirst` | miniupnpd-20090605/natpmp.c:203-241 | what the search returns is available, and no port before it, cyclically from the wanted one, is |
| `NatPmp.SearchEnds` | miniupnpd-20090605/natpmp.c:203-241 | the search ends if and only if some port is free or already maps to this client and port |
| `NatPmp.SearchLoop` | miniupnpd-20090605/natpmp.c:203-241 | the do-while loop finds the port the search function gives; none is found in one round over all ports just when the loop never ends |
| `NatPmp.DeleteMine` | miniupnpd-20090605/natpmp.c:161-187 | the index loop that deletes while iterating terminates and leaves the table without the deletable mappings of this client, the rest in order |
| `NatPmp.WithoutMineKeeps` | miniupnpd-20090605/natpmp.c:159-187 | an entry stays if and only if it was there and is not a deletable NAT-PMP mapping of this client |
| `NatPmp.Allocation` | miniupnpd-20090605/natpmp.c:200-243 | a granted mapping is on the first available port, is what the table holds there, is what the reply says; every other key keeps its entry, and keys stay unique |
| `NatPmp.ScanTracks` | miniupnpd-20090605/natpmp.c:261-287 | a scan tracks the smallest deadline in the table, exactly, and no port if and only if there is no NAT-PMP mapping |
| `NatPmp.RescanSafe` | miniupnpd-20090605/natpmp.c:261-287 | a scan makes the tracked deadline exact and keeps the table |
| `NatPmp.CleanSafe` | miniupnpd-20090605/natpmp.c:289-307 | a cleanup keeps the tracked deadline safe, whether or not its deletion succeeds |
| `NatPmp.AskTracksExactly` | miniupnpd-20090605/natpmp.c:233-238 | from every state that tracks, with mappings on any port, a request keeps the tracked deadline a lower bound if and only if it does not take port 0 over as the tracked mapping |
| `NatPmp.PortZeroIsReached` | miniupnpd-20090605/natpmp.c:203-241 | with port 65535 held by another client, a request for it wraps round to port 0 and the tracked deadline is lost |
| `NatPmp.ScanTracksExactly` | miniupnpd-20090605/natpmp.c:261-287 | a scan tracks a lower bound if and only if an earliest deadline is on a port other than 0 |
| `NatPmp.StepTracksExactly` | miniupnpd-20090605/natpmp.c:137-307 | every step keeps the tracked deadline a lower bound if and only if it does not leave port 0 tracked |
| `NatPmp.RunTracksExactly` | miniupnpd-20090605/natpmp.c:137-307 | over every run the tracked deadline is a lower bound throughout if and only if no step leaves port 0 tracked |
| `NatPmp.RunFromScanExactly` | miniupnpd-20090605/natpmp.c:261-307 | the same for every run that starts with a scan, for any table |
| `NatPmp.StepSafe` | miniupnpd-20090605/natpmp.c:137-307 | every allowed step keeps the tracked deadline safe and the keys unique |
| `NatPmp.RunSafe` | miniupnpd-20090605/natpmp.c:137-307 | so does every run of requests, renewals, deletions, scans, cleanups and changes by others |
| `NatPmp.RunFromScanSafe` | miniupnpd-20090605/natpmp.c:261-307 | every run that starts with a scan is safe: a tracked port of zero means no NAT-PMP mapping, otherwise no stored deadline is earlier |
| `NatPmp.CleanProgress` | miniupnpd-20090605/natpmp.c:289-307 | a cleanup leaves the tracked mapping exact, and when it already was, removes one NAT-PMP mapping |
| `NatPmp.CleanedExactly` | miniupnpd-20090605/natpmp.c:289-307 | for every table and time, a cleanup removes only mappings whose deadline has passed if and only if what the tracked key holds, if anything and if it can be deleted, has itself expired |
| `NatPmp.ExactCleansExpired` | miniupnpd-20090605/natpmp.c:289-307 | so it does, when due, while the tracked mapping is exact |
| `NatPmp.AskExactExactly` | miniupnpd-20090605/natpmp.c:159-238 | a request keeps the tracked mapping exact if and only if it does not delete it, replace it by one that expires later, or delete it without adding one |
| `NatPmp.StepExactExactly` | miniupnpd-20090605/natpmp.c:137-307 | every allowed step keeps the tracked mapping exact if and only if it does not take it away |
| `NatPmp.RunExactExactly` | miniupnpd-20090605/natpmp.c:137-307 | over every allowed run from a scan on, the tracked mapping is exact throughout if and only if no step takes it away |
| `NatPmp.RenewedIsCleanedEarly` | miniupnpd-20090605/natpmp.c:233-238 | every renewal of the tracked mapping to a later deadline leaves the old one tracked, and the next cleanup removes the renewed mapping before it expires |
| `NatPmp.Server.Grant` | miniupnpd-20090605/natpmp.c:207-244 | the old entry of the port is replaced and the tracked mapping updated as the request function says |
| `NatPmp.Server.MapRequest` | miniupnpd-20090605/natpmp.c:137-245 | a request handled in place gives the state and reply of the request function; it gives no reply just when the port search does not end |
| `NatPmp.Server.ScanForExpiration` | miniupnpd-20090605/natpmp.c:261-287 | the scan loop leaves the tracked mapping the scan function gives |
| `NatPmp.Server.CleanExpired` | miniupnpd-20090605/natpmp.c:289-307 | a cleanup in place is the cleanup function; it fails just when the deletion does |
| `NatPmp.Server.CleanLoop` | miniupnpd-20090605/miniupnpd.c:1108-1115 | the cleaning loop makes at most one call more than there are NAT-PMP mappings, none exactly when nothing is due, and adds none; afterwards no deadline has passed if and only if the tracked deadline was not 0 or none had passed before; only expired mappings are gone if and only if none was due or what the tracked key held had expired |
| `NatPmp.ZeroStops` | miniupnpd-20090605/miniupnpd.c:1108-1115 | once the tracked deadline is 0, it stays so and no cleanup happens in any further run of the daemon |
| `NatPmp.ZeroDeadlineStays` | miniupnpd-20090605/natpmp.c:224-238 | the longest lifetime asked for one second after startup gives the deadline 0, which has passed at every time, and after which nothing is cleaned up in any run |
| `IptablesXml.PartReads` | iptables-1.3.8/iptables-xml.c:364-520 | from any word on and with any inner tags open, the printed inner tags close everything they open |
| `IptablesXml.RulePartReads` | iptables-1.3.8/iptables-xml.c:364-520 | the tags of a rule part leave the open tags as they were |
| `IptablesXml.ConditionsNeverCrash` | iptables-1.3.8/iptables-xml.c:364-520 | the conditions of every rule are printed: a null tag name is met only among the actions |
| `IptablesXml.CloseChainSound` | iptables-1.3.8/iptables-xml.c:226-242 | closing the chain closes the actions and rule first and leaves the flags telling the open tags |
| `IptablesXml.OpenChainSound` | iptables-1.3.8/iptables-xml.c:244-263 | opening a chain closes the one before it and keeps the flags right |
| `IptablesXml.NeedFromSound` | iptables-1.3.8/iptables-xml.c:279-296 | opening the chain a rule needs keeps the flags right |
| `IptablesXml.FinishFromSound` | iptables-1.3.8/iptables-xml.c:314-327 | printing the chains not yet shown keeps the flags right |
| `IptablesXml.CloseTableSound` | iptables-1.3.8/iptables-xml.c:329-337 | closing a table leaves only the root open |
| `IptablesXml.OpenTableSound` | iptables-1.3.8/iptables-xml.c:339-350 | opening a table closes the one before it |
| `IptablesXml.StartRuleSound` | iptables-1.3.8/iptables-xml.c:558-604 | starting a rule closes the previous one and prints balanced conditions |
| `IptablesXml.DoRuleSound` | iptables-1.3.8/iptables-xml.c:558-604 | a rule, combined or not, keeps the flags telling the open tags |
| `IptablesXml.StepSound` | iptables-1.3.8/iptables-xml.c:654-848 | every accepted line keeps the flags telling the open tags, unless it prints a rule with no chain open |
| `IptablesXml.BalancedExactly` | iptables-1.3.8/iptables-xml.c:654-856 | for every accepted input the output is balanced if and only if no rule is printed while no chain is open |
| `IptablesXml.ProperExactly` | iptables-1.3.8/iptables-xml.c:654-856 | and every tag also stands under its proper parent if and only if, besides, no rule is combined with one already closed |
| `IptablesXml.OrphanIsReached` | iptables-1.3.8/iptables-xml.c:654-856 | for every table and chain name that fits, a rule for an undeclared chain right behind the table line is accepted and the output is not balanced |
| `IptablesXml.StrayIsReached` | iptables-1.3.8/iptables-xml.c:654-856 | for any two tables and a chain that fits, combining a rule with the last rule of the table before is accepted, and the output is balanced but not properly nested |
| `IptablesXml.DeclaredIsBalanced` | iptables-1.3.8/iptables-xml.c:654-856 | an accepted input whose rules name declared chains gives a balanced output, with or without combining |
| `IptablesXml.DeclaredIsProper` | iptables-1.3.8/iptables-xml.c:654-856 | without combining it is also properly nested |
| `IptablesXmlConverter.Converter.CloseChain` | iptables-1.3.8/iptables-xml.c:226-242 | closing the chain in place is the document function |
| `IptablesXmlConverter.Converter.OpenChain` | iptables-1.3.8/iptables-xml.c:244-263 | opening a chain in place is the document function |
| `IptablesXmlConverter.Converter.NeedChain` | iptables-1.3.8/iptables-xml.c:279-296 | the loop over the saved chains opens the one needed, as the document function does |
| `IptablesXmlConverter.Converter.FinishChains` | iptables-1.3.8/iptables-xml.c:314-327 | the loop prints the chains not yet shown, as the document function does |
| `IptablesXmlConverter.Converter.CloseTable` | iptables-1.3.8/iptables-xml.c:329-337 | closing a table in place is the document function |
| `IptablesXmlConverter.Converter.OpenTable` | iptables-1.3.8/iptables-xml.c:339-350 | opening a table in place is the document function |
| `IptablesXmlConverter.Converter.CompareRules` | iptables-1.3.8/iptables-xml.c:522-555 | the two index loops find whether the conditions equal the previous ones |
| `IptablesXmlConverter.Converter.ExistsChain` | iptables-1.3.8/iptables-xml.c:265-277 | the search finds whether a chain of the name is saved |
| `IptablesXmlConverter.Converter.CloseLevels` | iptables-1.3.8/iptables-xml.c:514-517 | the inner tags are closed innermost first |
| `IptablesXmlConverter.Converter.DoUnit` | iptables-1.3.8/iptables-xml.c:451-478 | a match or target word emits its tags |
| `IptablesXmlConverter.Converter.DoArg` | iptables-1.3.8/iptables-xml.c:410-513 | one word handled in place emits the tokens of the part function and moves on as it does |
| `IptablesXmlConverter.Converter.DoRulePart` | iptables-1.3.8/iptables-xml.c:364-520 | the word loop emits exactly the tokens of the rule part, or stops at the same null tag name |
| `IptablesXmlConverter.Converter.StartRule` | iptables-1.3.8/iptables-xml.c:558-595 | opening a rule in place is the document function |
| `IptablesXmlConverter.Converter.DoRule` | iptables-1.3.8/iptables-xml.c:558-604 | a rule printed in place, combined or not, is the document function |
| `IptablesXmlConverter.Converter.ProcessLine` | iptables-1.3.8/iptables-xml.c:674-842 | what is done in place with a line, once its kind and words are known, gives the step function, and the line is refused just when it is |
| `IptablesXmlText.SplitRule` | iptables-1.3.8/iptables-xml.c:770-830 | the loop over the characters of a rule line, overwriting quotes, gives the arguments, their quote flags and the refusals of the splitting function |
| `IptablesXmlText.SplitsAlike` | iptables-1.3.8/iptables-xml.c:770-830 | for every line the words are those the IPv6 restore program splits it into |
| `IptablesXmlText.ParseLine` | iptables-1.3.8/iptables-xml.c:661-830 | for every text the line read from the buffer is the one the parsing function gives: its kind, the words of a table or chain line, the counters cut off a rule |
| `IptablesXmlText.ParseGood` | iptables-1.3.8/iptables-xml.c:678-721 | whatever the text, names of tables and chains are not empty |
| `IptablesXmlText.FileExactly` | iptables-1.3.8/iptables-xml.c:651-856 | for every file that is converted, the output is balanced, or properly nested, if and only if its lines are orderly |
| `IptablesXmlText.ConvertFile` | iptables-1.3.8/iptables-xml.c:651-856 | the main loop over the lines of a file gives the conversion function: an output, a refusal, an overrun or a null pointer read |
| `IptablesXmlSaved.ShiftedExactly` | iptables-1.3.8/iptables-xml.c:784-793 | a quoted text whose quotes are escaped is the same word after the start was moved on once for each of them, if and only if it holds no quote, or one with only backslashes before it |
| `IptablesXmlSaved.RuleBack` | iptables-1.3.8/iptables-xml.c:734-830 | a printed rule, with or without counters, is read back with its arguments and quotes if and only if no quoted argument is empty, ends with a backslash, or holds quotes other than a single one behind backslashes only |
| `IptablesXmlSaved.InnerQuoteLost` | iptables-1.3.8/iptables-xml.c:784-793 | every quoted text with one quote behind other characters loses the first of them and keeps the backslash |
| `IptablesXmlSaved.EmptyQuotesLeak` | iptables-1.3.8/iptables-xml.c:784-827 | quotes around nothing are dropped and make the next argument a quoted one |
| `IptablesXmlSaved.TableBack` | iptables-1.3.8/iptables-xml.c:678-691 | a printed table line gives back its name |
| `IptablesXmlSaved.ChainBack` | iptables-1.3.8/iptables-xml.c:692-721 | a printed chain line gives back its name, whatever the policy and counters |
| `IptablesXmlSaved.FileRead` | iptables-1.3.8/iptables-save.c:268-314 | a saved file is read as exactly the tables, chains, rules and remarks it was printed from |
| `IptablesXmlSaved.NoCrash` | iptables-1.3.8/iptables-xml.c:410-450 | the actions of a rule read a null pointer only if its last argument is an unquoted target word |
| `IptablesXmlSaved.SavedFileConverts` | iptables-1.3.8/iptables-save.c:268-314 | every saved file whose rules name declared chains, come back as they are and lack no target is converted, to a balanced output, and without combining to a properly nested one |
| `Gif.PackedBits` | captcha/libcaptcha.c:46-52 | for every four pixel values the five bytes hold a clear code and the pixel code, four times over |
| `Gif.DataDecode` | captcha/libcaptcha.c:42-59 | from any decoder state with five-bit codes, packed pixels decode to their high four bits, then the end code is met |
| `Gif.RowsRead` | captcha/libcaptcha.c:42-59 | reading the data sub-blocks gives the packed pixels and the end code, with nothing lost at the row boundaries |
| `Gif.FileRead` | captcha/libcaptcha.c:16-60 | for every image, a GIF89a reader with a growing LZW dictionary reads back the size, the grey table and each pixel's high four bits |
| `Gif.Shown` | captcha/libcaptcha.c:20-37 | each pixel is shown at its own level without the low four bits, the brightest as white |
| `Gif.WriteGroup` | captcha/libcaptcha.c:48-52 | the five assignments write the packing of four pixels |
| `Gif.WriteRow` | captcha/libcaptcha.c:42-59 | the inner loop writes the length and the packed row |
| `Gif.WriteRows` | captcha/libcaptcha.c:42-59 | the outer loop writes all rows one after the other |
| `Gif.MakeGif` | captcha/libcaptcha.c:16-60 | the written array is the whole file, which fills exactly its size |
| `Queue.LinkAfter` | miniupnpc-1.6/bsdqueue.h:205-225 | relinking behind an element or the head turns a well-linked chain into the longer one, for lists and tail queues; the last slot follows |
| `Queue.LinkBefore` | miniupnpc-1.6/bsdqueue.h:213-218 | relinking before an element, without the head, does the same |
| `Queue.LinkTail` | miniupnpc-1.6/bsdqueue.h:367-372 | relinking through the last slot appends to the chain |
| `Queue.Unlink` | miniupnpc-1.6/bsdqueue.h:227-234 | unlinking an element leaves the chain without it well linked; the last slot follows |
| `Queue.LinkInstead` | miniupnpc-1.6/bsdqueue.h:236-244 | relinking puts the new element in the place of the old one; the last slot follows |
| `Queue.InsertedChain` | miniupnpc-1.6/bsdqueue.h:205-225 | relinking the neighbours of a new element as the insertions do makes the longer list well linked |
| `Queue.RemovedChain` | miniupnpc-1.6/bsdqueue.h:227-234 | relinking the neighbours of a removed element makes the shorter list well linked |
| `Queue.ReplacedChain` | miniupnpc-1.6/bsdqueue.h:236-244 | relinking the neighbours of a replaced element keeps the list well linked |
| `Queue.List.constructor` | miniupnpc-1.6/bsdqueue.h:201-203 | the list is empty and well linked |
| `Queue.List.InsertHead` | miniupnpc-1.6/bsdqueue.h:220-225 | the heap then represents the sequence with the element in front, every back-link naming the slot that points at its element |
| `Queue.List.InsertAfter` | miniupnpc-1.6/bsdqueue.h:205-211 | the element is inserted behind the given one |
| `Queue.List.InsertBefore` | miniupnpc-1.6/bsdqueue.h:213-218 | the element is inserted before the given one, without the head |
| `Queue.List.Remove` | miniupnpc-1.6/bsdqueue.h:227-234 | the element is removed from the sequence |
| `Queue.List.Replace` | miniupnpc-1.6/bsdqueue.h:236-244 | the element is replaced in the sequence |
| `Queue.List.Forward` | miniupnpc-1.6/bsdqueue.h:193-196 | the walk visits exactly the elements in order |
| `Queue.TailQueue.constructor` | miniupnpc-1.6/bsdqueue.h:352-355 | the queue is empty, its last slot being its first |
| `Queue.TailQueue.InsertHead` | miniupnpc-1.6/bsdqueue.h:357-365 | the element is put in front, the last slot kept right |
| `Queue.TailQueue.InsertTail` | miniupnpc-1.6/bsdqueue.h:367-372 | the element is put at the end through the last slot |
| `Queue.TailQueue.InsertAfter` | miniupnpc-1.6/bsdqueue.h:374-382 | the element is inserted behind the given one, the last slot kept right |
| `Queue.TailQueue.InsertBefore` | miniupnpc-1.6/bsdqueue.h:384-389 | the element is inserted before the given one |
| `Queue.TailQueue.Remove` | miniupnpc-1.6/bsdqueue.h:391-400 | the element is removed, the last slot kept right |
| `Queue.TailQueue.Replace` | miniupnpc-1.6/bsdqueue.h:402-412 | the element is replaced, the last slot kept right |
| `Queue.TailQueue.Forward` | miniupnpc-1.6/bsdqueue.h:339-342 | the walk visits exactly the elements in order |
| `Queue.TailQueue.Before` | miniupnpc-1.6/bsdqueue.h:331-335 | reading a slot as a head gives the last element and each previous one, and nothing before the first |
| `Queue.TailQueue.Backward` | miniupnpc-1.6/bsdqueue.h:344-347 | the reverse walk visits the elements in reverse order |
| `Queue.TailRun` | miniupnpc-1.6/bsdqueue.h:328-412 | after every run of operations the queue holds the sequence the same pure operations make, and both walks agree with it |
| `Queue.ListRun` | miniupnpc-1.6/bsdqueue.h:201-244 | the same for lists |
| `Queue.InsertAndRemove` | miniupnpc-1.6/bsdqueue.h:357-400 | in the queue itself, inserting an element anywhere and removing it leaves every link of the head and of the elements as it was |
| `Tokenizer.Tokenize` | iptables-1.3.8/iptables-restore.c:352-419 | the buffered loop, overwriting quotes in the line, gives the arguments, limits and refusals of the token function |
| `Tokenizer.TokenizeByPointer` | iptables-1.3.8/ip6tables-restore.c:348-399 | the pointer loop gives the arguments and refusals of its token function |
| `Tokenizer.TokenizersAgree` | iptables-1.3.8/ip6tables-restore.c:348-399 | on every line with no over-long argument the two tokenizers agree if and only if in every finished argument either no quote is escaped and its quote, if any, opens in front, or just one is escaped and only backslashes are kept before it, at most one of them before the opening quote |
| `Tokenizer.SpecialMisread` | iptables-1.3.8/iptables-restore.c:352-419 | printed as it is at the end of a line, a text with a blank or a double quote gives a shorter first word, or none |
| `Tokenizer.LateQuoteDiffers` | iptables-1.3.8/ip6tables-restore.c:353-366 | a line on which they differ |
| `Tokenizer.EscapedRun` | iptables-1.3.8/iptables-restore.c:352-419 | inside a quote the escaped text is read back character by character |
| `Tokenizer.RoundTrip` | iptables-1.3.8/iptables-restore.c:352-419 | quoted and split again, a list of non-empty arguments within the size limit comes back if and only if no argument that needs quotes ends in a backslash |
| `Tokenizer.ArgumentsBack` | iptables-1.3.8/iptables-restore.c:85-93 | within the argument limit, and with no table option, the list handed on is the fixed arguments and then those of the line |
| `SaveRestore.NumberRead` | iptables-1.3.8/iptables.c:996-1038 | every printed number is read back, whatever base its first digit suggests |
| `SaveRestore.DotsRead` | iptables-1.3.8/iptables.c:286-333 | every printed address or mask is read back byte by byte |
| `SaveRestore.AddressRead` | iptables-1.3.8/iptables.c:671-732 | for every address and mask, contiguous or not, parsing the printed text gives the masked address and the mask |
| `SaveRestore.AnywhereRead` | iptables-1.3.8/iptables.c:671-732 | the default for an omitted address is no address and no mask |
| `SaveRestore.AddressRestored` | iptables-1.3.8/iptables-save.c:142-156 | a saved address, split by the tokenizer and parsed, is restored inside its mask with its inversion, or as the default when it was omitted |
| `SaveRestore.AddressKept` | iptables-1.3.8/iptables-save.c:142-156 | so the field is kept if and only if the address lies inside its mask |
| `SaveRestore.NameBack` | iptables-1.3.8/iptables-save.c:40-64 | the name printed from a parsed interface is the name given, exact or wildcard |
| `SaveRestore.InterfaceKept` | iptables-1.3.8/iptables-save.c:40-64 | a saved interface is restored to the same bytes and mask if and only if its name holds no blank or double quote, is not a lone plus sign, and its inversion can be told |
| `SaveRestore.SpecialNameLost` | iptables-1.3.8/iptables-save.c:40-64 | every name with a blank or a double quote is restored to something else |
| `SaveRestore.FinishDotted` | iptables-1.3.8/iptables.c:299-333 | the last byte is stored and the missing ones of an address are zero |
| `SaveRestore.ReadDotted` | iptables-1.3.8/iptables.c:286-333 | the loop fills the four bytes as the address function says, or fails when it does |
| `SaveRestore.ReadInterface` | iptables-1.3.8/iptables.c:864-899 | the name and mask arrays are filled as the interface function says; a long name is refused |
| `SaveRestore.PrintName` | iptables-1.3.8/iptables-save.c:50-61 | the loop over the mask prints the name the function gives |
| `Ssdp.ScanReply` | miniupnpc-1.6/miniupnpc.c:248-301 | the index loop gives the scan function of the reply |
| `Ssdp.LinesScan` | miniupnpc-1.6/miniupnpc.c:248-301 | for every list of header lines, the scan takes from each its value without leading blanks, if its name starts as wanted |
| `Ssdp.LocationParsed` | miniupnpc-1.6/miniwget.c:428-492 | parsing a printed address gives back its host, port and path |
| `Ssdp.PortDigits` | miniupnpc-1.6/miniwget.c:479-488 | the digit loop, in sixteen-bit arithmetic, gives the port function |
| `Ssdp.ReadUrl` | miniupnpc-1.6/miniwget.c:428-492 | the parser gives the address function, with the bracket form, the default port and the failures |
| `Ssdp.EndToEnd` | miniupnpd-20090605/minissdp.c:203-234 | from the reply the client takes an address that parses to the server's host, port and path, and the search target if and only if it has no leading blank |
| `LengthCode.MacroCode` | miniupnpc-1.6/codelength.h:17-21 | for every 32-bit number the macro writes its groups of seven bits, highest first, and no more |
| `LengthCode.LengthRead` | miniupnpc-1.6/codelength.h:13-15 | for every 32-bit number decoding its code gives it back and reads just the bytes written, whatever follows |
| `LengthCode.ListedReversed` | miniupnpc-1.6/minissdpc.c:112-114 | the list built from the front holds the records in reverse order |
| `LengthCode.RecordRead` | miniupnpc-1.6/minissdpc.c:102-127 | a record in the buffer is read whole, or the loop stops, just when its search target ends too near the end of the buffer |
| `LengthCode.MessageRead` | miniupnpc-1.6/minissdpc.c:99-128 | a message decodes to its (url, search target) pairs, last first, if and only if every search target ends more than two bytes before the end of the buffer |
| `LengthCode.WriteLength` | miniupnpc-1.6/codelength.h:17-21 | the macro appends the code of the length |
| `LengthCode.ReadLength` | miniupnpc-1.6/codelength.h:13-15 | the do-while loop gives the decoding function |
| `LengthCode.ReadOne` | miniupnpc-1.6/minissdpc.c:102-127 | one round of the loop gives the record function |
| `LengthCode.ReadDevices` | miniupnpc-1.6/minissdpc.c:99-128 | the loop gives the device list of the message function |
| `Registration.Find` | iptables-1.3.8/iptables.c:733-755 | the search gives the first entry of the name, or the length when there is none |
| `Registration.RegisterKeeps` | iptables-1.3.8/iptables.c:1196-1305 | whatever is registered, a name looked up as itself keeps one entry, the newest usable revision or the first when none is usable, if and only if no target called like a verdict takes that entry's place |
| `Registration.RunKeepsExactly` | iptables-1.3.8/iptables.c:1196-1305 | over every accepted run that holds throughout if and only if no step takes such a place |
| `Registration.StandardIsDisplaced` | iptables-1.3.8/iptables.c:1252-1305 | every usable newer target called like a verdict pushes an older "standard" out |
| `Registration.RunKeeps` | iptables-1.3.8/iptables.c:1196-1305 | after any accepted run the list holds just that for every name under which nothing else is looked up |
| `Registration.OrdinaryKeeps` | iptables-1.3.8/iptables.c:1196-1305 | so it does for every match, and for every target but "standard" and those called like a verdict, whatever else is registered |
| `Registration.Accepted` | iptables-1.3.8/iptables.c:1196-1305 | sound revisions are accepted in any order, matches and targets of any name, when none has the revision of an earlier one that is looked up for it |
| `Registration.OrderIndependent` | iptables-1.3.8/iptables.c:1196-1305 | two orders of the same revisions leave the same entry under every name with a usable revision under which nothing else is looked up |
| `Registration.OnePerNameExactly` | iptables-1.3.8/iptables.c:1252-1305 | after any accepted run each name is listed once if and only if no target called like a verdict was added beside another of its name |
| `Registration.ReservedPileUp` | iptables-1.3.8/iptables.c:1252-1305 | two revisions of a target called like a verdict are both listed |
| `Registration.Registry.RegisterMatch` | iptables-1.3.8/iptables.c:1196-1249 | the match list after registering in place is that of the registration function, the new one at the end |
| `Registration.Registry.RegisterTarget` | iptables-1.3.8/iptables.c:1252-1305 | the target list after registering in place is that of the registration function, the new one in front |

## Left out

- Sockets, poll, time, random numbers and DNS: reads, clocks, random streams and lookups are parameters or results.
- Registration.RunKeeps: for a target called like a verdict, and for "standard" beside such targets, it does not hold;
  `OnePerNameExactly`, `ReservedPileUp` and `StandardIsDisplaced` say what happens to them.
- ChunkedBody.ChunkedRoundTrip: chunk sizes of 2^31 and more are outside its domain, because the copy length is
  compared as a signed number.
- Tokenizer.TokenizersAgree: a line with an over-long argument is outside its domain, because the IPv4 program refuses it.
- HttpHeader.SkipEols: stops at the end of the bytes received, where the source goes on over line breaks that happen to
  lie behind them; the header loop ends there in both cases.
- Registration.OrderIndependent: says nothing of names without a usable revision, for which the first one registered stays.
- Ssdp.EndToEnd: is about the text formatted; a reply that does not fit its 512-byte buffer is not followed further.
- NatPmp.RunFromScanSafe: no mapping on external port 0 is made, because 0 means that nothing is tracked; for runs with
  such mappings `RunFromScanExactly` gives the exact condition.
- XmlParser.Parser.ParseValue: stops at the end of the text, as in `<a b=`, where the source reads one byte behind it
  before it looks for the end.
- LengthCode.ReadOne: positions do not wrap; in the source a size near 2^32 can wrap the pointer it is added to.
- Soap.BuildBody: is given a list of arguments, possibly empty; without one, the source formats the whole envelope with a
  single bounded call.
- SaveRestore.ReadInterface: the two arrays are different objects, as the parser's caller has them.
- Unquoted XML attribute values and the older copy of minixml: the scanner's treatment of them is modelled, nothing is
  promised about it.
- Text of XML attributes, comments and counters printed by iptables-xml: only the tags matter to nesting.
- IptablesXmlConverter.Converter.ProcessLine: is handed the kind and the words of a line; `IptablesXmlText.ParseLine` finds
  them in the text.
- `getopt_long` driving of the rule parser, extension plugins, IPv6 masks, protocols and fragments of a rule: option
  plumbing over libraries, or easy members.
- The counters in front of a rule line, and the table and chain lines, of the two restore programs: their tokenizers are
  followed from where they start.
- De-duplication of several resolved addresses in `parse_hostnetworkmask`: only a single dotted address is followed.
- `atoi` and `strtol` overflow in header fields and deadlines beyond the modelled widths.
- SLIST, SIMPLEQ and CIRCLEQ macros, captcha drawing, the `upnpc` command line and the Python bindings: easy members or
  outside the hard core.
- Memory exhaustion: every allocation succeeds.
