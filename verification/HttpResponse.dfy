/**
 The whole of `getHTTPResponse` over a list of reads, and the test server that
 writes the responses it is tried on: both ends of the round trip.
 */
module HttpResponse {
  import opened Sequences
  import opened Text
  import opened ChunkedBody
  import opened HttpHeader

  /** `Undefined`: a chunk size of 2^31 or more was announced. */
  datatype Response = Content(content: string) | Undefined

  /** One read's worth of body. */
  function BodyStep(f: Fields, m: Reader, piece: string): Reader {
    if f.chunked then Forget(Run(m, piece))
    else m.(content := m.content + piece[..Wanted(f, |m.content|, |piece|)])
  }

  /** How many of `n` further bytes are kept when `used` are there already. */
  function Wanted(f: Fields, used: nat, n: nat): (k: nat)
    ensures k <= n
  {
    if f.contentLength > 0 && used + n > f.contentLength then
      if used <= f.contentLength then f.contentLength - used else 0
    else n
  }

  predicate Full(f: Fields, content: string) {
    f.contentLength > 0 && |content| >= f.contentLength
  }

  function BodyFrom(f: Fields, m: Reader, pieces: seq<string>): Response
    decreases |pieces|
  {
    if pieces == [] then Content(m.content)
    else
      var m' := BodyStep(f, m, pieces[0]);
      match m'.status
      case Unspecified => Undefined
      case Ended => Content(m'.content)
      case Open => if Full(f, m'.content) then Content(m'.content) else BodyFrom(f, m', pieces[1..])
  }

  /** The response once the headers, received as `h[..e]`, are complete. */
  function Respond(h: string, e: nat, rest: seq<string>): Response
    requires e <= |h|
  {
    BodyFrom(HeaderFields(h, e), Fresh, [h[e..]] + rest)
  }

  /** The response read from `pieces` when `header` holds earlier bytes without an end of headers. */
  function ResponseFrom(header: string, pieces: seq<string>): Response
    decreases |pieces|
  {
    if pieces == [] then Content("")
    else
      var h := header + pieces[0];
      var e := HeaderEnd(h);
      if e == 0 then ResponseFrom(h, pieces[1..])
      else Respond(h, e, pieces[1..])
  }

  /** One read's worth of body, with the buffer bookkeeping of the source. */
  method ReadBody(f: Fields, left0: nat, digits0: string, content0: string, piece: string)
    returns (left: nat, digits: string, content: string, status: Status)
    requires Valid(Reader(Start, left0, digits0, content0, Open))
    requires !f.chunked && f.contentLength > 0 ==> |content0| <= f.contentLength
    ensures Valid(Reader(Start, left, digits, content, status))
    ensures Reader(Start, left, digits, content, status)
         == BodyStep(f, Reader(Start, left0, digits0, content0, Open), piece)
  {
    if f.chunked {
      left, digits, content, status := FeedChunked(left0, digits0, content0, piece);
    } else {
      left, digits, status := left0, digits0, Open;
      var n := |piece|;
      if f.contentLength > 0 && |content0| + n > f.contentLength {
        n := f.contentLength - |content0|;
      }
      content := content0 + piece[..n];
    }
  }

  lemma BodyNext(f: Fields, m: Reader, piece: string, rest: seq<string>, m': Reader)
    requires m' == BodyStep(f, m, piece)
    ensures
      BodyFrom(f, m, [piece] + rest)
      == if m'.status == Unspecified then Undefined
         else if m'.status == Ended || Full(f, m'.content) then Content(m'.content)
         else BodyFrom(f, m', rest)
  {
    assert ([piece] + rest)[1..] == rest;
  }

  lemma HeaderNext(header: string, piece: string, rest: seq<string>)
    ensures
      var h := header + piece;
      ResponseFrom(header, [piece] + rest)
      == if HeaderEnd(h) == 0 then ResponseFrom(h, rest)
         else BodyFrom(HeaderFields(h, HeaderEnd(h)), Fresh, [h[HeaderEnd(h)..]] + rest)
  {
    assert ([piece] + rest)[1..] == rest;
  }

  lemma NoMore(f: Fields, m: Reader)
    ensures BodyFrom(f, m, []) == Content(m.content)
  {
  }

  /** One read while the headers are not complete; once they are, what is left of it belongs to the body. */
  method ReadHeader(header0: string, piece0: string, ghost rest: seq<string>)
    returns (header: string, e: nat, f: Fields, piece: string)
    ensures
      ResponseFrom(header0, [piece0] + rest)
      == if e == 0 then ResponseFrom(header, rest) else BodyFrom(f, Fresh, [piece] + rest)
    ensures e == 0 ==> f == NoFields
  {
    HeaderNext(header0, piece0, rest);
    header := header0 + piece0;
    e := ScanHeaderEnd(header);
    f, piece := NoFields, "";
    if e != 0 {
      f := ParseFields(header, e);
      piece := header[e..];
    }
  }

  /** `getHTTPResponse`: `defined` is false when a chunk size left the copy undefined. */
  method GetHttpResponse(pieces: seq<string>) returns (content: string, defined: bool)
    ensures (if defined then Content(content) else Undefined) == ResponseFrom("", pieces)
  {
    var header := "";
    var e := 0;
    var f := NoFields;
    var left: nat, digits, status := 0, "", Open;
    content, defined := "", true;
    var k := 0;
    ghost var target := ResponseFrom("", pieces);
    assert pieces[0..] == pieces;
    while k < |pieces|
      invariant 0 <= k <= |pieces|
      invariant Valid(Reader(Start, left, digits, content, Open))
      invariant e == 0 ==> content == "" && left == 0 && digits == "" && f == NoFields
      invariant e == 0 ==> ResponseFrom(header, pieces[k..]) == target
      invariant e != 0 ==> BodyFrom(f, Reader(Start, left, digits, content, Open), pieces[k..]) == target
      invariant !Full(f, content)
    {
      var piece := pieces[k];
      ghost var m: Reader := Reader(Start, left, digits, content, Open);
      assert pieces[k..] == [piece] + pieces[k + 1..];
      k := k + 1;
      if e == 0 {
        header, e, f, piece := ReadHeader(header, piece, pieces[k..]);
        if e == 0 {
          continue;
        }
      }
      left, digits, content, status := ReadBody(f, left, digits, content, piece);
      BodyNext(f, m, piece, pieces[k..], Reader(Start, left, digits, content, status));
      if status == Ended {
        return content, true;
      }
      if status == Unspecified {
        return content, false;
      }
      if f.contentLength > 0 && |content| >= f.contentLength {
        return content, true;
      }
    }
    NoMore(f, Reader(Start, left, digits, content, Open));
  }

  // ----- how the stream is split does not matter

  /** The piece that completes the headers. */
  lemma {:induction false} HeaderPiece(header: string, pieces: seq<string>) returns (j: nat, received: string)
    requires HeaderEnd(header) == 0 && HeaderEnd(header + Flatten(pieces)) > 0
    ensures j < |pieces| && received == header + Flatten(pieces[..j + 1])
    ensures HeaderEnd(header + Flatten(pieces[..j])) == 0 && HeaderEnd(received) > 0
    ensures ResponseFrom(header, pieces) == Respond(received, HeaderEnd(received), pieces[j + 1..])
    decreases |pieces|
  {
    assert pieces == [] ==> header + Flatten(pieces) == header;
    if pieces != [] {
      var h := header + pieces[0];
      assert header + Flatten(pieces) == h + Flatten(pieces[1..]);
      if HeaderEnd(h) == 0 {
        var j';
        j', received := HeaderPiece(h, pieces[1..]);
        j := j' + 1;
        FlattenFront(header, pieces, j);
        FlattenFront(header, pieces, j + 1);
      } else {
        j, received := 0, h;
        assert pieces[..1] == [pieces[0]] && pieces[..0] == [];
        assert Flatten([pieces[0]]) == pieces[0] + Flatten<char>([]);
        assert header + Flatten<char>([]) == header;
      }
    }
  }

  lemma SameEnd(before: string, piece: string, rest: string)
    requires HeaderEnd(before) == 0 && HeaderEnd(before + piece) > 0
    ensures
      var received := before + piece;
      var e := HeaderEnd(received + rest);
      HeaderEnd(received) == e && |before| < e
  {
    var received := before + piece;
    var s := received + rest;
    assert s[..|received|] == received && s[..|before|] == before;
    HeaderEndPrefix(s, |received|);
    HeaderEndPrefix(s, |before|);
  }

  /**
   The headers end at the same byte however the stream is split; the bytes left
   over from the read that completes them are fewer than that read brought, so
   they fit back into its buffer, and the body goes on with the later reads.
   */
  lemma HeaderSplit(header: string, pieces: seq<string>) returns (j: nat, received: string)
    requires HeaderEnd(header) == 0 && HeaderEnd(header + Flatten(pieces)) > 0
    ensures
      var s := header + Flatten(pieces);
      var e := HeaderEnd(s);
      && j < |pieces| && e <= |received| && received <= s
      && HeaderEnd(received) == e
      && |received[e..]| < |pieces[j]|
      && received[e..] + Flatten(pieces[j + 1..]) == s[e..]
      && ResponseFrom(header, pieces) == Respond(received, e, pieces[j + 1..])
  {
    j, received := HeaderPiece(header, pieces);
    var before, rest := Flatten(pieces[..j]), Flatten(pieces[j + 1..]);
    AroundPiece(pieces, j);
    Regroup(header, before, pieces[j]);
    Regroup(header, Flatten(pieces[..j + 1]), rest);
    SameEnd(header + before, pieces[j], rest);
    DropSum(received, rest, HeaderEnd(received));
  }

  lemma DropSum(a: string, b: string, k: nat)
    requires k <= |a|
    ensures a[k..] + b == (a + b)[k..] && a <= a + b
  {
  }

  /**
   No read leaves at least the announced length, but not yet all of the data,
   of a chunked body: the length is looked at between reads, chunked or not.
   */
  predicate CutsNothing(f: Fields, m: Reader, pieces: seq<string>, data: string)
    decreases |pieces|
  {
    pieces == [] ||
    var m' := Forget(Run(m, pieces[0]));
    m'.status != Open || ((Full(f, m'.content) ==> m'.content == data) && CutsNothing(f, m', pieces[1..], data))
  }

  lemma {:induction false} RunGrows(m: Reader, s: string)
    ensures m.content <= Run(m, s).content
    decreases |s|
  {
    if s != "" {
      RunGrows(Step(m, s[0]), s[1..]);
    }
  }

  lemma {:induction false} FeedGrows(m: Reader, pieces: seq<string>)
    ensures m.content <= FeedAll(m, pieces).content
    decreases |pieces|
  {
    if pieces != [] {
      RunGrows(m, pieces[0]);
      FeedGrows(Forget(Run(m, pieces[0])), pieces[1..]);
    }
  }

  lemma {:induction false} NothingLeft(f: Fields, m: Reader, pieces: seq<string>, data: string)
    requires m.content == data == FeedAll(m, pieces).content
    ensures CutsNothing(f, m, pieces, data)
    decreases |pieces|
  {
    if pieces != [] {
      var m' := Forget(Run(m, pieces[0]));
      RunGrows(m, pieces[0]);
      FeedGrows(m', pieces[1..]);
      NothingLeft(f, m', pieces[1..], data);
    }
  }

  /**
   A chunked body that the reader ends is the response, if and only if no
   announced length stops the reader between two reads before the data is whole.
   */
  lemma {:induction false} BodyFromChunked(f: Fields, m: Reader, pieces: seq<string>)
    requires f.chunked && m.status == Open && FeedAll(m, pieces).status == Ended
    ensures
      var data := FeedAll(m, pieces).content;
      BodyFrom(f, m, pieces) == Content(data) <==> CutsNothing(f, m, pieces, data)
    decreases |pieces|
  {
    if pieces != [] {
      var m' := Forget(Run(m, pieces[0]));
      var data := FeedAll(m, pieces).content;
      if m'.status != Open {
        FeedStopped(m', pieces[1..]);
      } else if Full(f, m'.content) {
        if m'.content == data {
          NothingLeft(f, m', pieces[1..], data);
        }
      } else {
        BodyFromChunked(f, m', pieces[1..]);
      }
    }
  }

  /** So it is with no length, and with one that is not smaller than the data. */
  lemma {:induction false} LongEnough(f: Fields, m: Reader, pieces: seq<string>)
    requires f.contentLength <= 0 || f.contentLength >= |FeedAll(m, pieces).content|
    ensures CutsNothing(f, m, pieces, FeedAll(m, pieces).content)
    decreases |pieces|
  {
    if pieces != [] {
      var m' := Forget(Run(m, pieces[0]));
      FeedGrows(m', pieces[1..]);
      LongEnough(f, m', pieces[1..]);
    }
  }

  /** The reads bring a chunked body, none starting with a hex digit of an extension. */
  ghost predicate Brings(pieces: seq<string>, chunks: seq<Chunk>, zeros: string, ext: string, after: string) {
    && Flatten(pieces) == EncodeBody(chunks, zeros, ext, after)
    && (NoExtensions(chunks, ext) || AvoidsExtensions(Fresh, pieces))
  }

  lemma CutInChunk(m: Reader, content: string, c: Chunk, n: nat)
    requires Between(m, content) && GoodChunk(c) && n <= |c.data|
    ensures
      Run(m, c.size + c.ext + "\r\n" + c.data[..n]) == Reader(Start, |c.data| - n, "", content + c.data[..n], Open)
  {
    var line, data := c.size + c.ext + "\r\n", c.data[..n];
    var known: Reader := Reader(Start, |c.data|, "", content, Open);
    assert Run(m, line) == known by {
      ReadsSizeLine(m, content, c.size, c.ext, true);
    }
    assert Run(known, data) == known.(left := |c.data| - n, content := content + data) by {
      RunData(known, data, n);
      assert data[..n] == data && data[n..] == "";
    }
    RunAppend(m, line, data);
  }

  /** Chunks can be cut in two so that the first part brings any number of bytes of the data. */
  lemma {:induction false} CutAt(m: Reader, content: string, chunks: seq<Chunk>, n: nat)
    returns (first: string, rest: string)
    requires Between(m, content) && 0 < n <= |DataOf(chunks)|
    requires forall k :: 0 <= k < |chunks| ==> GoodChunk(chunks[k])
    ensures first + rest == EncodeChunks(chunks)
    ensures
      var r := Run(m, first);
      r.status == Open && r.phase == Start && r.content == content + DataOf(chunks)[..n]
    decreases |chunks|
  {
    var c, more := chunks[0], chunks[1..];
    if n <= |c.data| {
      first, rest := c.size + c.ext + "\r\n" + c.data[..n], c.data[n..] + "\r\n" + EncodeChunks(more);
      CutInChunk(m, content, c, n);
      assert DataOf(chunks)[..n] == c.data[..n];
      CutJoins(c.size + c.ext + "\r\n", c.data, n, EncodeChunks(more));
    } else {
      var next: Reader := Reader(Size, 0, "", content + c.data, Open);
      var first';
      first', rest := CutAt(next, content + c.data, more, n - |c.data|);
      first := EncodeChunk(c) + first';
      assert Run(m, first) == Run(next, first') by {
        ReadsChunk(m, content, c, true);
        RunAppend(m, EncodeChunk(c), first');
      }
      DataLater(content, c.data, DataOf(more), n);
      Regroup(EncodeChunk(c), first', rest);
    }
  }

  lemma DataLater(content: string, data: string, more: string, n: nat)
    requires |data| < n <= |data| + |more|
    ensures content + data + more[..n - |data|] == content + (data + more)[..n]
  {
    assert (data + more)[..n] == data + more[..n - |data|];
  }

  lemma CutJoins(line: string, data: string, n: nat, more: string)
    requires n <= |data|
    ensures (line + data[..n]) + (data[n..] + "\r\n" + more) == line + data + "\r\n" + more
  {
    assert data[..n] + data[n..] == data;
  }

  /** Every positive length smaller than the data cuts the response off to that length, for some split. */
  lemma ShortLengthCuts(chunks: seq<Chunk>, zeros: string, ext: string, after: string, n: nat) returns (pieces: seq<string>)
    requires GoodBody(chunks, zeros, ext) && 0 < n < |DataOf(chunks)|
    ensures Brings(pieces, chunks, zeros, ext, after)
    ensures BodyFrom(Fields(true, n), Fresh, pieces) == Content(DataOf(chunks)[..n])
  {
    var first, rest := CutAt(Fresh, "", chunks, n);
    var last := zeros + ext + "\r\n" + after;
    pieces := [first, rest + last];
    assert "" + DataOf(chunks)[..n] == DataOf(chunks)[..n];
    TwoReads(first, rest, EncodeChunks(chunks), zeros + ext + "\r\n", after);
    FirstFills(n, first, rest + last);
    assert AvoidsExtensions(Fresh, pieces) by {
      assert pieces[1..] == [rest + last] && [rest + last][1..] == [];
    }
  }

  lemma TwoReads(first: string, rest: string, chunks: string, end: string, after: string)
    requires first + rest == chunks
    ensures Flatten([first, rest + (end + after)]) == chunks + end + after
  {
    var last := rest + (end + after);
    assert [first, last][1..] == [last] && [last][1..] == [];
    assert Flatten([last]) == last + Flatten<char>([]);
    assert last + "" == last;
  }

  lemma FirstFills(n: nat, first: string, second: string)
    requires 0 < n && Run(Fresh, first).status == Open && |Run(Fresh, first).content| == n
    ensures BodyFrom(Fields(true, n), Fresh, [first, second]) == Content(Run(Fresh, first).content)
  {
  }

  /**
   However the reads are cut, a chunked body is the response, if and only if the length announced besides is not
   positive or not smaller than the data.
   */
  lemma LengthExactly(chunks: seq<Chunk>, zeros: string, ext: string, after: string, n: int)
    requires GoodBody(chunks, zeros, ext)
    ensures
      (forall pieces :: Brings(pieces, chunks, zeros, ext, after)
         ==> BodyFrom(Fields(true, n), Fresh, pieces) == Content(DataOf(chunks)))
      <==> n <= 0 || n >= |DataOf(chunks)|
  {
    if n <= 0 || n >= |DataOf(chunks)| {
      forall pieces | Brings(pieces, chunks, zeros, ext, after)
        ensures BodyFrom(Fields(true, n), Fresh, pieces) == Content(DataOf(chunks))
      {
        ChunkedRoundTrip(chunks, zeros, ext, after, pieces);
        LongEnough(Fields(true, n), Fresh, pieces);
        BodyFromChunked(Fields(true, n), Fresh, pieces);
      }
    } else {
      var pieces := ShortLengthCuts(chunks, zeros, ext, after, n);
      assert |DataOf(chunks)[..n]| < |DataOf(chunks)|;
    }
  }

  lemma {:induction false} FeedStopped(m: Reader, pieces: seq<string>)
    requires m.status != Open
    ensures FeedAll(m, pieces) == m
    decreases |pieces|
  {
    if pieces != [] {
      RunStopped(m, pieces[0]);
      FeedStopped(m, pieces[1..]);
    }
  }

  /** The bytes of an unchunked body that are kept: all, or the announced number. */
  function Kept(f: Fields, body: string): string {
    if f.contentLength > 0 && |body| > f.contentLength then body[..f.contentLength] else body
  }

  /** An unchunked body does not depend on how it is split, and what exceeds its length is skipped. */
  lemma {:induction false} BodyFromPlain(f: Fields, m: Reader, pieces: seq<string>)
    requires !f.chunked && m.status == Open && !Full(f, m.content)
    ensures BodyFrom(f, m, pieces) == Content(Kept(f, m.content + Flatten(pieces)))
    decreases |pieces|
  {
    if pieces == [] {
      assert m.content + Flatten<char>([]) == m.content;
    } else {
      var m' := BodyStep(f, m, pieces[0]);
      var whole := m.content + Flatten(pieces);
      if Full(f, m'.content) {
        assert m'.content == Kept(f, whole);
      } else {
        assert m'.content == m.content + pieces[0];
        assert m'.content + Flatten(pieces[1..]) == whole;
        BodyFromPlain(f, m', pieces[1..]);
      }
    }
  }

  // ----- the test server

  const STATUS_LINE: string := "HTTP/1.1 200 OK"
  const SERVER_LINE: string := "Server: minihttptestserver"
  const TYPE_LINE: string := "Content-Type: text/plain"
  const CHUNKED_LINE: string := "Transfer-Encoding: chunked"
  const LENGTH_NAME: string := "Content-Length"

  /** The chunks the server cuts `content` into, for the given stream of random numbers. */
  function ChunksOf(content: string, rand: nat -> nat, k: nat): seq<Chunk>
    decreases |content|
  {
    if content == "" then []
    else
      var n := if rand(k) % 199 + 1 > |content| then |content| else rand(k) % 199 + 1;
      [Chunk(Numeral(n, SIXTEEN), "", content[..n])] + ChunksOf(content[n..], rand, k + 1)
  }

  lemma {:induction false} ChunksOfGood(content: string, rand: nat -> nat, k: nat)
    ensures forall i :: 0 <= i < |ChunksOf(content, rand, k)| ==>
              GoodChunk(ChunksOf(content, rand, k)[i]) && ChunksOf(content, rand, k)[i].ext == ""
    ensures DataOf(ChunksOf(content, rand, k)) == content
    decreases |content|
  {
    if content != "" {
      var n := if rand(k) % 199 + 1 > |content| then |content| else rand(k) % 199 + 1;
      ChunksOfGood(content[n..], rand, k + 1);
      OneGood(content[..n]);
      assert content[..n] + content[n..] == content;
    }
  }

  lemma OneGood(data: string)
    requires 0 < |data| < 256
    ensures GoodChunk(Chunk(Numeral(|data|, SIXTEEN), "", data))
  {
    NumeralValue(|data|, SIXTEEN);
    assert |Numeral(|data|, SIXTEEN)| <= 2;
  }

  const ChunkedHeader: string := HeaderBlock(ChunkedLines, CRLF)

  lemma NextChunk(content: string, rand: nat -> nat, k: nat, n: nat)
    requires content != "" && n == if rand(k) % 199 + 1 > |content| then |content| else rand(k) % 199 + 1
    ensures EncodeChunks(ChunksOf(content, rand, k))
         == Numeral(n, SIXTEEN) + CRLF + content[..n] + CRLF + EncodeChunks(ChunksOf(content[n..], rand, k + 1))
  {
    var c := Chunk(Numeral(n, SIXTEEN), "", content[..n]);
    var cs := ChunksOf(content[n..], rand, k + 1);
    assert ([c] + cs)[1..] == cs;
    assert c.size + c.ext == c.size;
  }

  lemma ChunkWritten(response: string, content: string, rand: nat -> nat, i: nat, k: nat, n: nat, total: string)
    requires i < |content| && n == if rand(k) % 199 + 1 > |content| - i then |content| - i else rand(k) % 199 + 1
    requires response + EncodeChunks(ChunksOf(content[i..], rand, k)) == total
    ensures
      var line := Numeral(n, SIXTEEN) + CRLF + content[i..i + n] + CRLF;
      response + line + EncodeChunks(ChunksOf(content[i + n..], rand, k + 1)) == total
  {
    NextChunk(content[i..], rand, k, n);
    assert content[i..][n..] == content[i + n..] && content[i..][..n] == content[i..i + n];
    var line := Numeral(n, SIXTEEN) + CRLF + content[i..i + n] + CRLF;
    Regroup(response, line, EncodeChunks(ChunksOf(content[i + n..], rand, k + 1)));
  }

  lemma AllWritten(response: string, content: string, rand: nat -> nat, k: nat, header: string, chunks: seq<Chunk>)
    requires response + EncodeChunks(ChunksOf(content[|content|..], rand, k)) == header + EncodeChunks(chunks)
    ensures response + "0\r\n" == header + EncodeBody(chunks, "0", "", "")
  {
    assert content[|content|..] == "" && response + "" == response;
    assert EncodeBody(chunks, "0", "", "") == EncodeChunks(chunks) + "0\r\n";
    Regroup(header, EncodeChunks(chunks), "0\r\n");
  }

  /** With `response` written, the chunks of `content` from `i` on complete it to `total`. */
  ghost predicate Completes(response: string, content: string, rand: nat -> nat, i: nat, k: nat, total: string) {
    i <= |content| && response + EncodeChunks(ChunksOf(content[i..], rand, k)) == total
  }

  /** One round of the chunking loop. */
  method WriteChunk(response: string, content: string, rand: nat -> nat, i: nat, k: nat, ghost total: string)
    returns (response': string, n: nat)
    requires i < |content| && Completes(response, content, rand, i, k, total)
    ensures 0 < n <= |content| - i && Completes(response', content, rand, i + n, k + 1, total)
  {
    n := rand(k) % 199 + 1;
    if i + n > |content| {
      n := |content| - i;
    }
    ChunkWritten(response, content, rand, i, k, n, total);
    response' := response + (Numeral(n, SIXTEEN) + CRLF + content[i..i + n] + CRLF);
  }

  /** The chunking loop, writing after `header`; `k` random numbers are drawn. */
  method WriteChunks(header: string, content: string, rand: nat -> nat, ghost total: string)
    returns (response: string, k: nat)
    requires Completes(header, content, rand, 0, 0, total)
    ensures Completes(response, content, rand, |content|, k, total)
  {
    response, k := header, 0;
    var i: nat := 0;
    while i < |content|
      invariant Completes(response, content, rand, i, k, total)
    {
      var n;
      response, n := WriteChunk(response, content, rand, i, k, total);
      i, k := i + n, k + 1;
    }
  }

  /** The size of the buffer that is allocated for the response. */
  function Capacity(n: nat): nat {
    256 + n + n / 16
  }

  /** What the server writes for `content`. */
  function ChunkedResponse(content: string, rand: nat -> nat): string {
    ChunkedHeader + EncodeBody(ChunksOf(content, rand, 0), "0", "", "")
  }

  /** `Overrun`: the response was written past its buffer. */
  datatype Allocated = Overrun | Response(bytes: string)

  /**
   `build_chunked_response`, with the random numbers given.  The size lines are written only where there is room, but
   the data and the end are not checked: the last bytes are past the buffer exactly when the whole does not fit.
   */
  method BuildChunkedResponse(content: string, rand: nat -> nat) returns (r: Allocated)
    ensures r == if |ChunkedResponse(content, rand)| > Capacity(|content|) then Overrun
                 else Response(ChunkedResponse(content, rand))
  {
    ghost var chunks := ChunksOf(content, rand, 0);
    ghost var total := ChunkedHeader + EncodeChunks(chunks);
    assert Completes(ChunkedHeader, content, rand, 0, 0, total) by { assert content[0..] == content; }
    var response, k := WriteChunks(ChunkedHeader, content, rand, total);
    AllWritten(response, content, rand, k, ChunkedHeader, chunks);
    response := response + "0\r\n";
    r := if |response| > Capacity(|content|) then Overrun else Response(response);
  }

  lemma {:induction false} OneByteChunks(content: string, rand: nat -> nat, k: nat)
    requires forall j: nat :: rand(j) == 0
    ensures |EncodeChunks(ChunksOf(content, rand, k))| == 6 * |content|
    decreases |content|
  {
    if content != "" {
      NextChunk(content, rand, k, 1);
      OneByteChunks(content[1..], rand, k + 1);
      assert |Numeral(1, SIXTEEN)| == 1;
    }
  }

  lemma HeaderLength(header: string)
    requires header == ChunkedHeader
    ensures |header| == 73
  {
    var lines := ChunkedLines;
    assert lines[1..][1..] == [CHUNKED_LINE];
    assert HeaderBlock(lines[1..][1..], CRLF) == CHUNKED_LINE + (CRLF + HeaderBlock([], CRLF));
    assert HeaderBlock(lines[1..], CRLF) == TYPE_LINE + (CRLF + HeaderBlock(lines[1..][1..], CRLF));
    assert HeaderBlock(lines, CRLF) == STATUS_LINE + (CRLF + HeaderBlock(lines[1..], CRLF));
  }

  /** With chunks of one byte, which the random numbers may give, every content of 37 bytes or more overruns. */
  lemma SmallChunksOverrun(content: string, rand: nat -> nat)
    requires forall j: nat :: rand(j) == 0
    ensures |ChunkedResponse(content, rand)| > Capacity(|content|) <==> |content| >= 37
  {
    OneByteChunks(content, rand, 0);
    HeaderLength(ChunkedHeader);
    var chunks := ChunksOf(content, rand, 0);
    assert EncodeBody(chunks, "0", "", "") == EncodeChunks(chunks) + "0\r\n";
  }

  /** How sending ended: all bytes written, a write failed, or more calls to `write` are to come. */
  datatype Sending = Sent | Failed | Unfinished

  /** Each of the calls wrote something. */
  ghost predicate Moving(results: seq<int>) {
    forall k :: 0 <= k < |results| ==> results[k] > 0
  }

  /**
   `send_response`: the response in writes of random length; `results` holds what the calls to `write` return, each
   no more than it was asked to write.  What got through is always a beginning of the response, and all of it
   unless a call failed or wrote nothing.
   */
  method SendResponse(buffer: string, rand: nat -> nat, results: seq<int>) returns (writes: seq<string>, end: Sending)
    ensures Flatten(writes) <= buffer && |writes| <= |results|
    ensures forall k :: 0 <= k < |writes| ==> |writes[k]| <= 99 && |writes[k]| <= results[k]
    ensures end.Sent? <==> Flatten(writes) == buffer
    ensures end.Failed? ==> |writes| < |results| && results[|writes|] < 0
    ensures end.Unfinished? ==> |writes| == |results|
    ensures Moving(results) && |results| >= |buffer| ==> end.Sent?
  {
    writes := [];
    var sent := 0;
    while sent < |buffer| && |writes| < |results|
      invariant 0 <= sent <= |buffer| && |writes| <= |results|
      invariant Flatten(writes) == buffer[..sent]
      invariant forall k :: 0 <= k < |writes| ==> |writes[k]| <= 99 && |writes[k]| <= results[k]
      invariant Moving(results) ==> sent >= |writes|
      decreases |results| - |writes|
    {
      var n := rand(|writes|) % 99 + 1;
      if n > |buffer| - sent {
        n := |buffer| - sent;
      }
      if results[|writes|] < 0 {
        return writes, Failed;
      }
      n := if results[|writes|] < n then results[|writes|] else n;
      FlattenSnoc(writes, buffer[sent..sent + n]);
      writes := writes + [buffer[sent..sent + n]];
      sent := sent + n;
    }
    end := if sent == |buffer| then Sent else Unfinished;
  }

  // ----- what the client makes of the server's headers

  lemma ServerLines()
    ensures IsLine(STATUS_LINE) && IsLine(SERVER_LINE) && IsLine(TYPE_LINE) && IsLine(CHUNKED_LINE)
    ensures forall k :: 0 <= k < |STATUS_LINE| ==> STATUS_LINE[k] != ':'
  {
  }

  /** A line without a colon says nothing. */
  lemma StatusSilent(s: string, i: nat, f: Fields)
    requires i + |STATUS_LINE| <= |s| && s[i..i + |STATUS_LINE|] == STATUS_LINE
    ensures ApplyField(f, FieldOf(s, Line(i, i + |STATUS_LINE|))) == f
  {
    ServerLines();
    FieldNone(s, i, STATUS_LINE);
  }

  lemma TypeSilent(s: string, i: nat, f: Fields)
    requires i + |TYPE_LINE| <= |s| && s[i..i + |TYPE_LINE|] == TYPE_LINE
    ensures ApplyField(f, FieldOf(s, Line(i, i + |TYPE_LINE|))) == f
  {
    assert TYPE_LINE == "Content-Type" + ": " + "text/plain";
    FieldSome(s, i, "Content-Type", "text/plain");
    TypeFieldSilent(f, s[i + 14..]);
  }

  lemma TypeFieldSilent(f: Fields, value: string)
    ensures ApplyField(f, Field("Content-Type", value)) == f
  {
    assert "Content-Type"[8] == 'T' && "content-length"[8] == 'l';
    assert "Content-Type"[0] == 'C' && "transfer-encoding"[0] == 't';
  }

  lemma ServerSilent(s: string, i: nat, f: Fields)
    requires i + |SERVER_LINE| <= |s| && s[i..i + |SERVER_LINE|] == SERVER_LINE
    ensures ApplyField(f, FieldOf(s, Line(i, i + |SERVER_LINE|))) == f
  {
    assert SERVER_LINE == "Server" + ": " + "minihttptestserver";
    FieldSome(s, i, "Server", "minihttptestserver");
    assert "Server"[0] == 'S' && "content-length"[0] == 'c' && "transfer-encoding"[0] == 't';
  }

  lemma ChunkedSaid(s: string, i: nat, f: Fields)
    requires i + |CHUNKED_LINE| <= |s| && s[i..i + |CHUNKED_LINE|] == CHUNKED_LINE
    ensures ApplyField(f, FieldOf(s, Line(i, i + |CHUNKED_LINE|))) == f.(chunked := true)
  {
    var value := s[i + 19..];
    assert FieldOf(s, Line(i, i + |CHUNKED_LINE|)) == Field("Transfer-Encoding", value) by {
      assert CHUNKED_LINE == "Transfer-Encoding" + ": " + "chunked";
      FieldSome(s, i, "Transfer-Encoding", "chunked");
    }
    assert value == "chunked" + value[7..] by {
      assert CHUNKED_LINE == "Transfer-Encoding" + ": " + "chunked";
      SliceTail(s, i, "Transfer-Encoding" + ": ", "chunked");
    }
    ChunkedFieldSaid(f, value[7..]);
  }

  lemma SliceTail(s: string, i: nat, a: string, b: string)
    requires i + |a| + |b| <= |s| && s[i..i + |a| + |b|] == a + b
    ensures s[i + |a|..][..|b|] == b
  {
    assert s[i + |a|..][..|b|] == s[i..i + |a| + |b|][|a|..];
  }

  lemma ChunkedFieldSaid(f: Fields, rest: string)
    ensures ApplyField(f, Field("Transfer-Encoding", "chunked" + rest)) == f.(chunked := true)
  {
    assert "Transfer-Encoding"[0] == 'T' && "content-length"[0] == 'c';
    assert CaseEq("Transfer-Encoding", "transfer-encoding", |"Transfer-Encoding"|);
    assert forall k :: 0 <= k < |"chunked"| ==> ("chunked" + rest)[k] == "chunked"[k];
  }

  // ----- end to end

  const ChunkedLines: seq<string> := [STATUS_LINE, TYPE_LINE, CHUNKED_LINE]

  /** The first line of a block says nothing new. */
  predicate Silent(s: string, i: nat, line: string, f: Fields) {
    i + |line| <= |s| && ApplyField(f, FieldOf(s, Line(i, i + |line|))) == f
  }

  lemma SaidSilent(s: string, i: nat, lines: seq<string>, e: nat, f: Fields, next: nat)
    requires BlockAt(s, i, lines, e) && lines != [] && Silent(s, i, lines[0], f)
    requires next == i + |lines[0]| + 2 && BlockAt(s, next, lines[1..], e)
    ensures Said(s, i, lines, e, f) == Said(s, next, lines[1..], e, f)
  {
    SaidStep(s, i, lines, e, f, next - 2);
  }

  lemma ChunkedLinesSaid(s: string, lines: seq<string>, e: nat)
    requires lines == ChunkedLines && BlockAt(s, 0, lines, e)
    ensures Said(s, 0, lines, e, NoFields) == Fields(true, -1)
  {
    var i := |lines[0]| + 2;
    BlockNext(s, 0, lines, e);
    assert Silent(s, 0, lines[0], NoFields) by { StatusSilent(s, 0, NoFields); }
    SaidSilent(s, 0, lines, e, NoFields, i);
    var more := lines[1..];
    var j := i + |more[0]| + 2;
    BlockNext(s, i, more, e);
    assert Silent(s, i, more[0], NoFields) by { TypeSilent(s, i, NoFields); }
    SaidSilent(s, i, more, e, NoFields, j);
    ChunkedLast(s, j, more[1..], e);
  }

  lemma ChunkedLast(s: string, i: nat, lines: seq<string>, e: nat)
    requires lines == [CHUNKED_LINE] && BlockAt(s, i, lines, e)
    ensures Said(s, i, lines, e, NoFields) == Fields(true, -1)
  {
    BlockNext(s, i, lines, e);
    SaidStep(s, i, lines, e, NoFields, i + |lines[0]|);
    ChunkedSaid(s, i, NoFields);
    assert lines[1..] == [];
  }

  lemma ChunkedHeaderFields(s: string, body: string)
    requires s == ChunkedHeader + body
    ensures HeaderFields(s, |ChunkedHeader|) == Fields(true, -1)
  {
    ServerLines();
    HeaderFieldsOfBlock(s, ChunkedLines, body);
    ChunkedLinesSaid(s, ChunkedLines, |ChunkedHeader|);
  }

  /** Headers and body are told apart in any split of a well-formed response. */
  lemma SplitBlock(lines: seq<string>, body: string, pieces: seq<string>) returns (left: string, rest: seq<string>)
    requires lines != [] && forall k :: 0 <= k < |lines| ==> IsLine(lines[k])
    requires Flatten(pieces) == HeaderBlock(lines, CRLF) + body
    ensures Flatten(rest) == body
    ensures
      var block := HeaderBlock(lines, CRLF);
      ResponseFrom("", pieces) == BodyFrom(HeaderFields(block + left, |block|), Fresh, rest)
  {
    var block := HeaderBlock(lines, CRLF);
    HeaderEndBlock(lines, CRLF, body);
    assert "" + Flatten(pieces) == Flatten(pieces);
    var j, received := HeaderSplit("", pieces);
    left := received[|block|..];
    rest := [left] + pieces[j + 1..];
    assert rest[1..] == pieces[j + 1..];
    SplitAt(received, block, body);
  }

  lemma SplitAt(received: string, block: string, body: string)
    requires received <= block + body && |block| <= |received|
    ensures received == block + received[|block|..] && (block + body)[|block|..] == body
  {
    assert received[..|block|] == (block + body)[..|block|] == block;
  }

  /**
   Test server to client, chunked: whatever the content, the server's chunk cuts
   and the split of the bytes into reads, the client gets exactly the content.
   */
  lemma ChunkedEndToEnd(content: string, rand: nat -> nat, pieces: seq<string>)
    requires Flatten(pieces) == ChunkedHeader + EncodeBody(ChunksOf(content, rand, 0), "0", "", "")
    ensures ResponseFrom("", pieces) == Content(content)
  {
    var chunks := ChunksOf(content, rand, 0);
    var body := EncodeBody(chunks, "0", "", "");
    ServerLines();
    var left, rest := SplitBlock(ChunkedLines, body, pieces);
    ChunkedHeaderFields(ChunkedHeader + left, left);
    ChunksOfGood(content, rand, 0);
    assert Value("0", SIXTEEN) == 0 by { assert "0"[..0] == ""; }
    ChunkedRoundTrip(chunks, "0", "", "", rest);
    BodyFromChunked(Fields(true, -1), Fresh, rest);
    LongEnough(Fields(true, -1), Fresh, rest);
  }

  // ----- responses that are not chunked

  function LengthLine(n: nat): string {
    LENGTH_NAME + ": " + Numeral(n, TEN)
  }

  lemma AtoiNumeral(n: nat, rest: string)
    requires rest != "" && !IsDigit(rest[0])
    ensures Atoi(Numeral(n, TEN) + rest) == n
  {
    var d := Numeral(n, TEN);
    var s := d + rest;
    assert s[0] == d[0];
    assert Spaces(s) == 0 && s[0..] == s;
    DigitsAppend(d, rest);
    NumeralValue(n, TEN);
  }

  lemma LengthFieldSaid(f: Fields, n: nat, rest: string)
    requires rest != "" && !IsDigit(rest[0])
    ensures ApplyField(f, Field(LENGTH_NAME, Numeral(n, TEN) + rest)) == f.(contentLength := n)
  {
    assert CaseEq(LENGTH_NAME, "content-length", |LENGTH_NAME|);
    AtoiNumeral(n, rest);
  }

  lemma LengthSaid(s: string, i: nat, n: nat, e: nat, f: Fields)
    requires i <= e < |s| && s[i..e] == LengthLine(n) && s[e] == '\r'
    ensures ApplyField(f, FieldOf(s, Line(i, e))) == f.(contentLength := n)
  {
    var d, rest := Numeral(n, TEN), s[e..];
    assert FieldOf(s, Line(i, e)) == Field(LENGTH_NAME, d + rest) by {
      NumeralPlain(n);
      LengthField(s, i, d, e);
    }
    assert rest[0] == s[e];
    LengthFieldSaid(f, n, rest);
  }

  lemma NumeralPlain(n: nat)
    ensures !IsBlank(Numeral(n, TEN)[0])
  {
    assert IsDigit(Numeral(n, TEN)[0]);
  }

  lemma LengthField(s: string, i: nat, d: string, e: nat)
    requires d != "" && !IsBlank(d[0])
    requires e == i + |LENGTH_NAME + ": " + d| <= |s| && s[i..e] == LENGTH_NAME + ": " + d
    ensures FieldOf(s, Line(i, e)) == Field(LENGTH_NAME, d + s[e..])
  {
    assert e == i + |LENGTH_NAME| + 2 + |d|;
    NamePlain();
    FieldSome(s, i, LENGTH_NAME, d);
    ValueTail(s, i, LENGTH_NAME + ": ", d);
  }

  lemma NamePlain()
    ensures LENGTH_NAME != "" && forall k :: 0 <= k < |LENGTH_NAME| ==> LENGTH_NAME[k] != ':'
  {
  }

  lemma ValueTail(s: string, i: nat, name: string, d: string)
    requires i + |name| + |d| <= |s| && s[i..i + |name| + |d|] == name + d
    ensures s[i + |name|..] == d + s[i + |name| + |d|..]
  {
    SliceTail(s, i, name, d);
    assert s[i + |name|..] == s[i + |name|..][..|d|] + s[i + |name|..][|d|..];
  }

  const PlainLines: seq<string> := [STATUS_LINE, SERVER_LINE, TYPE_LINE]

  function SizedLines(n: nat): seq<string> {
    [STATUS_LINE, SERVER_LINE, TYPE_LINE, LengthLine(n)]
  }

  /** The three lines in front of every unchunked response of the server say nothing. */
  lemma PlainLinesSaid(s: string, lines: seq<string>, e: nat) returns (k: nat)
    requires PlainLines <= lines && BlockAt(s, 0, lines, e)
    ensures BlockAt(s, k, lines[3..], e) && Said(s, 0, lines, e, NoFields) == Said(s, k, lines[3..], e, NoFields)
  {
    assert lines[0] == STATUS_LINE && lines[1] == SERVER_LINE && lines[2] == TYPE_LINE;
    var i := |lines[0]| + 2;
    BlockNext(s, 0, lines, e);
    assert Silent(s, 0, lines[0], NoFields) by { StatusSilent(s, 0, NoFields); }
    SaidSilent(s, 0, lines, e, NoFields, i);
    var more := lines[1..];
    assert more[0] == lines[1] && more[1..] == lines[2..] && lines[2..][1..] == lines[3..];
    var j := i + |lines[1]| + 2;
    BlockNext(s, i, more, e);
    assert Silent(s, i, more[0], NoFields) by { ServerSilent(s, i, NoFields); }
    SaidSilent(s, i, more, e, NoFields, j);
    k := j + |lines[2]| + 2;
    BlockNext(s, j, lines[2..], e);
    assert Silent(s, j, lines[2..][0], NoFields) by { TypeSilent(s, j, NoFields); }
    SaidSilent(s, j, lines[2..], e, NoFields, k);
  }

  lemma PlainHeaderFields(body: string)
    ensures
      var block := HeaderBlock(PlainLines, CRLF);
      HeaderFields(block + body, |block|) == NoFields
  {
    ServerLines();
    var block := HeaderBlock(PlainLines, CRLF);
    HeaderFieldsOfBlock(block + body, PlainLines, body);
    var k := PlainLinesSaid(block + body, PlainLines, |block|);
    assert PlainLines[3..] == [];
  }

  lemma LengthIsLine(n: nat)
    ensures IsLine(LengthLine(n))
  {
    var d := Numeral(n, TEN);
    var name := LENGTH_NAME + ": ";
    assert forall k :: 0 <= k < |name| ==> !IsEol(name[k]);
    forall k | 0 <= k < |name + d| ensures !IsEol((name + d)[k]) {
      assert (name + d)[k] == if k < |name| then name[k] else d[k - |name|];
    }
  }

  lemma SizedHeaderFields(n: nat, body: string)
    ensures
      var block := HeaderBlock(SizedLines(n), CRLF);
      HeaderFields(block + body, |block|) == Fields(false, n)
  {
    ServerLines();
    LengthIsLine(n);
    var lines := SizedLines(n);
    var block := HeaderBlock(lines, CRLF);
    HeaderFieldsOfBlock(block + body, lines, body);
    var k := PlainLinesSaid(block + body, lines, |block|);
    var last := lines[3..];
    assert last[0] == LengthLine(n);
    BlockNext(block + body, k, last, |block|);
    SaidStep(block + body, k, last, |block|, NoFields, k + |last[0]|);
    LengthSaid(block + body, k, n, k + |last[0]|, NoFields);
    assert last[1..] == [];
  }

  /** Test server to client without a length: the client gets everything up to the end of the stream. */
  lemma PlainEndToEnd(content: string, pieces: seq<string>)
    requires Flatten(pieces) == HeaderBlock(PlainLines, CRLF) + content
    ensures ResponseFrom("", pieces) == Content(content)
  {
    ServerLines();
    var left, rest := SplitBlock(PlainLines, content, pieces);
    PlainHeaderFields(left);
    BodyFromPlain(NoFields, Fresh, rest);
    assert "" + content == content;
  }

  /**
   Test server to client with a length and bytes after the content: the client
   gets exactly the content, except that an announced length of zero is ignored.
   */
  lemma SizedEndToEnd(content: string, extra: string, pieces: seq<string>)
    requires Flatten(pieces) == HeaderBlock(SizedLines(|content|), CRLF) + (content + extra)
    ensures ResponseFrom("", pieces) == Content(if content == "" then extra else content)
  {
    ServerLines();
    var n := |content|;
    LengthIsLine(n);
    var left, rest := SplitBlock(SizedLines(n), content + extra, pieces);
    SizedHeaderFields(n, left);
    BodyFromPlain(Fields(false, n), Fresh, rest);
    assert "" + (content + extra) == content + extra;
    assert content == "" ==> content + extra == extra;
    assert (content + extra)[..n] == content;
  }
}
