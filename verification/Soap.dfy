/**
 SOAP requests of miniupnpc and the name/value reply parser: the request body
 that `simpleUPnPcommand2` writes into its buffer, and the parser that sits on
 top of minixml.  Parsing what was built gives back the arguments.
 */
module Soap {
  import opened Sequences
  import opened Text
  import opened Xml
  import opened XmlParser

  // ----- the reply parser

  /** `struct NameValueParserData`; the newest pair comes first. */
  datatype Reply = Reply(curelt: string, pairs: seq<(string, string)>, portListing: Option<string>)

  const NoReply: Reply := Reply("", [], None)
  const PORT_LISTING: string := "NewPortListing"

  /** The first 63 characters: what fits in a `char[64]`. */
  function Cut(s: string): (c: string)
    ensures |c| <= 63 && c <= s
  {
    if |s| > 63 then s[..63] else s
  }

  /** The effect of a callback; end tags and attributes have none. */
  function Handle(r: Reply, e: Event): Reply {
    match e
    case StartElt(name) => r.(curelt := Cut(name))
    case CharData(data) =>
      if r.curelt == PORT_LISTING then r.(portListing := Some(data))
      else r.(pairs := [(Cut(r.curelt), Cut(data))] + r.pairs)
    case _ => r
  }

  function HandleAll(r: Reply, events: seq<Event>): Reply
    decreases |events|
  {
    if events == [] then r else HandleAll(Handle(r, events[0]), events[1..])
  }

  lemma {:induction false} HandleAppend(r: Reply, a: seq<Event>, b: seq<Event>)
    ensures HandleAll(r, a + b) == HandleAll(HandleAll(r, a), b)
    decreases |a|
  {
    if a == [] {
      assert a + b == b;
    } else {
      assert (a + b)[1..] == a[1..] + b;
      HandleAppend(Handle(r, a[0]), a[1..], b);
    }
  }

  /** The value of the first pair with this name. */
  function Lookup(pairs: seq<(string, string)>, name: string): Option<string> {
    if pairs == [] then None
    else if pairs[0].0 == name then Some(pairs[0].1)
    else Lookup(pairs[1..], name)
  }

  /** `struct NameValueParserData` with its callbacks. */
  class NameValueParser {
    var curelt: string
    var pairs: seq<(string, string)>
    var portListing: Option<string>

    constructor ()
      ensures Value() == NoReply
    {
      curelt, pairs, portListing := "", [], None;
    }

    ghost function Value(): Reply
      reads this
    {
      Reply(curelt, pairs, portListing)
    }

    method StartElt(name: string)
      modifies this
      ensures Value() == Handle(old(Value()), Event.StartElt(name))
    {
      var l := |name|;
      if l > 63 {
        l := 63;
      }
      curelt := name[..l];
    }

    method GetData(data: string)
      modifies this
      ensures Value() == Handle(old(Value()), CharData(data))
    {
      if curelt == PORT_LISTING {
        portListing := Some(data);
      } else {
        var l := |data|;
        if l > 63 {
          l := 63;
        }
        assert data[..l] == Cut(data);
        pairs := [(Cut(curelt), data[..l])] + pairs;
      }
    }

    /** `ParseNameValue`: only the start and data callbacks are set. */
    method ParseNameValue(buffer: string)
      requires Value() == NoReply
      modifies this
      ensures Value() == HandleAll(NoReply, Scan(buffer))
    {
      var events := ParseXml(buffer);
      var i := 0;
      assert events[0..] == events;
      while i < |events|
        invariant 0 <= i <= |events|
        invariant HandleAll(Value(), events[i..]) == HandleAll(NoReply, events)
      {
        assert events[i..][1..] == events[i + 1..];
        match events[i] {
          case StartElt(name) => StartElt(name);
          case CharData(data) => GetData(data);
          case _ =>
        }
        i := i + 1;
      }
    }

    /** `GetValueFromNameValueList` */
    method GetValue(name: string) returns (p: Option<string>)
      ensures p == Lookup(pairs, name)
    {
      p := None;
      var i := 0;
      assert pairs[0..] == pairs;
      while i < |pairs| && p == None
        invariant 0 <= i <= |pairs|
        invariant p == None ==> Lookup(pairs[i..], name) == Lookup(pairs, name)
        invariant p != None ==> p == Lookup(pairs, name)
      {
        assert pairs[i..][1..] == pairs[i + 1..];
        if pairs[i].0 == name {
          p := Some(pairs[i].1);
        }
        i := i + 1;
      }
    }
  }

  // ----- the request builder

  /** One argument; `val` may be missing. */
  datatype Arg = Arg(elt: string, val: Option<string>)

  function ValueText(a: Arg): string {
    if a.val.Some? then a.val.value else ""
  }

  function ArgText(a: Arg): string {
    "<" + a.elt + ">" + ValueText(a) + "</" + a.elt + ">"
  }

  function ArgsText(args: seq<Arg>): string {
    if args == [] then "" else ArgText(args[0]) + ArgsText(args[1..])
  }

  const PI: string := "xml version=\"1.0\"?>\r\n"
  const ENVELOPE_NS: string := "http://schemas.xmlsoap.org/soap/envelope/"
  const ENCODING_NS: string := "http://schemas.xmlsoap.org/soap/encoding/"

  function Head(service: string, action: string): string {
    "<?" + PI + "<s:Envelope xmlns:s=\"" + ENVELOPE_NS + "\" s:encodingStyle=\"" + ENCODING_NS + "\">"
    + "<s:Body>" + "<u:" + action + " xmlns:u=\"" + service + "\">"
  }

  const TAIL: string := "></s:Body></s:Envelope>\r\n"

  function Envelope(service: string, action: string, args: seq<Arg>): string {
    Head(service, action) + ArgsText(args) + ("</u:" + action) + TAIL
  }

  /** `sizeof(soapbody)` */
  const BUFFER: nat := 2048

  /**
   `Refused`: the margin check returned NULL.  `Overrun`: something was written past the buffer.  `Unterminated`:
   the tail was cut off at the end of the buffer, which then holds no terminator.
   */
  datatype Built = Refused | Overrun | Unterminated(bytes: string) | Body(text: string)

  /** What is in the buffer before argument `i`, behind the head. */
  function Filled(head: string, args: seq<Arg>, i: nat): string
    requires i <= |args|
  {
    head + ArgsText(args[..i])
  }

  /** The margin check passes before argument `i`. */
  predicate Passes(head: string, args: seq<Arg>, i: nat)
    requires i <= |args|
  {
    |Filled(head, args, i)| + 100 < BUFFER
  }

  /** The margin check fails before argument `i`, and is reached inside the buffer. */
  predicate RefusedAt(head: string, args: seq<Arg>, i: nat) {
    i < |args| && !Passes(head, args, i) && (i == 0 || |Filled(head, args, i)| <= BUFFER)
  }

  ghost predicate PassesAll(head: string, args: seq<Arg>) {
    forall i :: 0 <= i < |args| ==> Passes(head, args, i)
  }

  lemma {:induction false} ArgsTextSnoc(args: seq<Arg>, i: nat)
    requires i < |args|
    ensures ArgsText(args[..i + 1]) == ArgsText(args[..i]) + ArgText(args[i])
    decreases i
  {
    if i == 0 {
      assert args[..1] == [args[0]] && args[..0] == [];
      assert ArgsText([args[0]]) == ArgText(args[0]) + ArgsText([]);
    } else {
      assert args[..i + 1][1..] == args[1..][..i] && args[..i][1..] == args[1..][..i - 1];
      ArgsTextSnoc(args[1..], i - 1);
    }
  }

  lemma FilledNext(head: string, args: seq<Arg>, i: nat)
    requires i < |args|
    ensures Filled(head, args, i) + ArgText(args[i]) == Filled(head, args, i + 1)
  {
    ArgsTextSnoc(args, i);
    Regroup(head, ArgsText(args[..i]), ArgText(args[i]));
  }

  /** What is in the buffer never gets shorter. */
  lemma {:induction false} FilledGrows(head: string, args: seq<Arg>, i: nat, j: nat)
    requires i <= j <= |args|
    ensures |Filled(head, args, i)| <= |Filled(head, args, j)|
    decreases j - i
  {
    if i < j {
      FilledNext(head, args, i);
      FilledGrows(head, args, i + 1, j);
    }
  }

  /** Once the buffer is overrun, no later check is reached inside it. */
  lemma OverrunNotRefused(head: string, args: seq<Arg>, i: nat)
    requires 0 < i <= |args| && |Filled(head, args, i)| > BUFFER
    requires forall j :: 0 <= j < i ==> Passes(head, args, j)
    ensures forall j :: !RefusedAt(head, args, j)
    ensures |Filled(head, args, |args|)| > BUFFER
  {
    FilledGrows(head, args, i, |args|);
    forall j: nat ensures !RefusedAt(head, args, j) {
      if i <= j < |args| {
        FilledGrows(head, args, i, j);
      }
    }
  }

  /** The loop over the arguments, behind the head. */
  method WriteArgs(head: string, args: seq<Arg>) returns (r: Built)
    ensures r.Refused? <==> exists i :: RefusedAt(head, args, i)
    ensures r.Overrun? ==> |Filled(head, args, |args|)| > BUFFER
    ensures r.Body? ==> PassesAll(head, args) && r.text == Filled(head, args, |args|)
    ensures !r.Unterminated?
  {
    var body := head;
    assert args[..0] == [] && body + "" == body;
    var i := 0;
    while i < |args|
      invariant 0 <= i <= |args|
      invariant body == Filled(head, args, i)
      invariant i > 0 ==> |body| <= BUFFER
      invariant forall j :: 0 <= j < i ==> Passes(head, args, j)
    {
      if BUFFER <= |body| + 100 {
        assert RefusedAt(head, args, i);
        return Refused;
      }
      FilledNext(head, args, i);
      body := body + ArgText(args[i]);
      i := i + 1;
      if |body| > BUFFER {
        OverrunNotRefused(head, args, i);
        return Overrun;
      }
    }
    r := Body(body);
  }

  lemma EnvelopeParts(service: string, action: string, args: seq<Arg>)
    ensures Envelope(service, action, args) == Filled(Head(service, action), args, |args|) + ("</u:" + action) + TAIL
  {
    assert args[..|args|] == args;
  }

  /**
   The body builder: a body comes out exactly when every margin check passes and the text fits, and it is the
   envelope.  It is refused exactly when a check fails that is reached inside the buffer, and left without a
   terminator exactly when only the tail does not fit; in every other case the buffer is overrun.
   */
  method BuildBody(service: string, action: string, args: seq<Arg>) returns (r: Built)
    ensures r.Body? <==> PassesAll(Head(service, action), args) && |Envelope(service, action, args)| < BUFFER
    ensures r.Body? ==> r.text == Envelope(service, action, args)
    ensures r.Refused? <==> exists i :: RefusedAt(Head(service, action), args, i)
    ensures
      r.Unterminated?
      <==> (&& PassesAll(Head(service, action), args)
            && |Filled(Head(service, action), args, |args|)| + |"</u:" + action| <= BUFFER
            && BUFFER <= |Envelope(service, action, args)|)
    ensures r.Unterminated? ==> r.bytes == Envelope(service, action, args)[..BUFFER]
  {
    var head := Head(service, action);
    r := WriteArgs(head, args);
    EnvelopeParts(service, action, args);
    if r.Body? {
      var body := r.text + ("</u:" + action);
      if |body| > BUFFER {
        return Overrun;
      }
      body := body + TAIL;
      r := if |body| >= BUFFER then Unterminated(body[..BUFFER]) else Body(body);
    }
  }

  // ----- parsing the built envelope

  function ArgTree(a: Arg): Tree {
    Elem("", a.elt, [], "", Text(ValueText(a)))
  }

  function ArgForest(args: seq<Arg>): Forest {
    if args == [] then Nil else Cons(ArgTree(args[0]), "", ArgForest(args[1..]))
  }

  function ActionTree(service: string, action: string, args: seq<Arg>): Tree {
    Elem("u", action, [Att(" ", "xmlns:u", "", "", '\"', service)], "",
         if args == [] then Text("") else Kids("", ArgForest(args)))
  }

  const EnvelopeAtts: seq<Att> := [
    Att(" ", "xmlns:s", "", "", '\"', ENVELOPE_NS),
    Att(" ", "s:encodingStyle", "", "", '\"', ENCODING_NS)
  ]

  function BodyTree(service: string, action: string, args: seq<Arg>): Tree {
    Elem("s", "Body", [], "", Kids("", Cons(ActionTree(service, action, args), "", Nil)))
  }

  function EnvelopeTree(service: string, action: string, args: seq<Arg>): Tree {
    Elem("s", "Envelope", EnvelopeAtts, "", Kids("", Cons(BodyTree(service, action, args), "", Nil)))
  }

  lemma LeafText(e: string, v: string, k: string)
    ensures "<" + (e + (">" + (v + ("</" + (e + (">" + k)))))) == ("<" + e + ">" + v + "</" + e + ">") + k
  {
  }

  lemma Empty(s: string)
    ensures "" + s == s
  {
  }

  lemma ArgPrinted(a: Arg, k: string)
    ensures Print(ArgTree(a), k) == ArgText(a) + k
  {
    var body := PrintBody(ArgTree(a), k);
    Empty(body);
    LeafText(a.elt, ValueText(a), k);
  }

  lemma {:induction false} ArgsPrinted(args: seq<Arg>, k: string)
    ensures PrintForest(ArgForest(args), k) == ArgsText(args) + k
  {
    if args == [] {
      Empty(k);
    } else {
      var rest := PrintForest(ArgForest(args[1..]), k);
      Empty(rest);
      ArgPrinted(args[0], rest);
      ArgsPrinted(args[1..], k);
      Regroup(ArgText(args[0]), ArgsText(args[1..]), k);
    }
  }

  lemma ActionOpen(action: string, a: Att, x: string)
    requires a == Att(" ", "xmlns:u", "", "", '\"', a.value)
    ensures "<" + (("u" + ":" + action) + PrintAtt(a, ">" + x))
         == ("<u:" + action + " xmlns:u=\"" + a.value + "\">") + x
  {
    var v := a.value + ("\"" + (">" + x));
    assert PrintAtt(a, ">" + x) == " xmlns:u=\"" + v;
  }

  lemma ActionClose(action: string, k: string)
    ensures "</" + (("u" + ":" + action) + (">" + k)) == ("</u:" + action) + (">" + k)
  {
  }

  lemma ActionPrinted(service: string, action: string, args: seq<Arg>, k: string)
    ensures Print(ActionTree(service, action, args), k)
         == ("<u:" + action + " xmlns:u=\"" + service + "\">") + (ArgsText(args) + (("</u:" + action) + (">" + k)))
  {
    var t := ActionTree(service, action, args);
    var close := CloseTag(t, k);
    var body := PrintBody(t, k);
    ActionClose(action, k);
    ArgsPrinted(args, close);
    Empty(ArgsText(args) + close);
    assert body == ">" + (ArgsText(args) + close);
    Empty(body);
    assert t.atts[1..] == [];
    assert PrintAtts(t.atts[1..], body) == body;
    assert PrintAtts(t.atts, body) == PrintAtt(t.atts[0], body);
    ActionOpen(action, t.atts[0], ArgsText(args) + close);
  }

  lemma OneKid(t: Tree, kid: Tree, k: string)
    requires t.body == Kids("", Cons(kid, "", Nil))
    ensures PrintBody(t, k) == ">" + Print(kid, CloseTag(t, k))
  {
    var c := CloseTag(t, k);
    var f := t.body.kids;
    assert PrintForest(f.rest, c) == c;
    Empty(c);
    assert PrintForest(f, c) == Print(kid, c);
    Empty(Print(kid, c));
  }

  lemma NoAtts(t: Tree, body: string)
    requires t.atts == [] && t.pad == ""
    ensures PrintAtts(t.atts, t.pad + body) == body
  {
    Empty(body);
  }

  lemma BodyTreePrinted(service: string, action: string, args: seq<Arg>, k: string)
    ensures Print(BodyTree(service, action, args), k)
         == "<s:Body>" + Print(ActionTree(service, action, args), "</s:Body>" + k)
  {
    var t := BodyTree(service, action, args);
    assert Qualified(t) == "s:Body";
    assert CloseTag(t, k) == "</s:Body>" + k;
    OneKid(t, ActionTree(service, action, args), k);
    var inner := Print(ActionTree(service, action, args), "</s:Body>" + k);
    NoAtts(t, ">" + inner);
    assert "<" + ("s:Body" + (">" + inner)) == "<s:Body>" + inner;
  }

  lemma EnvelopeAttsPrinted(x: string)
    ensures PrintAtts(EnvelopeAtts, "" + (">" + x))
         == " xmlns:s=\"" + (ENVELOPE_NS + ("\" s:encodingStyle=\"" + (ENCODING_NS + ("\">" + x))))
  {
    var k := ">" + x;
    Empty(k);
    var a, b := EnvelopeAtts[0], EnvelopeAtts[1];
    assert EnvelopeAtts[1..] == [b] && [b][1..] == [];
    assert PrintAtts([b], k) == PrintAtt(b, k);
    AttText(b, k);
    AttText(a, PrintAtt(b, k));
    SecondAtt(ENVELOPE_NS, ENCODING_NS, x);
  }

  lemma AttText(a: Att, k: string)
    requires a.gap == " " && a.before == "" && a.after == "" && a.quote == '\"'
    ensures PrintAtt(a, k) == " " + (a.name + ("=\"" + (a.value + ("\"" + k))))
  {
  }

  lemma SecondAtt(v: string, w: string, x: string)
    ensures " " + ("xmlns:s" + ("=\"" + (v + ("\"" + (" " + ("s:encodingStyle" + ("=\"" + (w + ("\"" + (">" + x))))))))))
         == " xmlns:s=\"" + (v + ("\" s:encodingStyle=\"" + (w + ("\">" + x))))
  {
    assert "\"" + (">" + x) == "\">" + x;
    var y := w + ("\">" + x);
    assert "\"" + (" " + ("s:encodingStyle" + ("=\"" + y))) == "\" s:encodingStyle=\"" + y;
    var z := v + ("\" s:encodingStyle=\"" + y);
    assert " " + ("xmlns:s" + ("=\"" + z)) == " xmlns:s=\"" + z;
  }

  lemma RightNested(a: string, b: string, c: string, d: string, e: string, f: string)
    ensures a + b + c + d + e + f == a + (b + (c + (d + (e + f))))
  {
  }

  lemma HeadRight(service: string, action: string, y: string)
    ensures
      var open := "<u:" + action + " xmlns:u=\"" + service + "\">";
      Head(service, action) + y
      == "<?" + (PI + ("<s:Envelope xmlns:s=\"" + (ENVELOPE_NS + ("\" s:encodingStyle=\"" + (ENCODING_NS + ("\">" + ("<s:Body>" + (open + y))))))))
  {
    var open := "<u:" + action + " xmlns:u=\"" + service + "\">";
    var p := "<?" + PI + "<s:Envelope xmlns:s=\"" + ENVELOPE_NS + "\" s:encodingStyle=\"" + ENCODING_NS;
    var z := "\">" + ("<s:Body>" + (open + y));
    HeadParts(p, action, service, y);
    RightNested("<?", PI, "<s:Envelope xmlns:s=\"", ENVELOPE_NS, "\" s:encodingStyle=\"", ENCODING_NS + z);
    Regroup("<?" + PI + "<s:Envelope xmlns:s=\"" + ENVELOPE_NS + "\" s:encodingStyle=\"", ENCODING_NS, z);
  }

  lemma HeadParts(p: string, action: string, service: string, y: string)
    ensures (p + "\">" + "<s:Body>" + "<u:" + action + " xmlns:u=\"" + service + "\">") + y
         == p + ("\">" + ("<s:Body>" + (("<u:" + action + " xmlns:u=\"" + service + "\">") + y)))
  {
    var open := "<u:" + action + " xmlns:u=\"" + service + "\">";
    assert p + "\">" + "<s:Body>" + "<u:" + action + " xmlns:u=\"" + service + "\">" == (p + "\">" + "<s:Body>") + open;
    Regroup(p + "\">" + "<s:Body>", open, y);
    Regroup(p + "\">", "<s:Body>", open + y);
    Regroup(p, "\">", "<s:Body>" + (open + y));
  }

  const CLOSING: string := "</s:Envelope>\r\n"

  lemma OpenEnvelope(z: string)
    ensures "<" + ("s:Envelope" + (" xmlns:s=\"" + z)) == "<s:Envelope xmlns:s=\"" + z
  {
  }

  lemma EnvelopeTreePrinted(service: string, action: string, args: seq<Arg>)
    ensures
      var inner := Print(BodyTree(service, action, args), CLOSING);
      Print(EnvelopeTree(service, action, args), "\r\n")
      == "<s:Envelope xmlns:s=\"" + (ENVELOPE_NS + ("\" s:encodingStyle=\"" + (ENCODING_NS + ("\">" + inner))))
  {
    var t := EnvelopeTree(service, action, args);
    var inner := Print(BodyTree(service, action, args), CLOSING);
    assert Qualified(t) == "s:Envelope";
    assert CloseTag(t, "\r\n") == CLOSING;
    OneKid(t, BodyTree(service, action, args), "\r\n");
    EnvelopeAttsPrinted(inner);
    OpenEnvelope(ENVELOPE_NS + ("\" s:encodingStyle=\"" + (ENCODING_NS + ("\">" + inner))));
  }

  lemma InnerPrinted(service: string, action: string, args: seq<Arg>)
    ensures
      var open := "<u:" + action + " xmlns:u=\"" + service + "\">";
      Print(BodyTree(service, action, args), CLOSING)
      == "<s:Body>" + (open + (ArgsText(args) + (("</u:" + action) + TAIL)))
  {
    var close := "</s:Body>" + CLOSING;
    assert Print(BodyTree(service, action, args), CLOSING) == "<s:Body>" + Print(ActionTree(service, action, args), close) by {
      BodyTreePrinted(service, action, args, CLOSING);
    }
    ActionPrinted(service, action, args, close);
    TailIs(close);
  }

  lemma TailIs(close: string)
    requires close == "</s:Body>" + CLOSING
    ensures ">" + close == TAIL
  {
  }

  /** The bytes that the builder writes are a printing of the envelope tree. */
  lemma EnvelopePrinted(service: string, action: string, args: seq<Arg>)
    ensures Envelope(service, action, args) == "<?" + (PI + Print(EnvelopeTree(service, action, args), "\r\n"))
  {
    var end := "</u:" + action;
    EnvelopeTreePrinted(service, action, args);
    InnerPrinted(service, action, args);
    HeadRight(service, action, ArgsText(args) + (end + TAIL));
    Regroup(Head(service, action) + ArgsText(args), end, TAIL);
    Regroup(Head(service, action), ArgsText(args), end + TAIL);
  }

  /** Names that are plain, values without '<', a service without quotes. */
  ghost predicate GoodRequest(service: string, action: string, args: seq<Arg>) {
    && PlainName(action) && '\"' !in service
    && forall i :: 0 <= i < |args| ==> PlainName(args[i].elt) && Free(ValueText(args[i]), LT)
  }

  lemma {:induction false} ArgForestGood(args: seq<Arg>)
    requires forall i :: 0 <= i < |args| ==> PlainName(args[i].elt) && Free(ValueText(args[i]), LT)
    ensures GoodForest(ArgForest(args))
  {
    if args != [] {
      ArgForestGood(args[1..]);
      assert Good(ArgTree(args[0]));
    }
  }

  lemma ActionTreeGood(service: string, action: string, args: seq<Arg>)
    requires GoodRequest(service, action, args)
    ensures Good(ActionTree(service, action, args))
  {
    ArgForestGood(args);
    var t := ActionTree(service, action, args);
    assert PlainName("u");
    var a := t.atts[0];
    assert GoodAtt(a) by {
      assert Free("xmlns:u", ATT_END);
    }
  }

  lemma NamespacesUnquoted()
    ensures '\"' !in ENVELOPE_NS && '\"' !in ENCODING_NS
  {
  }

  lemma AttNamesPlain()
    ensures Free("xmlns:s", ATT_END) && Free("s:encodingStyle", ATT_END)
  {
  }

  lemma EnvelopeAttsGood()
    ensures forall k :: 0 <= k < |EnvelopeAtts| ==> GoodAtt(EnvelopeAtts[k])
  {
    NamespacesUnquoted();
    AttNamesPlain();
  }

  lemma InstructionPlain()
    ensures Free(PI, LT) && Free("\r\n", LT)
  {
  }

  lemma EnvelopeTreeGood(service: string, action: string, args: seq<Arg>)
    requires GoodRequest(service, action, args)
    ensures Good(EnvelopeTree(service, action, args))
  {
    BodyTreeGood(service, action, args);
    EnvelopeAttsGood();
    assert PlainName("s") && PlainName("Envelope");
    assert GoodForest(EnvelopeTree(service, action, args).body.kids);
  }

  lemma BodyTreeGood(service: string, action: string, args: seq<Arg>)
    requires GoodRequest(service, action, args)
    ensures Good(BodyTree(service, action, args))
  {
    ActionTreeGood(service, action, args);
    assert PlainName("s") && PlainName("Body");
    assert GoodForest(BodyTree(service, action, args).body.kids);
  }

  // ----- what the parser remembers

  /** The effect of one argument element on the parser. */
  function HandleArg(r: Reply, a: Arg): Reply {
    var named := r.(curelt := Cut(a.elt));
    if ValueText(a) == "" then named else Handle(named, CharData(ValueText(a)))
  }

  function HandleArgs(r: Reply, args: seq<Arg>): Reply
    decreases |args|
  {
    if args == [] then r else HandleArgs(HandleArg(r, args[0]), args[1..])
  }

  lemma HandleOne(r: Reply, e: Event)
    ensures HandleAll(r, [e]) == Handle(r, e)
  {
    assert [e][1..] == [];
  }

  /** Start, attributes, body, end: only the start and the body's text count. */
  lemma HandleTree(r: Reply, t: Tree)
    ensures HandleAll(r, Events(t)) == HandleAll(r.(curelt := Cut(t.name)), BodyEvents(t))
  {
    var a, b := AttEvents(t.atts), BodyEvents(t);
    HandleAppend(r, [StartElt(t.name)], a + b);
    HandleOne(r, StartElt(t.name));
    var named := r.(curelt := Cut(t.name));
    HandleAppend(named, a, b);
    HandleAtts(named, t.atts);
  }

  lemma {:induction false} HandleAtts(r: Reply, atts: seq<Att>)
    ensures HandleAll(r, AttEvents(atts)) == r
    decreases |atts|
  {
    if atts != [] {
      var e := Attribute(atts[0].name, atts[0].value);
      assert ([e] + AttEvents(atts[1..]))[1..] == AttEvents(atts[1..]);
      HandleAtts(r, atts[1..]);
    }
  }

  lemma HandleEnd(r: Reply, events: seq<Event>, name: string)
    ensures HandleAll(r, events + [EndElt(name)]) == HandleAll(r, events)
  {
    HandleAppend(r, events, [EndElt(name)]);
    HandleOne(HandleAll(r, events), EndElt(name));
  }

  lemma HandleArgTree(r: Reply, a: Arg)
    ensures HandleAll(r, Events(ArgTree(a))) == HandleArg(r, a)
  {
    var t := ArgTree(a);
    HandleTree(r, t);
    var named := r.(curelt := Cut(a.elt));
    HandleEnd(named, TextEvents(ValueText(a)), Qualified(t));
    if ValueText(a) != "" {
      HandleOne(named, CharData(ValueText(a)));
    }
  }

  lemma {:induction false} HandleArgForest(r: Reply, args: seq<Arg>)
    ensures HandleAll(r, ForestEvents(ArgForest(args))) == HandleArgs(r, args)
    decreases |args|
  {
    if args != [] {
      HandleAppend(r, Events(ArgTree(args[0])), ForestEvents(ArgForest(args[1..])));
      HandleArgTree(r, args[0]);
      HandleArgForest(HandleArg(r, args[0]), args[1..]);
    }
  }

  lemma HandleOneKid(r: Reply, t: Tree, kid: Tree)
    requires t.body == Kids("", Cons(kid, "", Nil))
    ensures HandleAll(r, Events(t)) == HandleAll(r.(curelt := Cut(t.name)), Events(kid))
  {
    HandleTree(r, t);
    var named := r.(curelt := Cut(t.name));
    assert ForestEvents(Nil) == [];
    assert Events(kid) + [] == Events(kid);
    assert ForestEvents(t.body.kids) == Events(kid);
    HandleEnd(named, Events(kid), Qualified(t));
  }

  lemma HandleAction(r: Reply, service: string, action: string, args: seq<Arg>)
    ensures HandleAll(r, Events(ActionTree(service, action, args))) == HandleArgs(r.(curelt := Cut(action)), args)
  {
    var t := ActionTree(service, action, args);
    HandleTree(r, t);
    var named := r.(curelt := Cut(action));
    if args == [] {
      HandleEnd(named, [], Qualified(t));
    } else {
      HandleEnd(named, ForestEvents(ArgForest(args)), Qualified(t));
      HandleArgForest(named, args);
    }
  }

  /** Parsing the envelope handles the arguments one after the other. */
  lemma EnvelopeHandled(service: string, action: string, args: seq<Arg>)
    requires GoodRequest(service, action, args)
    ensures HandleAll(NoReply, Scan(Envelope(service, action, args)))
         == HandleArgs(NoReply.(curelt := Cut(action)), args)
  {
    var t := EnvelopeTree(service, action, args);
    EnvelopePrinted(service, action, args);
    EnvelopeTreeGood(service, action, args);
    InstructionPlain();
    ScanDocument(PI, t, "\r\n");
    var b := BodyTree(service, action, args);
    HandleOneKid(NoReply, t, b);
    var r := NoReply.(curelt := Cut("Envelope"));
    HandleOneKid(r, b, ActionTree(service, action, args));
    HandleAction(r.(curelt := Cut("Body")), service, action, args);
  }

  // ----- the round trip

  /** The last non-empty value given for `name`, as the parser keeps it. */
  function LastValue(args: seq<Arg>, name: string): Option<string> {
    if args == [] then None
    else
      var later := LastValue(args[1..], name);
      if later.Some? then later
      else if ValueText(args[0]) != "" && Cut(args[0].elt) == name && name != PORT_LISTING
      then Some(Cut(ValueText(args[0])))
      else None
  }

  /** The last non-empty port listing given; it is kept whole. */
  function LastListing(args: seq<Arg>): Option<string> {
    if args == [] then None
    else
      var later := LastListing(args[1..]);
      if later.Some? then later
      else if ValueText(args[0]) != "" && Cut(args[0].elt) == PORT_LISTING then Some(ValueText(args[0]))
      else None
  }

  lemma LookupFirst(pairs: seq<(string, string)>, p: (string, string), name: string)
    ensures Lookup([p] + pairs, name) == if p.0 == name then Some(p.1) else Lookup(pairs, name)
  {
    assert ([p] + pairs)[1..] == pairs;
  }

  lemma {:induction false} LookupHandled(r: Reply, args: seq<Arg>, name: string)
    ensures Lookup(HandleArgs(r, args).pairs, name)
         == if LastValue(args, name).Some? then LastValue(args, name) else Lookup(r.pairs, name)
    ensures HandleArgs(r, args).portListing
         == if LastListing(args).Some? then LastListing(args) else r.portListing
    decreases |args|
  {
    if args != [] {
      var a := args[0];
      LookupHandled(HandleArg(r, a), args[1..], name);
      LookupFirst(r.pairs, (Cut(a.elt), Cut(ValueText(a))), name);
    }
  }

  /**
   SOAP round trip: looking a name up in the parsed request gives the last
   non-empty value given for it, cut to 63 characters, and nothing for names not
   given; a port listing is kept whole and apart.
   */
  lemma SoapRoundTrip(service: string, action: string, args: seq<Arg>, name: string)
    requires GoodRequest(service, action, args)
    ensures
      var r := HandleAll(NoReply, Scan(Envelope(service, action, args)));
      && Lookup(r.pairs, name) == LastValue(args, name)
      && r.portListing == LastListing(args)
  {
    EnvelopeHandled(service, action, args);
    LookupHandled(NoReply.(curelt := Cut(action)), args, name);
  }
}
