/**
 minixml: a single-pass XML scanner that calls back on what it meets.  The
 scanner is given as functions on the text that is left, element trees are
 printed in all the spellings the scanner understands, and the theorem is that
 scanning undoes printing.
 */
module Xml {
  import opened Sequences
  import opened Text

  /** The callbacks, with the text they receive. */
  datatype Event =
    | StartElt(name: string)
    | Attribute(name: string, value: string)
    | CharData(data: string)
    | EndElt(name: string)

  /** Part of a scan: either the scanner returned, or it goes on with the text `rest`. */
  datatype Scanned = Halt(events: seq<Event>) | Go(events: seq<Event>, rest: string)

  function After(before: seq<Event>, r: Scanned): Scanned {
    if r.Halt? then Halt(before + r.events) else Go(before + r.events, r.rest)
  }

  const WHITE: set<char> := {' ', '\t', '\r', '\n'}
  const NAME_END: set<char> := {' ', '\t', '\r', '\n', '>', '/'}
  const ATT_END: set<char> := {' ', '\t', '\r', '\n', '='}
  const LT: set<char> := {'<'}
  const GT: set<char> := {'>'}
  const EQUALS: set<char> := {'='}

  // ----- the scanner

  /** An attribute value and what follows it; an unquoted value also swallows its terminator. */
  function AttValue(name: string, s: string): (r: Scanned)
    ensures r.Go? ==> |r.rest| < |s|
  {
    if s == "" then Halt([])
    else if s[0] == '\'' || s[0] == '\"' then
      var v := s[1..];
      var n := Until(v, {s[0]});
      if n == |v| then Halt([]) else Go([Attribute(name, v[..n])], v[n + 1..])
    else
      var n := Until(s, NAME_END);
      if n == |s| then Halt([]) else Go([Attribute(name, s[..n])], s[n + 1..])
  }

  /** An attribute after its equals sign. */
  function AfterEquals(name: string, s: string): (r: Scanned)
    ensures r.Go? ==> |r.rest| < |s|
  {
    AttValue(name, s[Span(s, WHITE)..])
  }

  /** An attribute after its name. */
  function AfterName(name: string, s: string): (r: Scanned)
    ensures r.Go? ==> |r.rest| < |s|
  {
    var e := Until(s, EQUALS);
    if e == |s| then Halt([]) else AfterEquals(name, s[e + 1..])
  }

  /** One attribute, at its name. */
  function OneAtt(s: string): (r: Scanned)
    ensures r.Go? ==> |r.rest| < |s|
  {
    var n := Until(s, ATT_END);
    AfterName(s[..n], s[n..])
  }

  /** `parseatt`: the attributes of a start tag, up to its '/' or '>'. */
  function Atts(s: string): (r: Scanned)
    ensures r.Go? ==> r.rest != "" && |r.rest| <= |s| && (r.rest[0] == '/' || r.rest[0] == '>')
    decreases |s|
  {
    if s == "" then Halt([])
    else if s[0] == '/' || s[0] == '>' then Go([], s)
    else if s[0] in WHITE then Atts(s[1..])
    else
      var a := OneAtt(s);
      if a.Halt? then a else After(a.events, Atts(a.rest))
  }

  /** The end of a CDATA section: the first "]]>" that is not too close to the end of the text. */
  function CDataEnd(s: string): (n: nat)
    ensures n <= |s|
  {
    if "]]>" <= s then 0
    else if |s| <= 4 then |s|
    else 1 + CDataEnd(s[1..])
  }

  const CDATA: string := "<![CDATA["

  /** A CDATA section, after its opening, and what follows it up to the next '<'. */
  function CDataSection(d: string): (r: Scanned)
    ensures r.Go? ==> |r.rest| <= |d|
  {
    var n := CDataEnd(d);
    if n + 3 > |d| then Halt([]) else AfterData(if n > 0 then [CharData(d[..n])] else [], d[n..])
  }

  /** The text after a section's data, up to the next '<'. */
  function AfterData(data: seq<Event>, t: string): (r: Scanned)
    ensures r.Go? ==> |r.rest| <= |t|
  {
    var m := Until(t, LT);
    if m == |t| then Halt(data) else Go(data, t[m..])
  }

  /** Plain text whose first `k` characters are white space, up to the next '<'. */
  function TextUpTo(s: string, k: nat): (r: Scanned)
    requires k < |s|
    ensures r.Go? ==> |r.rest| <= |s|
  {
    var t := s[k..];
    var m := Until(t, LT);
    if m > 0 && m + 1 >= |t| then Halt([])
    else
      var data := if k + m > 0 && m + 1 < |t| && t[m + 1] == '/' then [CharData(s[..k + m])] else [];
      Go(data, t[m..])
  }

  /** The text after a start tag, up to the next '<'. */
  function Contents(s: string): (r: Scanned)
    ensures r.Go? ==> |r.rest| <= |s|
  {
    var k := Span(s, WHITE);
    var t := s[k..];
    if t == "" then Halt([])
    else if CDATA <= t then
      CDataSection(t[|CDATA|..])
    else TextUpTo(s, k)
  }

  /** The start and end of an element name, past any namespace prefix. */
  datatype Name = NoName | Name(start: nat, end: nat)

  function NameFrom(s: string, b: nat, i: nat): (r: Name)
    requires b <= i
    ensures r.Name? ==> b <= r.start <= r.end < |s| && i <= r.end && s[r.end] in NAME_END
    decreases |s| - i
  {
    if i >= |s| then NoName
    else if s[i] in NAME_END then Name(b, i)
    else if i + 1 >= |s| then NoName
    else if s[i + 1] == ':' then NameFrom(s, i + 2, i + 2)
    else NameFrom(s, b, i + 1)
  }

  /** The rest of a start tag after its name, and the text after it. */
  function StartTag(s: string): (r: Scanned)
    ensures r.Go? ==> |r.rest| <= |s|
  {
    var a := Atts(s);
    if a.Halt? || a.rest[0] == '/' then a else After(a.events, Contents(a.rest[1..]))
  }

  function EndTag(s: string): (r: Scanned)
    ensures r.Go? ==> |r.rest| <= |s|
  {
    var n := Until(s, GT);
    if n == |s| then Halt([]) else Go([EndElt(s[..n])], s[n + 1..])
  }

  /** A tag, after its '<'. */
  function Tag(s: string): (r: Scanned)
    ensures r.Go? ==> |r.rest| <= |s|
  {
    match NameFrom(s, 0, 0)
    case NoName => Halt([])
    case Name(b, i) =>
      if i > b then After([StartElt(s[b..i])], StartTag(s[i..]))
      else if s[i] == '/' then EndTag(s[i + 1..])
      else Go([], s[i..])
  }

  /** `parseelt`: everything the scanner reports for a text. */
  function Scan(s: string): seq<Event>
    decreases |s|
  {
    if |s| < 2 then []
    else if s[0] == '<' && s[1] != '?' then
      var t := Tag(s[1..]);
      if t.Halt? then t.events else t.events + Scan(t.rest)
    else Scan(s[1..])
  }

  // ----- element trees and how they are printed

  /** `gap` and the blanks around '=' are white space; `quote` is a single or double quote. */
  datatype Att = Att(gap: string, name: string, before: string, after: string, quote: char, value: string)

  datatype Tree = Elem(prefix: string, name: string, atts: seq<Att>, pad: string, body: Body)

  datatype Body =
    | SelfClosed
    | Text(text: string)
    | CData(lead: string, data: string, trail: string)
    | Kids(lead: string, kids: Forest)

  /** Children, each with the text that follows it. */
  datatype Forest = Nil | Cons(tree: Tree, gap: string, rest: Forest)

  predicate All(s: string, cs: set<char>) {
    forall k :: 0 <= k < |s| ==> s[k] in cs
  }

  predicate Free(s: string, cs: set<char>) {
    forall k :: 0 <= k < |s| ==> s[k] !in cs
  }

  /** An element name or prefix that the scanner takes as one name. */
  predicate PlainName(s: string) {
    s != "" && Free(s, NAME_END) && ':' !in s && s[0] != '?' && s[0] != '!'
  }

  predicate GoodAtt(a: Att) {
    && a.gap != "" && All(a.gap, WHITE)
    && a.name != "" && Free(a.name, ATT_END) && a.name[0] != '/' && a.name[0] != '>'
    && All(a.before, WHITE) && All(a.after, WHITE)
    && (a.quote == '\'' || a.quote == '\"') && a.quote !in a.value
  }

  predicate NoCDataEnd(s: string) {
    forall k :: 0 <= k <= |s| ==> !("]]>" <= s[k..])
  }

  predicate Good(t: Tree) {
    && (t.prefix == "" || PlainName(t.prefix)) && PlainName(t.name)
    && (forall k :: 0 <= k < |t.atts| ==> GoodAtt(t.atts[k]))
    && All(t.pad, WHITE)
    && match t.body
       case SelfClosed => true
       case Text(text) => Free(text, LT)
       case CData(lead, data, trail) => All(lead, WHITE) && NoCDataEnd(data) && Free(trail, LT)
       case Kids(lead, kids) => Free(lead, LT) && kids.Cons? && GoodForest(kids)
  }

  predicate GoodForest(f: Forest) {
    f.Cons? ==> Good(f.tree) && Free(f.gap, LT) && GoodForest(f.rest)
  }

  function Qualified(t: Tree): string {
    if t.prefix == "" then t.name else t.prefix + ":" + t.name
  }

  /** Each of these prints its argument followed by the text `k`. */
  function PrintAtt(a: Att, k: string): string {
    a.gap + (a.name + (a.before + ("=" + (a.after + ([a.quote] + (a.value + ([a.quote] + k)))))))
  }

  function PrintAtts(atts: seq<Att>, k: string): string {
    if atts == [] then k else PrintAtt(atts[0], PrintAtts(atts[1..], k))
  }

  function CloseTag(t: Tree, k: string): string {
    "</" + (Qualified(t) + (">" + k))
  }

  function PrintBody(t: Tree, k: string): string
    decreases t, 0
  {
    match t.body
    case SelfClosed => "/>" + k
    case Text(text) => ">" + (text + CloseTag(t, k))
    case CData(lead, data, trail) => ">" + (lead + (CDATA + (data + ("]]>" + (trail + CloseTag(t, k))))))
    case Kids(lead, kids) => ">" + (lead + PrintForest(kids, CloseTag(t, k)))
  }

  function Print(t: Tree, k: string): string
    decreases t, 1
  {
    "<" + (Qualified(t) + PrintAtts(t.atts, t.pad + PrintBody(t, k)))
  }

  function PrintForest(f: Forest, k: string): string
    decreases f, 2
  {
    match f
    case Nil => k
    case Cons(t, gap, rest) => Print(t, gap + PrintForest(rest, k))
  }

  // ----- what the scanner should report

  function AttEvents(atts: seq<Att>): seq<Event> {
    if atts == [] then [] else [Attribute(atts[0].name, atts[0].value)] + AttEvents(atts[1..])
  }

  function TextEvents(text: string): seq<Event> {
    if text == "" then [] else [CharData(text)]
  }

  /** Start, attributes, contents, end, in order; a self-closed element has no end event. */
  function Events(t: Tree): seq<Event>
    decreases t, 1
  {
    [StartElt(t.name)] + (AttEvents(t.atts) + BodyEvents(t))
  }

  function BodyEvents(t: Tree): seq<Event>
    decreases t, 0
  {
    match t.body
    case SelfClosed => []
    case Text(text) => TextEvents(text) + [EndElt(Qualified(t))]
    case CData(_, data, _) => TextEvents(data) + [EndElt(Qualified(t))]
    case Kids(_, kids) => ForestEvents(kids) + [EndElt(Qualified(t))]
  }

  function ForestEvents(f: Forest): seq<Event>
    decreases f, 2
  {
    match f
    case Nil => []
    case Cons(t, _, rest) => Events(t) + ForestEvents(rest)
  }

  // ----- scanning undoes printing

  lemma WhiteAtts(pad: string, s: string)
    requires All(pad, WHITE)
    ensures Atts(pad + s) == Atts(s)
    decreases |pad|
  {
    if pad == "" {
      assert pad + s == s;
    } else {
      assert (pad + s)[0] in WHITE;
      assert (pad + s)[1..] == pad[1..] + s;
      WhiteAtts(pad[1..], s);
    }
  }

  lemma QuotedValue(name: string, quote: char, value: string, s: string)
    requires (quote == '\'' || quote == '\"') && quote !in value
    ensures AttValue(name, [quote] + (value + ([quote] + s))) == Go([Attribute(name, value)], s)
  {
    var t := [quote] + (value + ([quote] + s));
    var v := value + ([quote] + s);
    assert t[1..] == v;
    UntilAppend(value, [quote] + s, {quote});
    assert v[..|value|] == value && v[|value| + 1..] == s;
  }

  lemma WhiteIsNot(s: string, cs: set<char>)
    requires All(s, WHITE) && WHITE !! cs
    ensures Free(s, cs)
  {
  }

  lemma NameThenEquals(name: string, before: string, v: string)
    requires Free(name, ATT_END) && All(before, WHITE)
    ensures Until(name + (before + ("=" + v)), ATT_END) == |name|
  {
    var t := before + ("=" + v);
    assert t[0] == if before != "" then before[0] else '=';
    assert Until(t, ATT_END) == 0;
    UntilAppend(name, t, ATT_END);
  }

  lemma BlanksThenEquals(before: string, v: string)
    requires All(before, WHITE)
    ensures Until(before + ("=" + v), EQUALS) == |before|
  {
    WhiteIsNot(before, EQUALS);
    assert Until("=" + v, EQUALS) == 0;
    UntilAppend(before, "=" + v, EQUALS);
  }

  lemma Drop(a: string, b: string)
    ensures (a + b)[|a|..] == b && (a + b)[..|a|] == a
  {
  }

  lemma OneAttShape(name: string, before: string, after: string, value: string)
    requires Free(name, ATT_END) && All(before, WHITE) && All(after, WHITE)
    requires value != "" && value[0] !in WHITE
    ensures OneAtt(name + (before + ("=" + (after + value)))) == AttValue(name, value)
  {
    var v := after + value;
    NameThenEquals(name, before, v);
    BlanksThenEquals(before, v);
    Drop(name, before + ("=" + v));
    Drop(before, "=" + v);
    Drop("=", v);
    SpanAppend(after, value, WHITE);
    Drop(after, value);
    assert (before + ("=" + v))[|before| + 1..] == v;
  }

  lemma OneAttPrinted(a: Att, s: string)
    requires GoodAtt(a)
    ensures OneAtt(a.name + (a.before + ("=" + (a.after + ([a.quote] + (a.value + ([a.quote] + s)))))))
         == Go([Attribute(a.name, a.value)], s)
  {
    OneAttShape(a.name, a.before, a.after, [a.quote] + (a.value + ([a.quote] + s)));
    QuotedValue(a.name, a.quote, a.value, s);
  }

  lemma {:induction false} AttsPrinted(atts: seq<Att>, pad: string, s: string)
    requires forall k :: 0 <= k < |atts| ==> GoodAtt(atts[k])
    requires All(pad, WHITE) && s != "" && (s[0] == '/' || s[0] == '>')
    ensures Atts(PrintAtts(atts, pad + s)) == Go(AttEvents(atts), s)
    decreases |atts|
  {
    if atts == [] {
      WhiteAtts(pad, s);
    } else {
      var a, k := atts[0], PrintAtts(atts[1..], pad + s);
      var t := a.name + (a.before + ("=" + (a.after + ([a.quote] + (a.value + ([a.quote] + k))))));
      WhiteAtts(a.gap, t);
      OneAttPrinted(a, k);
      assert t[0] == a.name[0];
      AttsPrinted(atts[1..], pad, s);
    }
  }

  lemma {:induction false} NameRun(s: string, b: nat, i: nat, e: nat)
    requires b <= i <= e < |s| && s[e] in NAME_END
    requires forall k :: i <= k < e ==> s[k] !in NAME_END
    requires forall k :: i < k < e ==> s[k] != ':'
    ensures NameFrom(s, b, i) == Name(b, e)
    decreases e - i
  {
    if i < e {
      assert s[i + 1] != ':';
      NameRun(s, b, i + 1, e);
    }
  }

  lemma {:induction false} PrefixRun(s: string, b: nat, i: nat, c: nat)
    requires b <= i < c < |s| && s[c] == ':'
    requires forall k :: i <= k < c ==> s[k] !in NAME_END
    requires forall k :: i < k < c ==> s[k] != ':'
    ensures NameFrom(s, b, i) == NameFrom(s, c + 1, c + 1)
    decreases c - i
  {
    if i + 1 < c {
      PrefixRun(s, b, i + 1, c);
    }
  }

  /** The scanner reports the name without its prefix. */
  lemma NamePrinted(t: Tree, k: string) returns (b: nat, e: nat)
    requires (t.prefix == "" || PlainName(t.prefix)) && PlainName(t.name) && k != "" && k[0] in NAME_END
    ensures
      var s := Qualified(t) + k;
      NameFrom(s, 0, 0) == Name(b, e) && b < e <= |s| && s[b..e] == t.name && s[e..] == k
  {
    var q := Qualified(t);
    var s := q + k;
    e := |q|;
    b := e - |t.name|;
    assert s[b..] == t.name + k;
    NameEnds(s, b, t.name, k);
    if t.prefix != "" {
      assert forall i :: 0 <= i < |t.prefix| ==> s[i] == t.prefix[i];
      PrefixRun(s, 0, 0, |t.prefix|);
    }
  }

  lemma NameEnds(s: string, b: nat, name: string, k: string)
    requires b <= |s| && s[b..] == name + k && PlainName(name) && k != "" && k[0] in NAME_END
    ensures
      var e := b + |name|;
      NameFrom(s, b, b) == Name(b, e) && e <= |s| && s[b..e] == name && s[e..] == k
  {
    var e := b + |name|;
    assert s[b..e] == s[b..][..|name|] && s[e..] == s[b..][|name|..];
    assert forall i :: b <= i < e ==> s[i] == s[b..][i - b] == name[i - b];
    assert s[e] == s[b..][|name|];
    NameRun(s, b, b, e);
  }

  lemma SpanStops(s: string, c: string)
    requires c != "" && c[0] !in WHITE
    ensures Span(s + c, WHITE) == Span(s, WHITE)
    decreases |s|
  {
    if s != "" && s[0] in WHITE {
      assert (s + c)[1..] == s[1..] + c;
      SpanStops(s[1..], c);
    }
  }

  lemma TextUpToTag(text: string, k: nat, c: string)
    requires Free(text, LT) && k <= |text| && |c| >= 2 && c[0] == '<'
    ensures TextUpTo(text + c, k) == Go(if c[1] == '/' then TextEvents(text) else [], c)
  {
    var x := text[k..];
    var t := (text + c)[k..];
    assert t == x + c;
    assert Until(c, LT) == 0;
    UntilAppend(x, c, LT);
    Drop(x, c);
    assert t[|x| + 1] == c[1];
    Drop(text, c);
  }

  /** Text up to the next tag is reported when that tag is an end tag. */
  lemma ContentsText(text: string, c: string)
    requires Free(text, LT) && |c| >= 2 && c[0] == '<' && c[1] != '!'
    ensures Contents(text + c) == Go(if c[1] == '/' then TextEvents(text) else [], c)
  {
    var k := Span(text, WHITE);
    assert Span(text + c, WHITE) == k by { SpanStops(text, c); }
    var t := (text + c)[k..];
    assert t == text[k..] + c;
    NotCData(text[k..], c);
    TextUpToTag(text, k, c);
  }

  lemma NotCData(x: string, c: string)
    requires Free(x, LT) && |c| >= 2 && c[1] != '!'
    ensures !(CDATA <= x + c)
  {
    var t := x + c;
    assert CDATA[0] == '<' && CDATA[1] == '!';
    assert x != "" ==> t[0] == x[0] != '<';
    assert x == "" ==> t[1] == c[1];
  }

  lemma {:induction false} CDataEndPrinted(data: string, c: string)
    requires NoCDataEnd(data) && c != ""
    ensures CDataEnd(data + ("]]>" + c)) == |data|
    decreases |data|
  {
    var s := data + ("]]>" + c);
    if data == "" {
      assert s == "]]>" + c;
    } else {
      NoEarlyEnd(data, c);
      assert s[1..] == data[1..] + ("]]>" + c);
      assert forall k :: 0 <= k <= |data[1..]| ==> data[1..][k..] == data[k + 1..];
      CDataEndPrinted(data[1..], c);
    }
  }

  /** No "]]>" begins inside the data: its own end marker cannot complete one. */
  lemma NoEarlyEnd(data: string, c: string)
    requires NoCDataEnd(data) && data != ""
    ensures !("]]>" <= data + ("]]>" + c))
  {
    var s := data + ("]]>" + c);
    assert s[2] == if |data| >= 3 then data[2] else ']';
    if |data| >= 3 {
      assert data[0..] == data;
      assert s[0] == data[0] && s[1] == data[1];
    }
  }

  lemma SectionPrinted(data: string, trail: string, c: string)
    requires NoCDataEnd(data) && Free(trail, LT) && c != "" && c[0] == '<'
    ensures CDataSection(data + ("]]>" + (trail + c))) == Go(TextEvents(data), c)
  {
    CDataEndPrinted(data, trail + c);
    Drop(data, "]]>" + (trail + c));
    var junk := "]]>" + trail;
    assert "]]>" + (trail + c) == junk + c;
    assert Free(junk, LT);
    assert Until(c, LT) == 0;
    UntilAppend(junk, c, LT);
    Drop(junk, c);
  }

  lemma ContentsCData(lead: string, d: string)
    requires All(lead, WHITE)
    ensures Contents(lead + (CDATA + d)) == CDataSection(d)
  {
    var t := CDATA + d;
    assert Span(lead + t, WHITE) == |lead| by {
      assert t[0] == CDATA[0] == '<';
      SpanAppend(lead, t, WHITE);
    }
    Drop(lead, t);
    SectionAt(lead + t, |lead|, t, d);
  }

  lemma SectionAt(s: string, k: nat, t: string, d: string)
    requires k <= |s| && Span(s, WHITE) == k && s[k..] == t == CDATA + d
    ensures Contents(s) == CDataSection(d)
  {
    assert CDATA <= t && t[|CDATA|..] == d;
  }

  lemma {:induction false} ScanSkip(text: string, k: string)
    requires Free(text, LT)
    ensures Scan(text + k) == Scan(k)
    decreases |text|
  {
    if text == "" {
      assert text + k == k;
    } else {
      assert (text + k)[1..] == text[1..] + k;
      ScanSkip(text[1..], k);
    }
  }

  lemma ScanClose(t: Tree, k: string)
    requires (t.prefix == "" || PlainName(t.prefix)) && PlainName(t.name)
    ensures Scan(CloseTag(t, k)) == [EndElt(Qualified(t))] + Scan(k)
  {
    var q := Qualified(t);
    var s := "/" + (q + (">" + k));
    assert CloseTag(t, k)[1..] == s;
    assert Tag(s) == EndTag(q + (">" + k)) by {
      assert NameFrom(s, 0, 0) == Name(0, 0);
      Drop("/", q + (">" + k));
    }
    assert EndTag(q + (">" + k)) == Go([EndElt(q)], k) by {
      assert Free(q, GT);
      CloseEnd(q, k);
    }
  }

  lemma CloseEnd(q: string, k: string)
    requires Free(q, GT)
    ensures
      var s := q + (">" + k);
      Until(s, GT) == |q| && s[..|q|] == q && s[|q| + 1..] == k
  {
    assert Until(">" + k, GT) == 0;
    UntilAppend(q, ">" + k, GT);
  }

  /** What a printed tree's start tag yields. */
  lemma TagPrinted(t: Tree, k: string)
    requires Good(t)
    ensures
      var a := AttEvents(t.atts);
      var body := PrintBody(t, k);
      Tag(Qualified(t) + PrintAtts(t.atts, t.pad + body))
      == After([StartElt(t.name)], if t.body.SelfClosed? then Go(a, body) else After(a, Contents(body[1..])))
  {
    var body := PrintBody(t, k);
    var atts := PrintAtts(t.atts, t.pad + body);
    assert body[0] == if t.body.SelfClosed? then '/' else '>';
    AttsPrinted(t.atts, t.pad, body);
    AttsStart(t.atts, t.pad, body);
    var b, e := NamePrinted(t, atts);
  }

  lemma AttsStart(atts: seq<Att>, pad: string, body: string)
    requires forall k :: 0 <= k < |atts| ==> GoodAtt(atts[k])
    requires All(pad, WHITE) && body != "" && body[0] in NAME_END
    ensures PrintAtts(atts, pad + body) != "" && PrintAtts(atts, pad + body)[0] in NAME_END
  {
    if atts == [] {
      assert (pad + body)[0] == if pad == "" then body[0] else pad[0];
    } else {
      assert PrintAtts(atts, pad + body)[0] == atts[0].gap[0];
    }
  }

  lemma ScanTag(t: Tree, k: string, events: seq<Event>, rest: string)
    requires Good(t)
    requires Tag(Qualified(t) + PrintAtts(t.atts, t.pad + PrintBody(t, k))) == Go(events, rest)
    ensures Scan(Print(t, k)) == events + Scan(rest)
  {
    var s := Qualified(t) + PrintAtts(t.atts, t.pad + PrintBody(t, k));
    assert Print(t, k)[1..] == s;
    assert s[0] == if t.prefix == "" then t.name[0] else t.prefix[0];
  }

  /** What follows a start tag, up to the next tag. */
  lemma BodyPrinted(t: Tree, k: string)
    requires Good(t) && !t.body.SelfClosed?
    ensures
      var c := CloseTag(t, k);
      Contents(PrintBody(t, k)[1..]) ==
        match t.body
        case Text(text) => Go(TextEvents(text), c)
        case CData(_, data, _) => Go(TextEvents(data), c)
        case Kids(_, kids) => Go([], PrintForest(kids, c))
  {
    var c := CloseTag(t, k);
    match t.body {
      case Text(text) =>
        Drop(">", text + c);
        ContentsText(text, c);
      case CData(lead, data, trail) =>
        var d := data + ("]]>" + (trail + c));
        Drop(">", lead + (CDATA + d));
        ContentsCData(lead, d);
        SectionPrinted(data, trail, c);
      case Kids(lead, kids) =>
        var f := PrintForest(kids, c);
        Drop(">", lead + f);
        ForestStart(kids, c);
        ContentsText(lead, f);
    }
  }

  lemma ForestStart(f: Forest, k: string)
    requires f.Cons? && GoodForest(f)
    ensures
      var s := PrintForest(f, k);
      |s| >= 2 && s[0] == '<' && s[1] != '!' && s[1] != '/'
  {
    var t := f.tree;
    var q := Qualified(t);
    assert q[0] == if t.prefix == "" then t.name[0] else t.prefix[0];
    var after := PrintAtts(t.atts, t.pad + PrintBody(t, f.gap + PrintForest(f.rest, k)));
    assert PrintForest(f, k) == "<" + (q + after);
  }

  /**
   Scanning undoes printing: from any position, the scanner reports exactly the
   events of the printed tree, in order, and goes on right behind it.
   */
  lemma {:induction false} ScanPrinted(t: Tree, k: string)
    requires Good(t)
    ensures Scan(Print(t, k)) == Events(t) + Scan(k)
    decreases t, 1
  {
    var start, a := [StartElt(t.name)], AttEvents(t.atts);
    var body := PrintBody(t, k);
    TagPrinted(t, k);
    if t.body.SelfClosed? {
      ScanTag(t, k, start + a, body);
      assert body == "/>" + k;
      assert Free("/>", LT);
      ScanSkip("/>", k);
      assert a + [] == a;
    } else {
      BodyPrinted(t, k);
      var c := Contents(body[1..]);
      ScanTag(t, k, start + (a + c.events), c.rest);
      ScanBody(t, k);
      Regroup(start, a + c.events, Scan(c.rest));
      Regroup(a, c.events, Scan(c.rest));
      Regroup(a, BodyEvents(t), Scan(k));
      Regroup(start, a + BodyEvents(t), Scan(k));
    }
  }

  lemma {:induction false} ScanBody(t: Tree, k: string)
    requires Good(t) && !t.body.SelfClosed?
    ensures
      var c := Contents(PrintBody(t, k)[1..]);
      c.Go? && c.events + Scan(c.rest) == BodyEvents(t) + Scan(k)
    decreases t, 0
  {
    BodyPrinted(t, k);
    ScanClose(t, k);
    var end := [EndElt(Qualified(t))];
    match t.body {
      case Text(text) => Regroup(TextEvents(text), end, Scan(k));
      case CData(_, data, _) => Regroup(TextEvents(data), end, Scan(k));
      case Kids(_, kids) =>
        ScanForest(kids, CloseTag(t, k));
        Regroup(ForestEvents(kids), end, Scan(k));
    }
  }

  lemma {:induction false} ScanForest(f: Forest, k: string)
    requires GoodForest(f)
    ensures Scan(PrintForest(f, k)) == ForestEvents(f) + Scan(k)
    decreases f, 2
  {
    if f.Cons? {
      var rest := PrintForest(f.rest, k);
      ScanPrinted(f.tree, f.gap + rest);
      ScanSkip(f.gap, rest);
      ScanForest(f.rest, k);
      Regroup(Events(f.tree), ForestEvents(f.rest), Scan(k));
    }
  }

  /** A whole document: an optional processing instruction, the root element, trailing text. */
  lemma ScanDocument(pi: string, root: Tree, epilog: string)
    requires Good(root) && Free(pi, LT) && Free(epilog, LT)
    ensures Scan(Print(root, epilog)) == Events(root)
    ensures Scan("<?" + (pi + Print(root, epilog))) == Events(root)
  {
    ScanRoot(root, epilog);
    ScanInstruction(pi, Print(root, epilog));
  }

  lemma ScanRoot(root: Tree, epilog: string)
    requires Good(root) && Free(epilog, LT)
    ensures Scan(Print(root, epilog)) == Events(root)
  {
    ScanPrinted(root, epilog);
    assert Scan(epilog) == [] by {
      ScanSkip(epilog, "");
      assert epilog + "" == epilog;
    }
    assert Events(root) + [] == Events(root);
  }

  lemma ScanInstruction(pi: string, doc: string)
    requires Free(pi, LT)
    ensures Scan("<?" + (pi + doc)) == Scan(doc)
  {
    var s := "<?" + (pi + doc);
    assert s[1..] == ("?" + pi) + doc;
    ScanSkip("?" + pi, doc);
  }
}
