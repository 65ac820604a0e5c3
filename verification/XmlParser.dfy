/**
 The xmlparser structure of minixml: a cursor that `parseatt` and `parseelt` move
 through the text while they call back.  Each method is proved to do what the
 functions of module Xml say of the text that is left.
 */
module XmlParser {
  import opened Sequences
  import opened Text
  import opened Xml

  lemma Slices(s: string, i: nat, j: nat)
    requires i <= j <= |s|
    ensures s[i..][..j - i] == s[i..j] && s[i..][j - i..] == s[j..]
  {
  }

  lemma TextUpToUnfold(text: string, data: nat, start: nat, pos: nat)
    requires data <= start < |text| && pos == start + Until(text[start..], LT)
    ensures TextUpTo(text[data..], start - data) ==
      if pos > start && pos + 1 >= |text| then Halt([])
      else if pos > data && pos + 1 < |text| && text[pos + 1] == '/' then Go([CharData(text[data..pos])], text[pos..])
      else Go([], text[pos..])
  {
    Slices(text, data, start);
    Slices(text, start, pos);
    Slices(text, data, pos);
    var t := text[start..];
    assert pos + 1 < |text| ==> t[pos - start + 1] == text[pos + 1];
  }

  lemma ContentsUnfold(s: string, k: nat, t: string)
    requires k == Span(s, WHITE) && t == s[k..] && t != ""
    ensures Contents(s) == if CDATA <= t then CDataSection(t[|CDATA|..]) else TextUpTo(s, k)
  {
  }

  class Parser {
    const text: string
    /** the `xml` pointer, as an offset into the text */
    var pos: nat
    /** the callbacks made so far */
    var log: seq<Event>

    constructor (xml: string)
      ensures Valid() && text == xml && pos == 0 && log == []
    {
      text, pos, log := xml, 0, [];
    }

    ghost predicate Valid()
      reads this
    {
      pos <= |text|
    }

    /** The text that is left. */
    ghost function Left(): string
      requires Valid()
      reads this
    {
      text[pos..]
    }

    /** `while(*p->xml is not in stops) p->xml++;`, stopping at the end of the text. */
    method SkipUntil(stops: set<char>)
      requires Valid()
      modifies this`pos
      ensures Valid() && pos == old(pos) + Until(old(Left()), stops)
    {
      ghost var start := Left();
      while pos < |text| && text[pos] !in stops
        invariant old(pos) <= pos <= |text|
        invariant Until(start, stops) == pos - old(pos) + Until(text[pos..], stops)
      {
        assert text[pos..][1..] == text[pos + 1..];
        pos := pos + 1;
      }
    }

    /** `while(*p->xml is in cs) p->xml++;`, stopping at the end of the text. */
    method SkipWhile(cs: set<char>)
      requires Valid()
      modifies this`pos
      ensures Valid() && pos == old(pos) + Span(old(Left()), cs)
    {
      ghost var start := Left();
      while pos < |text| && text[pos] in cs
        invariant old(pos) <= pos <= |text|
        invariant Span(start, cs) == pos - old(pos) + Span(text[pos..], cs)
      {
        assert text[pos..][1..] == text[pos + 1..];
        pos := pos + 1;
      }
    }

    /** The outcome `r` of a scan is what happened to the parser. */
    ghost predicate Done(r: Scanned, before: seq<Event>, halt: bool)
      requires Valid()
      reads this
    {
      && halt == r.Halt?
      && log == before + r.events
      && (r.Go? ==> Left() == r.rest)
    }

    /** The value part of an attribute called `name`, and the step past it. */
    method ParseValue(name: string) returns (halt: bool)
      requires Valid()
      modifies this
      ensures Valid() && Done(AttValue(name, old(Left())), old(log), halt)
    {
      ghost var s := Left();
      assert log + [] == log;
      if pos >= |text| {
        return true;
      }
      var sep := text[pos];
      var value;
      if sep == '\'' || sep == '\"' {
        pos := pos + 1;
        assert Left() == s[1..];
        value := pos;
        SkipUntil({sep});
        assert text[value..pos] == s[1..][..pos - value];
      } else {
        value := pos;
        SkipUntil(NAME_END);
        assert text[value..pos] == s[..pos - value];
      }
      if pos >= |text| {
        return true;
      }
      log := log + [Attribute(name, text[value..pos])];
      pos := pos + 1;
      halt := false;
    }

    /** One attribute, from its name. */
    method ParseAfterEquals(name: string) returns (halt: bool)
      requires Valid()
      modifies this
      ensures Valid() && Done(AfterEquals(name, old(Left())), old(log), halt)
    {
      var at := pos;
      SkipWhile(WHITE);
      Slices(text, at, pos);
      halt := ParseValue(name);
    }

    method ParseAfterName(name: string) returns (halt: bool)
      requires Valid()
      modifies this
      ensures Valid() && Done(AfterName(name, old(Left())), old(log), halt)
    {
      assert log + [] == log;
      var at := pos;
      SkipUntil(EQUALS);
      if pos >= |text| {
        return true;
      }
      pos := pos + 1;
      Slices(text, at, pos);
      halt := ParseAfterEquals(name);
    }

    method ParseOneAtt() returns (halt: bool)
      requires Valid()
      modifies this
      ensures Valid() && Done(OneAtt(old(Left())), old(log), halt)
    {
      ghost var s := Left();
      var start := pos;
      SkipUntil(ATT_END);
      var name := text[start..pos];
      assert OneAtt(s) == AfterName(name, Left()) by { Slices(text, start, pos); }
      halt := ParseAfterName(name);
    }

    /** `parseatt` */
    method ParseAtt() returns (halt: bool)
      requires Valid()
      modifies this
      ensures Valid() && Done(Atts(old(Left())), old(log), halt)
    {
      ghost var s := Left();
      ghost var made: seq<Event> := [];
      assert log + [] == log;
      while pos < |text|
        invariant Valid() && log == old(log) + made
        invariant Atts(s) == After(made, Atts(Left()))
        decreases |text| - pos
      {
        if text[pos] == '/' || text[pos] == '>' {
          assert made + [] == made;
          return false;
        }
        ghost var here := Left();
        if text[pos] !in WHITE {
          ghost var before := log;
          halt := ParseOneAtt();
          ghost var a := OneAtt(here);
          Regroup(old(log), made, a.events);
          if halt {
            return true;
          }
          Regroup(made, a.events, Atts(a.rest).events);
          made := made + a.events;
        } else {
          pos := pos + 1;
          assert Left() == here[1..];
        }
      }
      assert made + [] == made;
      halt := true;
    }

    /** The CDATA loop: advances to the "]]>" that ends the section. */
    method SkipCData() returns (halt: bool)
      requires Valid()
      modifies this`pos
      ensures Valid() && halt == (CDataEnd(old(Left())) + 3 > |old(Left())|)
      ensures !halt ==> pos == old(pos) + CDataEnd(old(Left()))
    {
      ghost var start := Left();
      while !("]]>" <= text[pos..])
        invariant old(pos) <= pos <= |text|
        invariant CDataEnd(start) == pos - old(pos) + CDataEnd(text[pos..])
        decreases |text| - pos
      {
        if pos + 4 >= |text| {
          return true;
        }
        assert text[pos..][1..] == text[pos + 1..];
        pos := pos + 1;
      }
      halt := false;
    }

    /** What follows the data of a section, up to the next '<'. */
    method ParseAfterData(ghost before: seq<Event>, ghost data: seq<Event>) returns (halt: bool)
      requires Valid() && log == before + data
      modifies this`pos
      ensures Valid() && Done(AfterData(data, old(Left())), before, halt)
    {
      var at := pos;
      SkipUntil(LT);
      Slices(text, at, pos);
      halt := pos >= |text|;
    }

    method ParseCData() returns (halt: bool)
      requires Valid()
      modifies this
      ensures Valid() && Done(CDataSection(old(Left())), old(log), halt)
    {
      ghost var before, d := log, Left();
      assert log + [] == log;
      var data := pos;
      halt := SkipCData();
      if halt {
        return;
      }
      ghost var events := if pos > data then [CharData(text[data..pos])] else [];
      assert CDataSection(d) == AfterData(events, Left()) by { Slices(text, data, pos); }
      if pos > data {
        log := log + [CharData(text[data..pos])];
      }
      halt := ParseAfterData(before, events);
    }

    /** Plain text that began at `data`, up to the next '<'. */
    method ParseText(data: nat) returns (halt: bool)
      requires Valid() && data <= pos < |text|
      modifies this
      ensures Valid() && pos == old(pos) + Until(old(Left()), LT)
      ensures halt == (pos > old(pos) && pos + 1 >= |text|)
      ensures log == if !halt && pos > data && pos + 1 < |text| && text[pos + 1] == '/'
                     then old(log) + [CharData(text[data..pos])] else old(log)
    {
      var start := pos;
      SkipUntil(LT);
      if pos > start && pos + 1 >= |text| {
        return true;
      }
      if pos > data && pos + 1 < |text| && text[pos + 1] == '/' {
        log := log + [CharData(text[data..pos])];
      }
      halt := false;
    }

    method ParsePlain(data: nat) returns (halt: bool)
      requires Valid() && data <= pos < |text|
      modifies this
      ensures Valid() && Done(TextUpTo(text[data..], old(pos) - data), old(log), halt)
    {
      ghost var start := pos;
      ghost var before := log;
      halt := ParseText(data);
      TextUpToUnfold(text, data, start, pos);
      assert before + [] == before;
    }

    method ParseContents() returns (halt: bool)
      requires Valid()
      modifies this
      ensures Valid() && Done(Contents(old(Left())), old(log), halt)
    {
      ghost var s := Left();
      ghost var before := log;
      assert before + [] == before;
      var data := pos;
      SkipWhile(WHITE);
      Slices(text, data, pos);
      if pos >= |text| {
        return true;
      }
      ContentsUnfold(s, pos - data, Left());
      ghost var r := Contents(s);
      halt := ParseNonBlank(data, r);
    }

    method ParseNonBlank(data: nat, ghost r: Scanned) returns (halt: bool)
      requires Valid() && data <= pos < |text|
      requires r == if CDATA <= Left() then CDataSection(Left()[|CDATA|..]) else TextUpTo(text[data..], pos - data)
      modifies this
      ensures Valid() && Done(r, old(log), halt)
    {
      if CDATA <= text[pos..] {
        Slices(text, pos, pos + |CDATA|);
        pos := pos + |CDATA|;
        halt := ParseCData();
      } else {
        halt := ParsePlain(data);
      }
    }

    /** The name loop of `parseelt`, from just after '<'; `b` is where the name starts. */
    method ParseName() returns (halt: bool, b: nat)
      requires Valid()
      modifies this`pos
      ensures Valid() && old(pos) <= pos
      ensures
        var r := NameFrom(old(Left()), 0, 0);
        halt == r.NoName? && (r.Name? ==> old(pos) + r.start == b <= pos == old(pos) + r.end < |text|)
    {
      ghost var s := Left();
      ghost var p := pos;
      b := pos;
      while pos < |text| && text[pos] !in NAME_END
        invariant p <= b <= pos <= |text|
        invariant s == text[p..] && NameFrom(s, 0, 0) == NameFrom(s, b - p, pos - p)
        decreases |text| - pos
      {
        pos := pos + 1;
        if pos >= |text| {
          return true, b;
        }
        if text[pos] == ':' {
          pos := pos + 1;
          b := pos;
        }
      }
      halt := pos >= |text|;
    }

    method ParseStartTag() returns (halt: bool)
      requires Valid()
      modifies this
      ensures Valid() && Done(StartTag(old(Left())), old(log), halt)
    {
      ghost var before := log;
      ghost var a := Atts(Left());
      halt := ParseAtt();
      if halt {
        return;
      }
      if text[pos] != '/' {
        pos := pos + 1;
        assert Left() == a.rest[1..];
        ghost var c := Contents(Left());
        halt := ParseContents();
        Regroup(before, a.events, c.events);
      }
    }

    method ParseEndTag() returns (halt: bool)
      requires Valid()
      modifies this
      ensures Valid() && Done(EndTag(old(Left())), old(log), halt)
    {
      assert log + [] == log;
      var start := pos;
      SkipUntil(GT);
      Slices(text, start, pos);
      if pos >= |text| {
        return true;
      }
      log := log + [EndElt(text[start..pos])];
      Slices(text, start, pos + 1);
      pos := pos + 1;
      halt := false;
    }

    /** One tag, after its '<'. */
    method ParseTag() returns (halt: bool)
      requires Valid()
      modifies this
      ensures Valid() && Done(Tag(old(Left())), old(log), halt)
    {
      assert log + [] == log;
      ghost var s := Left();
      ghost var p := pos;
      ghost var before := log;
      var b;
      halt, b := ParseName();
      if halt {
        return;
      }
      Slices(text, p, pos);
      if pos > b {
        assert s[b - p..pos - p] == text[b..pos];
        ghost var start := [StartElt(text[b..pos])];
        ghost var r := StartTag(Left());
        log := log + [StartElt(text[b..pos])];
        halt := ParseStartTag();
        Regroup(before, start, r.events);
      } else if text[pos] == '/' {
        pos := pos + 1;
        Slices(text, p, pos);
        halt := ParseEndTag();
      } else {
        halt := false;
      }
    }

    /** `parseelt` on the whole text, as `parsexml` calls it. */
    method ParseElt()
      requires Valid() && pos == 0 && log == []
      modifies this
      ensures log == Scan(text)
    {
      assert text[0..] == text;
      while pos + 1 < |text|
        invariant Valid()
        invariant log + Scan(Left()) == Scan(text)
        decreases |text| - pos
      {
        ghost var s := Left();
        if text[pos] == '<' && text[pos + 1] != '?' {
          ghost var before := log;
          pos := pos + 1;
          assert Left() == s[1..];
          ghost var r := Tag(Left());
          var halt := ParseTag();
          if halt {
            return;
          }
          Regroup(before, r.events, Scan(r.rest));
        } else {
          pos := pos + 1;
          assert Left() == s[1..];
        }
      }
      assert log + [] == log;
    }
  }

  /** `parsexml`: what is called back for the text `xml`. */
  method ParseXml(xml: string) returns (events: seq<Event>)
    ensures events == Scan(xml)
  {
    var p := new Parser(xml);
    p.ParseElt();
    events := p.log;
  }
}
