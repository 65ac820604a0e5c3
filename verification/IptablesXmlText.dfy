/**
 The input of iptables-xml as text: which kind of line it is, how a rule line is
 split into arguments, and the conversion of a whole file.  A line is what `fgets`
 leaves in the buffer.
 */
module IptablesXmlText {
  import opened Sequences
  import opened Text
  import opened IptablesXml
  import opened IptablesXmlConverter
  import Tokenizer

  // ----- splitting a rule line

  /** The arguments, and how the splitting ended. */
  datatype Split = Split(args: seq<Arg>, end: Tokenizer.End)

  function Cons(a: Arg, s: Split): Split {
    Split([a] + s.args, s.end)
  }

  /**
   The arguments in the line from `i` on, the current one starting at `start`, inside a quote when `open`; `quoted`
   tells that a quote was opened since the last argument.
   */
  function SplitFrom(line: string, i: nat, open: bool, start: nat, quoted: bool): Split
    requires start <= i
    decreases |line| - i
  {
    if i >= |line| then Split([], Tokenizer.Done)
    else
      var c := line[i];
      if c == '"' && (!open || Tokenizer.Escaped(line, i)) then SplitFrom(line, i + 1, true, start + 1, true)
      else if c == '"' || (Tokenizer.Blank(c) && !open) then
        if start == i then SplitFrom(line, i + 1, false, i + 1, quoted)
        else if i - start >= Tokenizer.BUFFER_SIZE then Split([], Tokenizer.Overrun)
        else Cons(Arg(line[start..i], quoted), SplitFrom(line, i + 1, false, i + 1, false))
      else SplitFrom(line, i + 1, open, start, quoted)
  }

  function Words(args: seq<Arg>): seq<string> {
    if args == [] then [] else [args[0].text] + Words(args[1..])
  }

  /** The words are those of the IPv6 restore program's splitting, whatever the line. */
  lemma {:induction false} SplitsAlike(line: string, i: nat, open: bool, start: nat, quoted: bool)
    requires start <= i
    ensures
      var s, l := SplitFrom(line, i, open, start, quoted), Tokenizer.Cut(line, i, open, start);
      Words(s.args) == l.words && s.end == l.end
    decreases |line| - i
  {
    if i < |line| {
      var c := line[i];
      if c == '"' && (!open || Tokenizer.Escaped(line, i)) {
        SplitsAlike(line, i + 1, true, start + 1, true);
      } else if c == '"' || (Tokenizer.Blank(c) && !open) {
        SplitsAlike(line, i + 1, false, i + 1, if start == i then quoted else false);
        var rest := SplitFrom(line, i + 1, false, i + 1, false);
        assert ([Arg(line[start..i], quoted)] + rest.args)[1..] == rest.args;
      } else {
        SplitsAlike(line, i + 1, open, start, quoted);
      }
    }
  }

  /** `add_argv` */
  function Add(args: seq<Arg>, a: Arg): seq<Arg> {
    if |args| + 1 < Tokenizer.ARGV_SIZE then args + [a] else args
  }

  /** The line with these arguments behind `done`; nothing when an argument overran its buffer. */
  function Judge(done: seq<Arg>, s: Split): Option<Line>
    decreases |s.args|
  {
    if s.args == [] then (if s.end.Done? then Some(RuleLine(done)) else None)
    else if Tokenizer.NamesTable(s.args[0].text) then Some(Bad)
    else Judge(Add(done, s.args[0]), Split(s.args[1..], s.end))
  }

  lemma JudgeCons(done: seq<Arg>, a: Arg, s: Split)
    ensures Judge(done, Cons(a, s)) == if Tokenizer.NamesTable(a.text) then Some(Bad) else Judge(Add(done, a), s)
  {
    assert Cons(a, s).args[1..] == s.args;
  }

  /** The rule line whose arguments stand from `from` on. */
  function RuleOf(text: string, from: nat): Option<Line> {
    Judge([], SplitFrom(text, from, false, from, false))
  }

  /** The loop over the characters of `line` up to `to`; it overwrites closing quotes with blanks as it goes. */
  method SplitRule(line: array<char>, from: nat, to: nat) returns (r: Option<Line>)
    requires from <= to <= line.Length
    modifies line
    ensures r == RuleOf(old(line[..to]), from)
  {
    ghost var text := line[..to];
    ghost var whole := RuleOf(text, from);
    var args, open, quoted, start := [], false, false, from;
    var i := from;
    while i < to
      invariant from <= start <= i <= to
      invariant forall j :: start <= j < to ==> line[j] == text[j]
      invariant i > from ==> (line[i - 1] == '\\' <==> text[i - 1] == '\\')
      invariant open ==> i > from
      invariant Judge(args, SplitFrom(text, i, open, start, quoted)) == whole
    {
      var c := line[i];
      if c == '"' {
        if open && line[i - 1] != '\\' {
          open := false;
          line[i] := ' ';
          c := ' ';
        } else {
          open, quoted := true, true;
          start := start + 1;
        }
      }
      if Tokenizer.Blank(c) && !open {
        var len := i - start;
        if len == 0 {
          start := start + 1;
        } else if len >= Tokenizer.BUFFER_SIZE {
          return None;
        } else {
          var word := line[start..i];
          assert word == text[start..i] by {
            assert forall j :: 0 <= j < |word| ==> word[j] == line[start + j];
          }
          JudgeCons(args, Arg(word, quoted), SplitFrom(text, i + 1, false, i + 1, false));
          if Tokenizer.NamesTable(word) {
            return Some(Bad);
          }
          args := Add(args, Arg(word, quoted));
          quoted := false;
          start := start + len + 1;
        }
      }
      i := i + 1;
    }
    r := Some(RuleLine(args));
  }

  // ----- the kinds of lines

  const BLANKS: set<char> := {' ', '\t', '\n'}

  lemma {:induction false} SpanEnds(s: string, cs: set<char>)
    ensures Span(s, cs) < |s| ==> s[Span(s, cs)] !in cs
  {
    if s != "" && s[0] in cs {
      SpanEnds(s[1..], cs);
    }
  }

  /** `strtok(s, " \t\n")`: the first word and what follows it. */
  datatype Token = NoToken | Token(word: string, rest: string)

  function NextWord(s: string): (t: Token)
    ensures t.Token? ==> t.word != ""
  {
    var k := Span(s, BLANKS);
    var w := s[k..];
    if w == "" then NoToken
    else
      SpanEnds(s, BLANKS);
      var n := Until(w, BLANKS);
      Token(w[..n], if n < |w| then w[n + 1..] else "")
  }

  /**
   Where the arguments of a rule line stand.  Counters in front, as in "[1:2]", are cut off with `strtok`, which
   ends the line at the colon or the bracket that it stops at when these come later.
   */
  function RuleSpan(text: string): (r: Option<(nat, nat)>)
    ensures r.Some? ==> r.value.0 <= r.value.1 <= |text|
  {
    if text == "" || text[0] != '[' then Some((0, |text|))
    else
      var close := Until(text, {']'});
      if close == |text| then None
      else
        var skip := 1 + Span(text[1..], {':'});
        var colon := skip + Until(text[skip..], {':'});
        if colon == |text| then None
        else
          var bytes := colon + 1 + Span(text[colon + 1..], {']'});
          if bytes == |text| then None
          else
            var end := bytes + Until(text[bytes..], {']'});
            Some((close + 1, if close < colon then colon else if close < end then end else |text|))
  }

  /** The line that the text is; nothing when an argument of a rule overruns its buffer. */
  function Parse(text: string): Option<Line> {
    if text != "" && (text[0] == '\n' || text[0] == '#') then Some(Remark)
    else if text == "COMMIT\n" then Some(Commit)
    else if text != "" && text[0] == '*' then
      var name := NextWord(text[1..]);
      Some(if name.NoToken? then Bad else NewTable(name.word))
    else if text != "" && text[0] == ':' then
      var name := NextWord(text[1..]);
      Some(if name.NoToken? || NextWord(name.rest).NoToken? then Bad else NewChain(name.word))
    else
      var span := RuleSpan(text);
      if span.None? then Some(Bad) else RuleOf(text[..span.value.1], span.value.0)
  }

  lemma {:induction false} JudgeKind(done: seq<Arg>, s: Split)
    ensures Judge(done, s).Some? ==> Judge(done, s).value.RuleLine? || Judge(done, s).value.Bad?
    decreases |s.args|
  {
    if s.args != [] {
      JudgeKind(Add(done, s.args[0]), Split(s.args[1..], s.end));
    }
  }

  /** Whatever the text, names of tables and chains are not empty. */
  lemma ParseGood(text: string)
    ensures Parse(text).Some? ==> GoodLine(Parse(text).value)
  {
    var span := RuleSpan(text);
    if span.Some? {
      JudgeKind([], SplitFrom(text[..span.value.1], span.value.0, false, span.value.0, false));
    }
  }

  method ParseLine(buffer: array<char>) returns (r: Option<Line>)
    modifies buffer
    ensures r == Parse(old(buffer[..]))
  {
    var text := buffer[..];
    if text != "" && (text[0] == '\n' || text[0] == '#') {
      return Some(Remark);
    }
    if text == "COMMIT\n" {
      return Some(Commit);
    }
    if text != "" && text[0] == '*' {
      var name := NextWord(text[1..]);
      return Some(if name.NoToken? then Bad else NewTable(name.word));
    }
    if text != "" && text[0] == ':' {
      var name := NextWord(text[1..]);
      return Some(if name.NoToken? || NextWord(name.rest).NoToken? then Bad else NewChain(name.word));
    }
    var span := RuleSpan(text);
    if span.None? {
      return Some(Bad);
    }
    assert buffer[..span.value.1] == text[..span.value.1];
    r := SplitRule(buffer, span.value.0, span.value.1);
  }

  // ----- a whole file

  /**
   `Overran`: an argument was written past its buffer.  `Crashed`: a null pointer was read, because a rule names no chain
   or ends with a target word.
   */
  datatype Conversion = Output(toks: seq<Tok>) | GivenUp | Overran | Crashed

  /** What becomes of a file whose next line is not accepted. */
  function Stopped(table: string, line: Line): Conversion {
    if line.RuleLine? && table != "" then Crashed else GivenUp
  }

  function RunTexts(d: Doc, texts: seq<string>, combine: bool): Conversion
    decreases |texts|
  {
    if texts == [] then (if d.table != "" then GivenUp else Output(d.out + [Close(Root)]))
    else
      var line := Parse(texts[0]);
      if line.None? then (if d.table == "" then GivenUp else Overran)
      else
        var d' := Step(d, line.value, combine);
        if d'.None? then Stopped(d.table, line.value) else RunTexts(d'.value, texts[1..], combine)
  }

  /** The lines of a file; one that overruns is not looked at further. */
  function LinesOf(texts: seq<string>): seq<Line> {
    if texts == [] then []
    else [if Parse(texts[0]).Some? then Parse(texts[0]).value else Bad] + LinesOf(texts[1..])
  }

  lemma {:induction false} LinesGood(texts: seq<string>)
    ensures forall k :: 0 <= k < |LinesOf(texts)| ==> GoodLine(LinesOf(texts)[k])
  {
    if texts != [] {
      ParseGood(texts[0]);
      LinesGood(texts[1..]);
    }
  }

  lemma {:induction false} RunTextsIs(d: Doc, texts: seq<string>, combine: bool)
    requires RunTexts(d, texts, combine).Output?
    ensures
      var r := Run(d, LinesOf(texts), combine);
      r.Some? && r.value.table == "" && RunTexts(d, texts, combine) == Output(r.value.out + [Close(Root)])
    decreases |texts|
  {
    if texts != [] {
      var line := Parse(texts[0]);
      assert LinesOf(texts)[1..] == LinesOf(texts[1..]);
      RunTextsIs(Step(d, line.value, combine).value, texts[1..], combine);
    }
  }

  /** Every text is a line, and the lines are converted: so is the file. */
  lemma {:induction false} RunTextsWhen(d: Doc, texts: seq<string>, combine: bool)
    requires forall k :: 0 <= k < |texts| ==> Parse(texts[k]).Some?
    requires
      var r := Run(d, LinesOf(texts), combine);
      r.Some? && r.value.table == ""
    ensures RunTexts(d, texts, combine).Output?
    decreases |texts|
  {
    if texts != [] {
      var line := Parse(texts[0]);
      assert LinesOf(texts)[1..] == LinesOf(texts[1..]);
      RunTextsWhen(Step(d, line.value, combine).value, texts[1..], combine);
    }
  }

  /**
   For every file that is converted: the output is balanced, or properly nested, exactly when the file's lines are
   orderly.
   */
  lemma FileExactly(texts: seq<string>, combine: bool)
    requires RunTexts(Begin, texts, combine).Output?
    ensures
      var out := RunTexts(Begin, texts, combine).toks;
      && (Balanced(out) <==> Orderly(Begin, LinesOf(texts), combine, false))
      && (Proper(out) <==> Orderly(Begin, LinesOf(texts), combine, true))
  {
    RunTextsIs(Begin, texts, combine);
    LinesGood(texts);
    BalancedExactly(LinesOf(texts), combine);
    ProperExactly(LinesOf(texts), combine);
  }

  /** The loop of `main` over the lines of the file. */
  method ConvertFile(texts: seq<string>, combine: bool) returns (r: Conversion)
    ensures r == RunTexts(Begin, texts, combine)
  {
    var c := new Converter(combine);
    var k := 0;
    assert texts[0..] == texts;
    while k < |texts|
      invariant 0 <= k <= |texts| && c.combine == combine && fresh(c)
      invariant RunTexts(c.Now(), texts[k..], combine) == RunTexts(Begin, texts, combine)
    {
      assert texts[k..][1..] == texts[k + 1..];
      var text := texts[k];
      var buffer := new char[|text|](i requires 0 <= i < |text| => text[i]);
      assert buffer[..] == text;
      var line := ParseLine(buffer);
      if line.None? {
        return if c.table == "" then GivenUp else Overran;
      }
      var table := c.table;
      var ok := c.ProcessLine(line.value);
      if !ok {
        return Stopped(table, line.value);
      }
      k := k + 1;
    }
    r := if c.table != "" then GivenUp else Output(c.out + [Close(Root)]);
  }
}
