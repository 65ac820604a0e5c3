/**
 Files as iptables-save prints them, read by iptables-xml: which rules come back
 as they were, and that whole files with declared chains are converted to a
 balanced output.
 */
module IptablesXmlSaved {
  import opened Sequences
  import opened Text
  import opened IptablesXml
  import opened IptablesXmlText
  import Tokenizer

  // ----- arguments with quotes inside

  /** The number of double quotes. */
  function Quotes(w: string): nat {
    if w == "" then 0 else (if w[0] == '"' then 1 else 0) + Quotes(w[1..])
  }

  lemma {:induction false} EscapePlain(w: string)
    requires '"' !in w
    ensures Tokenizer.Escape(w) == w && Quotes(w) == 0
  {
    if w != "" {
      EscapePlain(w[1..]);
    }
  }

  lemma {:induction false} EscapeAppend(u: string, v: string)
    ensures Tokenizer.Escape(u + v) == Tokenizer.Escape(u) + Tokenizer.Escape(v) && Quotes(u + v) == Quotes(u) + Quotes(v)
  {
    if u == "" {
      assert u + v == v;
    } else {
      assert (u + v)[1..] == u[1..] + v;
      EscapeAppend(u[1..], v);
    }
  }

  lemma {:induction false} EscapeLength(w: string)
    ensures |Tokenizer.Escape(w)| == |w| + Quotes(w)
  {
    if w != "" {
      EscapeLength(w[1..]);
    }
  }

  lemma {:induction false} LastQuote(w: string) returns (a: string, b: string)
    requires '"' in w
    ensures w == a + ['"'] + b && '"' !in b
  {
    if '"' in w[1..] {
      var a';
      a', b := LastQuote(w[1..]);
      a := [w[0]] + a';
    } else {
      a, b := "", w[1..];
    }
  }

  /** The escaped text around the last quote. */
  lemma AroundQuote(a: string, b: string)
    requires '"' !in b
    ensures
      var w := a + ['"'] + b;
      Tokenizer.Escape(w) == Tokenizer.Escape(a) + ['\\', '"'] + b && Quotes(w) == Quotes(a) + 1
  {
    EscapeAppend(a, ['"']);
    EscapeAppend(a + ['"'], b);
    EscapePlain(b);
    var quote := ['"'];
    assert quote[1..] == [];
    assert Tokenizer.Escape(quote) == ['\\', '"'] && Quotes(quote) == 1;
  }

  /** No quote, or just one, with only backslashes before it. */
  predicate Straight(w: string) {
    var k := Until(w, {'"'});
    k == |w| || (Tokenizer.Slashes(w[..k]) && '"' !in w[k + 1..])
  }

  lemma StraightNone(w: string)
    requires '"' !in w
    ensures Straight(w)
  {
    UntilIs(w, {'"'}, |w|);
  }

  lemma StraightOne(a: string, b: string)
    requires '"' !in a && '"' !in b
    ensures Straight(a + ['"'] + b) <==> Tokenizer.Slashes(a)
  {
    var w := a + ['"'] + b;
    assert forall k :: 0 <= k < |a| ==> w[k] == a[k] && a[k] in a;
    UntilIs(w, {'"'}, |a|);
    assert w[..|a|] == a && w[|a| + 1..] == b;
  }

  lemma StraightMore(a: string, b: string)
    requires '"' in a
    ensures !Straight(a + ['"'] + b)
  {
    var w, k := a + ['"'] + b, Until(a, {'"'});
    UntilFinds(a, '"');
    assert forall j :: 0 <= j < k ==> w[j] == a[j];
    UntilIs(w, {'"'}, k);
    assert w[k + 1..][|a| - k - 1] == '"';
  }

  lemma {:induction false} UntilFinds(s: string, c: char)
    requires c in s
    ensures
      var k := Until(s, {c});
      k < |s| && s[k] == c && forall j :: 0 <= j < k ==> s[j] !in {c}
  {
    if s[0] != c {
      assert c in s[1..];
      UntilFinds(s[1..], c);
      assert forall j :: 1 <= j < |s| ==> s[j] == s[1..][j - 1];
    }
  }

  /** What the word is after its start was moved on once for each quote. */
  function Shifted(w: string): string {
    EscapeLength(w);
    Tokenizer.Escape(w)[Quotes(w)..]
  }

  lemma ShiftAround(a: string, b: string)
    requires '"' !in b
    ensures
      var moved := Tokenizer.Escape(a) + ['\\'];
      |moved| == |a| + Quotes(a) + 1 && Shifted(a + ['"'] + b) == moved[Quotes(a) + 1..] + ['"'] + b
  {
    EscapeLength(a);
    AroundQuote(a, b);
    var moved := Tokenizer.Escape(a) + ['\\'];
    assert Tokenizer.Escape(a) + ['\\', '"'] + b == moved + ['"'] + b;
  }

  lemma SameFront(x: string, a: string, b: string)
    requires |x| == |a|
    ensures x + ['"'] + b == a + ['"'] + b <==> x == a
  {
    assert (x + ['"'] + b)[..|x|] == x && (a + ['"'] + b)[..|a|] == a;
  }

  /** A second quote before the last: the text cannot come out the same. */
  lemma TwoQuotes(a: string)
    requires '"' in a
    ensures |Tokenizer.Escape(a)| + 1 == |a| + Quotes(a) + 1 && (Tokenizer.Escape(a) + ['\\'])[Quotes(a) + 1..] != a
  {
    EscapeLength(a);
    var a', c := LastQuote(a);
    EscapeLength(a');
    AroundQuote(a', c);
    var moved, k := Tokenizer.Escape(a) + ['\\'], |a'|;
    var tail := c + ['\\'];
    assert moved == Tokenizer.Escape(a') + ['\\', '"'] + tail;
    assert moved[Quotes(a) + 1..][k] == moved[Quotes(a) + 1 + k] == tail[0];
    assert a[k] == '"';
  }

  /** The word is the text again, if and only if it has no quote, or just one with only backslashes before it. */
  lemma ShiftedExactly(w: string)
    ensures |Shifted(w)| == |w| && (Shifted(w) == w <==> Straight(w))
  {
    EscapeLength(w);
    if '"' !in w {
      EscapePlain(w);
      StraightNone(w);
    } else {
      var a, b := LastQuote(w);
      ShiftAround(a, b);
      SameFront((Tokenizer.Escape(a) + ['\\'])[Quotes(a) + 1..], a, b);
      if '"' in a {
        TwoQuotes(a);
        StraightMore(a, b);
      } else {
        EscapePlain(a);
        StraightOne(a, b);
        SlashShift(a);
      }
    }
  }

  lemma SlashShift(a: string)
    ensures (a + ['\\'])[1..] == a <==> Tokenizer.Slashes(a)
  {
    Tokenizer.ShiftOne(a);
    var x := (a + ['\\'])[1..];
    assert (a + ['\\', '"'])[1..] == x + ['"'];
    assert (x + ['"'])[..|x|] == x && (a + ['"'])[..|a|] == a;
  }

  // ----- rules

  function PrintArg(a: Arg): string {
    if a.quoted then ['"'] + Tokenizer.Escape(a.text) + ['"'] else a.text
  }

  function PrintArgs(args: seq<Arg>): string {
    if args == [] then "\n" else PrintArg(args[0]) + [' '] + PrintArgs(args[1..])
  }

  /** An argument that can be printed: quotes stand around it where it holds blanks or quotes. */
  predicate Writable(a: Arg) {
    && |a.text| < Tokenizer.BUFFER_SIZE && !Tokenizer.NamesTable(a.text)
    && (a.quoted || (a.text != "" && Tokenizer.Bare(a.text)))
  }

  /** Quotes are no good around nothing, not behind a backslash, and around most texts that hold quotes. */
  predicate Kept(a: Arg) {
    a.quoted ==> a.text != "" && !Tokenizer.Ends(a.text) && Straight(a.text)
  }

  predicate AllKept(args: seq<Arg>) {
    args != [] ==> Kept(args[0]) && AllKept(args[1..])
  }

  /** What stands in front of the arguments makes no difference. */
  lemma {:induction false} Shift(front: string, s: string, i: nat, open: bool, start: nat, quoted: bool)
    requires start <= i && (open ==> i > 0)
    ensures SplitFrom(front + s, |front| + i, open, |front| + start, quoted) == SplitFrom(s, i, open, start, quoted)
    decreases |s| - i
  {
    if i < |s| {
      var line := front + s;
      assert line[|front| + i] == s[i] && (i > 0 ==> line[|front| + i - 1] == s[i - 1]);
      var c := s[i];
      if c == '"' && (!open || Tokenizer.Escaped(s, i)) {
        Shift(front, s, i + 1, true, start + 1, true);
      } else if c == '"' || (Tokenizer.Blank(c) && !open) {
        assert line[|front| + start..|front| + i] == s[start..i] by { SliceBehind(front, s, start, i); }
        Shift(front, s, i + 1, false, i + 1, if start == i then quoted else false);
      } else {
        Shift(front, s, i + 1, open, start, quoted);
      }
    }
  }

  lemma SliceBehind(front: string, s: string, a: nat, b: nat)
    requires a <= b <= |s|
    ensures (front + s)[|front| + a..|front| + b] == s[a..b]
  {
  }

  lemma AfterFront(front: string, s: string, quoted: bool)
    ensures SplitFrom(front + s, |front|, false, |front|, quoted) == SplitFrom(s, 0, false, 0, quoted)
  {
    Shift(front, s, 0, false, 0, quoted);
  }

  /** Characters that neither end nor quote the argument. */
  lemma {:induction false} Along(line: string, i: nat, k: nat, open: bool, start: nat, quoted: bool)
    requires start <= i <= k <= |line|
    requires forall j :: i <= j < k ==> line[j] != '"' && (open || !Tokenizer.Blank(line[j]))
    ensures SplitFrom(line, i, open, start, quoted) == SplitFrom(line, k, open, start, quoted)
    decreases k - i
  {
    if i < k {
      Along(line, i + 1, k, open, start, quoted);
    }
  }

  lemma BareFirst(a: Arg, rest: string)
    requires Writable(a) && !a.quoted
    ensures SplitFrom(a.text + [' '] + rest, 0, false, 0, false) == Cons(a, SplitFrom(rest, 0, false, 0, false))
  {
    var w := a.text;
    var line := w + [' '] + rest;
    assert forall j :: 0 <= j < |w| ==> line[j] == w[j] && w[j] in w;
    Along(line, 0, |w|, false, 0, false);
    assert line[0..|w|] == w && line[|w|] == ' ';
    AfterFront(w + [' '], rest, false);
  }

  /** Inside quotes, the splitting comes from one place to another, the start of the argument moved on. */
  ghost predicate Leads(line: string, i: nat, start: nat, k: nat, moved: nat) {
    start <= i && moved <= k && SplitFrom(line, i, true, start, true) == SplitFrom(line, k, true, moved, true)
  }

  lemma LeadsOn(line: string, i: nat, start: nat, j: nat, between: nat, k: nat, moved: nat)
    requires Leads(line, i, start, j, between) && Leads(line, j, between, k, moved)
    ensures Leads(line, i, start, k, moved)
  {
  }

  lemma PlainLeads(line: string, i: nat, start: nat)
    requires start <= i < |line| && line[i] != '"'
    ensures Leads(line, i, start, i + 1, start)
  {
  }

  lemma QuoteLeads(line: string, i: nat, start: nat)
    requires start <= i && i + 1 < |line| && line[i] == '\\' && line[i + 1] == '"'
    ensures Leads(line, i, start, i + 2, start + 1)
  {
    PlainLeads(line, i, start);
    assert Leads(line, i + 1, start, i + 2, start + 1);
  }

  /** The first character, escaped if it is a quote. */
  function Front(c: char): string {
    if c == '"' then ['\\', '"'] else [c]
  }

  lemma FrontLeads(line: string, i: nat, c: char, start: nat)
    requires start <= i && Stands(line, i, Front(c))
    ensures Leads(line, i, start, i + |Front(c)|, start + if c == '"' then 1 else 0)
  {
    StandsAt(line, i, Front(c));
    assert line[i] == Front(c)[0];
    if c == '"' {
      assert line[i + 1] == Front(c)[1];
      QuoteLeads(line, i, start);
    } else {
      PlainLeads(line, i, start);
    }
  }

  /** The first character and the rest of an escaped text, with the quotes counted. */
  lemma EscapeFront(w: string)
    requires w != ""
    ensures Tokenizer.Escape(w) == Front(w[0]) + Tokenizer.Escape(w[1..])
    ensures Quotes(w) == Quotes(w[1..]) + if w[0] == '"' then 1 else 0
  {
  }

  /** Inside the quotes, every escaped quote moves the start of the argument on. */
  lemma {:induction false} EscapedAlong(line: string, i: nat, w: string, start: nat, k: nat, moved: nat)
    requires start <= i && Stands(line, i, Tokenizer.Escape(w))
    requires k == i + |Tokenizer.Escape(w)| && moved == start + Quotes(w)
    ensures Leads(line, i, start, k, moved)
    decreases |w|
  {
    if w != "" {
      var front, more := Front(w[0]), Tokenizer.Escape(w[1..]);
      assert Tokenizer.Escape(w) == front + more && Quotes(w) == Quotes(w[1..]) + if w[0] == '"' then 1 else 0 by {
        EscapeFront(w);
      }
      assert Stands(line, i, front) && Stands(line, i + |front|, more) by { StandsParts(line, i, front, more); }
      FrontLeads(line, i, w[0], start);
      var j, between := i + |front|, start + if w[0] == '"' then 1 else 0;
      assert Leads(line, j, between, k, moved) by { EscapedAlong(line, j, w[1..], between, k, moved); }
      LeadsOn(line, i, start, j, between, k, moved);
    }
  }

  /** A quoted argument in front of the line, up to its closing quote. */
  lemma QuotedAlong(w: string, line: string, rest: string)
    requires line == ['"'] + Tokenizer.Escape(w) + ['"'] + [' '] + rest
    ensures
      var k := 1 + |Tokenizer.Escape(w)|;
      && 1 + Quotes(w) <= k == 1 + Quotes(w) + |w| && line[1 + Quotes(w)..k] == Shifted(w)
      && line[k] == '"' && line[k + 1] == ' '
      && (Tokenizer.Escaped(line, k) <==> Tokenizer.Ends(w))
      && SplitFrom(line, 0, false, 0, false) == SplitFrom(line, k, true, 1 + Quotes(w), true)
      && SplitFrom(line, k + 2, false, k + 2, w == "") == SplitFrom(rest, 0, false, 0, w == "")
  {
    var e := Tokenizer.Escape(w);
    EscapeLength(w);
    QuotedShape(e, Quotes(w), line, rest);
    assert Leads(line, 1, 1, 1 + |e|, 1 + Quotes(w)) by { EscapedAlong(line, 1, w, 1, 1 + |e|, 1 + Quotes(w)); }
    QuoteOpens(line);
    assert Tokenizer.Escaped(line, 1 + |e|) <==> Tokenizer.Ends(w) by {
      ClosingEscaped(w, line, e);
    }
    AfterFront(['"'] + e + ['"'] + [' '], rest, w == "");
  }

  lemma QuotedShape(e: string, q: nat, line: string, rest: string)
    requires line == ['"'] + e + ['"'] + [' '] + rest && q <= |e|
    ensures line[0] == '"' && line[1..1 + |e|] == e && line[1 + |e|] == '"' && line[2 + |e|] == ' '
    ensures line[1 + q..1 + |e|] == e[q..]
  {
    assert line[1 + q..1 + |e|] == line[1..1 + |e|][q..];
  }

  lemma QuoteOpens(line: string)
    requires line != "" && line[0] == '"'
    ensures SplitFrom(line, 0, false, 0, false) == SplitFrom(line, 1, true, 1, true)
  {
  }

  lemma ClosingEscaped(w: string, line: string, e: string)
    requires e == Tokenizer.Escape(w) && 1 + |e| <= |line| && line[0] == '"' && line[1..1 + |e|] == e
    ensures Tokenizer.Escaped(line, 1 + |e|) <==> Tokenizer.Ends(w)
  {
    if w != "" {
      Tokenizer.EscapeLast(w);
      assert line[|e|] == line[1..1 + |e|][|e| - 1];
    }
  }

  /** What a quoted argument is read as, when its closing quote is seen. */
  lemma QuotedFirst(w: string, line: string, rest: string)
    requires w != "" && |w| < Tokenizer.BUFFER_SIZE && !Tokenizer.Ends(w)
    requires line == ['"'] + Tokenizer.Escape(w) + ['"'] + [' '] + rest
    ensures SplitFrom(line, 0, false, 0, false) == Cons(Arg(Shifted(w), true), SplitFrom(rest, 0, false, 0, false))
  {
    QuotedAlong(w, line, rest);
    var k, start := 1 + |Tokenizer.Escape(w)|, 1 + Quotes(w);
    assert SplitFrom(line, k, true, start, true)
        == Cons(Arg(line[start..k], true), SplitFrom(line, k + 1, false, k + 1, false));
    assert SplitFrom(line, k + 1, false, k + 1, false) == SplitFrom(line, k + 2, false, k + 2, false);
  }

  lemma {:induction false} ArgsNotEmpty(line: string, i: nat, open: bool, start: nat, quoted: bool)
    requires start <= i
    ensures
      var args := SplitFrom(line, i, open, start, quoted).args;
      args != [] ==> args[0].text != ""
    decreases |line| - i
  {
    if i < |line| {
      var c := line[i];
      if c == '"' && (!open || Tokenizer.Escaped(line, i)) {
        ArgsNotEmpty(line, i + 1, true, start + 1, true);
      } else if c == '"' || (Tokenizer.Blank(c) && !open) {
        ArgsNotEmpty(line, i + 1, false, i + 1, quoted);
      } else {
        ArgsNotEmpty(line, i + 1, open, start, quoted);
      }
    }
  }

  /** An argument that ends with its quote does not end with a backslash. */
  lemma {:induction false} OpenNoSlash(line: string, i: nat, start: nat, quoted: bool)
    requires start < i
    ensures
      var args := SplitFrom(line, i, true, start, quoted).args;
      args != [] ==> args[0].text != "" && args[0].text[|args[0].text| - 1] != '\\'
    decreases |line| - i
  {
    if i < |line| {
      if line[i] == '"' && Tokenizer.Escaped(line, i) {
        OpenNoSlash(line, i + 1, start + 1, true);
      } else if line[i] == '"' {
        assert line[start..i][i - start - 1] == line[i - 1];
      } else {
        OpenNoSlash(line, i + 1, start, quoted);
      }
    }
  }

  /** Without anything to quote, or with the closing quote taken for an escaped one, something else is read. */
  lemma UnclosedFirst(w: string, line: string, rest: string)
    requires w == "" || Tokenizer.Ends(w)
    requires line == ['"'] + Tokenizer.Escape(w) + ['"'] + [' '] + rest
    ensures
      var args := SplitFrom(line, 0, false, 0, false).args;
      args != [] ==> args[0].text != w
  {
    QuotedAlong(w, line, rest);
    if w == "" {
      ArgsNotEmpty(line, 0, false, 0, false);
    } else {
      OpenNoSlash(line, 2 + |Tokenizer.Escape(w)|, 2 + Quotes(w), true);
    }
  }

  lemma QuotedExactly(a: Arg, line: string, rest: string)
    requires Writable(a) && a.quoted && line == ['"'] + Tokenizer.Escape(a.text) + ['"'] + [' '] + rest
    ensures
      var s := SplitFrom(line, 0, false, 0, false);
      if Kept(a) then s == Cons(a, SplitFrom(rest, 0, false, 0, false)) else s.args != [] ==> s.args[0].text != a.text
  {
    if a.text == "" || Tokenizer.Ends(a.text) {
      UnclosedFirst(a.text, line, rest);
    } else {
      QuotedFirst(a.text, line, rest);
      ShiftedExactly(a.text);
    }
  }

  /** What `Judge` accepts starts with what was done, and goes on with the first argument. */
  lemma {:induction false} JudgeFirst(done: seq<Arg>, s: Split, args: seq<Arg>)
    requires Judge(done, s) == Some(RuleLine(args))
    ensures done <= args
    ensures |done| < |args| && |done| + 1 < Tokenizer.ARGV_SIZE ==> s.args != [] && args[|done|] == s.args[0]
    decreases |s.args|
  {
    if s.args != [] {
      JudgeFirst(Add(done, s.args[0]), Split(s.args[1..], s.end), args);
    }
  }

  lemma FirstBack(done: seq<Arg>, args: seq<Arg>, rest: Split, s: Split)
    requires args != [] && Writable(args[0]) && |done| + |args| < Tokenizer.ARGV_SIZE
    requires if Kept(args[0]) then s == Cons(args[0], rest) else s.args != [] ==> s.args[0].text != args[0].text
    ensures
      Judge(done, s) == Some(RuleLine(done + args))
      <==> Kept(args[0]) && Judge(done + [args[0]], rest) == Some(RuleLine(done + [args[0]] + args[1..]))
  {
    assert done + [args[0]] + args[1..] == done + args;
    if Kept(args[0]) {
      JudgeCons(done, args[0], rest);
    } else if Judge(done, s).Some? && Judge(done, s).value.RuleLine? {
      JudgeFirst(done, s, Judge(done, s).value.args);
      assert (done + args)[|done|] == args[0];
    }
  }

  lemma {:induction false} ArgsBack(done: seq<Arg>, args: seq<Arg>)
    requires (forall k :: 0 <= k < |args| ==> Writable(args[k])) && |done| + |args| < Tokenizer.ARGV_SIZE
    ensures
      Judge(done, SplitFrom(PrintArgs(args), 0, false, 0, false)) == Some(RuleLine(done + args)) <==> AllKept(args)
    decreases |args|
  {
    if args == [] {
      assert done + args == done;
    } else {
      var a, rest := args[0], PrintArgs(args[1..]);
      if a.quoted {
        QuotedExactly(a, PrintArgs(args), rest);
      } else {
        BareFirst(a, rest);
      }
      FirstBack(done, args, SplitFrom(rest, 0, false, 0, false), SplitFrom(PrintArgs(args), 0, false, 0, false));
      ArgsBack(done + [a], args[1..]);
    }
  }

  /** Packets and bytes, as they may stand in front of a rule. */
  datatype Counters = Counters(packets: string, bytes: string)

  predicate Plain(s: string) {
    s != "" && forall k :: 0 <= k < |s| ==> s[k] !in {':', ']'}
  }

  function PrintCounters(c: Counters): string {
    ['['] + c.packets + [':'] + c.bytes + [']']
  }

  lemma SpanFound(text: string, colon: nat, close: nat)
    requires 1 < colon && colon + 1 < close < |text| && text[0] == '[' && text[colon] == ':' && text[close] == ']'
    requires forall k :: 0 < k < close && k != colon ==> text[k] != ':' && text[k] != ']'
    ensures RuleSpan(text) == Some((close + 1, |text|))
  {
    assert Until(text, {']'}) == close by { UntilIs(text, {']'}, close); }
    assert Until(text[1..], {':'}) == colon - 1 by { UntilIs(text[1..], {':'}, colon - 1); }
    assert Span(text[1..], {':'}) == 0 && Span(text[colon + 1..], {']'}) == 0;
    assert Until(text[colon + 1..], {']'}) == close - colon - 1 by {
      UntilIs(text[colon + 1..], {']'}, close - colon - 1);
    }
  }

  lemma CountersSpan(c: Counters, rest: string)
    requires Plain(c.packets) && Plain(c.bytes)
    ensures
      var text := PrintCounters(c) + rest;
      RuleSpan(text) == Some((|PrintCounters(c)|, |text|))
  {
    var text, p, b := PrintCounters(c) + rest, c.packets, c.bytes;
    var close, colon := |p| + |b| + 2, |p| + 1;
    assert text[0] == '[' && text[colon] == ':' && text[close] == ']';
    assert text[1..colon] == p && text[colon + 1..close] == b;
    forall k | 0 < k < close && k != colon ensures text[k] != ':' && text[k] != ']' {
      if k < colon {
        assert text[k] == text[1..colon][k - 1];
      } else {
        assert text[k] == text[colon + 1..close][k - colon - 1];
      }
    }
    SpanFound(text, colon, close);
  }

  lemma ParseCounted(c: Counters, rest: string)
    requires Plain(c.packets) && Plain(c.bytes)
    ensures Parse(PrintCounters(c) + ([' '] + rest)) == Judge([], SplitFrom(rest, 0, false, 0, false))
  {
    var front := PrintCounters(c);
    var text := front + ([' '] + rest);
    CountersSpan(c, [' '] + rest);
    assert text[0] == '[' && text[..|text|] == text;
    AfterFront(front, [' '] + rest, false);
    AfterFront([' '], rest, false);
  }

  lemma ParsePlain(text: string)
    requires text != "" && text[0] !in {'\n', '#', '*', ':', '[', 'C'}
    ensures Parse(text) == Judge([], SplitFrom(text, 0, false, 0, false))
  {
    assert text[..|text|] == text;
  }

  /**
   A rule that is printed, with or without counters, is read back with its arguments and their quotes, if and only if
   no quoted argument is empty, ends with a backslash, or holds a quote other than a single one behind backslashes only.
   */
  lemma RuleBack(args: seq<Arg>, c: Counters)
    requires (forall k :: 0 <= k < |args| ==> Writable(args[k])) && |args| < Tokenizer.ARGV_SIZE
    requires args != [] && args[0] == Arg("-A", false) && Plain(c.packets) && Plain(c.bytes)
    ensures Parse(PrintArgs(args)) == Some(RuleLine(args)) <==> AllKept(args)
    ensures Parse(PrintCounters(c) + ([' '] + PrintArgs(args))) == Some(RuleLine(args)) <==> AllKept(args)
  {
    ArgsBack([], args);
    assert [] + args == args;
    assert PrintArgs(args)[0] == "-A"[0];
    ParsePlain(PrintArgs(args));
    ParseCounted(c, PrintArgs(args));
  }

  /** A text with a quote after other characters loses the first of them and keeps the backslash. */
  lemma InnerQuoteLost(a: string, b: string, rest: string)
    requires a != "" && '"' !in a && '"' !in b && |a| + 1 + |b| < Tokenizer.BUFFER_SIZE
    requires !Tokenizer.Ends(a + ['"'] + b)
    ensures
      var w := a + ['"'] + b;
      SplitFrom(['"'] + Tokenizer.Escape(w) + ['"'] + [' '] + rest, 0, false, 0, false)
      == Cons(Arg(a[1..] + ['\\', '"'] + b, true), SplitFrom(rest, 0, false, 0, false))
  {
    var w := a + ['"'] + b;
    QuotedFirst(w, ['"'] + Tokenizer.Escape(w) + ['"'] + [' '] + rest, rest);
    ShiftAround(a, b);
    EscapePlain(a);
    assert (a + ['\\'])[1..] + ['"'] + b == a[1..] + ['\\', '"'] + b;
  }

  /** Quotes around nothing are forgotten, and the next argument is taken for a quoted one. */
  lemma EmptyQuotesLeak(a: Arg, rest: string)
    requires Writable(a) && !a.quoted
    ensures SplitFrom(['"'] + "" + ['"'] + [' '] + (a.text + [' '] + rest), 0, false, 0, false)
         == Cons(Arg(a.text, true), SplitFrom(rest, 0, false, 0, false))
  {
    var w, t := a.text, a.text + [' '] + rest;
    QuotedAlong("", ['"'] + "" + ['"'] + [' '] + t, t);
    assert forall j :: 0 <= j < |w| ==> t[j] == w[j] && w[j] in w;
    Along(t, 0, |w|, false, 0, true);
    assert t[0..|w|] == w && t[|w|] == ' ';
    AfterFront(w + [' '], rest, false);
  }

  // ----- table and chain lines

  /** A word as `strtok` finds it. */
  predicate Name(s: string) {
    s != "" && forall k :: 0 <= k < |s| ==> s[k] !in BLANKS
  }

  lemma WordFound(w: string, c: char, rest: string)
    requires Name(w) && c in BLANKS
    ensures NextWord(w + ([c] + rest)) == Token(w, rest)
  {
    var s := w + ([c] + rest);
    assert s[0] == w[0];
    assert Span(s, BLANKS) == 0 && s[0..] == s;
    assert forall k :: 0 <= k < |w| ==> s[k] == w[k];
    UntilIs(s, BLANKS, |w|);
    assert s[..|w|] == w && s[|w| + 1..] == rest;
  }

  function PrintTable(name: string): string {
    ['*'] + (name + (['\n'] + ""))
  }

  /** A table line gives back its name. */
  lemma TableBack(name: string)
    requires Name(name)
    ensures Parse(PrintTable(name)) == Some(NewTable(name))
  {
    WordFound(name, '\n', "");
    assert PrintTable(name)[1..] == name + (['\n'] + "");
  }

  function PrintChain(name: string, policy: string, c: Counters): string {
    [':'] + (name + ([' '] + (policy + ([' '] + (PrintCounters(c) + ['\n'])))))
  }

  /** A chain line gives back the chain's name, whatever its policy and counters are. */
  lemma ChainBack(name: string, policy: string, c: Counters)
    requires Name(name) && Name(policy)
    ensures Parse(PrintChain(name, policy, c)) == Some(NewChain(name))
  {
    var counters := PrintCounters(c) + ['\n'];
    WordFound(policy, ' ', counters);
    WordFound(name, ' ', policy + ([' '] + counters));
    assert PrintChain(name, policy, c)[1..] == name + ([' '] + (policy + ([' '] + counters)));
  }

  // ----- whole files

  datatype SavedChain = SavedChain(name: string, policy: string, counters: Counters)

  datatype SavedRule = SavedRule(args: seq<Arg>, counters: Option<Counters>)

  /** A table, with the remarks that stand before and behind it. */
  datatype SavedTable =
    SavedTable(before: string, name: string, chains: seq<SavedChain>, rules: seq<SavedRule>, after: string)

  function PrintRemark(s: string): string {
    ['#'] + s
  }

  function PrintRule(r: SavedRule): string {
    if r.counters.Some? then PrintCounters(r.counters.value) + ([' '] + PrintArgs(r.args)) else PrintArgs(r.args)
  }

  function ChainTexts(chains: seq<SavedChain>): seq<string> {
    if chains == [] then []
    else [PrintChain(chains[0].name, chains[0].policy, chains[0].counters)] + ChainTexts(chains[1..])
  }

  function RuleTexts(rules: seq<SavedRule>): seq<string> {
    if rules == [] then [] else [PrintRule(rules[0])] + RuleTexts(rules[1..])
  }

  /** The lines of a saved file, as `iptables-save` prints them. */
  function FileTexts(tables: seq<SavedTable>): seq<string> {
    if tables == [] then []
    else
      var t := tables[0];
      [PrintRemark(t.before), PrintTable(t.name)]
      + (ChainTexts(t.chains) + (RuleTexts(t.rules) + (["COMMIT\n", PrintRemark(t.after)] + FileTexts(tables[1..]))))
  }

  predicate Declares(chains: seq<SavedChain>, name: string) {
    exists k :: 0 <= k < |chains| && chains[k].name == name
  }

  /** The last argument is a word that starts a target, which is then missing. */
  predicate EndsInTarget(args: seq<Arg>) {
    args != [] && !args[|args| - 1].quoted && IsTarget(args[|args| - 1].text)
  }

  /** A rule of a declared chain, whose arguments are read back as they are and whose target is not missing. */
  predicate GoodRule(r: SavedRule, chains: seq<SavedChain>) {
    && r.args != [] && r.args[0] == Arg("-A", false) && |r.args| < Tokenizer.ARGV_SIZE
    && (forall k :: 0 <= k < |r.args| ==> Writable(r.args[k])) && AllKept(r.args) && !EndsInTarget(r.args)
    && (r.counters.Some? ==> Plain(r.counters.value.packets) && Plain(r.counters.value.bytes))
    && RuleChain(r.args).Some? && Declares(chains, RuleChain(r.args).value)
  }

  predicate GoodTable(t: SavedTable) {
    && Name(t.name) && |t.chains| <= MAX_CHAINS
    && (forall k :: 0 <= k < |t.chains| ==> Name(t.chains[k].name) && Name(t.chains[k].policy))
    && (forall k :: 0 <= k < |t.rules| ==> GoodRule(t.rules[k], t.chains))
  }

  function ChainLines(chains: seq<SavedChain>): seq<Line> {
    if chains == [] then [] else [NewChain(chains[0].name)] + ChainLines(chains[1..])
  }

  function RuleLines(rules: seq<SavedRule>): seq<Line> {
    if rules == [] then [] else [RuleLine(rules[0].args)] + RuleLines(rules[1..])
  }

  function FileLines(tables: seq<SavedTable>): seq<Line> {
    if tables == [] then []
    else
      var t := tables[0];
      [Remark, NewTable(t.name)]
      + (ChainLines(t.chains) + (RuleLines(t.rules) + ([Commit, Remark] + FileLines(tables[1..]))))
  }

  /** The texts are read as just these lines. */
  ghost predicate ReadAs(texts: seq<string>, lines: seq<Line>) {
    LinesOf(texts) == lines && forall k :: 0 <= k < |texts| ==> Parse(texts[k]).Some?
  }

  lemma ReadOne(text: string, line: Line)
    requires Parse(text) == Some(line)
    ensures ReadAs([text], [line])
  {
    assert [text][1..] == [];
  }

  lemma ReadTwo(text: string, line: Line, next: string, more: Line)
    requires Parse(text) == Some(line) && Parse(next) == Some(more)
    ensures ReadAs([text, next], [line, more])
  {
    ReadOne(next, more);
    assert [text, next][1..] == [next];
    assert LinesOf([text, next]) == [line] + [more];
  }

  lemma {:induction false} ReadAppend(a: seq<string>, l: seq<Line>, b: seq<string>, m: seq<Line>)
    requires ReadAs(a, l) && ReadAs(b, m)
    ensures ReadAs(a + b, l + m)
    decreases |a|
  {
    if a == [] {
      assert a + b == b && l + m == m;
    } else {
      var rest := LinesOf(a[1..]);
      assert LinesOf(a) == [l[0]] + rest && l[1..] == rest;
      assert ReadAs(a[1..], rest) by {
        assert forall k :: 0 <= k < |a[1..]| ==> a[1..][k] == a[k + 1];
      }
      ReadAppend(a[1..], rest, b, m);
      assert (a + b)[1..] == a[1..] + b && (a + b)[0] == a[0];
      Regroup([l[0]], rest, m);
    }
  }

  lemma {:induction false} ChainsRead(chains: seq<SavedChain>)
    requires forall k :: 0 <= k < |chains| ==> Name(chains[k].name) && Name(chains[k].policy)
    ensures ReadAs(ChainTexts(chains), ChainLines(chains))
  {
    if chains != [] {
      var c := chains[0];
      ChainBack(c.name, c.policy, c.counters);
      ReadOne(PrintChain(c.name, c.policy, c.counters), NewChain(c.name));
      ChainsRead(chains[1..]);
      ReadAppend([PrintChain(c.name, c.policy, c.counters)], [NewChain(c.name)],
                 ChainTexts(chains[1..]), ChainLines(chains[1..]));
    }
  }

  lemma OneRuleRead(r: SavedRule, chains: seq<SavedChain>)
    requires GoodRule(r, chains)
    ensures Parse(PrintRule(r)) == Some(RuleLine(r.args))
  {
    RuleBack(r.args, if r.counters.Some? then r.counters.value else Counters("0", "0"));
  }

  lemma {:induction false} RulesRead(rules: seq<SavedRule>, chains: seq<SavedChain>)
    requires forall k :: 0 <= k < |rules| ==> GoodRule(rules[k], chains)
    ensures ReadAs(RuleTexts(rules), RuleLines(rules))
    decreases |rules|
  {
    if rules != [] {
      OneRuleRead(rules[0], chains);
      ReadOne(PrintRule(rules[0]), RuleLine(rules[0].args));
      RulesRead(rules[1..], chains);
      ReadAppend([PrintRule(rules[0])], [RuleLine(rules[0].args)], RuleTexts(rules[1..]), RuleLines(rules[1..]));
    }
  }

  /** A saved file is read as the tables, chains and rules that it was printed from. */
  lemma {:induction false} FileRead(tables: seq<SavedTable>)
    requires forall k :: 0 <= k < |tables| ==> GoodTable(tables[k])
    ensures ReadAs(FileTexts(tables), FileLines(tables))
    decreases |tables|
  {
    if tables != [] {
      var t, texts, lines := tables[0], FileTexts(tables[1..]), FileLines(tables[1..]);
      var end, start := ["COMMIT\n", PrintRemark(t.after)], [PrintRemark(t.before), PrintTable(t.name)];
      FileRead(tables[1..]);
      ReadTwo("COMMIT\n", Commit, PrintRemark(t.after), Remark);
      ReadAppend(end, [Commit, Remark], texts, lines);
      RulesRead(t.rules, t.chains);
      ReadAppend(RuleTexts(t.rules), RuleLines(t.rules), end + texts, [Commit, Remark] + lines);
      ChainsRead(t.chains);
      ReadAppend(ChainTexts(t.chains), ChainLines(t.chains),
                 RuleTexts(t.rules) + (end + texts), RuleLines(t.rules) + ([Commit, Remark] + lines));
      TableBack(t.name);
      ReadTwo(PrintRemark(t.before), Remark, PrintTable(t.name), NewTable(t.name));
      ReadAppend(start, [Remark, NewTable(t.name)],
                 ChainTexts(t.chains) + (RuleTexts(t.rules) + (end + texts)),
                 ChainLines(t.chains) + (RuleLines(t.rules) + ([Commit, Remark] + lines)));
    }
  }

  // ----- the conversion of saved files

  /** The lines are accepted, name declared chains only, and lead from `d` to `r`. */
  ghost predicate Goes(d: Doc, lines: seq<Line>, combine: bool, r: Doc) {
    Run(d, lines, combine) == Some(r) && Declared(d, lines, combine)
  }

  lemma GoesOne(d: Doc, line: Line, combine: bool, r: Doc)
    requires Step(d, line, combine) == Some(r)
    requires PrintsRule(d, line) ==> exists c :: c in d.chains && c.name == RuleChain(line.args).value
    ensures Goes(d, [line], combine, r)
  {
    assert [line][1..] == [];
    assert Run(r, [], combine) == Some(r) && Declared(r, [], combine);
  }

  lemma {:induction false} GoesAppend(d: Doc, a: seq<Line>, m: Doc, b: seq<Line>, r: Doc, combine: bool)
    requires Goes(d, a, combine, m) && Goes(m, b, combine, r)
    ensures Goes(d, a + b, combine, r)
    decreases |a|
  {
    if a == [] {
      assert a + b == b;
    } else {
      assert (a + b)[1..] == a[1..] + b && (a + b)[0] == a[0];
      GoesAppend(Step(d, a[0], combine).value, a[1..], m, b, r, combine);
    }
  }

  /** The saved chains have these names, in this order. */
  predicate Named(saved: seq<Saved>, chains: seq<SavedChain>) {
    |saved| == |chains| && forall k :: 0 <= k < |chains| ==> saved[k].name == chains[k].name
  }

  lemma {:induction false} ChainsGo(d: Doc, done: seq<SavedChain>, chains: seq<SavedChain>, combine: bool) returns (r: Doc)
    requires d.table != "" && Named(d.chains, done) && |done| + |chains| <= MAX_CHAINS
    ensures Goes(d, ChainLines(chains), combine, r) && r.table == d.table && Named(r.chains, done + chains)
    decreases |chains|
  {
    if chains == [] {
      r := d;
      assert done + chains == done;
    } else {
      var next := d.(chains := d.chains + [Saved(chains[0].name, false)]);
      GoesOne(d, NewChain(chains[0].name), combine, next);
      r := ChainsGo(next, done + [chains[0]], chains[1..], combine);
      assert done + [chains[0]] + chains[1..] == done + chains;
      GoesAppend(d, [NewChain(chains[0].name)], next, ChainLines(chains[1..]), r, combine);
    }
  }

  lemma {:induction false} NeedNamed(d: Doc, name: string, c: nat, chains: seq<SavedChain>)
    requires c <= |d.chains| && Named(d.chains, chains)
    ensures Named(NeedFrom(d, name, c).chains, chains) && NeedFrom(d, name, c).table == d.table
    decreases |d.chains| - c
  {
    if c < |d.chains| {
      if d.chains[c].name == name {
        NeedNamed(OpenChain(d, name, false).(chains := d.chains[c := Saved(name, true)]), name, c + 1, chains);
      } else {
        NeedNamed(d, name, c + 1, chains);
      }
    }
  }

  /** The actions are printed unless a target is missing at the end. */
  lemma {:induction false} NoCrash(args: seq<Arg>, i: nat, l: Levels, known: set<string>)
    requires !EndsInTarget(args)
    ensures PartFrom(args, i, false, l, known).Part?
    decreases |args| - i
  {
    if i < |args| {
      var a := args[i];
      if !a.quoted && (IsTarget(a.text) || IsMatch(a.text)) && a.text != "!" {
        if i + 1 < |args| {
          var name := args[i + 1].text;
          NoCrash(args, i + 2, Levels(None, None), known);
          NoCrash(args, i + 2, Levels(Some(name), None), known);
          NoCrash(args, i + 2, Levels(Some("goto"), None), known);
          NoCrash(args, i + 2, Levels(Some("call"), None), known);
        }
      } else if !a.quoted && a.text != "!" && Dashed(a.text) {
        NoCrash(args, i + 1, Levels(l.level1, None), known);
        NoCrash(args, i + 1, Levels(l.level1, Some(Undash(a.text))), known);
      } else {
        NoCrash(args, i + 1, l, known);
      }
    }
  }

  lemma RuleDone(d: Doc, args: seq<Arg>, combine: bool)
    requires !EndsInTarget(args)
    ensures
      var r := DoRule(d, args, combine);
      r.Some? && r.value.chains == d.chains && r.value.table == d.table
  {
    var d' := if Combines(d, args, combine) then d else StartRule(d, args);
    NoCrash(args, FirstTarget(args, 2), Levels(Some("match"), None), Known(d'));
    NoCrash(args, FirstTarget(args, 2), Levels(None, None), Known(d'));
  }

  lemma RuleGoes(d: Doc, rule: SavedRule, chains: seq<SavedChain>, combine: bool) returns (r: Doc)
    requires d.table != "" && Named(d.chains, chains) && GoodRule(rule, chains)
    ensures Goes(d, [RuleLine(rule.args)], combine, r) && r.table == d.table && Named(r.chains, chains)
  {
    var args, name := rule.args, RuleChain(rule.args).value;
    assert Named(NeedChain(d, name).chains, chains) && NeedChain(d, name).table == d.table by {
      NeedNamed(d, name, 0, chains);
    }
    RuleDone(NeedChain(d, name), args, combine);
    r := DoRule(NeedChain(d, name), args, combine).value;
    SavedHas(d.chains, chains, name);
    RuleSteps(d, args, name, combine);
    GoesOne(d, RuleLine(args), combine, r);
  }

  lemma RuleSteps(d: Doc, args: seq<Arg>, name: string, combine: bool)
    requires d.table != "" && RuleChain(args) == Some(name)
    ensures Step(d, RuleLine(args), combine) == DoRule(NeedChain(d, name), args, combine)
  {
  }

  lemma SavedHas(saved: seq<Saved>, chains: seq<SavedChain>, name: string)
    requires Named(saved, chains) && Declares(chains, name)
    ensures exists c :: c in saved && c.name == name
  {
    var k :| 0 <= k < |chains| && chains[k].name == name;
    assert saved[k] in saved;
  }

  lemma {:induction false} RulesGo(d: Doc, rules: seq<SavedRule>, chains: seq<SavedChain>, combine: bool) returns (r: Doc)
    requires d.table != "" && Named(d.chains, chains)
    requires forall k :: 0 <= k < |rules| ==> GoodRule(rules[k], chains)
    ensures Goes(d, RuleLines(rules), combine, r) && r.table == d.table
    decreases |rules|
  {
    if rules == [] {
      r := d;
    } else {
      var next := RuleGoes(d, rules[0], chains, combine);
      r := RulesGo(next, rules[1..], chains, combine);
      GoesAppend(d, [RuleLine(rules[0].args)], next, RuleLines(rules[1..]), r, combine);
    }
  }

  function TableLines(t: SavedTable): seq<Line> {
    [Remark, NewTable(t.name)] + (ChainLines(t.chains) + (RuleLines(t.rules) + [Commit, Remark]))
  }

  /** One table, from its first line to its last. */
  lemma TableGoes(d: Doc, t: SavedTable, combine: bool) returns (r: Doc)
    requires GoodTable(t)
    ensures Goes(d, TableLines(t), combine, r) && r.table == ""
  {
    var started := OpenTable(d, t.name);
    GoesOne(d, Remark, combine, d);
    GoesOne(d, NewTable(t.name), combine, started);
    GoesAppend(d, [Remark], d, [NewTable(t.name)], started, combine);
    assert [Remark] + [NewTable(t.name)] == [Remark, NewTable(t.name)];
    var declared := ChainsGo(started, [], t.chains, combine);
    assert [] + t.chains == t.chains;
    var printed := RulesGo(declared, t.rules, t.chains, combine);
    r := CloseTable(printed);
    GoesOne(printed, Commit, combine, r);
    GoesOne(r, Remark, combine, r);
    GoesAppend(printed, [Commit], r, [Remark], r, combine);
    var end := [Commit, Remark];
    assert [Commit] + [Remark] == end;
    GoesAppend(declared, RuleLines(t.rules), printed, end, r, combine);
    GoesAppend(started, ChainLines(t.chains), declared, RuleLines(t.rules) + end, r, combine);
    GoesAppend(d, [Remark, NewTable(t.name)], started, ChainLines(t.chains) + (RuleLines(t.rules) + end), r, combine);
  }

  lemma {:induction false} FileGoes(d: Doc, tables: seq<SavedTable>, combine: bool) returns (r: Doc)
    requires d.table == "" && forall k :: 0 <= k < |tables| ==> GoodTable(tables[k])
    ensures Goes(d, FileLines(tables), combine, r) && r.table == ""
    decreases |tables|
  {
    if tables == [] {
      r := d;
    } else {
      var t := tables[0];
      var next := TableGoes(d, t, combine);
      r := FileGoes(next, tables[1..], combine);
      GoesAppend(d, TableLines(t), next, FileLines(tables[1..]), r, combine);
      assert TableLines(t) + FileLines(tables[1..]) == FileLines(tables) by {
        InParts([Remark, NewTable(t.name)], ChainLines(t.chains), RuleLines(t.rules), [Commit, Remark],
                FileLines(tables[1..]));
      }
    }
  }

  lemma InParts(a: seq<Line>, b: seq<Line>, c: seq<Line>, e: seq<Line>, f: seq<Line>)
    ensures a + (b + (c + e)) + f == a + (b + (c + (e + f)))
  {
  }

  /**
   From the saved text to the output: every printed file whose rules name declared chains, come back as they are and
   end with no missing target is converted, to a balanced output, and without combining to a properly nested one.
   */
  lemma SavedFileConverts(tables: seq<SavedTable>, combine: bool)
    requires forall k :: 0 <= k < |tables| ==> GoodTable(tables[k])
    ensures
      var r := RunTexts(Begin, FileTexts(tables), combine);
      r.Output? && Balanced(r.toks) && (!combine ==> Proper(r.toks))
  {
    var texts, lines := FileTexts(tables), FileLines(tables);
    FileRead(tables);
    var end := FileGoes(Begin, tables, combine);
    RunTextsWhen(Begin, texts, combine);
    RunTextsIs(Begin, texts, combine);
    LinesGood(texts);
    DeclaredIsBalanced(lines, combine);
    if !combine {
      DeclaredIsProper(lines);
    }
  }
}
