/**
 The globals of iptables-xml and the functions that change them line by line,
 each proved to do what module IptablesXml says.
 */
module IptablesXmlConverter {
  import opened Sequences
  import opened IptablesXml

  class Converter {
    const combine: bool
    var table: string
    var chain: string
    /** `closeRuleTag` and `closeActionTag` are not empty */
    var rule: bool
    var action: bool
    var chains: seq<Saved>
    var previous: seq<string>
    var out: seq<Tok>

    ghost function Now(): Doc
      reads this
    {
      Doc(table, chain, rule, action, chains, previous, out)
    }

    constructor (c: bool)
      ensures Now() == Begin && combine == c
    {
      combine := c;
      table, chain, rule, action, chains, previous := "", "", false, false, [], [];
      out := [Open(Root)];
    }

    method CloseChain()
      modifies this
      ensures Now() == IptablesXml.CloseChain(old(Now()))
    {
      if chain == "" {
        return;
      }
      ghost var was := out;
      if action {
        out := out + [Close(Actions)];
      }
      action := false;
      if rule {
        out := out + [Close(Rule)];
      }
      rule := false;
      out := out + [Close(Chain)];
      chain := "";
      assert out == was + (If(old(action), Close(Actions)) + (If(old(rule), Close(Rule)) + [Close(Chain)]));
    }

    method OpenChain(name: string, empty: bool)
      modifies this
      ensures Now() == IptablesXml.OpenChain(old(Now()), name, empty)
    {
      CloseChain();
      if empty {
        out := out + [Empty(Chain)];
        chain := "";
      } else {
        out := out + [Open(Chain)];
        chain := Cut(name);
      }
    }

    method NeedChain(name: string)
      modifies this
      ensures Now() == IptablesXml.NeedChain(old(Now()), name)
    {
      if chain == name {
        return;
      }
      ghost var target := NeedFrom(Now(), name, 0);
      var c := 0;
      while c < |chains|
        invariant 0 <= c <= |chains|
        invariant NeedFrom(Now(), name, c) == target
        decreases |chains| - c
      {
        if chains[c].name == name {
          OpenChain(name, false);
          chains := chains[c := Saved(name, true)];
        }
        c := c + 1;
      }
    }

    method FinishChains()
      modifies this
      ensures Now() == IptablesXml.FinishChains(old(Now()))
    {
      ghost var target := FinishFrom(Now(), chains);
      assert chains[0..] == chains;
      var c := 0;
      while c < |chains|
        invariant 0 <= c <= |chains|
        invariant FinishFrom(Now(), chains[c..]) == target
        decreases |chains| - c
      {
        assert chains[c..][1..] == chains[c + 1..];
        if !chains[c].created {
          OpenChain(chains[c].name, true);
        }
        c := c + 1;
      }
      chains := [];
    }

    method CloseTable()
      modifies this
      ensures Now() == IptablesXml.CloseTable(old(Now()))
    {
      CloseChain();
      FinishChains();
      ghost var was := out;
      if table != "" {
        out := out + [Close(Table)];
      }
      assert out == was + If(table != "", Close(Table));
      table := "";
    }

    method OpenTable(name: string)
      modifies this
      ensures Now() == IptablesXml.OpenTable(old(Now()), name)
    {
      CloseTable();
      table := Cut(name);
      out := out + [Open(Table)];
    }

    /** `compareRules` */
    method CompareRules(args: seq<string>) returns (same: bool)
      ensures same == SameConditions(previous, args)
    {
      var i := 0;
      assert previous[0..] == previous && args[0..] == args;
      while i < |args| && i < |previous|
        invariant 0 <= i <= |args| && i <= |previous|
        invariant SameConditions(previous[i..], args[i..]) == SameConditions(previous, args)
      {
        assert previous[i..][1..] == previous[i + 1..] && args[i..][1..] == args[i + 1..];
        if IsTarget(previous[i]) && IsTarget(args[i]) {
          return true;
        }
        if previous[i] != args[i] {
          return false;
        }
        i := i + 1;
      }
      same := false;
    }

    /** `existsChain` */
    method ExistsChain(name: string) returns (found: bool)
      ensures found <==> name in Known(Now())
    {
      if chain == name {
        return true;
      }
      var c := 0;
      while c < |chains|
        invariant 0 <= c <= |chains|
        invariant forall k :: 0 <= k < c ==> chains[k].name != name
      {
        if chains[c].name == name {
          assert chains[c] in chains;
          return true;
        }
        c := c + 1;
      }
      found := false;
    }

    /** `CLOSE_LEVEL(2)`, and `CLOSE_LEVEL(1)` unless only the inner level is to be closed. */
    method CloseLevels(l: Levels, both: bool)
      modifies this`out
      ensures out == old(out) + if both then IptablesXml.CloseLevels(l) else CloseLevel(l.level2)
    {
      ghost var was := out;
      if l.level2.Some? {
        out := out + [Close(Inner(l.level2.value))];
      }
      assert out == was + CloseLevel(l.level2);
      if both && l.level1.Some? {
        out := out + [Close(Inner(l.level1.value))];
      }
      Regroup(was, CloseLevel(l.level2), if both then CloseLevel(l.level1) else []);
    }

    /** `-j X` or `-m X` at argument `i`. */
    method DoUnit(args: seq<Arg>, i: nat, conditions: bool, l: Levels, ghost known: set<string>)
      returns (l': Levels, ghost toks: seq<Tok>)
      requires i + 1 < |args|
      modifies this`out
      ensures out == old(out) + toks
      ensures Unit(args, i, conditions, l, known) == Prepend(toks, PartFrom(args, i + 2, conditions, l', known))
    {
      ghost var was := out;
      CloseLevels(l, true);
      var name := args[i + 1].text;
      var k;
      if StartsUnit(args, i + 2) {
        k, l' := Empty(Inner(name)), Levels(None, None);
      } else {
        k, l' := Open(Inner(name)), Levels(Some(name), None);
      }
      out := out + [k];
      toks := IptablesXml.CloseLevels(l) + [k];
      Regroup(was, IptablesXml.CloseLevels(l), [k]);
    }

    /** `-j X` or `-g X` as the last words, where X is a chain. */
    method DoCall(args: seq<Arg>, i: nat, l: Levels) returns (l': Levels, ghost toks: seq<Tok>)
      requires i + 1 < |args|
      modifies this`out
      ensures out == old(out) + toks
      ensures
        var call := if args[i].text == "-g" || args[i].text == "--goto" then "goto" else "call";
        && l' == Levels(Some(call), None)
        && toks == IptablesXml.CloseLevels(l) + [Open(Inner(call)), Empty(Inner(args[i + 1].text))]
    {
      ghost var was := out;
      CloseLevels(l, true);
      var call := if args[i].text == "-g" || args[i].text == "--goto" then "goto" else "call";
      var both := [Open(Inner(call)), Empty(Inner(args[i + 1].text))];
      out := out + both;
      l' := Levels(Some(call), None);
      toks := IptablesXml.CloseLevels(l) + both;
      Regroup(was, IptablesXml.CloseLevels(l), both);
    }

    /** An option `-x`, which closes the inner level and opens its own. */
    method DoOption(args: seq<Arg>, i: nat, l: Levels) returns (l': Levels, ghost toks: seq<Tok>)
      requires i < |args|
      modifies this`out
      ensures out == old(out) + toks
      ensures
        var tag := Undash(args[i].text);
        if i + 1 >= |args| || Dashed(args[i + 1].text)
        then l' == Levels(l.level1, None) && toks == CloseLevel(l.level2) + [Empty(Inner(tag))]
        else l' == Levels(l.level1, Some(tag)) && toks == CloseLevel(l.level2) + [Open(Inner(tag))]
    {
      ghost var was := out;
      CloseLevels(l, false);
      var tag := Undash(args[i].text);
      var k;
      if i + 1 >= |args| || Dashed(args[i + 1].text) {
        k, l' := Empty(Inner(tag)), Levels(l.level1, None);
      } else {
        k, l' := Open(Inner(tag)), Levels(l.level1, Some(tag));
      }
      out := out + [k];
      toks := CloseLevel(l.level2) + [k];
      Regroup(was, CloseLevel(l.level2), [k]);
    }

    /** One round of the loop of `do_rule_part`. */
    method DoArg(args: seq<Arg>, i: nat, conditions: bool, l: Levels)
      returns (next: nat, l': Levels, stop: bool, crash: bool, ghost toks: seq<Tok>)
      requires i < |args|
      modifies this`out
      ensures out == old(out) + toks
      ensures
        var p := PartFrom(args, i, conditions, l, Known(Now()));
        && (crash ==> p == Crash)
        && (!crash && stop ==> p == Part(IptablesXml.CloseLevels(l)) && toks == [] && l' == l)
        && (!crash && !stop ==>
              i < next && p == Prepend(toks, PartFrom(args, next, conditions, l', Known(Now()))))
    {
      next, l', stop, crash, toks := i + 1, l, false, false, [];
      assert out + toks == out;
      ghost var known := Known(Now());
      var a := args[i];
      if a.quoted {
      } else if conditions && IsTarget(a.text) {
        stop := true;
      } else if a.text == "!" {
      } else if IsTarget(a.text) && i + 1 >= |args| {
        crash := true;
      } else if IsTarget(a.text) {
        var found := ExistsChain(args[i + 1].text);
        if found && i + 2 >= |args| {
          l', toks := DoCall(args, i, l);
        } else {
          l', toks := DoUnit(args, i, conditions, l, known);
        }
        next := i + 2;
      } else if IsMatch(a.text) {
        if i + 1 >= |args| {
          stop := true;
        } else {
          l', toks := DoUnit(args, i, conditions, l, known);
          next := i + 2;
        }
      } else if Dashed(a.text) {
        l', toks := DoOption(args, i, l);
      }
    }

    /** `do_rule_part` */
    method DoRulePart(args: seq<Arg>, conditions: bool) returns (crash: bool)
      modifies this`out
      ensures
        var p := RulePart(args, conditions, Known(old(Now())));
        crash == p.Crash? && (p.Part? ==> out == old(out) + p.toks)
    {
      ghost var known := Known(Now());
      ghost var total := RulePart(args, conditions, known);
      var i := 2;
      if !conditions {
        while i < |args| && (args[i].quoted || !IsTarget(args[i].text))
          invariant FirstTarget(args, i) == FirstTarget(args, 2)
        {
          i := i + 1;
        }
      }
      var l := Levels(None, None);
      ghost var done: seq<Tok> := [];
      assert out + done == out;
      if i < |args| && Dashed(args[i].text) && !IsTarget(args[i].text) && args[i].text != "-m" {
        l := Levels(Some("match"), None);
        out := out + [Open(Inner("match"))];
        done := [Open(Inner("match"))];
      }
      ghost var start := old(out);
      var stop := false;
      assert Prepend(done, PartFrom(args, i, conditions, l, known)) == total;
      while i < |args| && !stop
        invariant known == Known(Now()) && out == start + done
        invariant Prepend(done, PartFrom(args, i, conditions, l, known)) == total
        invariant stop ==> PartFrom(args, i, conditions, l, known) == Part(IptablesXml.CloseLevels(l))
        decreases |args| - i, !stop
      {
        ghost var toks;
        var next, l';
        next, l', stop, crash, toks := DoArg(args, i, conditions, l);
        if crash {
          return;
        }
        if !stop {
          Advance(done, toks, PartFrom(args, next, conditions, l', known), start, total);
          i, l, done := next, l', done + toks;
        }
      }
      CloseLevels(l, true);
      Regroup(start, done, IptablesXml.CloseLevels(l));
      crash := false;
    }

    static lemma Advance(done: seq<Tok>, toks: seq<Tok>, p: Part, start: seq<Tok>, total: Part)
      requires Prepend(done, Prepend(toks, p)) == total
      ensures Prepend(done + toks, p) == total && start + (done + toks) == (start + done) + toks
    {
      if p.Part? {
        Regroup(done, toks, p.toks);
      }
      Regroup(start, done, toks);
    }

    /** The part of `do_rule` that opens a new rule. */
    method StartRule(args: seq<Arg>)
      modifies this
      ensures Now() == IptablesXml.StartRule(old(Now()), args)
    {
      ghost var was := out;
      ghost var known := Known(Now());
      if action {
        out := out + [Close(Actions)];
        action := false;
      }
      if rule {
        out := out + [Close(Rule)];
      }
      out := out + [Open(Rule)];
      rule := true;
      ghost var closing := If(old(action), Close(Actions)) + (If(old(rule), Close(Rule)) + [Open(Rule)]);
      assert out == was + closing;
      if |args| >= 3 && !IsTarget(args[2].text) {
        out := out + [Open(Conditions)];
        ConditionsShown(args, known);
        var _ := DoRulePart(args, true);
        out := out + [Close(Conditions)];
      }
      assert out == was + closing + Shown(old(Now()), args);
      RuleTokens(was, If(old(action), Close(Actions)), If(old(rule), Close(Rule)), Shown(old(Now()), args));
    }

    static lemma RuleTokens(was: seq<Tok>, a: seq<Tok>, b: seq<Tok>, shown: seq<Tok>)
      ensures was + (a + (b + [Open(Rule)])) + shown == was + (a + (b + ([Open(Rule)] + shown)))
    {
    }

    static lemma ConditionsShown(args: seq<Arg>, known: set<string>)
      ensures RulePart(args, true, known).Part?
    {
      ConditionsNeverCrash(args, 2, Levels(Some("match"), None), known);
      ConditionsNeverCrash(args, 2, Levels(None, None), known);
    }

    /** `do_rule`, and saving the rule for the next one. */
    method DoRule(args: seq<Arg>) returns (ok: bool)
      modifies this
      ensures
        var r := IptablesXml.DoRule(old(Now()), args, combine);
        ok == r.Some? && (ok ==> Now() == r.value)
    {
      var together := false;
      if combine && |args| > 2 && !IsTarget(args[2].text) {
        together := CompareRules(Texts(args));
      }
      if !together {
        StartRule(args);
      }
      ghost var m := Now();
      if !action {
        out := out + [Open(Actions)];
        action := true;
      }
      assert out == m.out + If(!m.action, Open(Actions));
      var crash := DoRulePart(args, false);
      if crash {
        return false;
      }
      Regroup(m.out, If(!m.action, Open(Actions)), RulePart(args, false, Known(m)).toks);
      previous := Texts(args);
      ok := true;
    }

    /** One line of input; `ok` is false when the converter gives up. */
    method ProcessLine(line: Line) returns (ok: bool)
      modifies this
      ensures
        var r := Step(old(Now()), line, combine);
        ok == r.Some? && (ok ==> Now() == r.value)
    {
      ok := true;
      match line {
        case Remark =>
        case Bad => ok := false;
        case NewTable(name) => OpenTable(name);
        case Commit =>
          if table == "" {
            return false;
          }
          CloseTable();
        case NewChain(name) =>
          if table == "" || |chains| >= MAX_CHAINS {
            return false;
          }
          chains := chains + [Saved(name, false)];
        case RuleLine(args) =>
          var name := RuleChain(args);
          if table == "" || name.None? {
            return false;
          }
          NeedChain(name.value);
          ok := DoRule(args);
      }
    }
  }
}
