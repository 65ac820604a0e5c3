/**
 iptables-xml: a line-driven converter that prints nested tags and defers some of
 the closing ones.  Output is modelled as the sequence of tags; attributes, text
 and comments are left out.  The theorems say exactly for which inputs the
 output is balanced, and for which every tag also stands under its proper parent.
 */
module IptablesXml {
  import opened Sequences

  // ----- tags

  datatype Tag = Root | Table | Chain | Rule | Conditions | Actions | Inner(name: string)

  datatype Tok = Open(tag: Tag) | Close(tag: Tag) | Empty(tag: Tag)

  function Name(t: Tag): string {
    match t
    case Root => "iptables-rules"
    case Table => "table"
    case Chain => "chain"
    case Rule => "rule"
    case Conditions => "conditions"
    case Actions => "actions"
    case Inner(name) => name
  }

  /** `child` may stand directly under the innermost tag of `stack`. */
  predicate Under(stack: seq<Tag>, child: Tag) {
    if stack == [] then child == Root
    else
      var parent := stack[|stack| - 1];
      match child
      case Root => false
      case Table => parent == Root
      case Chain => parent == Table
      case Rule => parent == Chain
      case Conditions => parent == Rule
      case Actions => parent == Rule
      case Inner(_) => parent == Conditions || parent == Actions || parent.Inner?
  }

  /** The open tags after one more token; a strict reader also wants every tag under its proper parent. */
  function ReadTok(stack: seq<Tag>, k: Tok, strict: bool): Option<seq<Tag>> {
    match k
    case Open(t) => if strict && !Under(stack, t) then None else Some(stack + [t])
    case Empty(t) => if strict && !Under(stack, t) then None else Some(stack)
    case Close(t) =>
      if stack != [] && Name(stack[|stack| - 1]) == Name(t) then Some(stack[..|stack| - 1]) else None
  }

  function Read(stack: seq<Tag>, toks: seq<Tok>, strict: bool): Option<seq<Tag>>
    decreases |toks|
  {
    if toks == [] then Some(stack)
    else
      var s := ReadTok(stack, toks[0], strict);
      if s.None? then None else Read(s.value, toks[1..], strict)
  }

  /** Every tag that is opened is closed, in the right order. */
  predicate Balanced(toks: seq<Tok>) {
    Read([], toks, false) == Some([])
  }

  /** Balanced, and every tag stands under its proper parent. */
  predicate Proper(toks: seq<Tok>) {
    Read([], toks, true) == Some([])
  }

  lemma {:induction false} ReadAppend(stack: seq<Tag>, a: seq<Tok>, b: seq<Tok>, strict: bool)
    ensures Read(stack, a + b, strict)
         == if Read(stack, a, strict).None? then None else Read(Read(stack, a, strict).value, b, strict)
    decreases |a|
  {
    if a == [] {
      assert a + b == b;
    } else {
      assert (a + b)[1..] == a[1..] + b;
      var s := ReadTok(stack, a[0], strict);
      if s.Some? {
        ReadAppend(s.value, a[1..], b, strict);
      }
    }
  }

  lemma ReadOne(stack: seq<Tag>, k: Tok, strict: bool)
    ensures Read(stack, [k], strict) == ReadTok(stack, k, strict)
  {
    assert [k][1..] == [];
  }

  /** A proper document is balanced. */
  lemma {:induction false} StrictReads(stack: seq<Tag>, toks: seq<Tok>)
    requires Read(stack, toks, true).Some?
    ensures Read(stack, toks, false) == Read(stack, toks, true)
    decreases |toks|
  {
    if toks != [] {
      StrictReads(ReadTok(stack, toks[0], true).value, toks[1..]);
    }
  }

  // ----- rules

  /** An argument of a rule, and whether it was quoted. */
  datatype Arg = Arg(text: string, quoted: bool)

  predicate IsTarget(s: string) {
    s == "-j" || s == "--jump" || s == "-g" || s == "--goto"
  }

  predicate IsMatch(s: string) {
    s == "-m" || s == "--module"
  }

  predicate Dashed(s: string) {
    s != "" && s[0] == '-'
  }

  function Undash(s: string): string {
    if Dashed(s) then Undash(s[1..]) else s
  }

  /** The tags of a rule part that are open: `level1` around `level2`. */
  datatype Levels = Levels(level1: Option<string>, level2: Option<string>)

  function Level(l: Option<string>): seq<Tag> {
    if l.Some? then [Inner(l.value)] else []
  }

  function CloseLevel(l: Option<string>): seq<Tok> {
    if l.Some? then [Close(Inner(l.value))] else []
  }

  function CloseLevels(l: Levels): seq<Tok> {
    CloseLevel(l.level2) + CloseLevel(l.level1)
  }

  /** `Crash`: a target without an argument, whose lookup dereferences a null pointer. */
  datatype Part = Crash | Part(toks: seq<Tok>)

  function Prepend(toks: seq<Tok>, p: Part): Part {
    if p.Crash? then Crash else Part(toks + p.toks)
  }

  predicate StartsUnit(args: seq<Arg>, i: nat) {
    i >= |args| || (!args[i].quoted && (IsTarget(args[i].text) || IsMatch(args[i].text)))
  }

  /** The loop of `do_rule_part` from argument `i`; `known` are the chains that exist. */
  function PartFrom(args: seq<Arg>, i: nat, conditions: bool, l: Levels, known: set<string>): Part
    decreases |args| - i
  {
    if i >= |args| then Part(CloseLevels(l))
    else
      var a := args[i];
      if !a.quoted && IsTarget(a.text) then
        if conditions then Part(CloseLevels(l))
        else if i + 1 >= |args| then Crash
        else if args[i + 1].text in known && i + 2 >= |args| then
          var call := if a.text == "-g" || a.text == "--goto" then "goto" else "call";
          Prepend(CloseLevels(l) + [Open(Inner(call)), Empty(Inner(args[i + 1].text))],
                  PartFrom(args, i + 2, conditions, Levels(Some(call), None), known))
        else Unit(args, i, conditions, l, known)
      else if !a.quoted && a.text == "!" then PartFrom(args, i + 1, conditions, l, known)
      else if !a.quoted && IsMatch(a.text) then
        if i + 1 >= |args| then Part(CloseLevels(l)) else Unit(args, i, conditions, l, known)
      else if !a.quoted && Dashed(a.text) then
        var tag := Undash(a.text);
        if i + 1 >= |args| || Dashed(args[i + 1].text) then
          Prepend(CloseLevel(l.level2) + [Empty(Inner(tag))],
                  PartFrom(args, i + 1, conditions, Levels(l.level1, None), known))
        else
          Prepend(CloseLevel(l.level2) + [Open(Inner(tag))],
                  PartFrom(args, i + 1, conditions, Levels(l.level1, Some(tag)), known))
      else PartFrom(args, i + 1, conditions, l, known)
  }

  /** `-j X` or `-m X`: closes what is open and starts the unit X. */
  function Unit(args: seq<Arg>, i: nat, conditions: bool, l: Levels, known: set<string>): Part
    requires i + 1 < |args|
    decreases |args| - i, 0
  {
    var name := args[i + 1].text;
    if StartsUnit(args, i + 2) then
      Prepend(CloseLevels(l) + [Empty(Inner(name))], PartFrom(args, i + 2, conditions, Levels(None, None), known))
    else
      Prepend(CloseLevels(l) + [Open(Inner(name))], PartFrom(args, i + 2, conditions, Levels(Some(name), None), known))
  }

  /** Where the actions of a rule start. */
  function FirstTarget(args: seq<Arg>, i: nat): (j: nat)
    ensures i <= j
    decreases |args| - i
  {
    if i >= |args| || (!args[i].quoted && IsTarget(args[i].text)) then i else FirstTarget(args, i + 1)
  }

  /** `do_rule_part` for the conditions or for the actions. */
  function RulePart(args: seq<Arg>, conditions: bool, known: set<string>): Part {
    var i := if conditions then 2 else FirstTarget(args, 2);
    if i < |args| && Dashed(args[i].text) && !IsTarget(args[i].text) && args[i].text != "-m" then
      Prepend([Open(Inner("match"))], PartFrom(args, i, conditions, Levels(Some("match"), None), known))
    else PartFrom(args, i, conditions, Levels(None, None), known)
  }

  // ----- a rule part closes what it opens

  function Stacked(stack: seq<Tag>, l: Levels): seq<Tag> {
    stack + (Level(l.level1) + Level(l.level2))
  }

  /** Inner tags may stand here. */
  predicate Holds(stack: seq<Tag>) {
    stack != [] && var top := stack[|stack| - 1]; top == Conditions || top == Actions
  }

  lemma ReadCloseLevel(stack: seq<Tag>, l: Option<string>, strict: bool)
    ensures Read(stack + Level(l), CloseLevel(l), strict) == Some(stack)
  {
    if l.Some? {
      var k := Close(Inner(l.value));
      ReadOne(stack + Level(l), k, strict);
      assert (stack + [Inner(l.value)])[..|stack|] == stack;
    } else {
      assert stack + [] == stack;
    }
  }

  lemma ReadCloseLevels(stack: seq<Tag>, l: Levels, strict: bool)
    ensures Read(Stacked(stack, l), CloseLevels(l), strict) == Some(stack)
    ensures Read(Stacked(stack, l), CloseLevel(l.level2), strict) == Some(stack + Level(l.level1))
  {
    var mid := stack + Level(l.level1);
    Regroup(stack, Level(l.level1), Level(l.level2));
    ReadCloseLevel(mid, l.level2, strict);
    ReadCloseLevel(stack, l.level1, strict);
    ReadAppend(Stacked(stack, l), CloseLevel(l.level2), CloseLevel(l.level1), strict);
  }

  lemma ReadThen(stack: seq<Tag>, a: seq<Tok>, mid: seq<Tag>, b: seq<Tok>, end: Option<seq<Tag>>, strict: bool)
    requires Read(stack, a, strict) == Some(mid) && Read(mid, b, strict) == end
    ensures Read(stack, a + b, strict) == end
  {
    ReadAppend(stack, a, b, strict);
  }

  lemma ReadInner(stack: seq<Tag>, l1: Option<string>, k: Tok, strict: bool)
    requires (strict ==> Holds(stack)) && k.tag.Inner? && !k.Close?
    ensures Read(stack + Level(l1), [k], strict)
         == Some(if k.Open? then stack + Level(l1) + [k.tag] else stack + Level(l1))
  {
    var s := stack + Level(l1);
    ReadOne(s, k, strict);
    if strict {
      assert l1.None? ==> s == stack;
      assert l1.Some? ==> s[|s| - 1] == Inner(l1.value);
    }
  }

  /** Closing all levels and then opening or printing one tag. */
  lemma ReadUnit(stack: seq<Tag>, l: Levels, k: Tok, strict: bool)
    requires (strict ==> Holds(stack)) && k.tag.Inner? && !k.Close?
    ensures Read(Stacked(stack, l), CloseLevels(l) + [k], strict)
         == Some(Stacked(stack, Levels(if k.Open? then Some(k.tag.name) else None, None)))
  {
    ReadCloseLevels(stack, l, strict);
    ReadInner(stack, None, k, strict);
    assert stack + Level(None) == stack;
    ReadAppend(Stacked(stack, l), CloseLevels(l), [k], strict);
    var l' := Levels(if k.Open? then Some(k.tag.name) else None, None);
    assert Level(l'.level1) + Level(l'.level2) == Level(l'.level1);
    assert stack + [] == stack;
  }

  /** Closing the inner level and then opening or printing one tag in its place. */
  lemma ReadOption(stack: seq<Tag>, l: Levels, k: Tok, strict: bool)
    requires (strict ==> Holds(stack)) && k.tag.Inner? && !k.Close?
    ensures Read(Stacked(stack, l), CloseLevel(l.level2) + [k], strict)
         == Some(Stacked(stack, Levels(l.level1, if k.Open? then Some(k.tag.name) else None)))
  {
    ReadCloseLevels(stack, l, strict);
    ReadInner(stack, l.level1, k, strict);
    ReadAppend(Stacked(stack, l), CloseLevel(l.level2), [k], strict);
    var l2 := if k.Open? then Some(k.tag.name) else None;
    Regroup(stack, Level(l.level1), Level(l2));
    assert (stack + Level(l.level1)) + [] == stack + Level(l.level1);
  }

  lemma ReadCall(stack: seq<Tag>, l: Levels, call: string, chain: string, strict: bool)
    requires strict ==> Holds(stack)
    ensures Read(Stacked(stack, l), CloseLevels(l) + [Open(Inner(call)), Empty(Inner(chain))], strict)
         == Some(Stacked(stack, Levels(Some(call), None)))
  {
    ReadUnit(stack, l, Open(Inner(call)), strict);
    var l' := Levels(Some(call), None);
    assert Level(l'.level1) + Level(l'.level2) == [Inner(call)];
    ReadInner(stack, Some(call), Empty(Inner(chain)), strict);
    ReadThen(Stacked(stack, l), CloseLevels(l) + [Open(Inner(call))], Stacked(stack, l'), [Empty(Inner(chain))],
             Some(Stacked(stack, l')), strict);
    assert (CloseLevels(l) + [Open(Inner(call))]) + [Empty(Inner(chain))]
        == CloseLevels(l) + [Open(Inner(call)), Empty(Inner(chain))];
  }

  lemma {:induction false} PartReads(args: seq<Arg>, i: nat, conditions: bool, l: Levels, known: set<string>,
                                     stack: seq<Tag>, strict: bool)
    requires strict ==> Holds(stack)
    requires PartFrom(args, i, conditions, l, known).Part?
    ensures Read(Stacked(stack, l), PartFrom(args, i, conditions, l, known).toks, strict) == Some(stack)
    decreases |args| - i, 1
  {
    ReadCloseLevels(stack, l, strict);
    if i < |args| {
      var a := args[i];
      if !a.quoted && IsTarget(a.text) {
        if !conditions {
          if args[i + 1].text in known && i + 2 >= |args| {
            var call := if a.text == "-g" || a.text == "--goto" then "goto" else "call";
            var l' := Levels(Some(call), None);
            ReadCall(stack, l, call, args[i + 1].text, strict);
            PartReads(args, i + 2, conditions, l', known, stack, strict);
            ReadThen(Stacked(stack, l), CloseLevels(l) + [Open(Inner(call)), Empty(Inner(args[i + 1].text))],
                     Stacked(stack, l'), PartFrom(args, i + 2, conditions, l', known).toks, Some(stack), strict);
          } else {
            UnitReads(args, i, conditions, l, known, stack, strict);
          }
        }
      } else if !a.quoted && a.text == "!" {
        PartReads(args, i + 1, conditions, l, known, stack, strict);
      } else if !a.quoted && IsMatch(a.text) {
        if i + 1 < |args| {
          UnitReads(args, i, conditions, l, known, stack, strict);
        }
      } else if !a.quoted && Dashed(a.text) {
        var tag := Undash(a.text);
        var short := i + 1 >= |args| || Dashed(args[i + 1].text);
        var k := if short then Empty(Inner(tag)) else Open(Inner(tag));
        var l' := Levels(l.level1, if short then None else Some(tag));
        ReadOption(stack, l, k, strict);
        PartReads(args, i + 1, conditions, l', known, stack, strict);
        ReadThen(Stacked(stack, l), CloseLevel(l.level2) + [k], Stacked(stack, l'),
                 PartFrom(args, i + 1, conditions, l', known).toks, Some(stack), strict);
      } else {
        PartReads(args, i + 1, conditions, l, known, stack, strict);
      }
    }
  }

  lemma {:induction false} UnitReads(args: seq<Arg>, i: nat, conditions: bool, l: Levels, known: set<string>,
                                     stack: seq<Tag>, strict: bool)
    requires i + 1 < |args| && (strict ==> Holds(stack))
    requires Unit(args, i, conditions, l, known).Part?
    ensures Read(Stacked(stack, l), Unit(args, i, conditions, l, known).toks, strict) == Some(stack)
    decreases |args| - i, 0
  {
    var name := args[i + 1].text;
    var short := StartsUnit(args, i + 2);
    var k := if short then Empty(Inner(name)) else Open(Inner(name));
    var l' := Levels(if short then None else Some(name), None);
    ReadUnit(stack, l, k, strict);
    PartReads(args, i + 2, conditions, l', known, stack, strict);
    ReadThen(Stacked(stack, l), CloseLevels(l) + [k], Stacked(stack, l'),
             PartFrom(args, i + 2, conditions, l', known).toks, Some(stack), strict);
  }

  /** The tags of a rule part leave the open tags as they were. */
  lemma RulePartReads(args: seq<Arg>, conditions: bool, known: set<string>, stack: seq<Tag>, strict: bool)
    requires (strict ==> Holds(stack)) && RulePart(args, conditions, known).Part?
    ensures Read(stack, RulePart(args, conditions, known).toks, strict) == Some(stack)
  {
    var i := if conditions then 2 else FirstTarget(args, 2);
    var none := Levels(None, None);
    assert Level(none.level1) + Level(none.level2) == [];
    assert Stacked(stack, none) == stack;
    if i < |args| && Dashed(args[i].text) && !IsTarget(args[i].text) && args[i].text != "-m" {
      var l := Levels(Some("match"), None);
      ReadUnit(stack, none, Open(Inner("match")), strict);
      assert CloseLevels(none) + [Open(Inner("match"))] == [Open(Inner("match"))];
      PartReads(args, i, conditions, l, known, stack, strict);
      ReadThen(stack, [Open(Inner("match"))], Stacked(stack, l), PartFrom(args, i, conditions, l, known).toks,
               Some(stack), strict);
    } else {
      PartReads(args, i, conditions, none, known, stack, strict);
    }
  }

  /** Conditions are printed for every rule: the null pointer is met only among the actions. */
  lemma {:induction false} ConditionsNeverCrash(args: seq<Arg>, i: nat, l: Levels, known: set<string>)
    ensures PartFrom(args, i, true, l, known).Part?
    decreases |args| - i
  {
    if i < |args| {
      var a := args[i];
      if !a.quoted && IsTarget(a.text) {
      } else if !a.quoted && a.text == "!" {
        ConditionsNeverCrash(args, i + 1, l, known);
      } else if !a.quoted && IsMatch(a.text) {
        if i + 1 < |args| {
          var name := args[i + 1].text;
          ConditionsNeverCrash(args, i + 2, Levels(None, None), known);
          ConditionsNeverCrash(args, i + 2, Levels(Some(name), None), known);
        }
      } else if !a.quoted && Dashed(a.text) {
        ConditionsNeverCrash(args, i + 1, Levels(l.level1, None), known);
        ConditionsNeverCrash(args, i + 1, Levels(l.level1, Some(Undash(a.text))), known);
      } else {
        ConditionsNeverCrash(args, i + 1, l, known);
      }
    }
  }

  // ----- tables and chains

  datatype Saved = Saved(name: string, created: bool)

  /**
   The converter: the open table and chain ("" for none), whether a rule and an
   actions tag wait to be closed, the chains of the table, the previous rule,
   and the tags printed so far.
   */
  datatype Doc = Doc(table: string, chain: string, rule: bool, action: bool,
                     chains: seq<Saved>, previous: seq<string>, out: seq<Tok>)

  /** `IPT_TABLE_MAXNAMELEN` */
  const MAX_NAME: nat := 32
  const MAX_CHAINS: nat := 10240

  function Cut(s: string): string {
    if |s| > MAX_NAME then s[..MAX_NAME] else s
  }

  function If(b: bool, k: Tok): seq<Tok> {
    if b then [k] else []
  }

  function Emit(d: Doc, toks: seq<Tok>): Doc {
    d.(out := d.out + toks)
  }

  function CloseChain(d: Doc): Doc {
    if d.chain == "" then d
    else
      Emit(d, If(d.action, Close(Actions)) + (If(d.rule, Close(Rule)) + [Close(Chain)]))
      .(chain := "", rule := false, action := false)
  }

  function OpenChain(d: Doc, name: string, empty: bool): Doc {
    var d := CloseChain(d);
    if empty then Emit(d, [Empty(Chain)]) else Emit(d, [Open(Chain)]).(chain := Cut(name))
  }

  function NeedFrom(d: Doc, name: string, c: nat): Doc
    requires c <= |d.chains|
    decreases |d.chains| - c
  {
    if c == |d.chains| then d
    else if d.chains[c].name == name then
      var d' := OpenChain(d, name, false);
      NeedFrom(d'.(chains := d.chains[c := Saved(name, true)]), name, c + 1)
    else NeedFrom(d, name, c + 1)
  }

  function NeedChain(d: Doc, name: string): Doc {
    if d.chain == name then d else NeedFrom(d, name, 0)
  }

  function FinishFrom(d: Doc, chains: seq<Saved>): Doc
    decreases |chains|
  {
    if chains == [] then d
    else FinishFrom(if chains[0].created then d else OpenChain(d, chains[0].name, true), chains[1..])
  }

  function FinishChains(d: Doc): Doc {
    FinishFrom(d, d.chains).(chains := [])
  }

  function CloseTable(d: Doc): Doc {
    var d := FinishChains(CloseChain(d));
    Emit(d, If(d.table != "", Close(Table))).(table := "")
  }

  function OpenTable(d: Doc, name: string): Doc {
    Emit(CloseTable(d), [Open(Table)]).(table := Cut(name))
  }

  // ----- rules and lines

  /** `compareRules`: the same arguments up to a target in both. */
  predicate SameConditions(a: seq<string>, b: seq<string>) {
    a != [] && b != [] && ((IsTarget(a[0]) && IsTarget(b[0])) || (a[0] == b[0] && SameConditions(a[1..], b[1..])))
  }

  function Texts(args: seq<Arg>): seq<string> {
    seq(|args|, i requires 0 <= i < |args| => args[i].text)
  }

  function Known(d: Doc): set<string> {
    {d.chain} + set c | c in d.chains :: c.name
  }

  predicate HasConditions(args: seq<Arg>) {
    |args| > 2 && !IsTarget(args[2].text)
  }

  /** The rule's actions go into the previous rule. */
  predicate Combines(d: Doc, args: seq<Arg>, combine: bool) {
    combine && HasConditions(args) && SameConditions(d.previous, Texts(args))
  }

  /** The conditions of a rule, when there are any. */
  function Shown(d: Doc, args: seq<Arg>): seq<Tok> {
    var conditions := RulePart(args, true, Known(d));
    if HasConditions(args) && conditions.Part?
    then [Open(Conditions)] + conditions.toks + [Close(Conditions)] else []
  }

  /** The tags of a new rule up to its conditions. */
  function StartRule(d: Doc, args: seq<Arg>): Doc {
    Emit(d, If(d.action, Close(Actions)) + (If(d.rule, Close(Rule)) + ([Open(Rule)] + Shown(d, args))))
    .(rule := true, action := false)
  }

  function DoRule(d: Doc, args: seq<Arg>, combine: bool): Option<Doc> {
    var d := if Combines(d, args, combine) then d else StartRule(d, args);
    var actions := RulePart(args, false, Known(d));
    if actions.Crash? then None
    else Some(Emit(d, If(!d.action, Open(Actions)) + actions.toks).(action := true, previous := Texts(args)))
  }

  /** The argument after the last "-A". */
  function RuleChain(args: seq<Arg>): Option<string> {
    if |args| < 2 then None
    else if args[|args| - 2].text == "-A" then Some(args[|args| - 1].text)
    else RuleChain(args[..|args| - 1])
  }

  /** An input line, split into words; `Bad` lines make the converter give up. */
  datatype Line =
    | Remark
    | Commit
    | NewTable(name: string)
    | NewChain(name: string)
    | RuleLine(args: seq<Arg>)
    | Bad

  /** Words found by `strtok` are not empty. */
  predicate GoodLine(line: Line) {
    match line
    case NewTable(name) => name != ""
    case NewChain(name) => name != ""
    case _ => true
  }

  function Step(d: Doc, line: Line, combine: bool): Option<Doc> {
    match line
    case Remark => Some(d)
    case NewTable(name) => Some(OpenTable(d, name))
    case Commit => if d.table == "" then None else Some(CloseTable(d))
    case NewChain(name) =>
      if d.table == "" || |d.chains| >= MAX_CHAINS then None else Some(d.(chains := d.chains + [Saved(name, false)]))
    case RuleLine(args) =>
      if d.table == "" || RuleChain(args).None? then None
      else DoRule(NeedChain(d, RuleChain(args).value), args, combine)
    case Bad => None
  }

  function Run(d: Doc, lines: seq<Line>, combine: bool): Option<Doc>
    decreases |lines|
  {
    if lines == [] then Some(d)
    else
      var d' := Step(d, lines[0], combine);
      if d'.None? then None else Run(d'.value, lines[1..], combine)
  }

  const Begin: Doc := Doc("", "", false, false, [], [], [Open(Root)])

  /** The whole output, when the input is accepted. */
  function Convert(lines: seq<Line>, combine: bool): Option<seq<Tok>> {
    var d := Run(Begin, lines, combine);
    if d.None? || d.value.table != "" then None else Some(d.value.out + [Close(Root)])
  }

  // ----- what the open tags are

  function IfTag(b: bool, t: Tag): seq<Tag> {
    if b then [t] else []
  }

  /** The tags that the converter's variables say are open. */
  function OpenTags(d: Doc): seq<Tag> {
    [Root] + IfTag(d.table != "", Table) + IfTag(d.chain != "", Chain) + IfTag(d.rule, Rule) + IfTag(d.action, Actions)
  }

  /** The output so far, as a reader sees it, agrees with the variables. */
  ghost predicate Sound(d: Doc, strict: bool) {
    && Read([], d.out, strict) == Some(OpenTags(d))
    && (d.table == "" ==> d.chain == "" && d.chains == [])
    && (d.chain == "" ==> !d.rule && !d.action)
    && (strict && d.action ==> d.rule)
    && forall c :: c in d.chains ==> c.name != ""
  }

  lemma EmitReads(d: Doc, toks: seq<Tok>, strict: bool)
    requires Sound(d, strict)
    ensures Read([], Emit(d, toks).out, strict) == Read(OpenTags(d), toks, strict)
  {
    ReadAppend([], d.out, toks, strict);
  }

  lemma ReadClose(stack: seq<Tag>, b: bool, t: Tag, strict: bool)
    ensures Read(stack + IfTag(b, t), If(b, Close(t)), strict) == Some(stack)
  {
    if b {
      ReadOne(stack + [t], Close(t), strict);
      assert (stack + [t])[..|stack|] == stack;
    } else {
      assert stack + [] == stack;
    }
  }

  lemma ReadClose2(stack: seq<Tag>, a: bool, t: Tag, b: bool, u: Tag, rest: seq<Tok>, strict: bool)
    ensures Read(stack + IfTag(b, u) + IfTag(a, t), If(a, Close(t)) + (If(b, Close(u)) + rest), strict)
         == Read(stack, rest, strict)
  {
    ReadClose(stack + IfTag(b, u), a, t, strict);
    ReadClose(stack, b, u, strict);
    ReadAppend(stack + IfTag(b, u) + IfTag(a, t), If(a, Close(t)), If(b, Close(u)) + rest, strict);
    ReadAppend(stack + IfTag(b, u), If(b, Close(u)), rest, strict);
  }

  lemma CloseChainSound(d: Doc, strict: bool)
    requires Sound(d, strict)
    ensures Sound(CloseChain(d), strict) && CloseChain(d).chain == ""
    ensures CloseChain(d).table == d.table && CloseChain(d).chains == d.chains
  {
    if d.chain != "" {
      var base := [Root] + IfTag(d.table != "", Table);
      var toks := If(d.action, Close(Actions)) + (If(d.rule, Close(Rule)) + [Close(Chain)]);
      EmitReads(d, toks, strict);
      ReadClose2(base + [Chain], d.action, Actions, d.rule, Rule, [Close(Chain)], strict);
      ReadClose(base, true, Chain, strict);
      assert OpenTags(CloseChain(d)) == base;
    }
  }

  lemma OpenChainSound(d: Doc, name: string, empty: bool, strict: bool)
    requires Sound(d, strict) && d.table != "" && name != ""
    ensures Sound(OpenChain(d, name, empty), strict)
    ensures OpenChain(d, name, empty).table == d.table && OpenChain(d, name, empty).chains == d.chains
    ensures (OpenChain(d, name, empty).chain == "") == empty
    ensures !OpenChain(d, name, empty).rule && !OpenChain(d, name, empty).action
  {
    CloseChainSound(d, strict);
    var c := CloseChain(d);
    var k := if empty then Empty(Chain) else Open(Chain);
    EmitReads(c, [k], strict);
    ReadOne(OpenTags(c), k, strict);
    assert OpenTags(c) == [Root, Table];
    if !empty {
      assert OpenTags(OpenChain(d, name, empty)) == [Root, Table] + [Chain];
    }
  }

  lemma {:induction false} NeedFromSound(d: Doc, name: string, c: nat, strict: bool)
    requires Sound(d, strict) && d.table != "" && c <= |d.chains|
    ensures Sound(NeedFrom(d, name, c), strict) && NeedFrom(d, name, c).table == d.table
    decreases |d.chains| - c
  {
    if c < |d.chains| {
      if d.chains[c].name == name {
        OpenChainSound(d, name, false, strict);
        var d' := OpenChain(d, name, false).(chains := d.chains[c := Saved(name, true)]);
        assert forall x :: x in d'.chains ==> x in d.chains || x == Saved(name, true);
        NeedFromSound(d', name, c + 1, strict);
      } else {
        NeedFromSound(d, name, c + 1, strict);
      }
    }
  }

  lemma {:induction false} FinishFromSound(d: Doc, chains: seq<Saved>, strict: bool)
    requires Sound(d, strict) && d.chain == "" && (chains != [] ==> d.table != "")
    requires forall c :: c in chains ==> c.name != ""
    ensures Sound(FinishFrom(d, chains), strict)
    ensures FinishFrom(d, chains).chain == "" && FinishFrom(d, chains).table == d.table
    decreases |chains|
  {
    if chains != [] {
      if !chains[0].created {
        OpenChainSound(d, chains[0].name, true, strict);
      }
      FinishFromSound(if chains[0].created then d else OpenChain(d, chains[0].name, true), chains[1..], strict);
    }
  }

  lemma CloseTableSound(d: Doc, strict: bool)
    requires Sound(d, strict)
    ensures Sound(CloseTable(d), strict) && CloseTable(d).table == ""
  {
    CloseChainSound(d, strict);
    var c := CloseChain(d);
    FinishFromSound(c, c.chains, strict);
    var f := FinishFrom(c, c.chains);
    EmitReads(f, If(f.table != "", Close(Table)), strict);
    ReadClose([Root], f.table != "", Table, strict);
    assert OpenTags(f) == [Root] + IfTag(f.table != "", Table);
    assert OpenTags(CloseTable(d)) == [Root];
  }

  lemma OpenTableSound(d: Doc, name: string, strict: bool)
    requires Sound(d, strict) && name != ""
    ensures Sound(OpenTable(d, name), strict)
  {
    CloseTableSound(d, strict);
    var c := CloseTable(d);
    EmitReads(c, [Open(Table)], strict);
    ReadOne(OpenTags(c), Open(Table), strict);
    assert OpenTags(c) == [Root];
    assert OpenTags(OpenTable(d, name)) == [Root] + [Table];
  }

  lemma ShownReads(d: Doc, args: seq<Arg>, stack: seq<Tag>, strict: bool)
    requires strict ==> stack != [] && stack[|stack| - 1] == Rule
    ensures Read(stack, Shown(d, args), strict) == Some(stack)
  {
    var conditions := RulePart(args, true, Known(d));
    if HasConditions(args) && conditions.Part? {
      var inside := stack + [Conditions];
      ReadOne(stack, Open(Conditions), strict);
      RulePartReads(args, true, Known(d), inside, strict);
      ReadOne(inside, Close(Conditions), strict);
      assert inside[..|stack|] == stack;
      ReadThen(stack, [Open(Conditions)], inside, conditions.toks, Some(inside), strict);
      ReadThen(stack, [Open(Conditions)] + conditions.toks, inside, [Close(Conditions)], Some(stack), strict);
    }
  }

  lemma StartRuleSound(d: Doc, args: seq<Arg>, strict: bool)
    requires Sound(d, strict) && d.chain != ""
    ensures Sound(StartRule(d, args), strict)
    ensures StartRule(d, args).chain == d.chain && StartRule(d, args).table == d.table
    ensures StartRule(d, args).rule && !StartRule(d, args).action && Known(StartRule(d, args)) == Known(d)
  {
    var base := [Root, Table, Chain];
    var rest := [Open(Rule)] + Shown(d, args);
    assert Read(base, rest, strict) == Some(base + [Rule]) by {
      ReadOne(base, Open(Rule), strict);
      ShownReads(d, args, base + [Rule], strict);
      ReadThen(base, [Open(Rule)], base + [Rule], Shown(d, args), Some(base + [Rule]), strict);
    }
    EmitReads(d, If(d.action, Close(Actions)) + (If(d.rule, Close(Rule)) + rest), strict);
    assert OpenTags(d) == base + IfTag(d.rule, Rule) + IfTag(d.action, Actions);
    ReadClose2(base, d.action, Actions, d.rule, Rule, rest, strict);
    assert OpenTags(StartRule(d, args)) == base + [Rule];
  }

  lemma AddActionsSound(d: Doc, toks: seq<Tok>, args: seq<Arg>, strict: bool)
    requires Sound(d, strict) && d.chain != "" && (strict ==> d.rule)
    requires RulePart(args, false, Known(d)) == Part(toks)
    ensures
      var r := Emit(d, If(!d.action, Open(Actions)) + toks).(action := true, previous := Texts(args));
      Sound(r, strict)
  {
    var base := [Root, Table, Chain] + IfTag(d.rule, Rule);
    var inside := base + [Actions];
    EmitReads(d, If(!d.action, Open(Actions)) + toks, strict);
    if d.action {
      assert OpenTags(d) == inside;
    } else {
      assert OpenTags(d) == base;
      ReadOne(base, Open(Actions), strict);
    }
    RulePartReads(args, false, Known(d), inside, strict);
    ReadThen(OpenTags(d), If(!d.action, Open(Actions)), inside, toks, Some(inside), strict);
    var r := Emit(d, If(!d.action, Open(Actions)) + toks).(action := true, previous := Texts(args));
    assert OpenTags(r) == inside;
  }

  lemma DoRuleSound(d: Doc, args: seq<Arg>, combine: bool, strict: bool)
    requires Sound(d, strict) && d.chain != "" && (strict && Combines(d, args, combine) ==> d.rule)
    requires DoRule(d, args, combine).Some?
    ensures Sound(DoRule(d, args, combine).value, strict)
  {
    var d' := if Combines(d, args, combine) then d else StartRule(d, args);
    if !Combines(d, args, combine) {
      StartRuleSound(d, args, strict);
    }
    AddActionsSound(d', RulePart(args, false, Known(d')).toks, args, strict);
  }

  // ----- exactly when the output is balanced

  /** The document right before the rule of this line is printed, if the line is a rule that is printed. */
  predicate PrintsRule(d: Doc, line: Line) {
    line.RuleLine? && d.table != "" && RuleChain(line.args).Some?
  }

  /** A rule that names an undeclared chain while no chain is open. */
  predicate Orphan(d: Doc, line: Line) {
    PrintsRule(d, line) && NeedChain(d, RuleChain(line.args).value).chain == ""
  }

  /** A rule whose conditions equal the previous rule's while no rule is open. */
  predicate Stray(d: Doc, line: Line, combine: bool) {
    PrintsRule(d, line) &&
    var d' := NeedChain(d, RuleChain(line.args).value);
    Combines(d', line.args, combine) && !d'.rule
  }

  /** No rule of the run is an orphan; strictly, none is a stray either. */
  predicate Orderly(d: Doc, lines: seq<Line>, combine: bool, strict: bool)
    decreases |lines|
  {
    lines == [] ||
    (&& !Orphan(d, lines[0]) && (strict ==> !Stray(d, lines[0], combine))
     && (Step(d, lines[0], combine).Some? ==> Orderly(Step(d, lines[0], combine).value, lines[1..], combine, strict)))
  }

  lemma StepSound(d: Doc, line: Line, combine: bool, strict: bool)
    requires Sound(d, strict) && GoodLine(line) && Step(d, line, combine).Some?
    requires !Orphan(d, line) && (strict ==> !Stray(d, line, combine))
    ensures Sound(Step(d, line, combine).value, strict)
  {
    match line {
      case Remark =>
      case Bad =>
      case Commit => CloseTableSound(d, strict);
      case NewTable(name) => OpenTableSound(d, name, strict);
      case NewChain(name) =>
        assert forall c :: c in d.chains + [Saved(name, false)] ==> c in d.chains || c == Saved(name, false);
      case RuleLine(args) =>
        var c := RuleChain(args).value;
        if d.chain != c {
          NeedFromSound(d, c, 0, strict);
        }
        DoRuleSound(NeedChain(d, c), args, combine, strict);
    }
  }

  lemma {:induction false} RunSound(d: Doc, lines: seq<Line>, combine: bool, strict: bool)
    requires Sound(d, strict) && (forall k :: 0 <= k < |lines| ==> GoodLine(lines[k]))
    requires Run(d, lines, combine).Some? && Orderly(d, lines, combine, strict)
    ensures Sound(Run(d, lines, combine).value, strict)
    decreases |lines|
  {
    if lines != [] {
      StepSound(d, lines[0], combine, strict);
      RunSound(Step(d, lines[0], combine).value, lines[1..], combine, strict);
    }
  }

  lemma BeginSound(strict: bool)
    ensures Sound(Begin, strict)
  {
    ReadOne([], Open(Root), strict);
    assert OpenTags(Begin) == [] + [Root];
  }

  lemma OrderlyReads(lines: seq<Line>, combine: bool, strict: bool)
    requires forall k :: 0 <= k < |lines| ==> GoodLine(lines[k])
    requires Convert(lines, combine).Some? && Orderly(Begin, lines, combine, strict)
    ensures Read([], Convert(lines, combine).value, strict) == Some([])
  {
    BeginSound(strict);
    RunSound(Begin, lines, combine, strict);
    var d := Run(Begin, lines, combine).value;
    EmitReads(d, [Close(Root)], strict);
    ReadOne([Root], Close(Root), strict);
    assert OpenTags(d) == [Root];
  }

  // ----- an orphan rule is never repaired

  /** The reader has given up, or the next tag to be closed is not the innermost open one. */
  ghost predicate Broken(d: Doc) {
    && (forall c :: c in d.chains ==> c.name != "")
    && var s := Read([], d.out, false);
       s.None? ||
       (&& d.table != "" && d.action && s.value != []
        && s.value[|s.value| - 1] == if d.chain == "" then Actions else Chain)
  }

  lemma EmitNone(d: Doc, toks: seq<Tok>)
    requires Read([], d.out, false).None?
    ensures Read([], Emit(d, toks).out, false).None?
  {
    ReadAppend([], d.out, toks, false);
  }

  lemma EmitSome(d: Doc, toks: seq<Tok>)
    requires Read([], d.out, false).Some?
    ensures Read([], Emit(d, toks).out, false) == Read(Read([], d.out, false).value, toks, false)
  {
    ReadAppend([], d.out, toks, false);
  }

  /** Closing the actions when they are not innermost makes the reader give up. */
  lemma CloseActionsFails(stack: seq<Tag>, rest: seq<Tok>)
    requires stack != [] && stack[|stack| - 1] == Chain
    ensures Read(stack, [Close(Actions)] + rest, false) == None
  {
    assert ReadTok(stack, Close(Actions), false) == None;
    assert ([Close(Actions)] + rest)[0] == Close(Actions);
  }

  lemma CloseChainBroken(d: Doc)
    requires Broken(d)
    ensures Broken(CloseChain(d))
    ensures d.chain == "" ==> CloseChain(d) == d
    ensures d.chain != "" ==> Read([], CloseChain(d).out, false).None?
    ensures CloseChain(d).chains == d.chains && CloseChain(d).table == d.table
  {
    if d.chain != "" {
      var toks := If(d.action, Close(Actions)) + (If(d.rule, Close(Rule)) + [Close(Chain)]);
      var s := Read([], d.out, false);
      if s.None? {
        EmitNone(d, toks);
      } else {
        EmitSome(d, toks);
        CloseActionsFails(s.value, If(d.rule, Close(Rule)) + [Close(Chain)]);
      }
    }
  }

  lemma OpenChainBroken(d: Doc, name: string, empty: bool)
    requires Broken(d) && name != ""
    ensures Broken(OpenChain(d, name, empty))
    ensures OpenChain(d, name, empty).chains == d.chains && OpenChain(d, name, empty).table == d.table
    ensures d.chain == "" && empty ==> OpenChain(d, name, empty).chain == ""
  {
    CloseChainBroken(d);
    var c := CloseChain(d);
    var k := if empty then Empty(Chain) else Open(Chain);
    var s := Read([], c.out, false);
    if s.None? {
      EmitNone(c, [k]);
    } else {
      EmitSome(c, [k]);
      ReadOne(s.value, k, false);
    }
  }

  lemma ChainsBroken(d: Doc, c: nat)
    requires Broken(d) && c < |d.chains|
    ensures Broken(d.(chains := d.chains[c := Saved(d.chains[c].name, true)]))
  {
    assert d.chains[c] in d.chains;
    assert forall x :: x in d.chains[c := Saved(d.chains[c].name, true)] ==> x in d.chains || x.name == d.chains[c].name;
  }

  lemma {:induction false} NeedFromBroken(d: Doc, name: string, c: nat)
    requires Broken(d) && c <= |d.chains|
    ensures Broken(NeedFrom(d, name, c)) && NeedFrom(d, name, c).table == d.table
    decreases |d.chains| - c
  {
    if c < |d.chains| {
      if d.chains[c].name == name {
        OpenChainBroken(d, name, false);
        ChainsBroken(OpenChain(d, name, false), c);
        NeedFromBroken(OpenChain(d, name, false).(chains := d.chains[c := Saved(name, true)]), name, c + 1);
      } else {
        NeedFromBroken(d, name, c + 1);
      }
    }
  }

  lemma {:induction false} FinishFromBroken(d: Doc, chains: seq<Saved>)
    requires Broken(d) && d.chain == "" && (forall c :: c in chains ==> c.name != "")
    ensures Broken(FinishFrom(d, chains)) && FinishFrom(d, chains).chain == ""
    ensures FinishFrom(d, chains).table == d.table
    decreases |chains|
  {
    if chains != [] {
      if !chains[0].created {
        OpenChainBroken(d, chains[0].name, true);
      }
      FinishFromBroken(if chains[0].created then d else OpenChain(d, chains[0].name, true), chains[1..]);
    }
  }

  /** Once a table is closed, the reader has given up. */
  lemma CloseTableBroken(d: Doc)
    requires Broken(d)
    ensures Read([], CloseTable(d).out, false).None? && CloseTable(d).chains == []
  {
    CloseChainBroken(d);
    var c := CloseChain(d);
    FinishFromBroken(c, c.chains);
    var f := FinishFrom(c, c.chains);
    var toks := If(f.table != "", Close(Table));
    var s := Read([], f.out, false);
    if s.None? {
      EmitNone(f, toks);
    } else {
      EmitSome(f, toks);
      ReadOne(s.value, Close(Table), false);
    }
  }

  /** Printing a rule: the reader gives up, or the actions are innermost, or nothing has changed. */
  lemma DoRuleEffect(d: Doc, args: seq<Arg>, combine: bool)
    requires DoRule(d, args, combine).Some?
    ensures
      var r := DoRule(d, args, combine).value;
      var s, s' := Read([], d.out, false), Read([], r.out, false);
      && r.action && r.chain == d.chain && r.table == d.table && r.chains == d.chains
      && (s.None? ==> s'.None?)
      && (s.Some? && d.action && Combines(d, args, combine) ==> s' == s)
      && (s.Some? && !(d.action && Combines(d, args, combine))
          ==> s'.None? || (s'.value != [] && s'.value[|s'.value| - 1] == Actions))
  {
    var m := if Combines(d, args, combine) then d else StartRule(d, args);
    var actions := RulePart(args, false, Known(m)).toks;
    if Read([], d.out, false).None? && !Combines(d, args, combine) {
      EmitNone(d, If(d.action, Close(Actions)) + (If(d.rule, Close(Rule)) + ([Open(Rule)] + Shown(d, args))));
    }
    var toks := If(!m.action, Open(Actions)) + actions;
    var s := Read([], m.out, false);
    if s.None? {
      EmitNone(m, toks);
    } else {
      EmitSome(m, toks);
      var inside := if m.action then s.value else s.value + [Actions];
      ReadOne(s.value, Open(Actions), false);
      RulePartReads(args, false, Known(m), inside, false);
      ReadThen(s.value, If(!m.action, Open(Actions)), inside, actions, Some(inside), false);
    }
  }

  lemma StartRuleFails(d: Doc, args: seq<Arg>)
    requires Broken(d) && d.chain != ""
    ensures Read([], StartRule(d, args).out, false).None?
  {
    var rest := If(d.rule, Close(Rule)) + ([Open(Rule)] + Shown(d, args));
    var s := Read([], d.out, false);
    if s.None? {
      EmitNone(d, If(d.action, Close(Actions)) + rest);
    } else {
      EmitSome(d, If(d.action, Close(Actions)) + rest);
      CloseActionsFails(s.value, rest);
    }
  }

  lemma DoRuleBroken(d: Doc, args: seq<Arg>, combine: bool)
    requires Broken(d) && DoRule(d, args, combine).Some?
    ensures Broken(DoRule(d, args, combine).value)
  {
    DoRuleEffect(d, args, combine);
    if d.chain != "" && !Combines(d, args, combine) {
      StartRuleFails(d, args);
      var m := StartRule(d, args);
      EmitNone(m, If(!m.action, Open(Actions)) + RulePart(args, false, Known(m)).toks);
    }
  }

  lemma StepBroken(d: Doc, line: Line, combine: bool)
    requires Broken(d) && GoodLine(line) && Step(d, line, combine).Some?
    ensures Broken(Step(d, line, combine).value)
  {
    match line {
      case Remark =>
      case Bad =>
      case Commit => CloseTableBroken(d);
      case NewTable(name) =>
        CloseTableBroken(d);
        EmitNone(CloseTable(d), [Open(Table)]);
      case NewChain(name) =>
        assert forall c :: c in d.chains + [Saved(name, false)] ==> c in d.chains || c == Saved(name, false);
      case RuleLine(args) =>
        var c := RuleChain(args).value;
        if d.chain != c {
          NeedFromBroken(d, c, 0);
        }
        DoRuleBroken(NeedChain(d, c), args, combine);
    }
  }

  lemma OrphanBreaks(d: Doc, line: Line, combine: bool)
    requires Sound(d, false) && Orphan(d, line) && Step(d, line, combine).Some?
    ensures Broken(Step(d, line, combine).value)
  {
    var c := RuleChain(line.args).value;
    if d.chain != c {
      NeedFromSound(d, c, 0, false);
    }
    DoRuleEffect(NeedChain(d, c), line.args, combine);
  }

  lemma {:induction false} RunBroken(d: Doc, lines: seq<Line>, combine: bool)
    requires Broken(d) && (forall k :: 0 <= k < |lines| ==> GoodLine(lines[k])) && Run(d, lines, combine).Some?
    ensures Broken(Run(d, lines, combine).value)
    decreases |lines|
  {
    if lines != [] {
      StepBroken(d, lines[0], combine);
      RunBroken(Step(d, lines[0], combine).value, lines[1..], combine);
    }
  }

  lemma {:induction false} DisorderBreaks(d: Doc, lines: seq<Line>, combine: bool)
    requires Sound(d, false) && (forall k :: 0 <= k < |lines| ==> GoodLine(lines[k]))
    requires Run(d, lines, combine).Some? && !Orderly(d, lines, combine, false)
    ensures Broken(Run(d, lines, combine).value)
    decreases |lines|
  {
    var d' := Step(d, lines[0], combine).value;
    if Orphan(d, lines[0]) {
      OrphanBreaks(d, lines[0], combine);
      RunBroken(d', lines[1..], combine);
    } else {
      StepSound(d, lines[0], combine, false);
      DisorderBreaks(d', lines[1..], combine);
    }
  }

  /**
   For every accepted input, with or without combining: the output is balanced
   if and only if no rule is printed while no chain is open, that is, if and only
   if no rule names an undeclared chain before the first chain of its table is
   opened.
   */
  lemma BalancedExactly(lines: seq<Line>, combine: bool)
    requires forall k :: 0 <= k < |lines| ==> GoodLine(lines[k])
    requires Convert(lines, combine).Some?
    ensures Balanced(Convert(lines, combine).value) <==> Orderly(Begin, lines, combine, false)
  {
    if Orderly(Begin, lines, combine, false) {
      OrderlyReads(lines, combine, false);
    } else {
      BeginSound(false);
      DisorderBreaks(Begin, lines, combine);
      EmitNone(Run(Begin, lines, combine).value, [Close(Root)]);
    }
  }

  // ----- exactly when every tag stands under its proper parent

  lemma {:induction false} NeedFromExtends(d: Doc, name: string, c: nat)
    requires c <= |d.chains|
    ensures d.out <= NeedFrom(d, name, c).out
    decreases |d.chains| - c
  {
    if c < |d.chains| {
      if d.chains[c].name == name {
        NeedFromExtends(OpenChain(d, name, false).(chains := d.chains[c := Saved(name, true)]), name, c + 1);
      } else {
        NeedFromExtends(d, name, c + 1);
      }
    }
  }

  lemma {:induction false} FinishFromExtends(d: Doc, chains: seq<Saved>)
    ensures d.out <= FinishFrom(d, chains).out
    decreases |chains|
  {
    if chains != [] {
      FinishFromExtends(if chains[0].created then d else OpenChain(d, chains[0].name, true), chains[1..]);
    }
  }

  lemma StepExtends(d: Doc, line: Line, combine: bool)
    requires Step(d, line, combine).Some?
    ensures d.out <= Step(d, line, combine).value.out
  {
    match line {
      case Remark =>
      case Bad =>
      case NewChain(_) =>
      case Commit => FinishFromExtends(CloseChain(d), CloseChain(d).chains);
      case NewTable(_) => FinishFromExtends(CloseChain(d), CloseChain(d).chains);
      case RuleLine(args) => NeedFromExtends(d, RuleChain(args).value, 0);
    }
  }

  lemma NoneStays(a: seq<Tok>, b: seq<Tok>, strict: bool)
    requires Read([], a, strict).None? && a <= b
    ensures Read([], b, strict).None?
  {
    assert b == a + b[|a|..];
    ReadAppend([], a, b[|a|..], strict);
  }

  lemma {:induction false} RunNone(d: Doc, lines: seq<Line>, combine: bool)
    requires Read([], d.out, true).None? && Run(d, lines, combine).Some?
    ensures Read([], Run(d, lines, combine).value.out, true).None?
    decreases |lines|
  {
    if lines != [] {
      StepExtends(d, lines[0], combine);
      NoneStays(d.out, Step(d, lines[0], combine).value.out, true);
      RunNone(Step(d, lines[0], combine).value, lines[1..], combine);
    }
  }

  /** Combining while no rule is open puts the actions directly under the chain. */
  lemma StrayFails(d: Doc, line: Line, combine: bool)
    requires Sound(d, true) && !Orphan(d, line) && Stray(d, line, combine) && Step(d, line, combine).Some?
    ensures Read([], Step(d, line, combine).value.out, true).None?
  {
    var c := RuleChain(line.args).value;
    if d.chain != c {
      NeedFromSound(d, c, 0, true);
    }
    var d' := NeedChain(d, c);
    var toks := RulePart(line.args, false, Known(d')).toks;
    var base := [Root, Table, Chain];
    assert OpenTags(d') == base;
    assert Read(base, [Open(Actions)] + toks, true).None? by {
      ReadAppend(base, [Open(Actions)], toks, true);
      ReadOne(base, Open(Actions), true);
    }
    EmitReads(d', [Open(Actions)] + toks, true);
  }

  lemma {:induction false} StrayRunFails(d: Doc, lines: seq<Line>, combine: bool)
    requires Sound(d, true) && (forall k :: 0 <= k < |lines| ==> GoodLine(lines[k])) && Run(d, lines, combine).Some?
    requires Orderly(d, lines, combine, false) && !Orderly(d, lines, combine, true)
    ensures Read([], Run(d, lines, combine).value.out, true).None?
    decreases |lines|
  {
    var d' := Step(d, lines[0], combine).value;
    if Stray(d, lines[0], combine) {
      StrayFails(d, lines[0], combine);
      RunNone(d', lines[1..], combine);
    } else {
      StepSound(d, lines[0], combine, true);
      StrayRunFails(d', lines[1..], combine);
    }
  }

  /**
   For every accepted input: the output is balanced and every table, chain, rule,
   conditions and actions tag stands under its proper parent if and only if, in
   addition, no rule is combined with a previous rule that is already closed.
   */
  lemma ProperExactly(lines: seq<Line>, combine: bool)
    requires forall k :: 0 <= k < |lines| ==> GoodLine(lines[k])
    requires Convert(lines, combine).Some?
    ensures Proper(Convert(lines, combine).value) <==> Orderly(Begin, lines, combine, true)
  {
    var out := Convert(lines, combine).value;
    if Orderly(Begin, lines, combine, true) {
      OrderlyReads(lines, combine, true);
    } else if Orderly(Begin, lines, combine, false) {
      BeginSound(true);
      StrayRunFails(Begin, lines, combine);
      NoneStays(Run(Begin, lines, combine).value.out, out, true);
    } else {
      BalancedExactly(lines, combine);
      if Proper(out) {
        StrictReads([], out);
      }
    }
  }

  // ----- inputs that declare their chains

  /** Every rule names a chain declared in its table. */
  predicate Declared(d: Doc, lines: seq<Line>, combine: bool)
    decreases |lines|
  {
    lines == [] ||
    (&& (PrintsRule(d, lines[0]) ==> exists c :: c in d.chains && c.name == RuleChain(lines[0].args).value)
     && (Step(d, lines[0], combine).Some? ==> Declared(Step(d, lines[0], combine).value, lines[1..], combine)))
  }

  lemma {:induction false} NeedFromOpens(d: Doc, name: string, c: nat)
    requires c <= |d.chains| && name != ""
    requires d.chain != "" || exists i :: c <= i < |d.chains| && d.chains[i].name == name
    ensures NeedFrom(d, name, c).chain != ""
    decreases |d.chains| - c
  {
    if c < |d.chains| {
      if d.chains[c].name == name {
        NeedFromOpens(OpenChain(d, name, false).(chains := d.chains[c := Saved(name, true)]), name, c + 1);
      } else {
        NeedFromOpens(d, name, c + 1);
      }
    }
  }

  lemma {:induction false} DeclaredIsOrderly(d: Doc, lines: seq<Line>, combine: bool)
    requires Sound(d, false) && (forall k :: 0 <= k < |lines| ==> GoodLine(lines[k]))
    requires Declared(d, lines, combine)
    ensures Orderly(d, lines, combine, false)
    decreases |lines|
  {
    if lines != [] {
      if PrintsRule(d, lines[0]) {
        var name := RuleChain(lines[0].args).value;
        var c :| c in d.chains && c.name == name;
        var i :| 0 <= i < |d.chains| && d.chains[i] == c;
        NeedFromOpens(d, name, 0);
      }
      if Step(d, lines[0], combine).Some? {
        StepSound(d, lines[0], combine, false);
        DeclaredIsOrderly(Step(d, lines[0], combine).value, lines[1..], combine);
      }
    }
  }

  /** An accepted input whose rules all name declared chains gives a balanced output. */
  lemma DeclaredIsBalanced(lines: seq<Line>, combine: bool)
    requires forall k :: 0 <= k < |lines| ==> GoodLine(lines[k])
    requires Convert(lines, combine).Some? && Declared(Begin, lines, combine)
    ensures Balanced(Convert(lines, combine).value)
  {
    BeginSound(false);
    DeclaredIsOrderly(Begin, lines, combine);
    BalancedExactly(lines, combine);
  }

  lemma {:induction false} UncombinedIsOrderly(d: Doc, lines: seq<Line>)
    requires Orderly(d, lines, false, false)
    ensures Orderly(d, lines, false, true)
    decreases |lines|
  {
    if lines != [] && Step(d, lines[0], false).Some? {
      UncombinedIsOrderly(Step(d, lines[0], false).value, lines[1..]);
    }
  }

  /** Without combining, such an output is proper too. */
  lemma DeclaredIsProper(lines: seq<Line>)
    requires forall k :: 0 <= k < |lines| ==> GoodLine(lines[k])
    requires Convert(lines, false).Some? && Declared(Begin, lines, false)
    ensures Proper(Convert(lines, false).value)
  {
    BeginSound(false);
    DeclaredIsOrderly(Begin, lines, false);
    UncombinedIsOrderly(Begin, lines);
    ProperExactly(lines, false);
  }

  // ----- inputs that do not

  function Plain(text: string): Arg {
    Arg(text, false)
  }

  /** Nothing but the root is open. */
  predicate Idle(d: Doc) {
    d.table == "" && d.chain == "" && d.chains == [] && !d.rule && !d.action
  }

  lemma RunCons(d: Doc, line: Line, lines: seq<Line>, combine: bool)
    requires Step(d, line, combine).Some?
    ensures Run(d, [line] + lines, combine) == Run(Step(d, line, combine).value, lines, combine)
  {
    assert ([line] + lines)[1..] == lines;
  }

  lemma OrderlyCons(d: Doc, line: Line, lines: seq<Line>, combine: bool, strict: bool)
    requires Step(d, line, combine).Some? && Orderly(d, [line] + lines, combine, strict)
    ensures !Orphan(d, line) && (strict ==> !Stray(d, line, combine))
    ensures Orderly(Step(d, line, combine).value, lines, combine, strict)
  {
    assert ([line] + lines)[1..] == lines;
  }

  lemma TableOpens(d: Doc, table: string)
    requires Idle(d) && table != ""
    ensures
      var r := OpenTable(d, table);
      r.table == Cut(table) && Idle(r.(table := "")) && r.previous == d.previous
  {
  }

  lemma TableCloses(d: Doc)
    requires forall c :: c in d.chains ==> c.created
    requires d.chain == "" ==> !d.rule && !d.action
    ensures Idle(CloseTable(d)) && CloseTable(d).previous == d.previous
  {
    CreatedFinish(CloseChain(d), d.chains);
  }

  lemma {:induction false} CreatedFinish(d: Doc, chains: seq<Saved>)
    requires forall c :: c in chains ==> c.created
    ensures FinishFrom(d, chains) == d
    decreases |chains|
  {
    if chains != [] {
      assert chains[0] in chains;
      CreatedFinish(d, chains[1..]);
    }
  }

  lemma {:induction false} ChainOf(args: seq<Arg>)
    requires |args| >= 2 && args[0].text == "-A" && forall k :: 1 <= k < |args| ==> args[k].text != "-A"
    ensures RuleChain(args) == Some(args[1].text)
    decreases |args|
  {
    if |args| > 2 {
      ChainOf(args[..|args| - 1]);
    }
  }

  /** The words of `-A chain -p tcp -j ACCEPT`. */
  function Accepting(chain: string): seq<Arg> {
    [Plain("-A"), Plain(chain), Plain("-p"), Plain("tcp"), Plain("-j"), Plain("ACCEPT")]
  }

  lemma AcceptingWords(chain: string, known: set<string>)
    requires chain != "-A" && "ACCEPT" !in known
    ensures RuleChain(Accepting(chain)) == Some(chain) && RulePart(Accepting(chain), false, known).Part?
    ensures HasConditions(Accepting(chain)) && SameConditions(Texts(Accepting(chain)), Texts(Accepting(chain)))
  {
    var a := Accepting(chain);
    ChainOf(a);
    assert FirstTarget(a, 4) == 4 && FirstTarget(a, 3) == 4 && FirstTarget(a, 2) == 4;
    assert PartFrom(a, 6, false, Levels(None, None), known).Part?;
    assert PartFrom(a, 4, false, Levels(None, None), known) == Unit(a, 4, false, Levels(None, None), known);
    var t := Texts(a);
    assert t == ["-A", chain, "-p", "tcp", "-j", "ACCEPT"];
    assert SameConditions(t[1..][1..][1..][1..], t[1..][1..][1..][1..]);
    assert SameConditions(t[1..][1..][1..], t[1..][1..][1..]);
    assert SameConditions(t[1..][1..], t[1..][1..]);
    assert SameConditions(t[1..], t[1..]);
  }

  lemma RuleAccepted(d: Doc, chain: string, combine: bool)
    requires d.table != "" && chain != "-A" && "ACCEPT" !in Known(NeedChain(d, chain))
    ensures
      var r := Step(d, RuleLine(Accepting(chain)), combine);
      && r.Some? && r.value.previous == Texts(Accepting(chain))
      && r.value.table == NeedChain(d, chain).table && r.value.chain == NeedChain(d, chain).chain
      && r.value.chains == NeedChain(d, chain).chains
  {
    AcceptingWords(chain, Known(NeedChain(d, chain)));
  }

  /** A rule for a chain that its table does not declare, before any chain is opened, is printed outside all chains. */
  lemma OrphanIsReached(table: string, chain: string)
    requires table != "" && chain != "" && chain != "-A"
    ensures
      var lines := [NewTable(table), RuleLine(Accepting(chain)), Commit];
      Convert(lines, false).Some? && !Balanced(Convert(lines, false).value)
  {
    var rule := RuleLine(Accepting(chain));
    var lines := [NewTable(table)] + ([rule] + ([Commit] + []));
    assert lines == [NewTable(table), rule, Commit];
    var d := OpenTable(Begin, table);
    TableOpens(Begin, table);
    assert NeedChain(d, chain) == d;
    RuleAccepted(d, chain, false);
    var r := Step(d, rule, false).value;
    RunCons(Begin, NewTable(table), [rule] + ([Commit] + []), false);
    RunCons(d, rule, [Commit] + [], false);
    RunCons(r, Commit, [], false);
    assert Orphan(d, rule) by { AcceptingWords(chain, {}); }
    if Orderly(Begin, lines, false, false) {
      OrderlyCons(Begin, NewTable(table), [rule] + ([Commit] + []), false, false);
      OrderlyCons(d, rule, [Commit] + [], false, false);
    }
    BalancedExactly(lines, false);
  }

  /** A table with the one chain and rule. */
  function OneRule(table: string, chain: string, rest: seq<Line>): seq<Line> {
    [NewTable(table)] + ([NewChain(chain)] + ([RuleLine(Accepting(chain))] + ([Commit] + rest)))
  }

  function Declaring(d: Doc, table: string, chain: string): Doc {
    var t := OpenTable(d, table);
    t.(chains := t.chains + [Saved(chain, false)])
  }

  lemma ChainOpens(d: Doc, table: string, chain: string)
    requires Idle(d) && table != "" && chain != "" && |chain| <= MAX_NAME
    ensures
      var n := NeedChain(Declaring(d, table, chain), chain);
      && n.table == Cut(table) && n.chain == chain && n.chains == [Saved(chain, true)]
      && !n.rule && n.previous == d.previous
  {
    TableOpens(d, table);
    var t := Declaring(d, table, chain);
    assert t.chains == [Saved(chain, false)];
    var o := OpenChain(t, chain, false).(chains := t.chains[0 := Saved(chain, true)]);
    assert NeedFrom(t, chain, 0) == NeedFrom(o, chain, 1) == o;
  }

  lemma TableRuns(d: Doc, table: string, chain: string, lines: seq<Line>, combine: bool)
    requires Idle(d) && table != ""
    ensures Run(d, [NewTable(table)] + ([NewChain(chain)] + lines), combine)
         == Run(Declaring(d, table, chain), lines, combine)
  {
    TableOpens(d, table);
    RunCons(d, NewTable(table), [NewChain(chain)] + lines, combine);
    RunCons(OpenTable(d, table), NewChain(chain), lines, combine);
  }

  lemma OneRuleRuns(d: Doc, table: string, chain: string, rest: seq<Line>, combine: bool)
    requires Idle(d) && table != "" && Nameable(chain)
    ensures
      var rule := RuleLine(Accepting(chain));
      var after := Step(Declaring(d, table, chain), rule, combine);
      && after.Some? && Idle(CloseTable(after.value)) && CloseTable(after.value).previous == Texts(Accepting(chain))
      && Run(d, OneRule(table, chain, rest), combine) == Run(CloseTable(after.value), rest, combine)
  {
    var rule, c := RuleLine(Accepting(chain)), Declaring(d, table, chain);
    TableRuns(d, table, chain, [rule] + ([Commit] + rest), combine);
    ChainOpens(d, table, chain);
    RuleAccepted(c, chain, combine);
    var r := Step(c, rule, combine).value;
    TableCloses(r);
    RunCons(c, rule, [Commit] + rest, combine);
    RunCons(r, Commit, rest, combine);
  }

  lemma TableOrderly(d: Doc, table: string, chain: string, lines: seq<Line>, combine: bool, strict: bool)
    requires Idle(d) && table != "" && Orderly(d, [NewTable(table)] + ([NewChain(chain)] + lines), combine, strict)
    ensures Orderly(Declaring(d, table, chain), lines, combine, strict)
  {
    TableOpens(d, table);
    OrderlyCons(d, NewTable(table), [NewChain(chain)] + lines, combine, strict);
    OrderlyCons(OpenTable(d, table), NewChain(chain), lines, combine, strict);
  }

  lemma OneRuleOrderly(d: Doc, table: string, chain: string, rest: seq<Line>, combine: bool, strict: bool)
    requires Idle(d) && table != "" && Nameable(chain)
    requires Orderly(d, OneRule(table, chain, rest), combine, strict)
    ensures
      var c, rule := Declaring(d, table, chain), RuleLine(Accepting(chain));
      && (strict ==> !Stray(c, rule, combine))
      && (Step(c, rule, combine).Some? ==> Orderly(CloseTable(Step(c, rule, combine).value), rest, combine, strict))
  {
    var rule, c := RuleLine(Accepting(chain)), Declaring(d, table, chain);
    TableOrderly(d, table, chain, [rule] + ([Commit] + rest), combine, strict);
    ChainOpens(d, table, chain);
    RuleAccepted(c, chain, combine);
    OrderlyCons(c, rule, [Commit] + rest, combine, strict);
    var r := Step(c, rule, combine).value;
    TableCloses(r);
    OrderlyCons(r, Commit, rest, combine, strict);
  }

  lemma SecondIsStray(d: Doc, table: string, chain: string)
    requires Idle(d) && table != "" && Nameable(chain)
    requires d.previous == Texts(Accepting(chain))
    ensures Stray(Declaring(d, table, chain), RuleLine(Accepting(chain)), true)
  {
    TableOpens(d, table);
    ChainOpens(d, table, chain);
    AcceptingWords(chain, {});
  }

  predicate Nameable(chain: string) {
    chain != "" && chain != "-A" && chain != "ACCEPT" && |chain| <= MAX_NAME
  }

  function TwoTables(first: string, next: string, chain: string): seq<Line> {
    OneRule(first, chain, OneRule(next, chain, []))
  }

  /** The converter after the first of the two tables. */
  lemma BetweenTables(first: string, next: string, chain: string) returns (d: Doc)
    requires first != "" && Nameable(chain)
    ensures Idle(d) && d.previous == Texts(Accepting(chain))
    ensures
      var after := Step(Declaring(Begin, first, chain), RuleLine(Accepting(chain)), true);
      after.Some? && d == CloseTable(after.value)
    ensures Run(Begin, TwoTables(first, next, chain), true) == Run(d, OneRule(next, chain, []), true)
  {
    OneRuleRuns(Begin, first, chain, OneRule(next, chain, []), true);
    d := CloseTable(Step(Declaring(Begin, first, chain), RuleLine(Accepting(chain)), true).value);
  }

  lemma TwoTablesStray(first: string, next: string, chain: string)
    requires first != "" && next != "" && Nameable(chain)
    ensures !Orderly(Begin, TwoTables(first, next, chain), true, true)
  {
    var d := BetweenTables(first, next, chain);
    SecondIsStray(d, next, chain);
    if Orderly(Begin, TwoTables(first, next, chain), true, true) {
      OneRuleOrderly(Begin, first, chain, OneRule(next, chain, []), true, true);
      OneRuleOrderly(d, next, chain, [], true, true);
    }
  }

  lemma TwoTablesDeclared(first: string, next: string, chain: string)
    requires first != "" && next != "" && Nameable(chain)
    ensures Declared(Begin, TwoTables(first, next, chain), true)
  {
    var d := BetweenTables(first, next, chain);
    OneRuleRuns(d, next, chain, [], true);
    OneRuleDeclared(d, next, chain, [], true);
    OneRuleDeclared(Begin, first, chain, OneRule(next, chain, []), true);
  }

  /**
   With combining, a rule whose conditions are those of the last rule of the
   table before it gets no rule tag of its own: its actions stand in the chain.
   */
  lemma StrayIsReached(first: string, next: string, chain: string)
    requires first != "" && next != "" && Nameable(chain)
    ensures
      var out := Convert(TwoTables(first, next, chain), true);
      out.Some? && Balanced(out.value) && !Proper(out.value)
  {
    var lines := TwoTables(first, next, chain);
    assert Convert(lines, true).Some? by {
      var d := BetweenTables(first, next, chain);
      OneRuleRuns(d, next, chain, [], true);
    }
    assert forall k :: 0 <= k < |lines| ==> GoodLine(lines[k]);
    TwoTablesStray(first, next, chain);
    ProperExactly(lines, true);
    TwoTablesDeclared(first, next, chain);
    DeclaredIsBalanced(lines, true);
  }

  lemma OneRuleDeclared(d: Doc, table: string, chain: string, rest: seq<Line>, combine: bool)
    requires Idle(d) && table != "" && Nameable(chain)
    requires
      var after := Step(Declaring(d, table, chain), RuleLine(Accepting(chain)), combine);
      after.Some? && Declared(CloseTable(after.value), rest, combine)
    ensures Declared(d, OneRule(table, chain, rest), combine)
  {
    var c := Declaring(d, table, chain);
    assert Saved(chain, false) in c.chains;
    RuleDeclared(c, chain, rest, combine);
    TableDeclared(d, table, chain, [RuleLine(Accepting(chain))] + ([Commit] + rest), combine);
  }

  lemma TableDeclared(d: Doc, table: string, chain: string, lines: seq<Line>, combine: bool)
    requires Idle(d) && table != "" && Declared(Declaring(d, table, chain), lines, combine)
    ensures Declared(d, [NewTable(table)] + ([NewChain(chain)] + lines), combine)
  {
    TableOpens(d, table);
    DeclaredCons(OpenTable(d, table), NewChain(chain), lines, combine);
    DeclaredCons(d, NewTable(table), [NewChain(chain)] + lines, combine);
  }

  lemma RuleDeclared(c: Doc, chain: string, rest: seq<Line>, combine: bool)
    requires chain != "-A" && exists s :: s in c.chains && s.name == chain
    requires Step(c, RuleLine(Accepting(chain)), combine).Some?
    requires Declared(CloseTable(Step(c, RuleLine(Accepting(chain)), combine).value), rest, combine)
    ensures Declared(c, [RuleLine(Accepting(chain))] + ([Commit] + rest), combine)
  {
    var rule := RuleLine(Accepting(chain));
    AcceptingWords(chain, {});
    DeclaredCons(Step(c, rule, combine).value, Commit, rest, combine);
    DeclaredCons(c, rule, [Commit] + rest, combine);
  }

  lemma DeclaredCons(d: Doc, line: Line, lines: seq<Line>, combine: bool)
    ensures Declared(d, [line] + lines, combine)
       <==> (PrintsRule(d, line) ==> exists c :: c in d.chains && c.name == RuleChain(line.args).value)
            && (Step(d, line, combine).Some? ==> Declared(Step(d, line, combine).value, lines, combine))
  {
    assert ([line] + lines)[1..] == lines;
  }
}
