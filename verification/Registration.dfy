/**
 * Registering the revisions of matches and targets.
 *
 * Each list keeps one revision of a name. Which revisions the kernel can use is given by `can`. A match joins the
 * list at its end, a target at its front; a target is looked up under the name "standard" when it is called like
 * one of the built-in verdicts.
 */
module Registration {
  import opened Sequences

  /** A match or target, and whether its version and size are what the program expects. */
  datatype Entry = Entry(name: string, revision: nat, versionOk: bool, sizeOk: bool)

  type Kernel = (string, nat) -> bool

  const MAX_NAME := 30

  predicate Reserved(name: string) {
    name == "" || name == "ACCEPT" || name == "DROP" || name == "QUEUE" || name == "RETURN"
  }

  datatype Kind = Match | Target

  /** The name an extension is looked up under. */
  function Key(kind: Kind, name: string): string {
    if kind.Target? && Reserved(name) then "standard" else name
  }

  predicate Usable(can: Kernel, e: Entry) {
    can(e.name, e.revision)
  }

  /** The first entry with the name, or the length of the list. */
  function Find(list: seq<Entry>, name: string): (k: nat)
    ensures k <= |list|
    ensures k < |list| ==> list[k].name == name
    ensures forall i :: 0 <= i < k ==> list[i].name != name
  {
    if list == [] then 0
    else if list[0].name == name then 0
    else
      var k := Find(list[1..], name);
      assert forall i :: 0 < i < 1 + k ==> list[i] == list[1..][i - 1];
      1 + k
  }

  function Join(kind: Kind, list: seq<Entry>, me: Entry): seq<Entry> {
    if kind.Match? then list + [me] else [me] + list
  }

  function Without(list: seq<Entry>, k: nat): seq<Entry>
    requires k < |list|
  {
    list[..k] + list[k + 1..]
  }

  /** The list after registering `me`; nothing when the program gives up. */
  function Register(can: Kernel, kind: Kind, list: seq<Entry>, me: Entry): Option<seq<Entry>> {
    if !me.versionOk || |me.name| >= MAX_NAME - 1 then None
    else
      var k := Find(list, Key(kind, me.name));
      if k < |list| && list[k].revision == me.revision then None
      else if k < |list| && Usable(can, list[k]) && list[k].revision > me.revision then Some(list)
      else if k < |list| && !Usable(can, me) then Some(list)
      else if !me.sizeOk then None
      else Some(Join(kind, if k < |list| then Without(list, k) else list, me))
  }

  function RegisterAll(can: Kernel, kind: Kind, list: seq<Entry>, ms: seq<Entry>): Option<seq<Entry>>
    decreases |ms|
  {
    if ms == [] then Some(list)
    else
      var r := Register(can, kind, list, ms[0]);
      if r.None? then None else RegisterAll(can, kind, r.value, ms[1..])
  }

  // ----- What the list keeps -----

  /** At most one entry of the name. */
  ghost predicate Single(list: seq<Entry>, name: string) {
    forall i, j :: 0 <= i < j < |list| && list[i].name == name ==> list[j].name != name
  }

  ghost predicate Absent(list: seq<Entry>, name: string) {
    forall i :: 0 <= i < |list| ==> list[i].name != name
  }

  /** `e` is as good as `m` for its name: usable and no older, when `m` can be used at all. */
  predicate AsGood(can: Kernel, e: Entry, m: Entry) {
    e.name == m.name && (Usable(can, m) ==> Usable(can, e) && e.revision >= m.revision)
  }

  ghost predicate Covered(can: Kernel, list: seq<Entry>, m: Entry) {
    exists e :: e in list && AsGood(can, e, m)
  }

  /** `e` was the first of its name to be registered. */
  predicate First(done: seq<Entry>, e: Entry) {
    var k := Find(done, e.name);
    k < |done| && done[k] == e
  }

  /**
   * The list stands for everything registered so far under the name: one entry, the newest that can be used, or
   * the first registered when none can.
   */
  ghost predicate Keeps(can: Kernel, list: seq<Entry>, done: seq<Entry>, name: string) {
    && Single(list, name)
    && (forall e :: e in list && e.name == name ==> e in done && (Usable(can, e) || First(done, e)))
    && (forall m :: m in done && m.name == name ==> Covered(can, list, m))
  }

  lemma WithoutAt(list: seq<Entry>, k: nat, i: nat)
    requires k < |list| && i < |list| && i != k
    ensures
      var j := if i < k then i else i - 1;
      j < |Without(list, k)| && Without(list, k)[j] == list[i]
  {
  }

  lemma WithoutFrom(list: seq<Entry>, k: nat, j: nat)
    requires k < |list| && j < |list| - 1
    ensures Without(list, k)[j] == list[if j < k then j else j + 1]
  {
  }

  lemma WithoutSingle(list: seq<Entry>, k: nat, name: string)
    requires k < |list| && Single(list, name)
    ensures Single(Without(list, k), name)
    ensures list[k].name == name || Absent(list, name) ==> Absent(Without(list, k), name)
  {
    var rest := Without(list, k);
    forall j | 0 <= j < |list| - 1 && (list[k].name == name || Absent(list, name)) ensures rest[j].name != name {
      WithoutFrom(list, k, j);
    }
  }

  lemma JoinSingle(kind: Kind, list: seq<Entry>, me: Entry, name: string)
    requires Single(list, name) && (me.name == name ==> Absent(list, name))
    ensures Single(Join(kind, list, me), name)
  {
  }

  /** The list with `me` in place of entry `k`, or added to it when there is no such entry. */
  function Replaced(kind: Kind, list: seq<Entry>, k: nat, me: Entry): seq<Entry>
    requires k <= |list|
  {
    Join(kind, if k < |list| then Without(list, k) else list, me)
  }

  lemma ReplacedSingle(kind: Kind, list: seq<Entry>, k: nat, me: Entry, name: string)
    requires k <= |list| && Single(list, name)
    requires me.name == name ==> Absent(list, name) || (k < |list| && list[k].name == name)
    ensures Single(Replaced(kind, list, k, me), name)
  {
    if k < |list| {
      WithoutSingle(list, k, name);
      JoinSingle(kind, Without(list, k), me, name);
    } else {
      JoinSingle(kind, list, me, name);
    }
  }

  /** An entry of the old list is still there, or was the one taken out. */
  lemma StillThere(kind: Kind, list: seq<Entry>, k: nat, me: Entry, i: nat)
    requires k <= |list| && i < |list| && i != k
    ensures list[i] in Replaced(kind, list, k, me)
  {
    if k < |list| {
      WithoutAt(list, k, i);
    }
  }

  lemma ReplacedFrom(kind: Kind, list: seq<Entry>, k: nat, me: Entry, e: Entry)
    requires k <= |list| && e in Replaced(kind, list, k, me)
    ensures e == me || exists i :: 0 <= i < |list| && i != k && list[i] == e
  {
    if k < |list| && e in Without(list, k) {
      var j :| 0 <= j < |list| - 1 && Without(list, k)[j] == e;
      WithoutFrom(list, k, j);
    }
  }

  lemma {:induction false} FindAppend(done: seq<Entry>, me: Entry, name: string)
    ensures Find(done, name) < |done| ==> Find(done + [me], name) == Find(done, name)
    ensures Find(done, name) == |done| && me.name == name ==> Find(done + [me], name) == |done|
  {
    var k, j := Find(done, name), Find(done + [me], name);
    assert k < |done| ==> (done + [me])[k] == done[k];
    assert k == |done| ==> (done + [me])[k] == me;
    assert j < |done| ==> (done + [me])[j] == done[j];
  }

  /** Registering keeps what the list holds under `me`'s own name, when the old entry stays. */
  lemma StayKeeps(can: Kernel, list: seq<Entry>, done: seq<Entry>, me: Entry, k: nat)
    requires Keeps(can, list, done, me.name) && k < |list| && AsGood(can, list[k], me)
    ensures Keeps(can, list, done + [me], me.name)
  {
    forall e | e in list && e.name == me.name ensures e in done + [me] && (Usable(can, e) || First(done + [me], e)) {
      FindAppend(done, me, e.name);
    }
    assert list[k] in list;
  }

  lemma NotFound(can: Kernel, list: seq<Entry>, done: seq<Entry>, name: string)
    requires Keeps(can, list, done, name) && Find(list, name) == |list|
    ensures Find(done, name) == |done|
  {
    forall i | 0 <= i < |done| ensures done[i].name != name {
      assert done[i] in done;
      assert done[i].name == name ==> Covered(can, list, done[i]);
    }
  }

  /** The new entry may take the place of the one it finds. */
  predicate Better(can: Kernel, list: seq<Entry>, k: nat, me: Entry) {
    k < |list| ==> Usable(can, me) && (Usable(can, list[k]) ==> list[k].revision <= me.revision)
  }

  lemma ReplacedCovers(can: Kernel, kind: Kind, list: seq<Entry>, done: seq<Entry>, me: Entry, m: Entry)
    requires Keeps(can, list, done, me.name) && Better(can, list, Find(list, me.name), me)
    requires m in done && m.name == me.name
    ensures Covered(can, Replaced(kind, list, Find(list, me.name), me), m)
  {
    var k := Find(list, me.name);
    assert me in Replaced(kind, list, k, me);
    var e :| e in list && AsGood(can, e, m);
    var i :| 0 <= i < |list| && list[i] == e;
    assert i == k && AsGood(can, me, m);
  }

  /** Registering keeps what the list holds under `me`'s own name, when the new entry takes the old one's place. */
  lemma ReplacedKeeps(can: Kernel, kind: Kind, list: seq<Entry>, done: seq<Entry>, me: Entry)
    requires Keeps(can, list, done, me.name) && Better(can, list, Find(list, me.name), me)
    ensures Keeps(can, Replaced(kind, list, Find(list, me.name), me), done + [me], me.name)
  {
    var k := Find(list, me.name);
    var joined := Replaced(kind, list, k, me);
    ReplacedSingle(kind, list, k, me, me.name);
    forall e | e in joined && e.name == me.name ensures e in done + [me] && (Usable(can, e) || First(done + [me], e)) {
      ReplacedFrom(kind, list, k, me, e);
      FindAppend(done, me, e.name);
      if e == me && k == |list| {
        NotFound(can, list, done, me.name);
      }
    }
    forall m | m in done + [me] && m.name == me.name ensures Covered(can, joined, m) {
      if m in done {
        ReplacedCovers(can, kind, list, done, me, m);
      } else {
        assert me in joined && AsGood(can, me, m);
      }
    }
  }

  /** Registering another name keeps what the list holds, as long as the entry it replaces has another name, too. */
  lemma OtherKeeps(can: Kernel, kind: Kind, list: seq<Entry>, done: seq<Entry>, me: Entry, k: nat, name: string)
    requires Keeps(can, list, done, name) && me.name != name && k <= |list| && (k < |list| ==> list[k].name != name)
    ensures Keeps(can, Replaced(kind, list, k, me), done + [me], name)
  {
    var joined := Replaced(kind, list, k, me);
    ReplacedSingle(kind, list, k, me, name);
    forall e | e in joined && e.name == name ensures e in done + [me] && (Usable(can, e) || First(done + [me], e)) {
      ReplacedFrom(kind, list, k, me, e);
      FindAppend(done, me, e.name);
    }
    forall m | m in done + [me] && m.name == name ensures Covered(can, joined, m) {
      var e :| e in list && AsGood(can, e, m);
      var i :| 0 <= i < |list| && list[i] == e;
      StillThere(kind, list, k, me, i);
    }
  }

  lemma IgnoredKeeps(can: Kernel, list: seq<Entry>, done: seq<Entry>, me: Entry, name: string)
    requires Keeps(can, list, done, name) && me.name != name
    ensures Keeps(can, list, done + [me], name)
  {
    forall e | e in list && e.name == name ensures e in done + [me] && (Usable(can, e) || First(done + [me], e)) {
      FindAppend(done, me, e.name);
    }
  }

  /** Whether `me` joins the list, rather than leave it as it is. */
  predicate Joins(can: Kernel, kind: Kind, list: seq<Entry>, me: Entry) {
    var k := Find(list, Key(kind, me.name));
    k == |list| || (Usable(can, me) && !(Usable(can, list[k]) && list[k].revision > me.revision))
  }

  /** `me` takes the place of the entry of another name: of "standard", when it is called like a verdict. */
  predicate Displaces(can: Kernel, kind: Kind, list: seq<Entry>, me: Entry, name: string) {
    me.name != name && Key(kind, me.name) == name && Find(list, name) < |list| && Joins(can, kind, list, me)
  }

  lemma DisplacedGone(can: Kernel, kind: Kind, list: seq<Entry>, done: seq<Entry>, me: Entry, name: string)
    requires Keeps(can, list, done, name) && me.name != name && Find(list, name) < |list|
    ensures !Keeps(can, Replaced(kind, list, Find(list, name), me), done + [me], name)
  {
    var k := Find(list, name);
    var joined, m := Replaced(kind, list, k, me), list[k];
    assert m in list && m in done + [me];
    forall e | e in joined ensures !AsGood(can, e, m) {
      ReplacedFrom(kind, list, k, me, e);
    }
    assert !Covered(can, joined, m);
  }

  /**
   * Registering anything keeps what the list holds under a name that is looked up as itself, if and only if it does
   * not take the place of that name's entry under another name.
   */
  lemma RegisterKeeps(can: Kernel, kind: Kind, list: seq<Entry>, done: seq<Entry>, me: Entry, name: string)
    requires Keeps(can, list, done, name) && Key(kind, name) == name
    requires Register(can, kind, list, me).Some?
    ensures
      Keeps(can, Register(can, kind, list, me).value, done + [me], name)
      <==> !Displaces(can, kind, list, me, name)
  {
    var k := Find(list, Key(kind, me.name));
    if !Joins(can, kind, list, me) {
      if me.name == name {
        StayKeeps(can, list, done, me, k);
      } else {
        IgnoredKeeps(can, list, done, me, name);
      }
    } else if me.name == name {
      ReplacedKeeps(can, kind, list, done, me);
    } else if Displaces(can, kind, list, me, name) {
      DisplacedGone(can, kind, list, done, me, name);
    } else {
      OtherKeeps(can, kind, list, done, me, k, name);
    }
  }

  predicate NeverDisplaced(can: Kernel, kind: Kind, list: seq<Entry>, ms: seq<Entry>, name: string)
    decreases |ms|
  {
    ms == []
    || (&& !Displaces(can, kind, list, ms[0], name)
        && (var r := Register(can, kind, list, ms[0]); r.Some? ==> NeverDisplaced(can, kind, r.value, ms[1..], name)))
  }

  /** The list keeps what it should at every point of a run. */
  ghost predicate KeepsThroughout(can: Kernel, kind: Kind, list: seq<Entry>, done: seq<Entry>, ms: seq<Entry>, name: string)
    decreases |ms|
  {
    && Keeps(can, list, done, name)
    && (ms != [] ==>
        var r := Register(can, kind, list, ms[0]);
        r.Some? ==> KeepsThroughout(can, kind, r.value, done + [ms[0]], ms[1..], name))
  }

  lemma {:induction false} ThroughoutFrom(can: Kernel, kind: Kind, list: seq<Entry>, done: seq<Entry>, ms: seq<Entry>,
      name: string)
    requires Keeps(can, list, done, name) && Key(kind, name) == name && RegisterAll(can, kind, list, ms).Some?
    ensures KeepsThroughout(can, kind, list, done, ms, name) <==> NeverDisplaced(can, kind, list, ms, name)
    decreases |ms|
  {
    if ms != [] {
      RegisterKeeps(can, kind, list, done, ms[0], name);
      if !Displaces(can, kind, list, ms[0], name) {
        ThroughoutFrom(can, kind, Register(can, kind, list, ms[0]).value, done + [ms[0]], ms[1..], name);
      }
    }
  }

  lemma Shift<T>(a: seq<T>, b: seq<T>)
    requires b != []
    ensures a + [b[0]] + b[1..] == a + b
  {
  }

  lemma {:induction false} AtTheEnd(can: Kernel, kind: Kind, list: seq<Entry>, done: seq<Entry>, ms: seq<Entry>, name: string)
    requires KeepsThroughout(can, kind, list, done, ms, name) && RegisterAll(can, kind, list, ms).Some?
    ensures Keeps(can, RegisterAll(can, kind, list, ms).value, done + ms, name)
    decreases |ms|
  {
    if ms == [] {
      assert done + ms == done;
    } else {
      AtTheEnd(can, kind, Register(can, kind, list, ms[0]).value, done + [ms[0]], ms[1..], name);
      Shift(done, ms);
    }
  }

  /**
   * At every point of an accepted run the list holds, for a name that is looked up as itself, its newest usable
   * revision, or its first when none is, if and only if no target called like a verdict takes that entry's place.
   */
  lemma RunKeepsExactly(can: Kernel, kind: Kind, ms: seq<Entry>, name: string)
    requires Key(kind, name) == name && RegisterAll(can, kind, [], ms).Some?
    ensures KeepsThroughout(can, kind, [], [], ms, name) <==> NeverDisplaced(can, kind, [], ms, name)
  {
    ThroughoutFrom(can, kind, [], [], ms, name);
  }

  /** Nothing but the name itself is looked up under it. */
  predicate Alone(kind: Kind, ms: seq<Entry>, name: string) {
    Key(kind, name) == name && forall i :: 0 <= i < |ms| && Key(kind, ms[i].name) == name ==> ms[i].name == name
  }

  lemma {:induction false} AloneStays(can: Kernel, kind: Kind, list: seq<Entry>, ms: seq<Entry>, name: string)
    requires Alone(kind, ms, name)
    ensures NeverDisplaced(can, kind, list, ms, name)
    decreases |ms|
  {
    if ms != [] && Register(can, kind, list, ms[0]).Some? {
      AloneStays(can, kind, Register(can, kind, list, ms[0]).value, ms[1..], name);
    }
  }

  lemma RunKeeps(can: Kernel, kind: Kind, ms: seq<Entry>, name: string)
    requires Alone(kind, ms, name) && RegisterAll(can, kind, [], ms).Some?
    ensures Keeps(can, RegisterAll(can, kind, [], ms).value, ms, name)
  {
    AloneStays(can, kind, [], ms, name);
    RunKeepsExactly(can, kind, ms, name);
    AtTheEnd(can, kind, [], [], ms, name);
    assert [] + ms == ms;
  }

  /** So it is for every match, and for every target but "standard" and those called like a verdict. */
  lemma OrdinaryKeeps(can: Kernel, kind: Kind, ms: seq<Entry>, name: string)
    requires kind.Match? || (!Reserved(name) && name != "standard")
    requires RegisterAll(can, kind, [], ms).Some?
    ensures Keeps(can, RegisterAll(can, kind, [], ms).value, ms, name)
  {
    assert Alone(kind, ms, name);
    RunKeeps(can, kind, ms, name);
  }

  /** A usable target called like a verdict pushes out an older "standard". */
  lemma StandardIsDisplaced(can: Kernel, verdict: string, older: nat, newer: nat)
    requires Reserved(verdict) && older < newer && can(verdict, newer)
    ensures
      var s, v := Entry("standard", older, true, true), Entry(verdict, newer, true, true);
      RegisterAll(can, Target, [], [s, v]) == Some([v]) && !Keeps(can, [v], [s, v], "standard")
  {
    var s, v := Entry("standard", older, true, true), Entry(verdict, newer, true, true);
    assert Register(can, Target, [], s) == Some([s]) by {
      assert [s] + [] == [s];
    }
    assert Register(can, Target, [s], v) == Some([v]) by {
      assert Find([s], "standard") == 0;
      assert Without([s], 0) == [] && [v] + [] == [v];
    }
    assert [s, v][1..] == [v] && [v][1..] == [];
    assert RegisterAll(can, Target, [s], [v]) == RegisterAll(can, Target, [v], []);
    assert s in [s, v] && !Covered(can, [v], s);
  }

  // ----- Any order -----

  predicate Sound(e: Entry) {
    e.versionOk && e.sizeOk && |e.name| < MAX_NAME - 1
  }

  /** No entry has the revision of an earlier one that is looked up for it. */
  ghost predicate DistinctRevisions(kind: Kind, ms: seq<Entry>) {
    forall i, j :: 0 <= i < j < |ms| ==> ms[i].name != Key(kind, ms[j].name) || ms[i].revision != ms[j].revision
  }

  ghost predicate Listed(list: seq<Entry>, done: seq<Entry>) {
    forall e :: e in list ==> e in done
  }

  lemma RegisterListed(can: Kernel, kind: Kind, list: seq<Entry>, done: seq<Entry>, me: Entry)
    requires Listed(list, done) && Register(can, kind, list, me).Some?
    ensures Listed(Register(can, kind, list, me).value, done + [me])
  {
    var k := Find(list, Key(kind, me.name));
    forall e | e in Register(can, kind, list, me).value ensures e in done + [me] {
      if Joins(can, kind, list, me) {
        ReplacedFrom(kind, list, k, me, e);
      }
    }
  }

  lemma {:induction false} AcceptedFrom(can: Kernel, kind: Kind, list: seq<Entry>, done: seq<Entry>, ms: seq<Entry>)
    requires Listed(list, done) && DistinctRevisions(kind, done + ms)
    requires forall i :: 0 <= i < |ms| ==> Sound(ms[i])
    ensures RegisterAll(can, kind, list, ms).Some?
    decreases |ms|
  {
    if ms != [] {
      var me := ms[0];
      var k := Find(list, Key(kind, me.name));
      if k < |list| {
        assert list[k] in done;
        var i :| 0 <= i < |done| && done[i] == list[k];
        assert (done + ms)[i] == done[i] && (done + ms)[|done|] == me;
      }
      RegisterListed(can, kind, list, done, me);
      Shift(done, ms);
      AcceptedFrom(can, kind, Register(can, kind, list, me).value, done + [me], ms[1..]);
    }
  }

  /** The entry found under a registered name is as good as every revision registered under it. */
  lemma FoundAsGood(can: Kernel, list: seq<Entry>, done: seq<Entry>, m: Entry)
    requires Keeps(can, list, done, m.name) && m in done
    ensures
      var k := Find(list, m.name);
      k < |list| && list[k] in done && AsGood(can, list[k], m)
  {
    var k := Find(list, m.name);
    var e :| e in list && AsGood(can, e, m);
    var i :| 0 <= i < |list| && list[i] == e;
    assert k <= i && list[k] in list;
  }

  /** What is found under a name. */
  function Found(list: seq<Entry>, name: string): Option<Entry> {
    var k := Find(list, name);
    if k < |list| then Some(list[k]) else None
  }

  lemma SameFound(can: Kernel, kind: Kind, a: seq<Entry>, b: seq<Entry>, ms: seq<Entry>, ns: seq<Entry>, m: Entry)
    requires Keeps(can, a, ms, m.name) && Keeps(can, b, ns, m.name)
    requires DistinctRevisions(kind, ms) && Key(kind, m.name) == m.name
    requires forall e :: e in ms <==> e in ns
    requires m in ms && Usable(can, m)
    ensures Found(a, m.name).Some? && Found(a, m.name) == Found(b, m.name)
  {
    FoundAsGood(can, a, ms, m);
    FoundAsGood(can, b, ns, m);
    var e, f := a[Find(a, m.name)], b[Find(b, m.name)];
    FoundAsGood(can, a, ms, f);
    FoundAsGood(can, b, ns, e);
    SameRevision(kind, ms, e, f);
  }

  lemma SameRevision(kind: Kind, ms: seq<Entry>, e: Entry, f: Entry)
    requires DistinctRevisions(kind, ms) && e in ms && f in ms
    requires e.name == f.name == Key(kind, e.name) && e.revision == f.revision
    ensures e == f
  {
  }

  /** Distinct sound revisions are accepted in any order. */
  lemma Accepted(can: Kernel, kind: Kind, ms: seq<Entry>)
    requires DistinctRevisions(kind, ms) && forall e :: e in ms ==> Sound(e)
    ensures RegisterAll(can, kind, [], ms).Some?
  {
    assert [] + ms == ms;
    AcceptedFrom(can, kind, [], [], ms);
  }

  /**
   * Two orders of registering the same revisions are both accepted, and leave the same entry under a name that has
   * a usable revision and under which nothing else is looked up.
   */
  lemma OrderIndependent(can: Kernel, kind: Kind, ms: seq<Entry>, ns: seq<Entry>, m: Entry)
    requires DistinctRevisions(kind, ms) && DistinctRevisions(kind, ns)
    requires forall e :: e in ms ==> Sound(e)
    requires forall e :: e in ms <==> e in ns
    requires m in ms && Usable(can, m) && Alone(kind, ms, m.name)
    ensures
      var a, b := RegisterAll(can, kind, [], ms), RegisterAll(can, kind, [], ns);
      a.Some? && b.Some? && Found(a.value, m.name).Some? && Found(a.value, m.name) == Found(b.value, m.name)
  {
    Accepted(can, kind, ms);
    Accepted(can, kind, ns);
    RunKeeps(can, kind, ms, m.name);
    forall i | 0 <= i < |ns| && Key(kind, ns[i].name) == m.name ensures ns[i].name == m.name {
      assert ns[i] in ms;
    }
    RunKeeps(can, kind, ns, m.name);
    SameFound(can, kind, RegisterAll(can, kind, [], ms).value, RegisterAll(can, kind, [], ns).value, ms, ns, m);
  }

  // ----- Targets called like a verdict -----

  /** One entry for each name. */
  ghost predicate OnePerName(list: seq<Entry>) {
    forall name :: Single(list, name)
  }

  /** `me` would be listed beside another entry of its name, which looking up "standard" does not find. */
  predicate Clashes(can: Kernel, kind: Kind, list: seq<Entry>, me: Entry) {
    Key(kind, me.name) != me.name && Find(list, me.name) < |list| && Joins(can, kind, list, me)
  }

  predicate NoClash(can: Kernel, kind: Kind, list: seq<Entry>, ms: seq<Entry>)
    decreases |ms|
  {
    ms == []
    || (!Clashes(can, kind, list, ms[0])
        && (Register(can, kind, list, ms[0]).Some? ==> NoClash(can, kind, Register(can, kind, list, ms[0]).value, ms[1..])))
  }

  /** Two entries of one name that no lookup finds. */
  ghost predicate Doubled(kind: Kind, list: seq<Entry>) {
    exists i, j :: 0 <= i < j < |list| && list[i].name == list[j].name && Key(kind, list[i].name) != list[i].name
  }

  ghost predicate DoubledAt(kind: Kind, list: seq<Entry>, i: nat, j: nat) {
    i < j < |list| && list[i].name == list[j].name && Key(kind, list[i].name) != list[i].name
  }

  lemma JoinDoubled(kind: Kind, list: seq<Entry>, me: Entry, i: nat, j: nat)
    requires DoubledAt(kind, list, i, j)
    ensures Doubled(kind, Join(kind, list, me))
  {
    var d := if kind.Match? then 0 else 1;
    var joined := Join(kind, list, me);
    assert joined[i + d] == list[i] && joined[j + d] == list[j];
  }

  lemma DoubledStays(kind: Kind, list: seq<Entry>, k: nat, me: Entry)
    requires Doubled(kind, list) && k <= |list| && (k < |list| ==> Key(kind, list[k].name) == list[k].name)
    ensures Doubled(kind, Replaced(kind, list, k, me))
  {
    var i, j :| 0 <= i < j < |list| && list[i].name == list[j].name && Key(kind, list[i].name) != list[i].name;
    if k < |list| {
      WithoutAt(list, k, i);
      WithoutAt(list, k, j);
      JoinDoubled(kind, Without(list, k), me, if i < k then i else i - 1, if j < k then j else j - 1);
    } else {
      JoinDoubled(kind, list, me, i, j);
    }
  }

  lemma ClashDoubles(can: Kernel, kind: Kind, list: seq<Entry>, me: Entry)
    requires Clashes(can, kind, list, me) && Register(can, kind, list, me).Some?
    ensures Doubled(kind, Register(can, kind, list, me).value)
  {
    var k, n := Find(list, Key(kind, me.name)), Find(list, me.name);
    var joined := Replaced(kind, list, k, me);
    StillThere(kind, list, k, me, n);
    var rest := if k < |list| then Without(list, k) else list;
    assert list[n] in rest by {
      if k < |list| {
        WithoutAt(list, k, n);
      }
    }
    var i :| 0 <= i < |rest| && rest[i] == list[n];
    assert joined == [me] + rest && joined[0] == me && joined[i + 1] == list[n];
  }

  lemma KeyOfKey(kind: Kind, name: string)
    ensures Key(kind, Key(kind, name)) == Key(kind, name)
  {
  }

  lemma {:induction false} DoubledRun(can: Kernel, kind: Kind, list: seq<Entry>, ms: seq<Entry>)
    requires Doubled(kind, list) && RegisterAll(can, kind, list, ms).Some?
    ensures Doubled(kind, RegisterAll(can, kind, list, ms).value)
    decreases |ms|
  {
    if ms != [] {
      var me := ms[0];
      KeyOfKey(kind, me.name);
      DoubledStays(kind, list, Find(list, Key(kind, me.name)), me);
      DoubledRun(can, kind, Register(can, kind, list, me).value, ms[1..]);
    }
  }

  lemma FreshOnePerName(can: Kernel, kind: Kind, list: seq<Entry>, me: Entry)
    requires OnePerName(list) && !Clashes(can, kind, list, me) && Register(can, kind, list, me).Some?
    ensures OnePerName(Register(can, kind, list, me).value)
  {
    if Joins(can, kind, list, me) {
      forall name ensures Single(Register(can, kind, list, me).value, name) {
        assert Single(list, name);
        ReplacedSingle(kind, list, Find(list, Key(kind, me.name)), me, name);
      }
    }
  }

  lemma DoubledNotSingle(kind: Kind, list: seq<Entry>)
    requires Doubled(kind, list)
    ensures !OnePerName(list)
  {
    var i, j :| 0 <= i < j < |list| && list[i].name == list[j].name && Key(kind, list[i].name) != list[i].name;
    assert !Single(list, list[i].name);
  }

  lemma {:induction false} OnePerNameFrom(can: Kernel, kind: Kind, list: seq<Entry>, ms: seq<Entry>)
    requires OnePerName(list) && RegisterAll(can, kind, list, ms).Some?
    ensures OnePerName(RegisterAll(can, kind, list, ms).value) <==> NoClash(can, kind, list, ms)
    decreases |ms|
  {
    if ms != [] {
      var next := Register(can, kind, list, ms[0]).value;
      if Clashes(can, kind, list, ms[0]) {
        ClashDoubles(can, kind, list, ms[0]);
        DoubledRun(can, kind, next, ms[1..]);
        DoubledNotSingle(kind, RegisterAll(can, kind, list, ms).value);
      } else {
        FreshOnePerName(can, kind, list, ms[0]);
        OnePerNameFrom(can, kind, next, ms[1..]);
      }
    }
  }

  /** After any accepted run each name is listed once, exactly when no verdict's name ever clashed. */
  lemma OnePerNameExactly(can: Kernel, kind: Kind, ms: seq<Entry>)
    requires RegisterAll(can, kind, [], ms).Some?
    ensures OnePerName(RegisterAll(can, kind, [], ms).value) <==> NoClash(can, kind, [], ms)
  {
    OnePerNameFrom(can, kind, [], ms);
  }

  /** A target called like a verdict is not found again, so its revisions pile up. */
  lemma ReservedPileUp(can: Kernel)
    ensures
      var a, b := Entry("DROP", 0, true, true), Entry("DROP", 1, true, true);
      RegisterAll(can, Target, [], [a, b]) == Some([b, a])
  {
    var a, b := Entry("DROP", 0, true, true), Entry("DROP", 1, true, true);
    assert [a, b][1..] == [b] && [a] + [] == [a] && [b] + [a] == [b, a];
    assert Find([a], "standard") == 1;
    assert Register(can, Target, [], a) == Some([a]);
    assert Register(can, Target, [a], b) == Some([b, a]);
    assert [b][1..] == [];
    assert RegisterAll(can, Target, [a], [b]) == RegisterAll(can, Target, [b, a], []);
  }

  // ----- The lists as the program keeps them -----

  class Registry {
    const can: Kernel
    var matches: seq<Entry>
    var targets: seq<Entry>

    constructor (can: Kernel)
      ensures this.can == can && matches == [] && targets == []
    {
      this.can := can;
      matches, targets := [], [];
    }

    static method Search(list: seq<Entry>, name: string) returns (k: nat)
      ensures k == Find(list, name)
    {
      k := 0;
      while k < |list| && list[k].name != name
        invariant k <= |list| && forall i :: 0 <= i < k ==> list[i].name != name
      {
        k := k + 1;
      }
    }

    /** `register_match`; `ok` is false when the program gives up. */
    method RegisterMatch(me: Entry) returns (ok: bool)
      modifies this`matches
      ensures
        var r := Register(can, Match, old(matches), me);
        ok == r.Some? && (ok ==> matches == r.value)
    {
      if !me.versionOk || |me.name| >= MAX_NAME - 1 {
        return false;
      }
      var k := Search(matches, me.name);
      if k < |matches| {
        var found := matches[k];
        if found.revision == me.revision {
          return false;
        }
        if Usable(can, found) && found.revision > me.revision {
          return true;
        }
        if !Usable(can, me) {
          return true;
        }
        matches := matches[..k] + matches[k + 1..];
      }
      if !me.sizeOk {
        return false;
      }
      matches := matches + [me];
      ok := true;
    }

    /** `register_target` */
    method RegisterTarget(me: Entry) returns (ok: bool)
      modifies this`targets
      ensures
        var r := Register(can, Target, old(targets), me);
        ok == r.Some? && (ok ==> targets == r.value)
    {
      if !me.versionOk || |me.name| >= MAX_NAME - 1 {
        return false;
      }
      var k := Search(targets, if Reserved(me.name) then "standard" else me.name);
      if k < |targets| {
        var found := targets[k];
        if found.revision == me.revision {
          return false;
        }
        if Usable(can, found) && found.revision > me.revision {
          return true;
        }
        if !Usable(can, me) {
          return true;
        }
        targets := targets[..k] + targets[k + 1..];
      }
      if !me.sizeOk {
        return false;
      }
      targets := [me] + targets;
      ok := true;
    }
  }
}
