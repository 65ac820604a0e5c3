/**
 The NAT-PMP server of miniupnpd: port-mapping requests, expiry scan and cleanup
 (sections 3.3 and 3.4 of RFC 6886).  The redirect table is a sequence of
 entries keyed by external port and protocol, new ones at the end; table
 operations may fail.  The server's state is the table and the tracked mapping
 that is to expire next.
 */
module NatPmp {
  import opened Sequences
  import opened Text

  /** A redirect; `desc` is free text, by which NAT-PMP mappings are told apart. */
  datatype Entry = Entry(eport: nat, proto: nat, iaddr: string, iport: nat, desc: string)

  const PORTS: nat := 0x1_0000
  const WORD: nat := 0x1_0000_0000

  /** The `nextnatpmptoclean_*` globals; port 0 stands for none. */
  datatype Next = Next(eport: nat, proto: nat, stamp: nat)

  datatype State = State(table: seq<Entry>, next: Next)

  // ----- deadlines in descriptions

  const TAG: string := "NAT-PMP "

  function Description(stamp: nat): string {
    TAG + Numeral(stamp, TEN)
  }

  predicate IsNatPmp(e: Entry) {
    TAG <= e.desc
  }

  /** `sscanf(desc, "NAT-PMP %u", &timestamp)`, reading a 32-bit number as `strtoul` does. */
  function Stamp(desc: string): (r: Option<nat>)
    ensures r.Some? ==> r.value < WORD
  {
    if !("NAT-PMP" <= desc) then None
    else
      var s := desc[7..];
      var t := s[Spaces(s)..];
      var negative := t != "" && t[0] == '-';
      var digits := Digits(if negative || (t != "" && t[0] == '+') then t[1..] else t);
      if digits == "" then None
      else
        var v := Value(digits, TEN);
        if v >= WORD then Some(WORD - 1)
        else if negative then Some((WORD - v) % WORD)
        else Some(v)
  }

  /** The deadline written into a description is read back. */
  lemma StampOfDescription(stamp: nat)
    requires stamp < WORD
    ensures Stamp(Description(stamp)) == Some(stamp)
  {
    var n := Numeral(stamp, TEN);
    var desc := Description(stamp);
    assert "NAT-PMP" <= desc;
    assert desc[7..] == " " + n;
    StampText(n);
    NumeralValue(stamp, TEN);
  }

  lemma StampText(n: string)
    requires n != "" && forall k :: 0 <= k < |n| ==> IsDigit(n[k])
    ensures
      var s := " " + n;
      var t := s[Spaces(s)..];
      t == n && Digits(t) == n
  {
    var s := " " + n;
    assert s[1..] == n && !IsSpace(n[0]);
    assert Spaces(n) == 0;
    assert Spaces(s) == 1;
    DigitsAppend(n, "");
    assert n + "" == n;
  }

  // ----- the redirect table

  predicate HasKey(e: Entry, eport: nat, proto: nat) {
    e.eport == eport && e.proto == proto
  }

  /** `get_redirect_rule`: the first entry with this key. */
  function Find(t: seq<Entry>, eport: nat, proto: nat): Option<Entry> {
    if t == [] then None
    else if HasKey(t[0], eport, proto) then Some(t[0])
    else Find(t[1..], eport, proto)
  }

  /** `_upnp_delete_redir`, when it succeeds. */
  function Remove(t: seq<Entry>, eport: nat, proto: nat): seq<Entry> {
    if t == [] then []
    else if HasKey(t[0], eport, proto) then t[1..]
    else [t[0]] + Remove(t[1..], eport, proto)
  }

  /** One entry per external port and protocol. */
  predicate Unique(t: seq<Entry>) {
    forall i, j :: 0 <= i < j < |t| ==> !HasKey(t[i], t[j].eport, t[j].proto)
  }

  lemma {:induction false} FindIn(t: seq<Entry>, eport: nat, proto: nat)
    ensures Find(t, eport, proto).None? <==> forall i :: 0 <= i < |t| ==> !HasKey(t[i], eport, proto)
    ensures Find(t, eport, proto).Some? ==> Find(t, eport, proto).value in t && HasKey(Find(t, eport, proto).value, eport, proto)
  {
    if t != [] && !HasKey(t[0], eport, proto) {
      FindIn(t[1..], eport, proto);
      assert forall i :: 1 <= i < |t| ==> t[i] == t[1..][i - 1];
    }
  }

  lemma {:induction false} RemoveParts(t: seq<Entry>, eport: nat, proto: nat) returns (k: nat)
    requires Find(t, eport, proto).Some?
    ensures k < |t| && t[k] == Find(t, eport, proto).value && HasKey(t[k], eport, proto)
    ensures Remove(t, eport, proto) == t[..k] + t[k + 1..]
  {
    if HasKey(t[0], eport, proto) {
      k := 0;
    } else {
      var k' := RemoveParts(t[1..], eport, proto);
      k := k' + 1;
      assert t[..k] == [t[0]] + t[1..][..k'];
      assert t[1..][k' + 1..] == t[k + 1..];
    }
  }

  lemma {:induction false} RemoveAbsent(t: seq<Entry>, eport: nat, proto: nat)
    requires Find(t, eport, proto).None?
    ensures Remove(t, eport, proto) == t
  {
    if t != [] {
      RemoveAbsent(t[1..], eport, proto);
    }
  }

  // ----- choosing an external port

  /** A mapping request, as read from the packet, with the time since startup. */
  datatype Request = Request(proto: nat, sender: string, iport: nat, eport: nat, lifetime: nat, now: nat)

  /** What the rest of the system decides: the permission, the keys whose deletion fails, and whether adding works. */
  datatype Env = Env(permitted: bool, stuck: set<(nat, nat)>, canAdd: bool)

  predicate Owns(e: Entry, q: Request) {
    e.iaddr == q.sender && e.iport == q.iport
  }

  /** A port is free, or already maps to this client and internal port. */
  predicate Available(t: seq<Entry>, q: Request, p: nat) {
    var held := Find(t, p, q.proto);
    held.None? || Owns(held.value, q)
  }

  /** `eport++` on an unsigned short. */
  function Succ(p: nat): nat {
    (p + 1) % PORTS
  }

  /** The first available port among the `n` ports from `p` on, cyclically. */
  function SearchFrom(t: seq<Entry>, q: Request, p: nat, n: nat): Option<nat>
    decreases n
  {
    if n == 0 then None
    else if Available(t, q, p) then Some(p)
    else SearchFrom(t, q, Succ(p), n - 1)
  }

  function Search(t: seq<Entry>, q: Request, p: nat): Option<nat> {
    SearchFrom(t, q, p, PORTS)
  }

  /** The port `j` steps after `e`. */
  function Port(e: nat, j: nat): nat {
    (e + j) % PORTS
  }

  /** `p` is the first available port from `e` on: it is `d` steps away and nothing nearer is available. */
  ghost predicate FirstAvailable(t: seq<Entry>, q: Request, e: nat, d: nat, p: nat) {
    && p == Port(e, d) && Available(t, q, p)
    && forall j :: 0 <= j < d ==> !Available(t, q, Port(e, j))
  }

  lemma PortSteps(e: nat, j: nat)
    requires e < PORTS
    ensures Port(e, 0) == e && Port(Succ(e), j) == Port(e, j + 1)
  {
  }

  /** The search finds the first available port. */
  lemma {:induction false} SearchFinds(t: seq<Entry>, q: Request, e: nat, n: nat, d: nat, p: nat)
    requires e < PORTS && d < n && FirstAvailable(t, q, e, d, p)
    ensures SearchFrom(t, q, e, n) == Some(p)
    decreases n
  {
    PortSteps(e, 0);
    if d > 0 {
      assert !Available(t, q, Port(e, 0));
      PortSteps(e, d - 1);
      forall j | 0 <= j < d - 1 ensures !Available(t, q, Port(Succ(e), j)) {
        PortSteps(e, j);
      }
      SearchFinds(t, q, Succ(e), n - 1, d - 1, p);
    }
  }

  /** And what it finds is the first available port. */
  lemma {:induction false} SearchIsFirst(t: seq<Entry>, q: Request, e: nat, n: nat) returns (d: nat)
    requires e < PORTS && SearchFrom(t, q, e, n).Some?
    ensures d < n && FirstAvailable(t, q, e, d, SearchFrom(t, q, e, n).value)
    decreases n
  {
    PortSteps(e, 0);
    if Available(t, q, e) {
      d := 0;
    } else {
      var d' := SearchIsFirst(t, q, Succ(e), n - 1);
      d := d' + 1;
      PortSteps(e, d');
      forall j | 0 <= j < d ensures !Available(t, q, Port(e, j)) {
        if j > 0 {
          PortSteps(e, j - 1);
        }
      }
    }
  }

  /** The steps from `e` to `p`, going up and wrapping around. */
  function Distance(e: nat, p: nat): nat
    requires e < PORTS
  {
    if p >= e then p - e else PORTS + p - e
  }

  lemma DistanceSteps(e: nat, p: nat)
    requires e < PORTS && p < PORTS
    ensures Distance(e, p) < PORTS && Port(e, Distance(e, p)) == p
    ensures e != p ==> Distance(Succ(e), p) == Distance(e, p) - 1
  {
  }

  lemma {:induction false} SearchReaches(t: seq<Entry>, q: Request, e: nat, p: nat, n: nat)
    requires e < PORTS && p < PORTS && Available(t, q, p) && Distance(e, p) < n
    ensures SearchFrom(t, q, e, n).Some?
    decreases n
  {
    if !Available(t, q, e) {
      DistanceSteps(e, p);
      SearchReaches(t, q, Succ(e), p, n - 1);
    }
  }

  /** The search ends exactly when some port is available; otherwise the loop meets no end at any step. */
  lemma SearchEnds(t: seq<Entry>, q: Request, e: nat)
    requires e < PORTS
    ensures Search(t, q, e).Some? <==> exists p :: 0 <= p < PORTS && Available(t, q, p)
    ensures Search(t, q, e).None? <==> forall j: nat :: !Available(t, q, Port(e, j))
  {
    if Search(t, q, e).Some? {
      var d := SearchIsFirst(t, q, e, PORTS);
      assert Available(t, q, Port(e, d));
    } else {
      forall p | 0 <= p < PORTS ensures !Available(t, q, p) {
        if Available(t, q, p) {
          DistanceSteps(e, p);
          SearchReaches(t, q, e, p, PORTS);
        }
      }
    }
  }

  /**
   The search loop, followed until every port has been looked at; from there on it only looks at the same ports
   again, so that nothing found means that it never ends.
   */
  method SearchLoop(t: seq<Entry>, q: Request, e: nat) returns (found: Option<nat>)
    requires e < PORTS
    ensures found == Search(t, q, e)
  {
    var p, n := e, PORTS;
    var held := Find(t, p, q.proto);
    while n > 0 && held.Some? && !Owns(held.value, q)
      invariant 0 <= p < PORTS && 0 <= n <= PORTS && held == Find(t, p, q.proto)
      invariant SearchFrom(t, q, p, n) == Search(t, q, e)
    {
      p, n := Succ(p), n - 1;
      held := Find(t, p, q.proto);
    }
    found := if n == 0 then None else Some(p);
  }

  // ----- deleting mappings

  predicate Mine(e: Entry, sender: string) {
    e.iaddr == sender && IsNatPmp(e)
  }

  predicate Deletable(t: seq<Entry>, eport: nat, proto: nat, stuck: set<(nat, nat)>) {
    Find(t, eport, proto).Some? && (eport, proto) !in stuck
  }

  /** The table without this client's NAT-PMP entries, of either protocol, that can be deleted. */
  function WithoutMine(t: seq<Entry>, sender: string, stuck: set<(nat, nat)>): seq<Entry> {
    if t == [] then []
    else if Mine(t[0], sender) && (t[0].eport, t[0].proto) !in stuck then WithoutMine(t[1..], sender, stuck)
    else [t[0]] + WithoutMine(t[1..], sender, stuck)
  }

  lemma {:induction false} RemoveAt(a: seq<Entry>, e: Entry, b: seq<Entry>)
    requires forall i :: 0 <= i < |a| ==> !HasKey(a[i], e.eport, e.proto)
    ensures Find(a + [e] + b, e.eport, e.proto) == Some(e)
    ensures Remove(a + [e] + b, e.eport, e.proto) == a + b
    decreases |a|
  {
    var t := a + [e] + b;
    if a == [] {
      assert t[1..] == b;
      assert a + b == b;
    } else {
      assert t[1..] == a[1..] + [e] + b;
      RemoveAt(a[1..], e, b);
      assert [a[0]] + (a[1..] + b) == a + b;
    }
  }

  /** With `kept` gone through, what stays of `rest` completes it to `whole`. */
  ghost predicate Completes(kept: seq<Entry>, rest: seq<Entry>, sender: string, stuck: set<(nat, nat)>, whole: seq<Entry>) {
    kept + WithoutMine(rest, sender, stuck) == whole
  }

  lemma MineNext(kept: seq<Entry>, e: Entry, b: seq<Entry>, sender: string, stuck: set<(nat, nat)>, whole: seq<Entry>)
    requires Completes(kept, [e] + b, sender, stuck, whole)
    ensures
      Completes(if Mine(e, sender) && (e.eport, e.proto) !in stuck then kept else kept + [e], b, sender, stuck, whole)
  {
    assert ([e] + b)[1..] == b;
    Regroup(kept, [e], WithoutMine(b, sender, stuck));
  }

  /** The loop that deletes while it goes through the table by index. */
  method DeleteMine(t0: seq<Entry>, sender: string, stuck: set<(nat, nat)>) returns (t: seq<Entry>)
    requires Unique(t0)
    ensures t == WithoutMine(t0, sender, stuck)
  {
    t := t0;
    ghost var whole := WithoutMine(t0, sender, stuck);
    var index := 0;
    assert t[..0] == [] && t[0..] == t && [] + whole == whole;
    while index < |t|
      invariant 0 <= index <= |t| && Unique(t)
      invariant Completes(t[..index], t[index..], sender, stuck, whole)
      decreases |t| - index
    {
      var e := t[index];
      ghost var a, b := t[..index], t[index + 1..];
      assert t == a + [e] + b && t[index..] == [e] + b && t[..index + 1] == a + [e];
      MineNext(a, e, b, sender, stuck, whole);
      RemoveAt(a, e, b);
      if Mine(e, sender) && Deletable(t, e.eport, e.proto, stuck) {
        t := Remove(t, e.eport, e.proto);
        assert t[..index] == a && t[index..] == b;
      } else {
        index := index + 1;
      }
    }
    assert t[..index] + [] == t;
  }

  /** What stays is what is not a deletable NAT-PMP mapping of this client. */
  lemma {:induction false} WithoutMineKeeps(t: seq<Entry>, sender: string, stuck: set<(nat, nat)>, e: Entry)
    ensures e in WithoutMine(t, sender, stuck)
       <==> e in t && !(Mine(e, sender) && (e.eport, e.proto) !in stuck)
  {
    if t != [] {
      WithoutMineKeeps(t[1..], sender, stuck, e);
      assert e in t <==> e == t[0] || e in t[1..];
    }
  }

  // ----- requests

  datatype Reply = Reply(result: nat, iport: nat, eport: nat, lifetime: nat)

  /** `Hangs`: no port is available and the search loop never ends. */
  datatype Outcome = Hangs | Done(state: State, reply: Reply)

  /** The deadline, in 32-bit arithmetic. */
  function Deadline(q: Request): (d: nat)
    ensures d < WORD
  {
    (q.now + q.lifetime) % WORD
  }

  function NewEntry(q: Request, p: nat): Entry {
    Entry(p, q.proto, q.sender, q.iport, Description(Deadline(q)))
  }

  /** The tracked mapping after one with this deadline was added. */
  function Tracked(next: Next, eport: nat, proto: nat, stamp: nat): Next {
    if next.eport == 0 || stamp < next.stamp then Next(eport, proto, stamp) else next
  }

  /** A mapping on the available port `p`: removed if it exists, then added anew. */
  function Create(st: State, q: Request, env: Env, p: nat): Outcome {
    if Find(st.table, p, q.proto).Some? && (p, q.proto) in env.stuck then Done(st, Reply(0, q.iport, p, q.lifetime))
    else
      var t := Remove(st.table, p, q.proto);
      if !env.canAdd then Done(State(t, st.next), Reply(3, q.iport, p, q.lifetime))
      else Done(State(t + [NewEntry(q, p)], Tracked(st.next, p, q.proto, Deadline(q))), Reply(0, q.iport, p, q.lifetime))
  }

  /** An external port of zero asks for the internal one. */
  function Wanted(q: Request): nat {
    if q.eport == 0 then q.iport else q.eport
  }

  function Process(st: State, q: Request, env: Env): Outcome {
    if q.lifetime == 0 then
      if q.iport == 0 then
        Done(State(WithoutMine(st.table, q.sender, env.stuck), st.next), Reply(0, 0, 0, 0))
      else if Deletable(st.table, Wanted(q), q.proto, env.stuck) then
        Done(State(Remove(st.table, Wanted(q), q.proto), st.next), Reply(0, q.iport, 0, 0))
      else Done(st, Reply(2, q.iport, 0, 0))
    else if q.iport == 0 || !env.permitted then Done(st, Reply(2, q.iport, Wanted(q), q.lifetime))
    else
      var p := Search(st.table, q, Wanted(q));
      if p.None? then Hangs else Create(st, q, env, p.value)
  }

  predicate GoodRequest(q: Request) {
    q.iport < PORTS && q.eport < PORTS
  }

  lemma {:induction false} FindAppend(t: seq<Entry>, e: Entry, eport: nat, proto: nat)
    ensures Find(t + [e], eport, proto)
         == if Find(t, eport, proto).Some? then Find(t, eport, proto) else if HasKey(e, eport, proto) then Some(e) else None
  {
    if t == [] {
      assert (t + [e])[1..] == [];
    } else {
      assert (t + [e])[1..] == t[1..] + [e];
      FindAppend(t[1..], e, eport, proto);
    }
  }

  lemma {:induction false} RemoveMembers(t: seq<Entry>, eport: nat, proto: nat, e: Entry)
    requires Unique(t)
    ensures e in Remove(t, eport, proto) <==> e in t && !HasKey(e, eport, proto)
  {
    if t != [] {
      assert t == [t[0]] + t[1..];
      UniqueTail(t);
      if HasKey(t[0], eport, proto) {
        assert forall k :: 0 < k < |t| ==> !HasKey(t[0], t[k].eport, t[k].proto);
        assert e in t[1..] ==> !HasKey(e, eport, proto);
      } else {
        RemoveMembers(t[1..], eport, proto, e);
      }
    }
  }

  lemma UniqueTail(t: seq<Entry>)
    requires t != [] && Unique(t)
    ensures Unique(t[1..])
  {
  }

  lemma RemoveUnique(t: seq<Entry>, eport: nat, proto: nat)
    requires Unique(t)
    ensures Unique(Remove(t, eport, proto))
  {
    if Find(t, eport, proto).Some? {
      var k := RemoveParts(t, eport, proto);
    } else {
      RemoveAbsent(t, eport, proto);
    }
  }

  lemma RemoveKeeps(t: seq<Entry>, eport: nat, proto: nat)
    requires Unique(t)
    ensures Unique(Remove(t, eport, proto))
    ensures forall e :: e in Remove(t, eport, proto) <==> e in t && !HasKey(e, eport, proto)
    ensures Find(Remove(t, eport, proto), eport, proto).None?
  {
    RemoveUnique(t, eport, proto);
    forall e ensures e in Remove(t, eport, proto) <==> e in t && !HasKey(e, eport, proto) {
      RemoveMembers(t, eport, proto, e);
    }
    FindIn(Remove(t, eport, proto), eport, proto);
  }

  lemma {:induction false} FindOther(t: seq<Entry>, eport: nat, proto: nat, p: nat, r: nat)
    requires (p, r) != (eport, proto)
    ensures Find(Remove(t, eport, proto), p, r) == Find(t, p, r)
  {
    if t != [] && !HasKey(t[0], eport, proto) {
      FindOther(t[1..], eport, proto, p, r);
      assert ([t[0]] + Remove(t[1..], eport, proto))[1..] == Remove(t[1..], eport, proto);
    }
  }

  /** Every key but this one finds the same entry in both tables. */
  ghost predicate SameElsewhere(t: seq<Entry>, t': seq<Entry>, eport: nat, proto: nat) {
    forall f: nat, g: nat :: !(f == eport && g == proto) ==> Find(t', f, g) == Find(t, f, g)
  }

  lemma Replaced(t: seq<Entry>, e: Entry)
    requires Unique(t)
    ensures
      var t' := Remove(t, e.eport, e.proto) + [e];
      Unique(t') && Find(t', e.eport, e.proto) == Some(e) && SameElsewhere(t, t', e.eport, e.proto)
  {
    var r := Remove(t, e.eport, e.proto);
    RemoveKeeps(t, e.eport, e.proto);
    FindIn(r, e.eport, e.proto);
    FindAppend(r, e, e.eport, e.proto);
    forall f: nat, g: nat | !(f == e.eport && g == e.proto) ensures Find(r + [e], f, g) == Find(t, f, g) {
      FindOther(t, e.eport, e.proto, f, g);
      FindAppend(r, e, f, g);
    }
  }

  /**
   Allocation: a granted mapping is on the first available port from the wanted
   one, is what the table then holds there, is what the reply reports, and no
   other key's entry changes; keys stay unique.
   */
  lemma Allocation(st: State, q: Request, env: Env) returns (d: nat, p: nat)
    requires GoodRequest(q) && Unique(st.table) && q.lifetime > 0 && q.iport > 0
    requires env.permitted && env.stuck == {} && env.canAdd
    requires exists f :: 0 <= f < PORTS && Available(st.table, q, f)
    ensures FirstAvailable(st.table, q, Wanted(q), d, p) && p < PORTS
    ensures
      var r := Process(st, q, env);
      && r.Done? && r.reply == Reply(0, q.iport, p, q.lifetime)
      && r.state.table == Remove(st.table, p, q.proto) + [NewEntry(q, p)]
      && Unique(r.state.table)
      && Find(r.state.table, p, q.proto) == Some(NewEntry(q, p))
      && SameElsewhere(st.table, r.state.table, p, q.proto)
  {
    SearchEnds(st.table, q, Wanted(q));
    d := SearchIsFirst(st.table, q, Wanted(q), PORTS);
    p := Search(st.table, q, Wanted(q)).value;
    Replaced(st.table, NewEntry(q, p));
  }

  // ----- expiry

  function ScanEntry(next: Next, e: Entry): Next {
    var ts := Stamp(e.desc);
    if ts.None? then next else Tracked(next, e.eport, e.proto, ts.value)
  }

  function ScanFrom(t: seq<Entry>, next: Next): Next
    decreases |t|
  {
    if t == [] then next else ScanFrom(t[1..], ScanEntry(next, t[0]))
  }

  /** `ScanNATPMPforExpiration`; the tracked protocol is not reset. */
  function Rescanned(st: State): State {
    State(st.table, ScanFrom(st.table, Next(0, st.next.proto, 0)))
  }

  /** `CleanExpiredNATPMP`: whatever is mapped under the tracked key goes, then the table is scanned. */
  function Cleaned(st: State, stuck: set<(nat, nat)>): State {
    if Find(st.table, st.next.eport, st.next.proto).None? then Rescanned(st)
    else if (st.next.eport, st.next.proto) in stuck then st
    else Rescanned(State(Remove(st.table, st.next.eport, st.next.proto), st.next))
  }

  /** No NAT-PMP mapping is on external port 0, which stands for "none". */
  predicate NoPortZero(t: seq<Entry>) {
    forall e :: e in t && Stamp(e.desc).Some? ==> e.eport != 0
  }

  /** A tracked port of zero means no NAT-PMP mapping; otherwise the tracked deadline is at most every stored one. */
  predicate Tracks(t: seq<Entry>, next: Next) {
    forall e :: e in t && Stamp(e.desc).Some? ==> next.eport != 0 && next.stamp <= Stamp(e.desc).value
  }

  /** The tracked key holds a mapping with the tracked deadline, unless there is nothing to track. */
  predicate Exact(t: seq<Entry>, next: Next) {
    if next.eport == 0 then next.stamp == 0
    else exists e :: e in t && HasKey(e, next.eport, next.proto) && Stamp(e.desc) == Some(next.stamp)
  }

  predicate Tracking(st: State) {
    Unique(st.table) && Tracks(st.table, st.next)
  }

  predicate Safe(st: State) {
    Tracking(st) && NoPortZero(st.table)
  }

  lemma ScanEntryTracks(done: seq<Entry>, e: Entry, next: Next)
    requires Tracks(done, next) && Exact(done, next) && (Stamp(e.desc).Some? ==> e.eport != 0)
    ensures Tracks(done + [e], ScanEntry(next, e)) && Exact(done + [e], ScanEntry(next, e))
  {
    assert forall x :: x in done + [e] <==> x in done || x == e;
    var next' := ScanEntry(next, e);
    if next' == next {
      if next.eport != 0 {
        var x :| x in done && HasKey(x, next.eport, next.proto) && Stamp(x.desc) == Some(next.stamp);
        assert x in done + [e];
      }
    } else {
      assert e in done + [e] && HasKey(e, next'.eport, next'.proto);
    }
  }

  lemma FirstToLast(done: seq<Entry>, t: seq<Entry>)
    requires t != []
    ensures (done + [t[0]]) + t[1..] == done + t
  {
  }

  lemma {:induction false} ScanTracks(done: seq<Entry>, t: seq<Entry>, next: Next, all: seq<Entry>)
    requires Tracks(done, next) && Exact(done, next) && NoPortZero(t) && all == done + t
    ensures Tracks(all, ScanFrom(t, next)) && Exact(all, ScanFrom(t, next))
    decreases |t|
  {
    if t == [] {
      assert all == done;
    } else {
      ScanEntryTracks(done, t[0], next);
      FirstToLast(done, t);
      ScanTracks(done + [t[0]], t[1..], ScanEntry(next, t[0]), all);
    }
  }

  /** A scan finds a mapping with the earliest deadline, if there is one. */
  lemma RescanSafe(st: State)
    requires Unique(st.table) && NoPortZero(st.table)
    ensures Safe(Rescanned(st)) && Exact(Rescanned(st).table, Rescanned(st).next)
  {
    assert [] + st.table == st.table;
    ScanTracks([], st.table, Next(0, st.next.proto, 0), st.table);
  }

  lemma SmallerTracking(st: State, t: seq<Entry>)
    requires Tracking(st) && Unique(t) && forall e :: e in t ==> e in st.table
    ensures Tracking(State(t, st.next)) && (NoPortZero(st.table) ==> NoPortZero(t))
  {
  }

  lemma CleanSafe(st: State, stuck: set<(nat, nat)>)
    requires Safe(st)
    ensures Safe(Cleaned(st, stuck))
  {
    RemoveKeeps(st.table, st.next.eport, st.next.proto);
    if Find(st.table, st.next.eport, st.next.proto).None? {
      RescanSafe(st);
    } else if (st.next.eport, st.next.proto) !in stuck {
      RescanSafe(State(Remove(st.table, st.next.eport, st.next.proto), st.next));
    }
  }

  // ----- whole runs

  /** Whatever happens to the server; the last two are changes to the table that other services make. */
  datatype Op =
    | Ask(q: Request, env: Env)
    | Rescan
    | Cleanup(stuck: set<(nat, nat)>)
    | OtherAdd(e: Entry)
    | OtherRemove(eport: nat, proto: nat)

  function Apply(st: State, op: Op): State {
    match op
    case Ask(q, env) => var r := Process(st, q, env); if r.Hangs? then st else r.state
    case Rescan => Rescanned(st)
    case Cleanup(stuck) => Cleaned(st, stuck)
    case OtherAdd(e) => State(st.table + [e], st.next)
    case OtherRemove(eport, proto) => State(Remove(st.table, eport, proto), st.next)
  }

  /** The request reaches the port search, and the search ends on `p`. */
  predicate Lands(st: State, q: Request, env: Env, p: nat) {
    q.lifetime > 0 && q.iport > 0 && env.permitted && Search(st.table, q, Wanted(q)) == Some(p)
  }

  /** The request makes a mapping on `p`. */
  predicate Maps(st: State, q: Request, env: Env, p: nat) {
    Lands(st, q, env, p) && Made(st, q, env, p)
  }

  /** No request maps external port 0, and others add no second mapping for a key and none that looks like NAT-PMP. */
  predicate Allowed(st: State, op: Op) {
    match op
    case Ask(q, env) => GoodRequest(q) && !Maps(st, q, env, 0)
    case OtherAdd(e) => Find(st.table, e.eport, e.proto).None? && Stamp(e.desc).None?
    case _ => true
  }

  lemma {:induction false} WithoutMineUnique(t: seq<Entry>, sender: string, stuck: set<(nat, nat)>)
    requires Unique(t)
    ensures Unique(WithoutMine(t, sender, stuck))
  {
    if t != [] {
      WithoutMineUnique(t[1..], sender, stuck);
      var r := WithoutMine(t[1..], sender, stuck);
      forall i | 0 <= i < |r| ensures !HasKey(t[0], r[i].eport, r[i].proto) {
        WithoutMineKeeps(t[1..], sender, stuck, r[i]);
        var j :| 0 <= j < |t[1..]| && t[1..][j] == r[i];
        assert t[j + 1] == r[i];
      }
    }
  }

  lemma DeleteTracking(st: State, q: Request, env: Env)
    requires Tracking(st) && q.lifetime == 0
    ensures
      var r := Apply(st, Ask(q, env));
      Tracking(r) && (NoPortZero(st.table) ==> NoPortZero(r.table))
  {
    if q.iport == 0 {
      var t := WithoutMine(st.table, q.sender, env.stuck);
      WithoutMineUnique(st.table, q.sender, env.stuck);
      forall e | e in t ensures e in st.table {
        WithoutMineKeeps(st.table, q.sender, env.stuck, e);
      }
      SmallerTracking(st, t);
    } else {
      RemoveKeeps(st.table, Wanted(q), q.proto);
      SmallerTracking(st, Remove(st.table, Wanted(q), q.proto));
    }
  }

  lemma MadeTracks(st: State, q: Request, p: nat)
    requires Tracking(st)
    ensures
      var t := Remove(st.table, p, q.proto) + [NewEntry(q, p)];
      var next := Tracked(st.next, p, q.proto, Deadline(q));
      && Unique(t)
      && (NoPortZero(st.table) && p != 0 ==> NoPortZero(t))
      && (Tracks(t, next) <==> p != 0 || (st.next.eport != 0 && st.next.stamp <= Deadline(q)))
  {
    var e := NewEntry(q, p);
    var r := Remove(st.table, p, q.proto);
    Replaced(st.table, e);
    RemoveKeeps(st.table, p, q.proto);
    StampOfDescription(Deadline(q));
    assert forall x :: x in r + [e] <==> x in r || x == e;
  }

  /** The mapping on `p` is made: the old one, if any, can be deleted, and adding works. */
  predicate Made(st: State, q: Request, env: Env, p: nat) {
    env.canAdd && !(Find(st.table, p, q.proto).Some? && (p, q.proto) in env.stuck)
  }

  lemma CreateTracks(st: State, q: Request, env: Env, p: nat)
    requires Tracking(st)
    ensures
      var r := Create(st, q, env, p).state;
      && Unique(r.table)
      && (Tracks(r.table, r.next)
          <==> !(Made(st, q, env, p) && p == 0 && (st.next.eport == 0 || Deadline(q) < st.next.stamp)))
      && (NoPortZero(st.table) && !(Made(st, q, env, p) && p == 0) ==> NoPortZero(r.table))
  {
    if Made(st, q, env, p) {
      MadeTracks(st, q, p);
    } else {
      RemoveKeeps(st.table, p, q.proto);
      SmallerTracking(st, Remove(st.table, p, q.proto));
    }
  }

  /** The request makes a mapping on port 0 that the server takes over as the tracked one. */
  predicate TakesZero(st: State, q: Request, env: Env) {
    Maps(st, q, env, 0) && (st.next.eport == 0 || Deadline(q) < st.next.stamp)
  }

  /**
   The tracked deadline stays a lower bound across a mapping request exactly when
   the request does not take port 0 over as the tracked mapping.
   */
  lemma AskTracksExactly(st: State, q: Request, env: Env)
    requires Tracking(st) && GoodRequest(q)
    ensures
      var r := Apply(st, Ask(q, env));
      && Unique(r.table)
      && (Tracks(r.table, r.next) <==> !TakesZero(st, q, env))
      && (NoPortZero(st.table) && !Maps(st, q, env, 0) ==> NoPortZero(r.table))
  {
    if q.lifetime == 0 {
      DeleteTracking(st, q, env);
    } else if q.iport > 0 && env.permitted {
      var found := Search(st.table, q, Wanted(q));
      if found.Some? {
        CreateTracks(st, q, env, found.value);
        assert Apply(st, Ask(q, env)) == Create(st, q, env, found.value).state;
      }
    }
  }

  lemma StepSafe(st: State, op: Op)
    requires Safe(st) && Allowed(st, op)
    ensures Safe(Apply(st, op))
  {
    match op {
      case Ask(q, env) => AskTracksExactly(st, q, env);
      case Rescan => RescanSafe(st);
      case Cleanup(stuck) => CleanSafe(st, stuck);
      case OtherAdd(e) =>
        FindIn(st.table, e.eport, e.proto);
        assert forall x :: x in st.table + [e] <==> x in st.table || x == e;
      case OtherRemove(eport, proto) =>
        RemoveKeeps(st.table, eport, proto);
        SmallerTracking(st, Remove(st.table, eport, proto));
    }
  }

  function Run(st: State, ops: seq<Op>): State
    decreases |ops|
  {
    if ops == [] then st else Run(Apply(st, ops[0]), ops[1..])
  }

  predicate AllowedRun(st: State, ops: seq<Op>)
    decreases |ops|
  {
    ops == [] || (Allowed(st, ops[0]) && AllowedRun(Apply(st, ops[0]), ops[1..]))
  }

  /**
   Deadline safety over every run that starts with a scan: a tracked port of zero
   means that no NAT-PMP mapping exists, and otherwise the tracked deadline is at
   most every stored one; keys stay unique throughout.
   */
  lemma {:induction false} RunSafe(st: State, ops: seq<Op>)
    requires Safe(st) && AllowedRun(st, ops)
    ensures Safe(Run(st, ops))
    decreases |ops|
  {
    if ops != [] {
      StepSafe(st, ops[0]);
      RunSafe(Apply(st, ops[0]), ops[1..]);
    }
  }

  lemma RunFromScanSafe(st: State, ops: seq<Op>)
    requires Unique(st.table) && NoPortZero(st.table) && AllowedRun(Rescanned(st), ops)
    ensures Safe(Run(Rescanned(st), ops))
  {
    RescanSafe(st);
    RunSafe(Rescanned(st), ops);
  }

  // ----- runs that use port 0

  /** An earliest deadline is stored, if any is, on a port other than 0. */
  predicate EarliestOffZero(t: seq<Entry>) {
    (exists e :: e in t && Stamp(e.desc).Some?) ==> exists e :: e in t && Earliest(t, e) && e.eport != 0
  }

  predicate Earliest(t: seq<Entry>, e: Entry) {
    e in t && Stamp(e.desc).Some? && AtMost(t, Stamp(e.desc).value)
  }

  predicate AtMost(t: seq<Entry>, stamp: nat) {
    forall x :: x in t && Stamp(x.desc).Some? ==> stamp <= Stamp(x.desc).value
  }

  /** What a scan ends with is where it began, or a mapping of the table. */
  lemma {:induction false} ScanFound(t: seq<Entry>, next: Next)
    ensures
      var r := ScanFrom(t, next);
      r == next || exists e :: e in t && Stamp(e.desc) == Some(r.stamp) && r.eport == e.eport
    decreases |t|
  {
    if t != [] {
      ScanFound(t[1..], ScanEntry(next, t[0]));
    }
  }

  lemma {:induction false} ScanStays(t: seq<Entry>, next: Next)
    requires next.eport != 0 && AtMost(t, next.stamp)
    ensures ScanFrom(t, next) == next
    decreases |t|
  {
    if t != [] {
      assert t[0] in t;
      ScanStays(t[1..], next);
    }
  }

  lemma {:induction false} ScanReaches(t: seq<Entry>, next: Next, e: Entry)
    requires Earliest(t, e) && e.eport != 0 && (next.eport == 0 || Stamp(e.desc).value <= next.stamp)
    ensures ScanFrom(t, next).eport != 0 && ScanFrom(t, next).stamp == Stamp(e.desc).value
    decreases |t|
  {
    assert t[0] in t && forall x :: x in t[1..] ==> x in t;
    var next' := ScanEntry(next, t[0]);
    if e == t[0] {
      ScanStays(t[1..], next');
    } else {
      ScanReaches(t[1..], next', e);
    }
  }

  /** A scan tracks the earliest deadline exactly when it is not on port 0 alone. */
  lemma ScanTracksExactly(t: seq<Entry>, proto: nat)
    ensures Tracks(t, ScanFrom(t, Next(0, proto, 0))) <==> EarliestOffZero(t)
  {
    var next := ScanFrom(t, Next(0, proto, 0));
    ScanFound(t, Next(0, proto, 0));
    if EarliestOffZero(t) {
      if x :| x in t && Stamp(x.desc).Some? {
        var e :| e in t && Earliest(t, e) && e.eport != 0;
        ScanReaches(t, Next(0, proto, 0), e);
      }
    } else if Tracks(t, next) {
      var x :| x in t && Stamp(x.desc).Some?;
      var e :| e in t && Stamp(e.desc) == Some(next.stamp) && next.eport == e.eport;
      assert Earliest(t, e);
    }
  }

  /** What the environment grants: ports of 16 bits, and no second or NAT-PMP mapping made by others. */
  predicate Possible(st: State, op: Op) {
    match op
    case Ask(q, _) => GoodRequest(q)
    case OtherAdd(e) => Find(st.table, e.eport, e.proto).None? && Stamp(e.desc).None?
    case _ => true
  }

  /** The step does not leave port 0 tracked. */
  predicate KeepsTrack(st: State, op: Op) {
    match op
    case Ask(q, env) => !TakesZero(st, q, env)
    case Rescan => EarliestOffZero(st.table)
    case Cleanup(stuck) =>
      var p, proto := st.next.eport, st.next.proto;
      if Find(st.table, p, proto).None? then EarliestOffZero(st.table)
      else (p, proto) in stuck || EarliestOffZero(Remove(st.table, p, proto))
    case _ => true
  }

  lemma StepTracksExactly(st: State, op: Op)
    requires Tracking(st) && Possible(st, op)
    ensures
      var r := Apply(st, op);
      Unique(r.table) && (Tracks(r.table, r.next) <==> KeepsTrack(st, op))
  {
    match op {
      case Ask(q, env) => AskTracksExactly(st, q, env);
      case Rescan => ScanTracksExactly(st.table, st.next.proto);
      case Cleanup(stuck) =>
        var t := Remove(st.table, st.next.eport, st.next.proto);
        RemoveKeeps(st.table, st.next.eport, st.next.proto);
        ScanTracksExactly(st.table, st.next.proto);
        ScanTracksExactly(t, st.next.proto);
      case OtherAdd(e) =>
        FindIn(st.table, e.eport, e.proto);
        assert forall x :: x in st.table + [e] <==> x in st.table || x == e;
      case OtherRemove(eport, proto) =>
        RemoveKeeps(st.table, eport, proto);
        SmallerTracking(st, Remove(st.table, eport, proto));
    }
  }

  predicate PossibleRun(st: State, ops: seq<Op>)
    decreases |ops|
  {
    ops == [] || (Possible(st, ops[0]) && PossibleRun(Apply(st, ops[0]), ops[1..]))
  }

  /** The tracked deadline is a lower bound at every point of the run. */
  predicate Throughout(st: State, ops: seq<Op>)
    decreases |ops|
  {
    Tracks(st.table, st.next) && (ops == [] || Throughout(Apply(st, ops[0]), ops[1..]))
  }

  predicate NeverZero(st: State, ops: seq<Op>)
    decreases |ops|
  {
    ops == [] || (KeepsTrack(st, ops[0]) && NeverZero(Apply(st, ops[0]), ops[1..]))
  }

  /**
   Over every run, with mappings on any port: the tracked deadline is a lower
   bound at every point if and only if no step leaves port 0 tracked.
   */
  lemma {:induction false} RunTracksExactly(st: State, ops: seq<Op>)
    requires Tracking(st) && PossibleRun(st, ops)
    ensures Throughout(st, ops) <==> NeverZero(st, ops)
    decreases |ops|
  {
    if ops != [] {
      StepTracksExactly(st, ops[0]);
      if KeepsTrack(st, ops[0]) {
        RunTracksExactly(Apply(st, ops[0]), ops[1..]);
      }
    }
  }

  /** The same for a run that starts with a scan. */
  lemma RunFromScanExactly(st: State, ops: seq<Op>)
    requires Unique(st.table) && PossibleRun(Rescanned(st), ops)
    ensures Throughout(Rescanned(st), ops) <==> EarliestOffZero(st.table) && NeverZero(Rescanned(st), ops)
  {
    ScanTracksExactly(st.table, st.next.proto);
    if EarliestOffZero(st.table) {
      RunTracksExactly(Rescanned(st), ops);
    }
  }

  /** A request reaches port 0: the last port is held by another client, and the search wraps round. */
  lemma PortZeroIsReached(env: Env)
    requires env.permitted && env.canAdd
    ensures
      var held := Entry(65535, 17, "192.168.0.3", 80, "");
      var q := Request(17, "192.168.0.2", 80, 65535, 3600, 0);
      var st := State([held], Next(0, 0, 0));
      var r := Apply(st, Ask(q, env));
      Safe(st) && TakesZero(st, q, env) && !Tracks(r.table, r.next)
  {
    var held := Entry(65535, 17, "192.168.0.3", 80, "");
    var q := Request(17, "192.168.0.2", 80, 65535, 3600, 0);
    var st := State([held], Next(0, 0, 0));
    assert Find([held], 65535, 17) == Some(held);
    assert [held][1..] == [];
    assert Find([held], 0, 17) == None;
    assert Succ(65535) == 0;
    assert SearchFrom([held], q, 65535, PORTS) == SearchFrom([held], q, 0, PORTS - 1) == Some(0);
    AskTracksExactly(st, q, env);
  }

  // ----- the cleaning loop

  /** The number of NAT-PMP mappings with a readable deadline. */
  function Stamped(t: seq<Entry>): nat {
    if t == [] then 0 else (if Stamp(t[0].desc).Some? then 1 else 0) + Stamped(t[1..])
  }

  lemma {:induction false} StampedSplit(t: seq<Entry>, k: nat)
    requires k < |t|
    ensures Stamped(t) == Stamped(t[..k] + t[k + 1..]) + if Stamp(t[k].desc).Some? then 1 else 0
  {
    if k == 0 {
      assert t[..0] + t[1..] == t[1..];
    } else {
      StampedSplit(t[1..], k - 1);
      assert (t[..k] + t[k + 1..])[1..] == t[1..][..k - 1] + t[1..][k..];
    }
  }

  lemma UniqueFind(t: seq<Entry>, e: Entry)
    requires Unique(t) && e in t
    ensures Find(t, e.eport, e.proto) == Some(e)
  {
    FindIn(t, e.eport, e.proto);
    var i :| 0 <= i < |t| && t[i] == e;
    var f := Find(t, e.eport, e.proto).value;
    var j :| 0 <= j < |t| && t[j] == f;
    assert !(i < j) && !(j < i);
  }

  /** Once the tracked mapping is exact, every cleanup removes a NAT-PMP mapping; before that, one may be lost. */
  lemma CleanProgress(st: State)
    requires Safe(st)
    ensures
      var r := Cleaned(st, {});
      && Exact(r.table, r.next)
      && Stamped(r.table) <= Stamped(st.table)
      && (Exact(st.table, st.next) && st.next.eport != 0 ==> Stamped(r.table) == Stamped(st.table) - 1)
  {
    var p, proto := st.next.eport, st.next.proto;
    RemoveKeeps(st.table, p, proto);
    if Find(st.table, p, proto).Some? {
      var k := RemoveParts(st.table, p, proto);
      StampedSplit(st.table, k);
      RescanSafe(State(Remove(st.table, p, proto), st.next));
    } else {
      RescanSafe(st);
    }
    if Exact(st.table, st.next) && p != 0 {
      var e :| e in st.table && HasKey(e, p, proto) && Stamp(e.desc) == Some(st.next.stamp);
      UniqueFind(st.table, e);
    }
  }

  // ----- what a cleanup removes

  predicate Expired(e: Entry, now: nat) {
    Stamp(e.desc).Some? && Stamp(e.desc).value <= now
  }

  /** Only mappings whose deadline has passed are gone. */
  predicate OnlyExpiredGone(t: seq<Entry>, left: seq<Entry>, now: nat) {
    forall e :: e in t && e !in left ==> Expired(e, now)
  }

  /** What the tracked key holds, if anything, has itself expired. */
  predicate DueExpired(st: State, now: nat) {
    var e := Find(st.table, st.next.eport, st.next.proto);
    e.None? || Expired(e.value, now)
  }

  /**
   A cleanup removes only what has expired, if and only if the mapping it finds under the tracked key, unless it
   cannot be deleted, has itself expired: the tracked deadline alone does not tell.
   */
  lemma CleanedExactly(st: State, stuck: set<(nat, nat)>, now: nat)
    requires Unique(st.table)
    ensures
      OnlyExpiredGone(st.table, Cleaned(st, stuck).table, now)
      <==> (st.next.eport, st.next.proto) in stuck || DueExpired(st, now)
  {
    var p, proto := st.next.eport, st.next.proto;
    FindIn(st.table, p, proto);
    RemoveKeeps(st.table, p, proto);
    if Find(st.table, p, proto).Some? && (p, proto) !in stuck {
      var e := Find(st.table, p, proto).value;
      assert e in st.table && e !in Cleaned(st, stuck).table;
      forall x | x in st.table && x !in Cleaned(st, stuck).table ensures x == e {
        UniqueFind(st.table, x);
      }
    }
  }

  lemma ExactFind(t: seq<Entry>, next: Next)
    requires Unique(t) && next.eport != 0
    ensures
      var e := Find(t, next.eport, next.proto);
      Exact(t, next) <==> e.Some? && Stamp(e.value.desc) == Some(next.stamp)
  {
    FindIn(t, next.eport, next.proto);
    forall e | e in t && HasKey(e, next.eport, next.proto) ensures Find(t, next.eport, next.proto) == Some(e) {
      UniqueFind(t, e);
    }
  }

  /** So while the tracked mapping is exact, a cleanup that is due removes only a mapping whose deadline has passed. */
  lemma ExactCleansExpired(st: State, stuck: set<(nat, nat)>, now: nat)
    requires Safe(st) && Exact(st.table, st.next) && st.next.eport != 0 && st.next.stamp <= now
    ensures DueExpired(st, now) && OnlyExpiredGone(st.table, Cleaned(st, stuck).table, now)
  {
    ExactFind(st.table, st.next);
    CleanedExactly(st, stuck, now);
  }

  /**
   A renewal can end that: when the tracked mapping is renewed for a later
   deadline, the old deadline stays tracked and the next cleanup removes the
   renewed mapping, before it expires.
   */
  lemma RenewedIsCleanedEarly(st: State, q: Request, env: Env, now: nat)
    requires Safe(st) && st.next.eport != 0 && q.proto == st.next.proto
    requires Maps(st, q, env, st.next.eport) && st.next.stamp < Deadline(q) && now < Deadline(q)
    ensures
      var r := Apply(st, Ask(q, env));
      && r.next == st.next && Find(r.table, r.next.eport, r.next.proto) == Some(NewEntry(q, r.next.eport))
      && !Exact(r.table, r.next)
      && !OnlyExpiredGone(r.table, Cleaned(r, {}).table, now)
  {
    var r := Apply(st, Ask(q, env));
    Replaced(st.table, NewEntry(q, st.next.eport));
    StampOfDescription(Deadline(q));
    ExactFind(r.table, r.next);
    CleanedExactly(r, {}, now);
  }

  // ----- when the tracked mapping stays exact

  /**
   The request takes the tracked mapping away: it deletes it, alone or with all of the client's, or puts one in its
   place that expires later, or none.
   */
  predicate Loses(st: State, q: Request, env: Env) {
    var p, proto := st.next.eport, st.next.proto;
    && p != 0 && (p, proto) !in env.stuck
    && if q.lifetime == 0 then
         if q.iport == 0 then
           var e := Find(st.table, p, proto);
           e.Some? && Mine(e.value, q.sender)
         else Wanted(q) == p && q.proto == proto
       else Lands(st, q, env, p) && q.proto == proto && (!env.canAdd || st.next.stamp < Deadline(q))
  }

  /** Of a smaller table: the tracked mapping is exact while it is there. */
  lemma SmallerExact(t: seq<Entry>, left: seq<Entry>, next: Next, e: Entry)
    requires Unique(t) && next.eport != 0 && Find(t, next.eport, next.proto) == Some(e) && Stamp(e.desc) == Some(next.stamp)
    requires forall x :: x in left ==> x in t
    ensures Exact(left, next) <==> e in left
  {
    FindIn(t, next.eport, next.proto);
    forall x | x in left && HasKey(x, next.eport, next.proto) ensures x == e {
      UniqueFind(t, x);
    }
  }

  lemma DeleteExact(st: State, q: Request, env: Env, e: Entry)
    requires Unique(st.table) && st.next.eport != 0 && q.lifetime == 0
    requires Find(st.table, st.next.eport, st.next.proto) == Some(e) && Stamp(e.desc) == Some(st.next.stamp)
    ensures
      var r := Apply(st, Ask(q, env));
      Exact(r.table, r.next) <==> !Loses(st, q, env)
  {
    FindIn(st.table, st.next.eport, st.next.proto);
    if q.iport == 0 {
      var left := WithoutMine(st.table, q.sender, env.stuck);
      forall x ensures x in left <==> x in st.table && !(Mine(x, q.sender) && (x.eport, x.proto) !in env.stuck) {
        WithoutMineKeeps(st.table, q.sender, env.stuck, x);
      }
      SmallerExact(st.table, left, st.next, e);
    } else {
      RemoveKeeps(st.table, Wanted(q), q.proto);
      SmallerExact(st.table, Remove(st.table, Wanted(q), q.proto), st.next, e);
      SmallerExact(st.table, st.table, st.next, e);
    }
  }

  lemma MadeExact(st: State, q: Request, p: nat)
    requires Unique(st.table) && Exact(st.table, st.next) && p != 0
    ensures
      var t := Remove(st.table, p, q.proto) + [NewEntry(q, p)];
      Exact(t, Tracked(st.next, p, q.proto, Deadline(q)))
      <==> st.next.eport == 0 || (p, q.proto) != (st.next.eport, st.next.proto) || Deadline(q) <= st.next.stamp
  {
    var n := NewEntry(q, p);
    var t := Remove(st.table, p, q.proto) + [n];
    var next := Tracked(st.next, p, q.proto, Deadline(q));
    Replaced(st.table, n);
    StampOfDescription(Deadline(q));
    ExactFind(t, next);
    if st.next.eport != 0 {
      ExactFind(st.table, st.next);
    }
  }

  lemma CreateExact(st: State, q: Request, env: Env, p: nat)
    requires Unique(st.table) && Exact(st.table, st.next) && (p == 0 ==> !Made(st, q, env, p))
    requires Lands(st, q, env, p)
    ensures
      var r := Create(st, q, env, p).state;
      Exact(r.table, r.next) <==> !Loses(st, q, env)
  {
    if st.next.eport != 0 {
      ExactFind(st.table, st.next);
    }
    if Made(st, q, env, p) {
      MadeExact(st, q, p);
    } else if !(Find(st.table, p, q.proto).Some? && (p, q.proto) in env.stuck) && st.next.eport != 0 {
      var e := Find(st.table, st.next.eport, st.next.proto).value;
      FindIn(st.table, st.next.eport, st.next.proto);
      RemoveKeeps(st.table, p, q.proto);
      SmallerExact(st.table, Remove(st.table, p, q.proto), st.next, e);
    }
  }

  /** A request keeps the tracked mapping exact, if and only if it does not take it away. */
  lemma AskExactExactly(st: State, q: Request, env: Env)
    requires Unique(st.table) && Exact(st.table, st.next) && !Maps(st, q, env, 0)
    ensures
      var r := Apply(st, Ask(q, env));
      Exact(r.table, r.next) <==> !Loses(st, q, env)
  {
    if q.lifetime == 0 {
      if st.next.eport != 0 {
        ExactFind(st.table, st.next);
        DeleteExact(st, q, env, Find(st.table, st.next.eport, st.next.proto).value);
      }
    } else if q.iport > 0 && env.permitted {
      var found := Search(st.table, q, Wanted(q));
      if found.Some? {
        CreateExact(st, q, env, found.value);
        assert Apply(st, Ask(q, env)) == Create(st, q, env, found.value).state;
      }
    }
  }

  /** The step does not take the tracked mapping away. */
  predicate KeepsExact(st: State, op: Op) {
    match op
    case Ask(q, env) => !Loses(st, q, env)
    case OtherRemove(eport, proto) => st.next.eport == 0 || (eport, proto) != (st.next.eport, st.next.proto)
    case _ => true
  }

  lemma StepExactExactly(st: State, op: Op)
    requires Safe(st) && Exact(st.table, st.next) && Allowed(st, op)
    ensures
      var r := Apply(st, op);
      Safe(r) && (Exact(r.table, r.next) <==> KeepsExact(st, op))
  {
    StepSafe(st, op);
    match op {
      case Ask(q, env) => AskExactExactly(st, q, env);
      case Rescan => RescanSafe(st);
      case Cleanup(stuck) =>
        RemoveKeeps(st.table, st.next.eport, st.next.proto);
        RescanSafe(st);
        RescanSafe(State(Remove(st.table, st.next.eport, st.next.proto), st.next));
      case OtherAdd(e) =>
        assert forall x :: x in st.table ==> x in st.table + [e];
      case OtherRemove(eport, proto) =>
        if st.next.eport != 0 {
          ExactFind(st.table, st.next);
          var e := Find(st.table, st.next.eport, st.next.proto).value;
          FindIn(st.table, st.next.eport, st.next.proto);
          RemoveKeeps(st.table, eport, proto);
          SmallerExact(st.table, Remove(st.table, eport, proto), st.next, e);
        }
    }
  }

  predicate ExactThroughout(st: State, ops: seq<Op>)
    decreases |ops|
  {
    Exact(st.table, st.next) && (ops == [] || ExactThroughout(Apply(st, ops[0]), ops[1..]))
  }

  predicate NeverLost(st: State, ops: seq<Op>)
    decreases |ops|
  {
    ops == [] || (KeepsExact(st, ops[0]) && NeverLost(Apply(st, ops[0]), ops[1..]))
  }

  /** Over every run from a scan on, the tracked mapping is exact throughout if and only if no step takes it away. */
  lemma RunExactExactly(st: State, ops: seq<Op>)
    requires Unique(st.table) && NoPortZero(st.table) && AllowedRun(Rescanned(st), ops)
    ensures ExactThroughout(Rescanned(st), ops) <==> NeverLost(Rescanned(st), ops)
  {
    RescanSafe(st);
    RunExactFrom(Rescanned(st), ops);
  }

  lemma {:induction false} RunExactFrom(st: State, ops: seq<Op>)
    requires Safe(st) && Exact(st.table, st.next) && AllowedRun(st, ops)
    ensures ExactThroughout(st, ops) <==> NeverLost(st, ops)
    decreases |ops|
  {
    if ops != [] {
      StepExactExactly(st, ops[0]);
      if KeepsExact(st, ops[0]) {
        RunExactFrom(Apply(st, ops[0]), ops[1..]);
      }
    }
  }

  /** No deadline has passed at `now`. */
  predicate NonePassed(t: seq<Entry>, now: nat) {
    forall e :: e in t && Stamp(e.desc).Some? ==> now < Stamp(e.desc).value
  }

  /** On an empty table a request gets the port it asks for. */
  lemma FirstRequest(q: Request, env: Env, p: nat)
    requires GoodRequest(q) && q.lifetime > 0 && q.iport > 0 && env.permitted && env.canAdd && Wanted(q) == p
    ensures
      Apply(State([], Next(0, 0, 0)), Ask(q, env)) == State([NewEntry(q, p)], Next(p, q.proto, Deadline(q)))
  {
    assert Available([], q, p);
    assert Search([], q, p) == Some(p);
    assert [] + [NewEntry(q, p)] == [NewEntry(q, p)];
  }

  /** The daemon scans at startup only, and cleans up only while the tracked deadline is not zero. */
  predicate DaemonRun(st: State, ops: seq<Op>)
    decreases |ops|
  {
    ops == []
    || (&& !ops[0].Rescan? && (ops[0].Cleanup? ==> st.next.stamp != 0)
        && DaemonRun(Apply(st, ops[0]), ops[1..]))
  }

  /** Once a tracked deadline is zero, nothing else is ever tracked, and nothing is cleaned up. */
  lemma {:induction false} ZeroStops(st: State, ops: seq<Op>)
    requires st.next.eport != 0 && st.next.stamp == 0 && DaemonRun(st, ops)
    ensures Run(st, ops).next == st.next && forall k :: 0 <= k < |ops| ==> !ops[k].Cleanup?
    decreases |ops|
  {
    if ops != [] {
      ZeroStops(Apply(st, ops[0]), ops[1..]);
      forall k | 0 <= k < |ops| ensures !ops[k].Cleanup? {
        assert k > 0 ==> ops[k] == ops[1..][k - 1];
      }
    }
  }

  /**
   Deadlines wrap at 32 bits: the longest lifetime, one second after startup,
   ends at zero, which the cleaning loop takes for "nothing tracked".  Such a
   mapping is past its deadline at every time; it stays tracked however the
   daemon runs on, and no mapping is ever cleaned up again.
   */
  lemma ZeroDeadlineStays(env: Env, now: nat, ops: seq<Op>)
    requires env.permitted && env.canAdd
    ensures
      var q := Request(17, "192.168.0.2", 80, 80, 0xFFFF_FFFF, 1);
      var st := Apply(State([], Next(0, 0, 0)), Ask(q, env));
      && Deadline(q) == 0
      && Safe(st) && st.next.eport != 0 && st.next.stamp == 0
      && !NonePassed(st.table, now)
      && (DaemonRun(st, ops) ==> Run(st, ops).next == st.next && forall k :: 0 <= k < |ops| ==> !ops[k].Cleanup?)
  {
    var q := Request(17, "192.168.0.2", 80, 80, 0xFFFF_FFFF, 1);
    var st := State([NewEntry(q, 80)], Next(80, 17, 0));
    assert Apply(State([], Next(0, 0, 0)), Ask(q, env)) == st by { FirstRequest(q, env, 80); }
    assert Safe(st) && !NonePassed(st.table, now) by { ZeroHeld(NewEntry(q, 80), st, now); }
    if DaemonRun(st, ops) {
      ZeroStops(st, ops);
    }
  }

  lemma ZeroHeld(e: Entry, st: State, now: nat)
    requires e.eport != 0 && e.desc == Description(0) && st.table == [e] && st.next.eport != 0 && st.next.stamp == 0
    ensures Safe(st) && !NonePassed(st.table, now)
  {
    StampOfDescription(0);
    assert e in [e] && Stamp(e.desc) == Some(0);
  }

  /** A further cleanup, of an exact tracked mapping, adds nothing that has not expired. */
  lemma CleanGone(st: State, now: nat, first: seq<Entry>)
    requires Safe(st) && st.next.stamp != 0 && st.next.stamp <= now && forall e :: e in st.table ==> e in first
    ensures
      var left := Cleaned(st, {}).table;
      && (st.table == first ==> (OnlyExpiredGone(first, left, now) <==> DueExpired(st, now)))
      && (Exact(st.table, st.next) ==> (OnlyExpiredGone(first, left, now) <==> OnlyExpiredGone(first, st.table, now)))
  {
    var left := Cleaned(st, {}).table;
    CleanedExactly(st, {}, now);
    RemoveKeeps(st.table, st.next.eport, st.next.proto);
    if Exact(st.table, st.next) && st.next.eport != 0 {
      ExactCleansExpired(st, {}, now);
      assert forall e :: e in first && e !in left ==> e !in st.table || e !in left;
      assert forall e :: e in left ==> e in st.table;
    }
  }

  /** The NAT-PMP part of the daemon: the redirect table and the tracked mapping. */
  class Server {
    var table: seq<Entry>
    var next: Next

    ghost function Now(): State
      reads this
    {
      State(table, next)
    }

    constructor (t: seq<Entry>)
      ensures Now() == State(t, Next(0, 0, 0))
    {
      table, next := t, Next(0, 0, 0);
    }

    /** `_upnp_delete_redir` */
    method DeleteRedir(eport: nat, proto: nat, stuck: set<(nat, nat)>) returns (ok: bool)
      modifies this`table
      ensures ok == Deletable(old(table), eport, proto, stuck)
      ensures table == if ok then Remove(old(table), eport, proto) else old(table)
    {
      ok := Find(table, eport, proto).Some? && (eport, proto) !in stuck;
      if ok {
        table := Remove(table, eport, proto);
      }
    }

    /** Adds the mapping on the port the search ended on. */
    method Grant(q: Request, env: Env, p: nat) returns (reply: Reply)
      modifies this
      ensures Create(old(Now()), q, env, p) == Done(Now(), reply)
    {
      var result := 0;
      if Find(table, p, q.proto).Some? {
        var ok := DeleteRedir(p, q.proto, env.stuck);
        if !ok {
          return Reply(0, q.iport, p, q.lifetime);
        }
      } else {
        RemoveAbsent(table, p, q.proto);
      }
      var stamp := (q.now + q.lifetime) % WORD;
      if !env.canAdd {
        result := 3;
      } else {
        table := table + [Entry(p, q.proto, q.sender, q.iport, Description(stamp))];
        if next.eport == 0 || stamp < next.stamp {
          next := Next(p, q.proto, stamp);
        }
      }
      reply := Reply(result, q.iport, p, q.lifetime);
    }

    /** The mapping cases of `ProcessIncomingNATPMPPacket`; there is no reply when the port search does not end. */
    method MapRequest(q: Request, env: Env) returns (r: Option<Reply>)
      requires Unique(table) && GoodRequest(q)
      modifies this
      ensures Process(old(Now()), q, env) == if r.None? then Hangs else Done(Now(), r.value)
      ensures r.None? ==> Now() == old(Now())
    {
      var eport := q.eport;
      if eport == 0 {
        eport := q.iport;
      }
      if q.lifetime == 0 {
        var result := 0;
        if q.iport == 0 {
          table := DeleteMine(table, q.sender, env.stuck);
        } else {
          var ok := DeleteRedir(eport, q.proto, env.stuck);
          if !ok {
            result := 2;
          }
        }
        r := Some(Reply(result, q.iport, 0, 0));
      } else if q.iport == 0 || !env.permitted {
        r := Some(Reply(2, q.iport, eport, q.lifetime));
      } else {
        var found := SearchLoop(table, q, eport);
        if found.None? {
          return None;
        }
        var reply := Grant(q, env, found.value);
        r := Some(reply);
      }
    }

    /** `ScanNATPMPforExpiration` */
    method ScanForExpiration()
      modifies this`next
      ensures Now() == Rescanned(old(Now()))
    {
      next := Next(0, next.proto, 0);
      ghost var start := next;
      assert table[0..] == table;
      var i := 0;
      while i < |table|
        invariant 0 <= i <= |table|
        invariant ScanFrom(table[i..], next) == ScanFrom(table, start)
      {
        assert table[i..][1..] == table[i + 1..];
        var stamp := Stamp(table[i].desc);
        if stamp.Some? {
          if next.eport == 0 || stamp.value < next.stamp {
            next := Next(table[i].eport, table[i].proto, stamp.value);
          }
        }
        i := i + 1;
      }
    }

    /** `CleanExpiredNATPMP` */
    method CleanExpired(stuck: set<(nat, nat)>) returns (ok: bool)
      modifies this
      ensures Now() == Cleaned(old(Now()), stuck)
      ensures !ok <==> Find(old(table), old(next).eport, old(next).proto).Some?
                       && (old(next).eport, old(next).proto) in stuck
    {
      ok := true;
      if Find(table, next.eport, next.proto).Some? {
        ok := DeleteRedir(next.eport, next.proto, stuck);
        if !ok {
          return;
        }
      }
      ScanForExpiration();
    }

    /**
     The loop of the daemon's main loop that cleans while the tracked deadline
     has passed, when deletions succeed.  It makes at most one call more than
     there are NAT-PMP mappings.  A tracked deadline of zero is not looked at:
     afterwards no deadline has passed if and only if the loop found another
     deadline tracked, or none had passed before it.
     */
    method CleanLoop(now: nat) returns (calls: nat)
      requires Safe(Now())
      modifies this
      ensures Safe(Now())
      ensures calls <= Stamped(old(table)) + 1
      ensures next.stamp == 0 || now < next.stamp
      ensures forall e :: e in table ==> e in old(table)
      ensures NonePassed(table, now) <==> old(next).stamp != 0 || NonePassed(old(table), now)
      ensures calls == 0 <==> old(next).stamp == 0 || now < old(next).stamp
      ensures calls == 0 ==> Now() == old(Now())
      ensures OnlyExpiredGone(old(table), table, now) <==> calls == 0 || DueExpired(old(Now()), now)
    {
      calls := 0;
      while next.stamp != 0 && now >= next.stamp
        invariant Safe(Now())
        invariant calls == 0 ==> Now() == old(Now())
        invariant calls > 0 ==> Exact(table, next)
        invariant calls > 0 ==> calls + Stamped(table) <= Stamped(old(table)) + 1
        invariant calls > 0 ==> old(next).stamp != 0
        invariant forall e :: e in table ==> e in old(table)
        invariant calls > 0 ==> now >= old(next).stamp
        invariant OnlyExpiredGone(old(table), table, now) <==> calls == 0 || DueExpired(old(Now()), now)
        decreases calls == 0, Stamped(table)
      {
        CleanGone(Now(), now, old(table));
        RemoveKeeps(table, next.eport, next.proto);
        CleanSafe(Now(), {});
        CleanProgress(Now());
        var _ := CleanExpired({});
        calls := calls + 1;
      }
    }
  }
}
