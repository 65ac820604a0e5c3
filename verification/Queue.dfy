/**
 * The doubly linked LIST and TAILQ macros.
 *
 * A back-link is the address of the slot that points at the element: the head's first pointer or the previous
 * element's next pointer. A slot is named here by the record it is the first field of. An element's entry and a
 * tail queue's head are both a forward pointer followed by a slot address, and the macros rely on that: the last
 * and previous elements are found by reading a slot as if it were a head. A single `Link` class stands for both.
 */
module Queue {
  /** What the links of some records hold. */
  datatype Links = Links(next: map<Link, Link?>, prev: map<Link, Link?>)

  ghost function Held(s: set<Link>): Links
    reads s
  {
    Links(map x | x in s :: x.next, map x | x in s :: x.prev)
  }

  ghost function WithNext(l: Links, x: Link, v: Link?): Links {
    l.(next := l.next[x := v])
  }

  ghost function WithPrev(l: Links, x: Link?, v: Link?): Links {
    if x == null then l else l.(prev := l.prev[x := v])
  }

  class Link {
    /** `le_next`, `tqe_next`, `lh_first` or `tqh_first`. */
    var next: Link?
    /** `le_prev`, `tqe_prev` or `tqh_last`: the record whose first field is the slot; unused in a list head. */
    var prev: Link?

    constructor ()
      ensures next == null && prev == null
    {
      next, prev := null, null;
    }

    method SetNext(v: Link?, ghost s: set<Link>)
      requires this in s
      modifies this`next
      ensures next == v && Held(s) == WithNext(old(Held(s)), this, v)
    {
      next := v;
    }

    method SetPrev(v: Link?, ghost s: set<Link>)
      requires this in s
      modifies this`prev
      ensures prev == v && Held(s) == WithPrev(old(Held(s)), this, v)
    {
      prev := v;
    }
  }

  // ----- The shape of a list: `c` is the head followed by the elements -----

  function Get(c: seq<Link>, i: nat): Link? {
    if i < |c| then c[i] else null
  }

  ghost predicate Distinct(c: seq<Link>) {
    forall i, j :: 0 <= i < j < |c| ==> c[i] != c[j]
  }

  ghost predicate ForwardAt(c: seq<Link>, l: Links, i: nat)
    requires i < |c|
  {
    c[i] in l.next && l.next[c[i]] == Get(c, i + 1)
  }

  /** The back-link names the slot that points at the element. */
  ghost predicate BackAt(c: seq<Link>, l: Links, i: nat)
    requires 0 < i < |c|
  {
    c[i] in l.prev && l.prev[c[i]] == c[i - 1]
  }

  ghost predicate Chain(c: seq<Link>, l: Links) {
    && c != []
    && Distinct(c)
    && (forall i: nat :: i < |c| ==> ForwardAt(c, l, i))
    && (forall i: nat :: 0 < i < |c| ==> BackAt(c, l, i))
  }

  ghost function Records(c: seq<Link>): set<Link> {
    set x | x in c
  }

  /** The records are linked in the order of `c`. */
  ghost predicate Linked(c: seq<Link>)
    reads c
  {
    Chain(c, Held(Records(c)))
  }

  lemma LinkedIn(c: seq<Link>, s: set<Link>)
    requires Records(c) <= s
    ensures Linked(c) <==> Chain(c, Held(s))
  {
    var l, l' := Held(Records(c)), Held(s);
    forall i: nat | i < |c| ensures ForwardAt(c, l, i) <==> ForwardAt(c, l', i) {
      assert c[i] in Records(c);
    }
    forall i: nat | 0 < i < |c| ensures BackAt(c, l, i) <==> BackAt(c, l', i) {
      assert c[i] in Records(c);
    }
  }

  lemma LinksOf(c: seq<Link>, i: nat)
    requires Linked(c) && i < |c|
    ensures c[i].next == Get(c, i + 1) && (i > 0 ==> c[i].prev == c[i - 1])
  {
    var l := Held(Records(c));
    assert ForwardAt(c, l, i) && (i > 0 ==> BackAt(c, l, i));
  }

  // ----- The same operations on sequences -----

  function Inserted<T>(s: seq<T>, k: nat, e: T): seq<T>
    requires k <= |s|
  {
    s[..k] + [e] + s[k..]
  }

  function Removed<T>(s: seq<T>, k: nat): seq<T>
    requires k < |s|
  {
    s[..k] + s[k + 1..]
  }

  ghost function IndexOf<T>(s: seq<T>, x: T): (k: nat)
    requires x in s
    ensures k < |s| && s[k] == x
  {
    var k: nat :| k < |s| && s[k] == x;
    k
  }

  function Reversed<T>(s: seq<T>): seq<T> {
    seq(|s|, i requires 0 <= i < |s| => s[|s| - 1 - i])
  }

  lemma HeadCells<T>(h: T, s: seq<T>, k: nat, e: T)
    requires k <= |s|
    ensures [h] + Inserted(s, k, e) == Inserted([h] + s, k + 1, e)
    ensures k < |s| ==> [h] + Removed(s, k) == Removed([h] + s, k + 1)
    ensures k < |s| ==> [h] + s[k := e] == ([h] + s)[k + 1 := e]
  {
  }

  // ----- What relinking the neighbours does to the shape -----

  lemma InsertedDistinct(c: seq<Link>, k: nat, e: Link)
    requires Distinct(c) && k <= |c| && e !in c
    ensures Distinct(Inserted(c, k, e))
  {
    var d := Inserted(c, k, e);
    forall i, j | 0 <= i < j < |d| ensures d[i] != d[j] {
      assert d[i] == e || d[i] == c[if i < k then i else i - 1];
      assert d[j] == e || d[j] == c[if j < k then j else j - 1];
    }
  }

  lemma InsertedChain(c: seq<Link>, l: Links, k: nat, e: Link)
    requires 0 < k <= |c| && Distinct(c) && e !in c
    requires forall i: nat :: i < |c| && i != k - 1 ==> ForwardAt(c, l, i)
    requires forall i: nat :: 0 < i < |c| && i != k ==> BackAt(c, l, i)
    requires c[k - 1] in l.next && l.next[c[k - 1]] == e
    requires e in l.next && e in l.prev && l.next[e] == Get(c, k) && l.prev[e] == c[k - 1]
    requires k < |c| ==> c[k] in l.prev && l.prev[c[k]] == e
    ensures Chain(Inserted(c, k, e), l)
  {
    var d := Inserted(c, k, e);
    InsertedDistinct(c, k, e);
    forall i: nat | i < |d| ensures ForwardAt(d, l, i) {
      if i < k - 1 {
        assert ForwardAt(c, l, i);
      } else if i > k {
        assert ForwardAt(c, l, i - 1);
      }
    }
    forall i: nat | 0 < i < |d| ensures BackAt(d, l, i) {
      if i < k {
        assert BackAt(c, l, i);
      } else if i > k + 1 {
        assert BackAt(c, l, i - 1);
      }
    }
  }

  lemma RemovedChain(c: seq<Link>, l: Links, k: nat)
    requires 0 < k < |c| && Distinct(c)
    requires forall i: nat :: i < |c| && i != k - 1 && i != k ==> ForwardAt(c, l, i)
    requires forall i: nat :: 0 < i < |c| && i != k && i != k + 1 ==> BackAt(c, l, i)
    requires c[k - 1] in l.next && l.next[c[k - 1]] == Get(c, k + 1)
    requires k + 1 < |c| ==> c[k + 1] in l.prev && l.prev[c[k + 1]] == c[k - 1]
    ensures Chain(Removed(c, k), l)
  {
    var d := Removed(c, k);
    forall i: nat | i < |d| ensures ForwardAt(d, l, i) {
      if i < k - 1 {
        assert ForwardAt(c, l, i);
      } else if i >= k {
        assert ForwardAt(c, l, i + 1);
      }
    }
    forall i: nat | 0 < i < |d| ensures BackAt(d, l, i) {
      if i < k {
        assert BackAt(c, l, i);
      } else if i > k {
        assert BackAt(c, l, i + 1);
      }
    }
  }

  lemma ReplacedChain(c: seq<Link>, l: Links, k: nat, e: Link)
    requires 0 < k < |c| && Distinct(c) && e !in c
    requires forall i: nat :: i < |c| && i != k - 1 && i != k ==> ForwardAt(c, l, i)
    requires forall i: nat :: 0 < i < |c| && i != k && i != k + 1 ==> BackAt(c, l, i)
    requires c[k - 1] in l.next && l.next[c[k - 1]] == e
    requires e in l.next && e in l.prev && l.next[e] == Get(c, k + 1) && l.prev[e] == c[k - 1]
    requires k + 1 < |c| ==> c[k + 1] in l.prev && l.prev[c[k + 1]] == e
    ensures Chain(c[k := e], l)
  {
    var d := c[k := e];
    forall i: nat | i < |d| ensures ForwardAt(d, l, i) {
      if i != k - 1 && i != k {
        assert ForwardAt(c, l, i);
      }
    }
    forall i: nat | 0 < i < |d| ensures BackAt(d, l, i) {
      if i != k && i != k + 1 {
        assert BackAt(c, l, i);
      }
    }
  }

  /** The record that holds the slot behind element `k`: the next element, or what holds the slot at the end. */
  ghost predicate SlotBehind(c: seq<Link>, k: nat, slot: Link?) {
    k < |c| && if k + 1 < |c| then slot == c[k + 1] else slot == null || slot == c[0]
  }

  lemma AfterChain(c: seq<Link>, l: Links, k: nat, e: Link, slot: Link?)
    requires Chain(c, l) && e !in c && SlotBehind(c, k, slot)
    ensures
      Chain(Inserted(c, k + 1, e),
            WithPrev(WithNext(WithPrev(WithNext(l, e, Get(c, k + 1)), slot, e), c[k], e), e, c[k]))
  {
    var l' := WithPrev(WithNext(WithPrev(WithNext(l, e, Get(c, k + 1)), slot, e), c[k], e), e, c[k]);
    forall i: nat | i < |c|
      ensures i != k ==> ForwardAt(c, l', i)
      ensures 0 < i != k + 1 ==> BackAt(c, l', i)
    {
      assert ForwardAt(c, l, i) && (i > 0 ==> BackAt(c, l, i));
    }
    InsertedChain(c, l', k + 1, e);
  }

  lemma BeforeChain(c: seq<Link>, l: Links, k: nat, e: Link)
    requires Chain(c, l) && e !in c && 0 < k < |c|
    ensures
      Chain(Inserted(c, k, e), WithPrev(WithNext(WithNext(WithPrev(l, e, c[k - 1]), e, c[k]), c[k - 1], e), c[k], e))
  {
    var l' := WithPrev(WithNext(WithNext(WithPrev(l, e, c[k - 1]), e, c[k]), c[k - 1], e), c[k], e);
    forall i: nat | i < |c|
      ensures i != k - 1 ==> ForwardAt(c, l', i)
      ensures 0 < i != k ==> BackAt(c, l', i)
    {
      assert ForwardAt(c, l, i) && (i > 0 ==> BackAt(c, l, i));
    }
    InsertedChain(c, l', k, e);
  }

  lemma TailChain(c: seq<Link>, l: Links, e: Link, last: Link)
    requires Chain(c, l) && e !in c && last == c[|c| - 1]
    ensures
      Chain(Inserted(c, |c|, e), WithPrev(WithNext(WithPrev(WithNext(l, e, null), e, last), last, e), c[0], e))
  {
    var l' := WithPrev(WithNext(WithPrev(WithNext(l, e, null), e, last), last, e), c[0], e);
    forall i: nat | i < |c|
      ensures i != |c| - 1 ==> ForwardAt(c, l', i)
      ensures 0 < i ==> BackAt(c, l', i)
    {
      assert ForwardAt(c, l, i) && (i > 0 ==> BackAt(c, l, i));
    }
    InsertedChain(c, l', |c|, e);
  }

  lemma OutChain(c: seq<Link>, l: Links, k: nat, slot: Link?)
    requires Chain(c, l) && 0 < k && SlotBehind(c, k, slot)
    ensures Chain(Removed(c, k), WithNext(WithPrev(l, slot, c[k - 1]), c[k - 1], Get(c, k + 1)))
  {
    var l' := WithNext(WithPrev(l, slot, c[k - 1]), c[k - 1], Get(c, k + 1));
    forall i: nat | i < |c|
      ensures i != k - 1 ==> ForwardAt(c, l', i)
      ensures 0 < i != k + 1 ==> BackAt(c, l', i)
    {
      assert ForwardAt(c, l, i) && (i > 0 ==> BackAt(c, l, i));
    }
    RemovedChain(c, l', k);
  }

  lemma InsteadChain(c: seq<Link>, l: Links, k: nat, e: Link, slot: Link?)
    requires Chain(c, l) && e !in c && 0 < k && SlotBehind(c, k, slot)
    ensures
      Chain(c[k := e],
            WithNext(WithPrev(WithPrev(WithNext(l, e, Get(c, k + 1)), slot, e), e, c[k - 1]), c[k - 1], e))
  {
    var l' := WithNext(WithPrev(WithPrev(WithNext(l, e, Get(c, k + 1)), slot, e), e, c[k - 1]), c[k - 1], e);
    forall i: nat | i < |c|
      ensures i != k - 1 ==> ForwardAt(c, l', i)
      ensures 0 < i != k + 1 ==> BackAt(c, l', i)
    {
      assert ForwardAt(c, l, i) && (i > 0 ==> BackAt(c, l, i));
    }
    ReplacedChain(c, l', k, e);
  }

  // ----- The relinking; `tail` is the record with the slot at the end, null for a LIST, which has none -----

  /** The record whose back-link names the slot behind an element, if there is one. */
  function Slot(next: Link?, tail: Link?, none: Link): Link {
    if next != null then next else if tail != null then tail else none
  }

  /** `LIST_INSERT_AFTER` and `TAILQ_INSERT_AFTER`; with the head for `at`, `LIST_INSERT_HEAD` and `TAILQ_INSERT_HEAD`. */
  method LinkAfter(at: Link, e: Link, tail: Link?, ghost c: seq<Link>, ghost k: nat)
    requires Linked(c) && e !in c && k < |c| && at == c[k] && at.next == Get(c, k + 1)
    requires tail == null || tail == c[0]
    modifies at`next, Slot(at.next, tail, e)`prev, e
    ensures Linked(Inserted(c, k + 1, e))
    ensures tail != null && k + 1 == |c| ==> tail.prev == e
  {
    ghost var s := Records(c) + {e};
    ghost var l := Held(s);
    assert Chain(c, l) by { LinkedIn(c, s); }
    e.SetNext(at.next, s);
    if e.next != null {
      e.next.SetPrev(e, s);
    } else if tail != null {
      tail.SetPrev(e, s);
    }
    at.SetNext(e, s);
    e.SetPrev(at, s);
    AfterChain(c, l, k, e, if k + 1 < |c| then c[k + 1] else tail);
    LinkedIn(Inserted(c, k + 1, e), s);
  }

  /** `LIST_INSERT_BEFORE` and `TAILQ_INSERT_BEFORE` */
  method LinkBefore(at: Link, e: Link, ghost c: seq<Link>, ghost k: nat)
    requires Linked(c) && e !in c && 0 < k < |c| && at == c[k] && at.prev == c[k - 1]
    modifies at`prev, at.prev`next, e
    ensures Linked(Inserted(c, k, e))
  {
    ghost var s := Records(c) + {e};
    ghost var l := Held(s);
    assert Chain(c, l) by { LinkedIn(c, s); }
    e.SetPrev(at.prev, s);
    e.SetNext(at, s);
    at.prev.SetNext(e, s);
    at.SetPrev(e, s);
    BeforeChain(c, l, k, e);
    LinkedIn(Inserted(c, k, e), s);
  }

  /** `TAILQ_INSERT_TAIL` */
  method LinkTail(head: Link, e: Link, ghost c: seq<Link>)
    requires Linked(c) && e !in c && head == c[0] && head.prev == c[|c| - 1]
    modifies head`prev, head.prev`next, e
    ensures Linked(Inserted(c, |c|, e)) && head.prev == e
  {
    ghost var s := Records(c) + {e};
    ghost var l := Held(s);
    assert Chain(c, l) by { LinkedIn(c, s); }
    e.SetNext(null, s);
    e.SetPrev(head.prev, s);
    head.prev.SetNext(e, s);
    head.SetPrev(e, s);
    TailChain(c, l, e, c[|c| - 1]);
    LinkedIn(Inserted(c, |c|, e), s);
  }

  /** `LIST_REMOVE` and `TAILQ_REMOVE` */
  method Unlink(e: Link, tail: Link?, ghost c: seq<Link>, ghost k: nat)
    requires Linked(c) && 0 < k < |c| && e == c[k] && e.next == Get(c, k + 1) && e.prev == c[k - 1]
    requires tail == null || tail == c[0]
    modifies e.prev`next, Slot(e.next, tail, e)`prev
    ensures Linked(Removed(c, k))
    ensures tail != null && k + 1 == |c| ==> tail.prev == c[k - 1]
  {
    ghost var s := Records(c);
    ghost var l := Held(s);
    if e.next != null {
      e.next.SetPrev(e.prev, s);
    } else if tail != null {
      tail.SetPrev(e.prev, s);
    }
    e.prev.SetNext(e.next, s);
    OutChain(c, l, k, if k + 1 < |c| then c[k + 1] else tail);
    LinkedIn(Removed(c, k), s);
  }

  /** `LIST_REPLACE` and `TAILQ_REPLACE` */
  method LinkInstead(e: Link, e2: Link, tail: Link?, ghost c: seq<Link>, ghost k: nat)
    requires Linked(c) && e2 !in c && 0 < k < |c| && e == c[k] && e.next == Get(c, k + 1) && e.prev == c[k - 1]
    requires tail == null || tail == c[0]
    modifies e.prev`next, Slot(e.next, tail, e2)`prev, e2
    ensures Linked(c[k := e2])
    ensures tail != null && k + 1 == |c| ==> tail.prev == e2
  {
    ghost var s := Records(c) + {e2};
    ghost var l := Held(s);
    assert Chain(c, l) by { LinkedIn(c, s); }
    e2.SetNext(e.next, s);
    if e2.next != null {
      e2.next.SetPrev(e2, s);
    } else if tail != null {
      tail.SetPrev(e2, s);
    }
    e2.SetPrev(e.prev, s);
    e2.prev.SetNext(e2, s);
    InsteadChain(c, l, k, e2, if k + 1 < |c| then c[k + 1] else tail);
    LinkedIn(c[k := e2], s);
  }

  // ----- LIST -----

  class List {
    const head: Link
    /** The elements, in order. */
    ghost var nodes: seq<Link>

    ghost function Cells(): seq<Link>
      reads this
    {
      [head] + nodes
    }

    ghost predicate Valid()
      reads this, head, nodes
    {
      Linked(Cells())
    }

    /** `LIST_INIT` */
    constructor ()
      ensures Valid() && nodes == [] && fresh(head)
    {
      head := new Link();
      nodes := [];
    }

    /** `LIST_INSERT_HEAD` */
    method InsertHead(e: Link)
      requires Valid() && e !in Cells()
      modifies this`nodes, head`next, e, nodes
      ensures Valid() && nodes == Inserted(old(nodes), 0, e)
    {
      ghost var c := Cells();
      LinksOf(c, 0);
      LinkAfter(head, e, null, c, 0);
      HeadCells(head, nodes, 0, e);
      nodes := Inserted(nodes, 0, e);
      assert Cells() == Inserted(c, 1, e);
    }

    /** `LIST_INSERT_AFTER` */
    method InsertAfter(at: Link, e: Link)
      requires Valid() && e !in Cells() && at in nodes
      modifies this`nodes, e, nodes
      ensures Valid() && nodes == Inserted(old(nodes), IndexOf(old(nodes), at) + 1, e)
    {
      ghost var c := Cells();
      ghost var k := IndexOf(nodes, at);
      LinksOf(c, k + 1);
      LinkAfter(at, e, null, c, k + 1);
      HeadCells(head, nodes, k + 1, e);
      nodes := Inserted(nodes, k + 1, e);
      assert Cells() == Inserted(c, k + 2, e);
    }

    /** `LIST_INSERT_BEFORE` */
    method InsertBefore(at: Link, e: Link)
      requires Valid() && e !in Cells() && at in nodes
      modifies this`nodes, head`next, e, nodes
      ensures Valid() && nodes == Inserted(old(nodes), IndexOf(old(nodes), at), e)
    {
      ghost var c := Cells();
      ghost var k := IndexOf(nodes, at);
      LinksOf(c, k + 1);
      LinkBefore(at, e, c, k + 1);
      HeadCells(head, nodes, k, e);
      nodes := Inserted(nodes, k, e);
      assert Cells() == Inserted(c, k + 1, e);
    }

    /** `LIST_REMOVE` */
    method Remove(e: Link)
      requires Valid() && e in nodes
      modifies this`nodes, head`next, nodes
      ensures Valid() && nodes == Removed(old(nodes), IndexOf(old(nodes), e))
    {
      ghost var c := Cells();
      ghost var k := IndexOf(nodes, e);
      LinksOf(c, k + 1);
      Unlink(e, null, c, k + 1);
      HeadCells(head, nodes, k, e);
      nodes := Removed(nodes, k);
      assert Cells() == Removed(c, k + 1);
    }

    /** `LIST_REPLACE` */
    method Replace(e: Link, e2: Link)
      requires Valid() && e2 !in Cells() && e in nodes
      modifies this`nodes, head`next, e2, nodes
      ensures Valid() && nodes == old(nodes)[IndexOf(old(nodes), e) := e2]
    {
      ghost var c := Cells();
      ghost var k := IndexOf(nodes, e);
      LinksOf(c, k + 1);
      LinkInstead(e, e2, null, c, k + 1);
      HeadCells(head, nodes, k, e2);
      nodes := nodes[k := e2];
      assert Cells() == c[k + 1 := e2];
    }

    /** `LIST_FOREACH` */
    method Forward() returns (s: seq<Link>)
      requires Valid()
      ensures s == nodes
    {
      s := Walk(head, Cells());
    }
  }

  /** `LIST_FOREACH` and `TAILQ_FOREACH` */
  method Walk(head: Link, ghost c: seq<Link>) returns (s: seq<Link>)
    requires Linked(c) && c[0] == head
    ensures s == c[1..]
  {
    s := [];
    LinksOf(c, 0);
    var x := head.next;
    while x != null
      invariant |s| < |c| && s == c[1..|s| + 1] && x == Get(c, |s| + 1)
      decreases |c| - |s|
    {
      LinksOf(c, |s| + 1);
      s := s + [x];
      x := x.next;
    }
  }

  // ----- TAILQ -----

  class TailQueue {
    const head: Link
    /** The elements, in order. */
    ghost var nodes: seq<Link>

    ghost function Cells(): seq<Link>
      reads this
    {
      [head] + nodes
    }

    /** The head also holds the slot at the end of the queue. */
    ghost predicate Valid()
      reads this, head, nodes
    {
      Linked(Cells()) && head.prev == Cells()[|nodes|]
    }

    /** `TAILQ_INIT` */
    constructor ()
      ensures Valid() && nodes == [] && fresh(head)
    {
      head := new Link();
      nodes := [];
      new;
      head.prev := head;
    }

    /** `TAILQ_INSERT_HEAD` */
    method InsertHead(e: Link)
      requires Valid() && e !in Cells()
      modifies this`nodes, head, e, nodes
      ensures Valid() && nodes == Inserted(old(nodes), 0, e)
    {
      ghost var c := Cells();
      LinksOf(c, 0);
      LinkAfter(head, e, head, c, 0);
      HeadCells(head, nodes, 0, e);
      nodes := Inserted(nodes, 0, e);
      assert Cells() == Inserted(c, 1, e);
    }

    /** `TAILQ_INSERT_TAIL` */
    method InsertTail(e: Link)
      requires Valid() && e !in Cells()
      modifies this`nodes, head, e, nodes
      ensures Valid() && nodes == Inserted(old(nodes), |old(nodes)|, e)
    {
      LinkTail(head, e, Cells());
      HeadCells(head, nodes, |nodes|, e);
      nodes := Inserted(nodes, |nodes|, e);
    }

    /** `TAILQ_INSERT_AFTER` */
    method InsertAfter(at: Link, e: Link)
      requires Valid() && e !in Cells() && at in nodes
      modifies this`nodes, head`prev, e, nodes
      ensures Valid() && nodes == Inserted(old(nodes), IndexOf(old(nodes), at) + 1, e)
    {
      ghost var c := Cells();
      ghost var k := IndexOf(nodes, at);
      LinksOf(c, k + 1);
      LinkAfter(at, e, head, c, k + 1);
      HeadCells(head, nodes, k + 1, e);
      nodes := Inserted(nodes, k + 1, e);
      assert Cells() == Inserted(c, k + 2, e);
    }

    /** `TAILQ_INSERT_BEFORE` */
    method InsertBefore(at: Link, e: Link)
      requires Valid() && e !in Cells() && at in nodes
      modifies this`nodes, head`next, e, nodes
      ensures Valid() && nodes == Inserted(old(nodes), IndexOf(old(nodes), at), e)
    {
      ghost var c := Cells();
      ghost var k := IndexOf(nodes, at);
      LinksOf(c, k + 1);
      LinkBefore(at, e, c, k + 1);
      HeadCells(head, nodes, k, e);
      nodes := Inserted(nodes, k, e);
      assert Cells() == Inserted(c, k + 1, e);
    }

    /** `TAILQ_REMOVE` */
    method Remove(e: Link)
      requires Valid() && e in nodes
      modifies this`nodes, head, nodes
      ensures Valid() && nodes == Removed(old(nodes), IndexOf(old(nodes), e))
    {
      ghost var c := Cells();
      ghost var k := IndexOf(nodes, e);
      LinksOf(c, k + 1);
      Unlink(e, head, c, k + 1);
      HeadCells(head, nodes, k, e);
      nodes := Removed(nodes, k);
      assert Cells() == Removed(c, k + 1);
    }

    /** `TAILQ_REPLACE` */
    method Replace(e: Link, e2: Link)
      requires Valid() && e2 !in Cells() && e in nodes
      modifies this`nodes, head, e2, nodes
      ensures Valid() && nodes == old(nodes)[IndexOf(old(nodes), e) := e2]
    {
      ghost var c := Cells();
      ghost var k := IndexOf(nodes, e);
      LinksOf(c, k + 1);
      LinkInstead(e, e2, head, c, k + 1);
      HeadCells(head, nodes, k, e2);
      nodes := nodes[k := e2];
      assert Cells() == c[k + 1 := e2];
    }

    /** `TAILQ_FOREACH` */
    method Forward() returns (s: seq<Link>)
      requires Valid()
      ensures s == nodes
    {
      s := Walk(head, Cells());
    }

    /** What `TAILQ_LAST` and `TAILQ_PREV` read, from the head and from an element. */
    lemma Before(i: nat)
      requires Valid() && i <= |nodes|
      ensures
        var c, j := Cells(), if i == 0 then |nodes| else i - 1;
        c[i].prev == c[j] && c[j].prev != null && c[j].prev.next == if j == 0 then null else c[j]
    {
      var c, j := Cells(), if i == 0 then |nodes| else i - 1;
      LinksOf(c, |nodes|);
      LinksOf(c, i);
      LinksOf(c, j);
      if j > 0 {
        LinksOf(c, j - 1);
      }
    }

    /** `TAILQ_FOREACH_REVERSE` */
    method Backward() returns (s: seq<Link>)
      requires Valid()
      ensures s == Reversed(nodes)
    {
      s := [];
      ghost var c := Cells();
      ghost var k: nat := |nodes|;
      Before(0);
      var x := head.prev.prev.next;
      while x != null
        invariant k <= |nodes| && s == Reversed(nodes)[..|nodes| - k]
        invariant x == if k == 0 then null else c[k]
        decreases k
      {
        Before(k);
        s := s + [x];
        k := k - 1;
        x := x.prev.prev.next;
      }
    }
  }

  // ----- Whole runs -----

  datatype Op =
    | AtHead(e: Link)
    | AtTail(e: Link)
    | After(at: Link, e: Link)
    | Ahead(at: Link, e: Link)
    | Out(at: Link)
    | Swap(at: Link, e: Link)

  /** The caller's duty: the element named is in the queue, and the new one is not. */
  ghost predicate Allowed(op: Op, head: Link, s: seq<Link>) {
    (op.AtHead? || op.AtTail? || op.at in s) && (op.Out? || op.e !in [head] + s)
  }

  /** What an operation does to a sequence. */
  ghost function Effect(op: Op, head: Link, s: seq<Link>): seq<Link>
    requires Allowed(op, head, s)
  {
    match op
    case AtHead(e) => Inserted(s, 0, e)
    case AtTail(e) => Inserted(s, |s|, e)
    case After(at, e) => Inserted(s, IndexOf(s, at) + 1, e)
    case Ahead(at, e) => Inserted(s, IndexOf(s, at), e)
    case Out(at) => Removed(s, IndexOf(s, at))
    case Swap(at, e) => s[IndexOf(s, at) := e]
  }

  ghost predicate AllAllowed(ops: seq<Op>, head: Link, s: seq<Link>) {
    ops != [] ==> Allowed(ops[0], head, s) && AllAllowed(ops[1..], head, Effect(ops[0], head, s))
  }

  ghost function Effects(ops: seq<Op>, head: Link, s: seq<Link>): seq<Link>
    requires AllAllowed(ops, head, s)
  {
    if ops == [] then s else Effects(ops[1..], head, Effect(ops[0], head, s))
  }

  function Elements(ops: seq<Op>): set<Link> {
    set op | op in ops && !op.Out? :: op.e
  }

  method TailStep(q: TailQueue, op: Op)
    requires q.Valid() && Allowed(op, q.head, q.nodes)
    modifies q`nodes, q.head, q.nodes, if op.Out? then {} else {op.e}
    ensures q.Valid() && q.nodes == Effect(op, q.head, old(q.nodes))
  {
    match op {
      case AtHead(e) => q.InsertHead(e);
      case AtTail(e) => q.InsertTail(e);
      case After(at, e) => q.InsertAfter(at, e);
      case Ahead(at, e) => q.InsertBefore(at, e);
      case Out(at) => q.Remove(at);
      case Swap(at, e) => q.Replace(at, e);
    }
  }

  lemma EffectWithin(op: Op, head: Link, s: seq<Link>, all: set<Link>)
    requires Allowed(op, head, s) && Records(s) <= all && (op.Out? || op.e in all)
    ensures Records(Effect(op, head, s)) <= all
  {
    forall x | x in Effect(op, head, s) ensures x in all {
      assert x in s || (!op.Out? && x == op.e);
    }
  }

  /** A step of a run, whose elements are all in `all`. */
  method TailStepWithin(q: TailQueue, op: Op, ghost all: set<Link>)
    requires q.Valid() && Allowed(op, q.head, q.nodes)
    requires Records(q.nodes) <= all && (op.Out? || op.e in all)
    modifies q`nodes, q.head, all
    ensures q.Valid() && q.nodes == Effect(op, q.head, old(q.nodes)) && Records(q.nodes) <= all
  {
    EffectWithin(op, q.head, q.nodes, all);
    TailStep(q, op);
  }

  method TailOps(q: TailQueue, ops: seq<Op>)
    requires q.Valid() && AllAllowed(ops, q.head, q.nodes)
    modifies q`nodes, q.head, q.nodes, Elements(ops)
    ensures q.Valid() && q.nodes == Effects(ops, q.head, old(q.nodes))
  {
    var i := 0;
    ghost var all := Records(q.nodes) + Elements(ops);
    assert ops[0..] == ops;
    while i < |ops|
      invariant 0 <= i <= |ops| && q.Valid()
      invariant AllAllowed(ops[i..], q.head, q.nodes)
      invariant Effects(ops[i..], q.head, q.nodes) == Effects(ops, q.head, old(q.nodes))
      invariant Records(q.nodes) <= all
    {
      assert ops[i..][1..] == ops[i + 1..];
      assert ops[i] in ops;
      TailStepWithin(q, ops[i], all);
      i := i + 1;
    }
  }

  method BothWays(q: TailQueue) returns (there: seq<Link>, back: seq<Link>)
    requires q.Valid()
    ensures there == q.nodes && back == Reversed(q.nodes)
  {
    there := q.Forward();
    back := q.Backward();
  }

  /**
   * Any run of operations leaves the queue holding the sequence that the same operations make of the first one,
   * and walking it either way gives that sequence.
   */
  method TailRun(q: TailQueue, ops: seq<Op>) returns (there: seq<Link>, back: seq<Link>)
    requires q.Valid() && AllAllowed(ops, q.head, q.nodes)
    modifies q`nodes, q.head, q.nodes, Elements(ops)
    ensures q.Valid() && q.nodes == Effects(ops, q.head, old(q.nodes))
    ensures there == q.nodes && back == Reversed(q.nodes)
  {
    TailOps(q, ops);
    there, back := BothWays(q);
  }

  method ListStep(q: List, op: Op)
    requires q.Valid() && Allowed(op, q.head, q.nodes) && !op.AtTail?
    modifies q`nodes, q.head`next, q.nodes, if op.Out? then {} else {op.e}
    ensures q.Valid() && q.nodes == Effect(op, q.head, old(q.nodes))
  {
    match op {
      case AtHead(e) => q.InsertHead(e);
      case After(at, e) => q.InsertAfter(at, e);
      case Ahead(at, e) => q.InsertBefore(at, e);
      case Out(at) => q.Remove(at);
      case Swap(at, e) => q.Replace(at, e);
    }
  }

  /** A step of a run, whose elements are all in `all`. */
  method ListStepWithin(q: List, op: Op, ghost all: set<Link>)
    requires q.Valid() && Allowed(op, q.head, q.nodes) && !op.AtTail?
    requires Records(q.nodes) <= all && (op.Out? || op.e in all)
    modifies q`nodes, q.head`next, all
    ensures q.Valid() && q.nodes == Effect(op, q.head, old(q.nodes)) && Records(q.nodes) <= all
  {
    EffectWithin(op, q.head, q.nodes, all);
    ListStep(q, op);
  }

  method ListOps(q: List, ops: seq<Op>)
    requires q.Valid() && AllAllowed(ops, q.head, q.nodes) && forall op :: op in ops ==> !op.AtTail?
    modifies q`nodes, q.head`next, q.nodes, Elements(ops)
    ensures q.Valid() && q.nodes == Effects(ops, q.head, old(q.nodes))
  {
    var i := 0;
    ghost var all := Records(q.nodes) + Elements(ops);
    assert ops[0..] == ops;
    while i < |ops|
      invariant 0 <= i <= |ops| && q.Valid()
      invariant AllAllowed(ops[i..], q.head, q.nodes)
      invariant Effects(ops[i..], q.head, q.nodes) == Effects(ops, q.head, old(q.nodes))
      invariant Records(q.nodes) <= all
    {
      assert ops[i..][1..] == ops[i + 1..];
      assert ops[i] in ops;
      ListStepWithin(q, ops[i], all);
      i := i + 1;
    }
  }

  /** The same for a list, which has no insertion at the tail and is walked forward only. */
  method ListRun(q: List, ops: seq<Op>) returns (there: seq<Link>)
    requires q.Valid() && AllAllowed(ops, q.head, q.nodes) && forall op :: op in ops ==> !op.AtTail?
    modifies q`nodes, q.head`next, q.nodes, Elements(ops)
    ensures q.Valid() && q.nodes == Effects(ops, q.head, old(q.nodes))
    ensures there == q.nodes
  {
    ListOps(q, ops);
    there := q.Forward();
  }

  lemma InsertedRemoved<T>(s: seq<T>, k: nat, e: T)
    requires k <= |s| && e !in s
    ensures
      var s' := Inserted(s, k, e);
      e in s' && Removed(s', IndexOf(s', e)) == s
  {
    var s' := Inserted(s, k, e);
    assert s'[k] == e;
    forall j | 0 <= j < |s'| && j != k ensures s'[j] in s {
      assert s'[j] == s[if j < k then j else j - 1];
    }
    assert IndexOf(s', e) == k;
  }

  /** Removing an element undoes its insertion, wherever it went. */
  lemma RemoveUndoesInsert(op: Op, head: Link, s: seq<Link>)
    requires Allowed(op, head, s) && !op.Out? && !op.Swap?
    ensures
      var s' := Effect(op, head, s);
      Allowed(Out(op.e), head, s') && Effect(Out(op.e), head, s') == s
  {
    var k := match op
      case AtHead(_) => 0
      case AtTail(_) => |s|
      case After(at, _) => IndexOf(s, at) + 1
      case Ahead(at, _) => IndexOf(s, at);
    assert Effect(op, head, s) == Inserted(s, k, op.e);
    assert op.e !in s;
    InsertedRemoved(s, k, op.e);
  }

  method StepAndBack(q: TailQueue, op: Op)
    requires q.Valid() && Allowed(op, q.head, q.nodes) && !op.Out? && !op.Swap?
    modifies q`nodes, q.head, q.nodes, op.e
    ensures q.Valid() && q.nodes == old(q.nodes)
  {
    RemoveUndoesInsert(op, q.head, q.nodes);
    EffectWithin(op, q.head, q.nodes, Records(q.nodes) + {op.e});
    TailStep(q, op);
    TailStep(q, Out(op.e));
  }

  /** What the links of a queue hold follows from its elements. */
  ghost function NextFor(c: seq<Link>, x: Link): Link?
    requires x in c
  {
    Get(c, IndexOf(c, x) + 1)
  }

  ghost function PrevFor(c: seq<Link>, x: Link): Link?
    requires x in c
  {
    c[if IndexOf(c, x) == 0 then |c| - 1 else IndexOf(c, x) - 1]
  }

  ghost function LinksFor(c: seq<Link>): Links {
    Links(map x | x in Records(c) :: NextFor(c, x), map x | x in Records(c) :: PrevFor(c, x))
  }

  lemma LinkFor(c: seq<Link>, x: Link)
    requires Linked(c) && x in c && c[0].prev == c[|c| - 1]
    ensures x.next == NextFor(c, x) && x.prev == PrevFor(c, x)
  {
    LinksOf(c, IndexOf(c, x));
  }

  ghost predicate Follows(c: seq<Link>)
    reads c
  {
    forall x :: x in c ==> x.next == NextFor(c, x) && x.prev == PrevFor(c, x)
  }

  lemma HeldFollows(c: seq<Link>)
    requires Follows(c)
    ensures Held(Records(c)) == LinksFor(c)
  {
  }

  lemma Determined(c: seq<Link>)
    requires Linked(c) && c[0].prev == c[|c| - 1]
    ensures Held(Records(c)) == LinksFor(c)
  {
    assert Follows(c) by {
      forall x | x in c ensures x.next == NextFor(c, x) && x.prev == PrevFor(c, x) {
        LinkFor(c, x);
      }
    }
    HeldFollows(c);
  }

  /** In the queue itself: inserting an element and removing it again leaves every link as it was. */
  method InsertAndRemove(q: TailQueue, op: Op)
    requires q.Valid() && Allowed(op, q.head, q.nodes) && !op.Out? && !op.Swap?
    modifies q`nodes, q.head, q.nodes, op.e
    ensures q.Valid() && q.nodes == old(q.nodes)
    ensures Held(Records(q.Cells())) == old(Held(Records(q.Cells())))
  {
    Determined(q.Cells());
    StepAndBack(q, op);
    Determined(q.Cells());
  }
}
