/**
 * Optional values, and what the other modules share about sequences of any kind.
 */
module Sequences {
  datatype Option<+T> = None | Some(value: T)

  lemma Regroup<T>(a: seq<T>, b: seq<T>, c: seq<T>)
    ensures a + (b + c) == (a + b) + c
  {
  }

  /** `piece` stands in `s` at `i`. */
  predicate Stands<T(==)>(s: seq<T>, i: nat, piece: seq<T>) {
    i + |piece| <= |s| && s[i..i + |piece|] == piece
  }

  lemma StandsParts<T>(s: seq<T>, i: nat, a: seq<T>, b: seq<T>)
    requires Stands(s, i, a + b)
    ensures Stands(s, i, a) && Stands(s, i + |a|, b)
  {
    assert s[i..i + |a|] == s[i..i + |a + b|][..|a|];
    assert s[i + |a|..i + |a| + |b|] == s[i..i + |a + b|][|a|..];
  }

  lemma StandsAt<T>(s: seq<T>, i: nat, piece: seq<T>)
    requires Stands(s, i, piece)
    ensures forall k :: 0 <= k < |piece| ==> s[i + k] == piece[k]
  {
    assert forall k :: 0 <= k < |piece| ==> s[i..i + |piece|][k] == piece[k];
  }
}
