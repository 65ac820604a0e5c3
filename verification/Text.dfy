/**
 Shared text helpers: concatenation of pieces, character classes, and numerals
 in base ten and sixteen as `printf` writes them and the parsers read them back.
 A byte of a text protocol is modelled as a `char`.
 */
module Text {

  /** The bytes of a stream that arrives in pieces. */
  function Flatten<T>(pieces: seq<seq<T>>): seq<T> {
    if pieces == [] then [] else pieces[0] + Flatten(pieces[1..])
  }

  lemma FlattenSnoc<T>(pieces: seq<seq<T>>, last: seq<T>)
    ensures Flatten(pieces + [last]) == Flatten(pieces) + last
  {
    if pieces == [] {
      assert Flatten([last]) == last + Flatten<T>([]);
    } else {
      assert (pieces + [last])[1..] == pieces[1..] + [last];
    }
  }

  lemma {:induction false} FlattenSplit<T>(pieces: seq<seq<T>>, k: nat)
    requires k <= |pieces|
    ensures Flatten(pieces) == Flatten(pieces[..k]) + Flatten(pieces[k..])
  {
    if k == 0 {
      assert pieces[0..] == pieces;
    } else {
      FlattenSplit(pieces[1..], k - 1);
      assert pieces[..k][1..] == pieces[1..][..k - 1];
      assert pieces[1..][k - 1..] == pieces[k..];
    }
  }

  lemma FlattenFront<T>(front: seq<T>, pieces: seq<seq<T>>, k: nat)
    requires 0 < k <= |pieces|
    ensures front + Flatten(pieces[..k]) == (front + pieces[0]) + Flatten(pieces[1..][..k - 1])
  {
    assert pieces[..k][1..] == pieces[1..][..k - 1];
  }

  lemma AroundPiece<T>(pieces: seq<seq<T>>, j: nat)
    requires j < |pieces|
    ensures Flatten(pieces[..j + 1]) == Flatten(pieces[..j]) + pieces[j]
    ensures Flatten(pieces) == Flatten(pieces[..j + 1]) + Flatten(pieces[j + 1..])
  {
    FlattenSplit(pieces, j + 1);
    UpTo(pieces, j);
  }

  lemma UpTo<T>(pieces: seq<seq<T>>, j: nat)
    requires j < |pieces|
    ensures Flatten(pieces[..j + 1]) == Flatten(pieces[..j]) + pieces[j]
  {
    FlattenSnoc(pieces[..j], pieces[j]);
    assert pieces[..j + 1] == pieces[..j] + [pieces[j]];
  }

  predicate IsDigit(c: char) {
    '0' <= c <= '9'
  }

  /** C's `isxdigit`. */
  predicate IsHex(c: char) {
    IsDigit(c) || 'a' <= c <= 'f' || 'A' <= c <= 'F'
  }

  /** C's `isspace` in the default locale. */
  predicate IsSpace(c: char) {
    c == ' ' || '\t' <= c <= '\r'
  }

  /** A character that ends a line. */
  predicate IsEol(c: char) {
    c == '\r' || c == '\n'
  }

  /** C's `tolower` in the default locale. */
  function Lower(c: char): char {
    if 'A' <= c <= 'Z' then c + 32 as char else c
  }

  /** The first position of `s` whose character is in `stops`, or `|s|`. */
  function Until(s: string, stops: set<char>): (n: nat)
    ensures n <= |s|
  {
    if s == [] || s[0] in stops then 0 else 1 + Until(s[1..], stops)
  }

  /** `Until` is the first stop: nothing before it stops, and it does. */
  lemma {:induction false} UntilIs(s: string, stops: set<char>, n: nat)
    requires n <= |s|
    requires forall k :: 0 <= k < n ==> s[k] !in stops
    requires n < |s| ==> s[n] in stops
    ensures Until(s, stops) == n
  {
    if n > 0 {
      assert s[0] !in stops;
      UntilIs(s[1..], stops, n - 1);
    }
  }

  /** Scanning over a plain prefix leaves the scan of the rest. */
  lemma {:induction false} UntilAppend(pre: string, rest: string, stops: set<char>)
    requires forall k :: 0 <= k < |pre| ==> pre[k] !in stops
    ensures Until(pre + rest, stops) == |pre| + Until(rest, stops)
  {
    if pre == "" {
      assert pre + rest == rest;
    } else {
      assert (pre + rest)[1..] == pre[1..] + rest;
      UntilAppend(pre[1..], rest, stops);
    }
  }

  /** The number of leading characters of `s` that are in `cs`. */
  function Span(s: string, cs: set<char>): (n: nat)
    ensures n <= |s|
  {
    if s == [] || s[0] !in cs then 0 else 1 + Span(s[1..], cs)
  }

  lemma {:induction false} SpanAppend(pre: string, rest: string, cs: set<char>)
    requires forall k :: 0 <= k < |pre| ==> pre[k] in cs
    ensures Span(pre + rest, cs) == |pre| + Span(rest, cs)
  {
    if pre == "" {
      assert pre + rest == rest;
    } else {
      assert (pre + rest)[1..] == pre[1..] + rest;
      SpanAppend(pre[1..], rest, cs);
    }
  }

  // ----- numerals

  const TEN: nat := 10
  const SIXTEEN: nat := 16

  function DigitChar(d: nat): (c: char)
    requires d < 16
    ensures IsHex(c) && DigitValue(c) == d
    ensures d < 10 ==> IsDigit(c)
    ensures c == '0' ==> d == 0
  {
    if d < 10 then '0' + d as char else 'a' + (d - 10) as char
  }

  /** The value of one digit, computed as the size-line reader does. */
  function DigitValue(c: char): (d: nat)
    requires IsHex(c)
    ensures d < 16
    ensures IsDigit(c) ==> d < 10
  {
    if IsDigit(c) then (c - '0') as nat
    else (Lower(c) as nat) - ('a' as nat) + 10
  }

  /** `printf("%u")` for base ten and `printf("%x")` for base sixteen. */
  function Numeral(n: nat, base: nat): (s: string)
    requires base == TEN || base == SIXTEEN
    ensures s != ""
    ensures forall k :: 0 <= k < |s| ==> IsHex(s[k])
    ensures base == TEN ==> forall k :: 0 <= k < |s| ==> IsDigit(s[k])
  {
    if n < base then [DigitChar(n)]
    else Numeral(n / base, base) + [DigitChar(n % base)]
  }

  /** The number that a string of digits stands for. */
  function Value(s: string, base: nat): nat
    requires forall k :: 0 <= k < |s| ==> IsHex(s[k])
  {
    if s == "" then 0
    else Value(s[..|s| - 1], base) * base + DigitValue(s[|s| - 1])
  }

  lemma {:induction false} NumeralValue(n: nat, base: nat)
    requires base == TEN || base == SIXTEEN
    ensures Value(Numeral(n, base), base) == n
  {
    var s := Numeral(n, base);
    if n < base {
      assert s[..|s| - 1] == "";
    } else {
      assert s[..|s| - 1] == Numeral(n / base, base);
      NumeralValue(n / base, base);
    }
  }

  /** A numeral never has a leading zero unless it is "0". */
  lemma {:induction false} NumeralLeading(n: nat, base: nat)
    requires base == TEN || base == SIXTEEN
    ensures Numeral(n, base)[0] == '0' ==> n == 0
  {
    if n >= base {
      NumeralLeading(n / base, base);
    }
  }

  /** The number of leading space characters. */
  function Spaces(s: string): (n: nat)
    ensures n <= |s|
  {
    if s != "" && IsSpace(s[0]) then 1 + Spaces(s[1..]) else 0
  }

  /** The leading digits. */
  function Digits(s: string): (d: string)
    ensures forall k :: 0 <= k < |d| ==> IsDigit(d[k])
  {
    if s != "" && IsDigit(s[0]) then [s[0]] + Digits(s[1..]) else ""
  }

  lemma {:induction false} DigitsAppend(d: string, rest: string)
    requires forall k :: 0 <= k < |d| ==> IsDigit(d[k])
    requires (rest == "" || !IsDigit(rest[0]))
    ensures Digits(d + rest) == d
  {
    if d == "" {
      assert d + rest == rest;
    } else {
      assert (d + rest)[1..] == d[1..] + rest;
      DigitsAppend(d[1..], rest);
    }
  }
}
