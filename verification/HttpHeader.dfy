/**
 The header part of `getHTTPResponse`: the scan for the end of the headers, which
 is redone on every read, and the loop that picks out the two fields it uses.
 */
module HttpHeader {
  import opened Sequences
  import opened Text

  // ----- the end of the headers

  /**
   The scan for CR LF CR LF or LF LF, with the source's skips: the length of the
   header block, or 0 when the bytes received so far hold no end of headers.
   */
  function HeaderEnd(s: string): (e: nat)
    ensures e == 0 || (2 <= e <= |s| && IsEol(s[e - 1]) && IsEol(s[e - 2]))
    decreases |s|
  {
    if |s| < 2 then 0
    else if s[0] == '\r' then
      if s[1] != '\n' then SkipThen(s, 2)
      else if !(2 < |s| && s[2] == '\r') then SkipThen(s, if |s| < 3 then 2 else 3)
      else if 3 < |s| && s[3] == '\n' then 4
      else SkipThen(s, if |s| < 4 then 3 else 4)
    else if s[0] == '\n' then
      if s[1] == '\n' then 2 else SkipThen(s, 2)
    else SkipThen(s, 1)
  }

  /** The scan goes on after `k` bytes. */
  function SkipThen(s: string, k: nat): (e: nat)
    requires 0 < k <= |s|
    ensures e == 0 || (2 <= e <= |s| && IsEol(s[e - 1]) && IsEol(s[e - 2]))
    decreases |s|, 0
  {
    var r := HeaderEnd(s[k..]);
    if r == 0 then 0 else k + r
  }

  /** What the scan from position `i` on reports. */
  ghost function EndFrom(s: string, i: nat): nat {
    if i >= |s| || HeaderEnd(s[i..]) == 0 then 0 else i + HeaderEnd(s[i..])
  }

  lemma EndFromSkip(s: string, i: nat, k: nat)
    requires 0 < k && i + k <= |s| && HeaderEnd(s[i..]) == SkipThen(s[i..], k)
    ensures EndFrom(s, i) == EndFrom(s, i + k)
  {
    assert s[i..][k..] == s[i + k..];
  }

  /** One round of the scan loop. */
  lemma ScanStep(s: string, i: nat)
    requires i + 1 < |s|
    ensures EndFrom(s, i) ==
      if s[i] == '\r' then
        if s[i + 1] != '\n' then EndFrom(s, i + 2)
        else if !(i + 2 < |s| && s[i + 2] == '\r') then EndFrom(s, i + 3)
        else if i + 3 < |s| && s[i + 3] == '\n' then i + 4
        else EndFrom(s, i + 4)
      else if s[i] == '\n' then
        if s[i + 1] == '\n' then i + 2 else EndFrom(s, i + 2)
      else EndFrom(s, i + 1)
  {
    var h, n := s[i..], |s| - i;
    if h[0] == '\r' {
      if h[1] != '\n' {
        EndFromSkip(s, i, 2);
      } else if !(2 < n && h[2] == '\r') {
        EndFromSkip(s, i, if n < 3 then 2 else 3);
      } else if !(3 < n && h[3] == '\n') {
        EndFromSkip(s, i, if n < 4 then 3 else 4);
      }
    } else if h[0] == '\n' {
      if h[1] != '\n' {
        EndFromSkip(s, i, 2);
      }
    } else {
      EndFromSkip(s, i, 1);
    }
  }

  /** The scan loop. */
  method ScanHeaderEnd(s: string) returns (e: nat)
    ensures e == HeaderEnd(s)
  {
    e := 0;
    var i := 0;
    assert s[0..] == s;
    while i < |s| - 1 && e == 0
      invariant e == 0 ==> EndFrom(s, i) == HeaderEnd(s)
      invariant e != 0 ==> e == HeaderEnd(s)
    {
      ScanStep(s, i);
      if s[i] == '\r' {
        i := i + 1;
        if s[i] == '\n' {
          i := i + 1;
          if i < |s| && s[i] == '\r' {
            i := i + 1;
            if i < |s| && s[i] == '\n' {
              e := i + 1;
            }
          }
        }
      } else if s[i] == '\n' {
        i := i + 1;
        if s[i] == '\n' {
          e := i + 1;
        }
      }
      i := i + 1;
    }
  }

  /** Rescanning a prefix finds the end of the whole stream's headers, once it is there. */
  lemma {:induction false} HeaderEndPrefix(s: string, u: nat)
    requires u <= |s|
    ensures HeaderEnd(s[..u]) == if HeaderEnd(s) <= u then HeaderEnd(s) else 0
    decreases |s|
  {
    if |s| >= 2 && u >= 2 {
      if s[0] == '\r' {
        if s[1] != '\n' {
          SkipPrefix(s, u, 2);
        } else if !(2 < |s| && s[2] == '\r') {
          if |s| > 2 {
            SkipPrefix(s, u, 3);
          }
        } else if 3 < |s| && s[3] != '\n' {
          SkipPrefix(s, u, 4);
        }
      } else if s[0] == '\n' {
        if s[1] != '\n' {
          SkipPrefix(s, u, 2);
        }
      } else {
        SkipPrefix(s, u, 1);
      }
    }
  }

  lemma {:induction false} SkipPrefix(s: string, u: nat, k: nat)
    requires 0 < k <= |s| && u <= |s|
    ensures k <= u ==> SkipThen(s[..u], k) == if SkipThen(s, k) <= u then SkipThen(s, k) else 0
    ensures u < k ==> SkipThen(s, k) == 0 || SkipThen(s, k) > u
    decreases |s|, 0
  {
    if k <= u {
      assert s[..u][k..] == s[k..][..u - k];
      HeaderEndPrefix(s[k..], u - k);
    }
  }

  /** A line of a header block. */
  ghost predicate IsLine(line: string) {
    line != "" && forall k :: 0 <= k < |line| ==> !IsEol(line[k])
  }

  function HeaderBlock(lines: seq<string>, eol: string): string {
    if lines == [] then eol else lines[0] + (eol + HeaderBlock(lines[1..], eol))
  }

  /** Bytes inside a line are passed over one by one. */
  lemma {:induction false} HeaderEndLine(line: string, rest: string)
    requires rest != "" && forall k :: 0 <= k < |line| ==> !IsEol(line[k])
    ensures HeaderEnd(line + rest) == if HeaderEnd(rest) == 0 then 0 else |line| + HeaderEnd(rest)
    decreases |line|
  {
    if line == "" {
      assert line + rest == rest;
    } else {
      assert (line + rest)[1..] == line[1..] + rest;
      HeaderEndLine(line[1..], rest);
    }
  }

  /** A line end followed by a further line is passed over. */
  lemma HeaderEndNext(eol: string, rest: string)
    requires eol == "\r\n" || eol == "\n"
    requires |rest| >= 2 && !IsEol(rest[0])
    ensures HeaderEnd(eol + rest) == if HeaderEnd(rest) == 0 then 0 else |eol| + HeaderEnd(rest)
  {
    assert (eol + rest)[|eol| + 1..] == rest[1..];
  }

  lemma HeaderEndBlank(eol: string, body: string)
    requires eol == "\r\n" || eol == "\n"
    ensures HeaderEnd(eol + (eol + body)) == |eol| + |eol|
  {
  }

  /** A well-formed header block ends exactly where the scan says, whatever body follows. */
  lemma {:induction false} HeaderEndBlock(lines: seq<string>, eol: string, body: string)
    requires eol == "\r\n" || eol == "\n"
    requires lines != [] && forall k :: 0 <= k < |lines| ==> IsLine(lines[k])
    ensures HeaderEnd(HeaderBlock(lines, eol) + body) == |HeaderBlock(lines, eol)|
    decreases |lines|
  {
    var block := HeaderBlock(lines[1..], eol);
    assert HeaderEnd(eol + (block + body)) == |eol| + |block| by {
      if |lines| == 1 {
        HeaderEndBlank(eol, body);
      } else {
        HeaderEndBlock(lines[1..], eol, body);
        BlockStarts(lines[1..], eol, body);
        HeaderEndNext(eol, block + body);
      }
    }
    HeaderEndLine(lines[0], eol + (block + body));
    Nested(lines[0], eol, block, body);
  }

  lemma BlockStarts(lines: seq<string>, eol: string, body: string)
    requires lines != [] && IsLine(lines[0]) && eol != ""
    ensures
      var s := HeaderBlock(lines, eol) + body;
      |s| >= 2 && !IsEol(s[0])
  {
  }

  lemma Nested(a: string, b: string, c: string, d: string)
    ensures (a + (b + c)) + d == a + (b + (c + d)) && |a + (b + c)| == |a| + (|b| + |c|)
  {
  }

  // ----- which end is found

  /** The end of the first LF LF or CR LF CR LF, or 0 when there is none. */
  function FirstBlank(s: string): nat {
    if s == "" then 0
    else if "\n\n" <= s then 2
    else if "\r\n\r\n" <= s then 4
    else
      var e := FirstBlank(s[1..]);
      if e == 0 then 0 else 1 + e
  }

  /** A blank line starts here. */
  predicate BlankAt(s: string) {
    "\n\n" <= s || "\r\n\r\n" <= s
  }

  /**
   An even number of line end characters stands directly before the first blank line, if there is one; `odd` tells
   that an odd number stands before `s`.
   */
  predicate Aligned(s: string, odd: bool) {
    if s == "" then true
    else if BlankAt(s) then !odd
    else Aligned(s[1..], IsEol(s[0]) && !odd)
  }

  /** An end found `k` bytes on. */
  function Later(k: nat, e: nat): nat {
    if e == 0 then 0 else k + e
  }

  lemma OneOn(s: string, odd: bool)
    requires s != "" && !BlankAt(s)
    ensures FirstBlank(s) == Later(1, FirstBlank(s[1..]))
    ensures Aligned(s, odd) <==> Aligned(s[1..], IsEol(s[0]) && !odd)
  {
  }

  /** No blank line starts at a line end character or the byte behind it. */
  lemma TwoOn(s: string)
    requires |s| >= 2 && IsEol(s[0]) && !BlankAt(s) && !BlankAt(s[1..])
    ensures FirstBlank(s) == Later(2, FirstBlank(s[2..])) && (Aligned(s, false) <==> Aligned(s[2..], false))
  {
    OneOn(s, false);
    OneOn(s[1..], true);
    assert s[1..][1..] == s[2..];
  }

  /** One starts at the byte behind, where the scan does not look. */
  lemma OddMissed(s: string)
    requires |s| >= 2 && IsEol(s[0]) && !BlankAt(s) && BlankAt(s[1..])
    ensures !Aligned(s, false) && HeaderEnd(s) != FirstBlank(s)
  {
    OneOn(s, false);
    var t := s[1..];
    if "\n\n" <= t {
      assert t[0] == s[1] && t[1] == s[2];
      assert HeaderEnd(s) == SkipThen(s, 3);
    } else {
      assert t[0] == s[1] && t[1] == s[2] && t[2] == s[3];
      assert HeaderEnd(s) == SkipThen(s, 2);
      NotThree(s[2..]);
    }
  }

  lemma NotThree(s: string)
    requires |s| >= 3 && s[0] == '\n' && s[1] == '\r'
    ensures HeaderEnd(s) != 3
  {
    assert HeaderEnd(s) == SkipThen(s, 2);
  }

  /**
   For every text: the scan reports the end of the first blank line, or none when there is none, if and only if an
   even number of line end characters stands directly before that blank line.
   */
  lemma {:induction false} HeaderEndExactly(s: string)
    ensures HeaderEnd(s) == FirstBlank(s) <==> Aligned(s, false)
    decreases |s|
  {
    if |s| == 1 {
      OneOn(s, false);
    } else if |s| >= 2 && !BlankAt(s) {
      if !IsEol(s[0]) {
        OneOn(s, false);
        HeaderEndExactly(s[1..]);
      } else if BlankAt(s[1..]) {
        OddMissed(s);
      } else {
        TwoOn(s);
        if s[0] == '\r' && s[1] == '\n' {
          LineBreak(s);
        } else {
          HeaderEndExactly(s[2..]);
        }
      }
    }
  }

  lemma {:induction false} LineBreak(s: string)
    requires |s| >= 2 && s[0] == '\r' && s[1] == '\n' && !BlankAt(s) && !BlankAt(s[1..])
    ensures HeaderEnd(s) == FirstBlank(s) <==> Aligned(s, false)
    decreases |s|, 0
  {
    TwoOn(s);
    var t := s[2..];
    if |s| == 2 {
      assert HeaderEnd(s) == SkipThen(s, 2);
    } else if s[2] != '\r' {
      assert !IsEol(s[2]) by {
        assert s[1..][1] == s[2];
      }
      OneOn(t, false);
      assert t[1..] == s[3..];
      HeaderEndExactly(s[3..]);
    } else if |s| == 3 {
      OneOn(t, false);
      assert HeaderEnd(s) == SkipThen(s, 3);
    } else {
      assert s[3] != '\n';
      assert !BlankAt(t) && t[2..] == s[4..];
      if BlankAt(t[1..]) {
        OddMissed(t);
        assert t[1..][1] == s[4] && t[1..][2] == s[5];
        NotThree(s[4..]);
      } else {
        TwoOn(t);
        HeaderEndExactly(s[4..]);
      }
    }
  }

  /** Line ends at `k` are of the form CR LF, where `s` goes on. */
  predicate CrlfAt(s: string, k: nat)
    requires k < |s|
  {
    && (s[k] == '\r' && k + 1 < |s| ==> s[k + 1] == '\n')
    && (s[k] == '\n' ==> k > 0 && s[k - 1] == '\r')
  }

  /** Every line ends the same way: with LF alone, or with CR LF, of which the last may not be complete. */
  predicate OneStyle(s: string) {
    '\r' !in s || forall k :: 0 <= k < |s| ==> CrlfAt(s, k)
  }

  lemma StyleStays(s: string, k: nat)
    requires 0 < k <= |s| && s[k - 1] != '\r' && OneStyle(s)
    ensures OneStyle(s[k..])
  {
    if '\r' in s {
      forall j | 0 <= j < |s| - k ensures CrlfAt(s[k..], j) {
        assert CrlfAt(s, k + j);
      }
    }
  }

  lemma {:induction false} StyleAligned(s: string)
    requires OneStyle(s)
    ensures Aligned(s, false)
    decreases |s|
  {
    if s != "" && !BlankAt(s) {
      OneOn(s, false);
      if !IsEol(s[0]) {
        StyleStays(s, 1);
        StyleAligned(s[1..]);
      } else if |s| >= 2 {
        BreakAligned(s, if s[0] == '\r' then 2 else 1);
      }
    }
  }

  /** A line break of `k` bytes, not followed by another. */
  lemma {:induction false} BreakAligned(s: string, k: nat)
    requires OneStyle(s) && |s| >= 2 && !BlankAt(s)
    requires if s[0] == '\r' then k == 2 else s[0] == '\n' && k == 1
    ensures Aligned(s, false)
    decreases |s|, 0
  {
    if s[0] == '\r' {
      assert s[0] in s && CrlfAt(s, 0) && (|s| > 2 ==> CrlfAt(s, 2));
      assert !BlankAt(s[1..]) by {
        assert |s| > 2 ==> s[1..][1] == s[2];
      }
      TwoOn(s);
      if |s| == 3 {
        OneOn(s[2..], false);
      } else if |s| > 3 {
        StyleStays(s, 3);
        OneOn(s[2..], false);
        assert s[2..][1..] == s[3..];
        StyleAligned(s[3..]);
      }
    } else {
      assert '\r' !in s by {
        assert !CrlfAt(s, 0);
      }
      assert s[1] in s && s[1..][0] == s[1];
      TwoOn(s);
      StyleStays(s, 2);
      StyleAligned(s[2..]);
    }
  }

  /** So with line ends of one style the scan finds the first blank line, and finds one if and only if there is one. */
  lemma HeaderEndFirst(s: string)
    requires OneStyle(s)
    ensures HeaderEnd(s) == FirstBlank(s)
  {
    StyleAligned(s);
    HeaderEndExactly(s);
  }

  /** With both styles it may miss one: behind a line that ends with CR LF, an empty line that ends with LF. */
  lemma MixedEndsMissed(line: string)
    requires IsLine(line)
    ensures HeaderEnd(line + "\r\n\n") == 0 && FirstBlank(line + "\r\n\n") == |line| + 3
    decreases |line|
  {
    var end := "\r\n\n";
    var s := line + end;
    assert s[0] == line[0];
    OneOn(s, false);
    if |line| == 1 {
      assert s[1..] == end;
      MissedAt(end);
    } else {
      MixedEndsMissed(line[1..]);
      assert s[1..] == line[1..] + end;
    }
  }

  lemma MissedAt(end: string)
    requires end == "\r\n\n"
    ensures HeaderEnd(end) == 0 && FirstBlank(end) == 3
  {
    assert end[3..] == "" && HeaderEnd(end) == SkipThen(end, 3);
    assert "\n\n" <= end[1..];
  }

  // ----- header fields

  datatype Fields = Fields(chunked: bool, contentLength: int)

  const NoFields: Fields := Fields(false, -1)

  /** `strncasecmp(s, name, n) == 0`, where `name` is a terminated string. */
  predicate CaseEq(s: string, name: string, n: nat) {
    && (forall k :: 0 <= k < n && k < |name| ==> k < |s| && Lower(s[k]) == Lower(name[k]))
    && (n > |name| ==> |name| < |s| && s[|name|] == '\0')
  }

  /** C's `atoi`, without its overflow. */
  function Atoi(s: string): int {
    var t := s[Spaces(s)..];
    if t != "" && t[0] == '-' then -(Value(Digits(t[1..]), TEN) as int)
    else if t != "" && t[0] == '+' then Value(Digits(t[1..]), TEN)
    else Value(Digits(t), TEN)
  }

  predicate IsBlank(c: char) {
    c == ' ' || c == '\t'
  }

  /** The first position from `i` on, below `e`, that ends a line. */
  function EolFrom(s: string, i: nat, e: nat): (j: nat)
    requires i <= e <= |s|
    ensures i <= j <= e
    ensures j < e ==> IsEol(s[j])
    decreases e - i
  {
    if i == e || IsEol(s[i]) then i else EolFrom(s, i + 1, e)
  }

  /** The first colon from `i` on, below `e`. */
  function ColonFrom(s: string, i: nat, e: nat): (j: nat)
    requires i <= e <= |s|
    ensures i <= j <= e
    decreases e - i
  {
    if i == e || s[i] == ':' then i else ColonFrom(s, i + 1, e)
  }

  function BlanksEnd(s: string, i: nat): (j: nat)
    requires i <= |s|
    ensures i <= j <= |s|
    decreases |s| - i
  {
    if i == |s| || !IsBlank(s[i]) then i else BlanksEnd(s, i + 1)
  }

  function EolsEnd(s: string, i: nat): (j: nat)
    requires i <= |s|
    ensures i <= j <= |s|
    decreases |s| - i
  {
    if i == |s| || !IsEol(s[i]) then i else EolsEnd(s, i + 1)
  }

  /** The positions at which a line starts and ends. */
  datatype Line = Line(start: nat, end: nat)

  /** The header lines from `start` on, where the headers end at `e`. */
  function Lines(s: string, start: nat, e: nat): (ls: seq<Line>)
    requires start <= e <= |s|
    ensures InText(s, ls)
    decreases e - start
  {
    var end := EolFrom(s, start, e);
    if end == e then []
    else
      var next := EolsEnd(s, end + 1);
      if next >= e then [Line(start, end)] else [Line(start, end)] + Lines(s, next, e)
  }

  /** A field: its name, and the received bytes from the start of its value on. */
  datatype Field = NoField | Field(name: string, value: string)

  /** The field of a line, if it has one; a colon in front of the line does not count. */
  function FieldOf(s: string, l: Line): Field
    requires l.start <= l.end <= |s|
  {
    if l.start == l.end then NoField
    else
      var colon := ColonFrom(s, l.start + 1, l.end);
      if colon == l.end then NoField else Field(s[l.start..colon], s[BlanksEnd(s, colon + 1)..])
  }

  function ApplyField(f: Fields, x: Field): Fields {
    if x.NoField? then f
    else if CaseEq(x.name, "content-length", |x.name|) then f.(contentLength := Atoi(x.value))
    else if CaseEq(x.name, "transfer-encoding", |x.name|) && CaseEq(x.value, "chunked", |"chunked"|) then f.(chunked := true)
    else f
  }

  ghost predicate InText(s: string, ls: seq<Line>) {
    forall k :: 0 <= k < |ls| ==> ls[k].start <= ls[k].end <= |s|
  }

  /** What the lines say together, after `f`: the last field of a kind counts. */
  function Collect(s: string, ls: seq<Line>, f: Fields): Fields
    requires InText(s, ls)
    decreases |ls|
  {
    if ls == [] then f else Collect(s, ls[1..], ApplyField(f, FieldOf(s, ls[0])))
  }

  /** What the headers, which end at `e`, say. */
  function HeaderFields(s: string, e: nat): Fields
    requires e <= |s|
  {
    Collect(s, Lines(s, 0, e), NoFields)
  }

  lemma {:induction false} EolFromIs(s: string, i: nat, j: nat, e: nat)
    requires i <= j < e <= |s| && IsEol(s[j]) && forall k :: i <= k < j ==> !IsEol(s[k])
    ensures EolFrom(s, i, e) == j
    decreases j - i
  {
    if i < j {
      EolFromIs(s, i + 1, j, e);
    }
  }

  lemma {:induction false} ColonFromIs(s: string, i: nat, j: nat, e: nat)
    requires i <= j <= e <= |s| && (j < e ==> s[j] == ':') && forall k :: i <= k < j ==> s[k] != ':'
    ensures ColonFrom(s, i, e) == j
    decreases j - i
  {
    if i < j {
      ColonFromIs(s, i + 1, j, e);
    }
  }

  /** What the line loop knows about the current line, which starts at `start`, when at `i`. */
  ghost predicate InLine(s: string, start: nat, i: nat, colon: nat, value: nat) {
    && start <= i <= |s|
    && (forall k :: start <= k < i ==> !IsEol(s[k]))
    && if colon > start then
         && colon < value <= i && s[colon] == ':' && value == BlanksEnd(s, colon + 1)
         && forall k :: start < k < colon ==> s[k] != ':'
       else forall k :: start < k < i ==> s[k] != ':'
  }

  lemma InLineColon(s: string, start: nat, i: nat, colon: nat, value: nat, j: nat)
    requires InLine(s, start, i, colon, value) && colon <= start && i < |s| && s[i] == ':'
    requires i <= j < |s| && j + 1 == BlanksEnd(s, i + 1) && forall k :: i < k <= j ==> IsBlank(s[k])
    ensures InLine(s, start, j + 1, i, j + 1)
  {
  }

  lemma InLineNext(s: string, start: nat, i: nat, colon: nat, value: nat)
    requires InLine(s, start, i, colon, value) && i < |s| && !IsEol(s[i]) && (colon <= start ==> s[i] != ':')
    ensures InLine(s, start, i + 1, colon, value)
  {
  }

  lemma LineField(s: string, start: nat, i: nat, colon: nat, value: nat)
    requires InLine(s, start, i, colon, value) && i < |s|
    ensures FieldOf(s, Line(start, i)) == if colon > start then Field(s[start..colon], s[value..]) else NoField
  {
    if start < i {
      ColonFromIs(s, start + 1, if colon > start then colon else i, i);
    }
  }

  /** `while(s[i+1] is a blank) i++;` from a colon at `colon`. */
  method SkipBlanks(s: string, colon: nat, e: nat) returns (i: nat)
    requires colon < e - 1 && e <= |s| && IsEol(s[e - 1])
    ensures colon <= i < e - 1 && i + 1 == BlanksEnd(s, colon + 1)
    ensures forall k :: colon < k <= i ==> IsBlank(s[k])
  {
    i := colon;
    while i < e - 1 && IsBlank(s[i + 1])
      invariant colon <= i < e - 1
      invariant BlanksEnd(s, colon + 1) == BlanksEnd(s, i + 1)
      invariant forall k :: colon < k <= i ==> IsBlank(s[k])
    {
      i := i + 1;
    }
  }

  /** The line breaks behind a line; the bytes received are not left, after which the loop over the headers is over. */
  method SkipEols(s: string, i0: nat) returns (i: nat)
    requires i0 < |s| && IsEol(s[i0])
    ensures i0 < i <= |s| && i == EolsEnd(s, i0 + 1)
    ensures i < |s| ==> !IsEol(s[i])
  {
    i := i0;
    while i < |s| && IsEol(s[i])
      invariant i0 <= i <= |s|
      invariant EolsEnd(s, i0) == EolsEnd(s, i)
    {
      i := i + 1;
    }
  }

  /** The end of a line: its field, if any, is taken into account. */
  method FinishLine(s: string, start: nat, i: nat, colon: nat, value: nat, f0: Fields) returns (f: Fields)
    requires InLine(s, start, i, colon, value) && i < |s|
    ensures f == ApplyField(f0, FieldOf(s, Line(start, i)))
  {
    LineField(s, start, i, colon, value);
    f := f0;
    if colon > start && value > colon {
      f := ApplyField(f, Field(s[start..colon], s[value..]));
    }
  }

  /** The invariant of the loop over the header lines; `seen` are the lines done so far. */
  ghost predicate Parsing(s: string, e: nat, i: nat, start: nat, colon: nat, value: nat, seen: seq<Line>)
    requires e <= |s|
  {
    if i < e then
      i < e - 1 && InLine(s, start, i, colon, value) && seen + Lines(s, start, e) == Lines(s, 0, e)
    else seen == Lines(s, 0, e)
  }

  lemma ParsingNextLine(s: string, e: nat, start: nat, i: nat, colon: nat, value: nat, seen: seq<Line>, next: nat)
    requires 2 <= e <= |s| && IsEol(s[e - 1]) && IsEol(s[e - 2])
    requires i < e && Parsing(s, e, i, start, colon, value, seen) && IsEol(s[i])
    requires i < next <= |s| && next == EolsEnd(s, i + 1) && (next < |s| ==> !IsEol(s[next]))
    ensures Parsing(s, e, next + 1, next, next, 0, seen + [Line(start, i)])
  {
    EolFromIs(s, start, i, e);
    LinesStep(s, start, i, next, e);
    if next < e {
      Regroup(seen, [Line(start, i)], Lines(s, next, e));
      ParsingStarts(s, e, next, seen + [Line(start, i)]);
    }
  }

  /** A line that starts inside the header, after a line break, has just begun. */
  lemma ParsingStarts(s: string, e: nat, next: nat, seen: seq<Line>)
    requires 2 <= e <= |s| && IsEol(s[e - 1]) && IsEol(s[e - 2]) && next < e && !IsEol(s[next])
    requires seen + Lines(s, next, e) == Lines(s, 0, e)
    ensures Parsing(s, e, next + 1, next, next, 0, seen)
  {
  }

  lemma LinesStep(s: string, start: nat, end: nat, next: nat, e: nat)
    requires start <= end < e <= |s| && EolFrom(s, start, e) == end && EolsEnd(s, end + 1) == next
    ensures Lines(s, start, e) == if next >= e then [Line(start, end)] else [Line(start, end)] + Lines(s, next, e)
  {
  }

  lemma {:induction false} CollectSnoc(s: string, ls: seq<Line>, l: Line, f: Fields)
    requires InText(s, ls) && l.start <= l.end <= |s|
    ensures InText(s, ls + [l]) && Collect(s, ls + [l], f) == ApplyField(Collect(s, ls, f), FieldOf(s, l))
    decreases |ls|
  {
    if ls != [] {
      assert (ls + [l])[1..] == ls[1..] + [l];
      CollectSnoc(s, ls[1..], l, ApplyField(f, FieldOf(s, ls[0])));
    }
  }

  /** The loop over the header lines. */
  method ParseFields(s: string, e: nat) returns (f: Fields)
    requires 2 <= e <= |s| && IsEol(s[e - 1]) && IsEol(s[e - 2])
    ensures f == HeaderFields(s, e)
  {
    f := NoFields;
    var i: nat, start: nat, colon: nat, value: nat := 0, 0, 0, 0;
    ghost var seen: seq<Line> := [];
    assert seen + Lines(s, 0, e) == Lines(s, 0, e);
    while i < e - 1
      invariant InText(s, seen) && f == Collect(s, seen, NoFields)
      invariant Parsing(s, e, i, start, colon, value, seen)
      decreases e - i
    {
      if colon <= start && s[i] == ':' {
        var j := SkipBlanks(s, i, e);
        InLineColon(s, start, i, colon, value, j);
        colon, i, value := i, j + 1, j + 1;
      } else if IsEol(s[i]) {
        f := FinishLine(s, start, i, colon, value, f);
        CollectSnoc(s, seen, Line(start, i), NoFields);
        var next := SkipEols(s, i);
        ParsingNextLine(s, e, start, i, colon, value, seen, next);
        seen := seen + [Line(start, i)];
        start, colon, value, i := next, next, 0, next + 1;
      } else {
        InLineNext(s, start, i, colon, value);
        i := i + 1;
      }
    }
  }

  // ----- the fields of a well-formed header block

  const CRLF: string := "\r\n"

  /** Where `lines` stand when the first is at position `i`. */
  function BlockLines(i: nat, lines: seq<string>): seq<Line>
    decreases |lines|
  {
    if lines == [] then []
    else [Line(i, i + |lines[0]|)] + BlockLines(i + |lines[0]| + 2, lines[1..])
  }

  /** `lines` stand in `s` from `i` on, each ended by CR LF, with a further CR LF up to `e`. */
  ghost predicate BlockAt(s: string, i: nat, lines: seq<string>, e: nat)
    decreases |lines|
  {
    && i + 2 <= e <= |s|
    && if lines == [] then e == i + 2 && s[i] == '\r' && s[i + 1] == '\n'
       else
         var j := i + |lines[0]|;
         && j + 2 <= e && s[i..j] == lines[0] && IsLine(lines[0]) && s[j] == '\r' && s[j + 1] == '\n'
         && BlockAt(s, j + 2, lines[1..], e)
  }

  lemma LineAtFront(s: string, i: nat, line: string, rest: string)
    requires i <= |s| && s[i..] == line + (CRLF + rest)
    ensures
      var j := i + |line|;
      && j + 2 <= |s| && s[i..j] == line && s[j] == '\r' && s[j + 1] == '\n' && s[j + 2..] == rest
  {
    var j := i + |line|;
    assert s[i..j] == s[i..][..|line|];
    assert s[j] == s[i..][|line|] && s[j + 1] == s[i..][|line| + 1];
    assert s[j + 2..] == s[i..][|line| + 2..];
  }

  lemma LineAhead(s: string, i: nat, line: string, rest: string, body: string)
    requires i <= |s| && s[i..] == line + (CRLF + rest) + body
    ensures
      var j := i + |line|;
      && j + 2 + |rest| <= |s| && s[i..j] == line && s[j] == '\r' && s[j + 1] == '\n' && s[j + 2..] == rest + body
      && |line + (CRLF + rest)| == |line| + 2 + |rest|
  {
    assert s[i..] == line + (CRLF + (rest + body));
    LineAtFront(s, i, line, rest + body);
  }

  lemma {:induction false} BlockIsAt(s: string, i: nat, lines: seq<string>, body: string)
    requires i <= |s| && s[i..] == HeaderBlock(lines, CRLF) + body
    requires forall k :: 0 <= k < |lines| ==> IsLine(lines[k])
    ensures BlockAt(s, i, lines, i + |HeaderBlock(lines, CRLF)|)
    decreases |lines|
  {
    if lines == [] {
      assert s[i] == s[i..][0] && s[i + 1] == s[i..][1];
    } else {
      var line, rest := lines[0], HeaderBlock(lines[1..], CRLF);
      var j := i + |line| + 2;
      LineAhead(s, i, line, rest, body);
      assert BlockAt(s, j, lines[1..], j + |rest|) by { BlockIsAt(s, j, lines[1..], body); }
    }
  }

  /** The line loop sees exactly the lines of the block. */
  lemma {:induction false} LinesOfBlock(s: string, i: nat, lines: seq<string>, e: nat)
    requires lines != [] && BlockAt(s, i, lines, e)
    ensures Lines(s, i, e) == BlockLines(i, lines)
    decreases |lines|
  {
    var j := i + |lines[0]|;
    FirstEol(s, i, lines, e);
    if |lines| == 1 {
      assert lines[1..] == [];
      OnlyLine(s, i, lines, e);
      LinesLast(s, i, j, e);
    } else {
      BlockNext(s, i, lines, e);
      FirstOfLine(s, j + 2, lines[1..], e);
      LinesMore(s, i, j, e);
      LinesOfBlock(s, j + 2, lines[1..], e);
    }
  }

  lemma FirstEol(s: string, i: nat, lines: seq<string>, e: nat)
    requires lines != [] && BlockAt(s, i, lines, e)
    ensures
      var j := i + |lines[0]|;
      j + 2 <= e <= |s| && s[j + 1] == '\n' && EolFrom(s, i, e) == j
  {
    var j := i + |lines[0]|;
    assert forall k :: i <= k < j ==> s[k] == s[i..j][k - i];
    EolFromIs(s, i, j, e);
  }

  lemma OnlyLine(s: string, i: nat, lines: seq<string>, e: nat)
    requires |lines| == 1 && BlockAt(s, i, lines, e)
    ensures
      var j := i + |lines[0]|;
      e == j + 4 <= |s| && s[j + 2] == '\r' && s[j + 3] == '\n'
  {
    assert lines[1..] == [];
  }

  lemma FirstOfLine(s: string, i: nat, lines: seq<string>, e: nat)
    requires lines != [] && BlockAt(s, i, lines, e)
    ensures i < e <= |s| && !IsEol(s[i])
  {
    assert s[i] == s[i..i + |lines[0]|][0];
  }

  lemma LinesLast(s: string, start: nat, end: nat, e: nat)
    requires start <= end && e == end + 4 <= |s| && EolFrom(s, start, e) == end
    requires s[end + 1] == '\n' && s[end + 2] == '\r' && s[end + 3] == '\n'
    ensures Lines(s, start, e) == [Line(start, end)]
  {
    assert EolsEnd(s, end + 1) == EolsEnd(s, end + 2) == EolsEnd(s, end + 3) == EolsEnd(s, end + 4);
  }

  lemma LinesMore(s: string, start: nat, end: nat, e: nat)
    requires start <= end && end + 2 < e <= |s| && EolFrom(s, start, e) == end
    requires s[end + 1] == '\n' && !IsEol(s[end + 2])
    ensures Lines(s, start, e) == [Line(start, end)] + Lines(s, end + 2, e)
  {
    assert EolsEnd(s, end + 1) == EolsEnd(s, end + 2) == end + 2;
  }

  lemma {:induction false} BlockInText(s: string, i: nat, lines: seq<string>, e: nat)
    requires BlockAt(s, i, lines, e)
    ensures InText(s, BlockLines(i, lines))
    decreases |lines|
  {
    if lines != [] {
      BlockInText(s, i + |lines[0]| + 2, lines[1..], e);
    }
  }

  /** What `lines` say, after `f`, when the first stands at position `i` of `s`. */
  ghost function Said(s: string, i: nat, lines: seq<string>, e: nat, f: Fields): Fields
    requires BlockAt(s, i, lines, e)
  {
    BlockInText(s, i, lines, e);
    Collect(s, BlockLines(i, lines), f)
  }

  lemma BlockNext(s: string, i: nat, lines: seq<string>, e: nat)
    requires BlockAt(s, i, lines, e) && lines != []
    ensures
      var j := i + |lines[0]|;
      j + 2 <= |s| && s[i..j] == lines[0] && BlockAt(s, j + 2, lines[1..], e)
  {
  }

  lemma SaidStep(s: string, i: nat, lines: seq<string>, e: nat, f: Fields, j: nat)
    requires BlockAt(s, i, lines, e) && lines != []
    requires j == i + |lines[0]| <= |s| && BlockAt(s, j + 2, lines[1..], e)
    ensures Said(s, i, lines, e, f) == Said(s, j + 2, lines[1..], e, ApplyField(f, FieldOf(s, Line(i, j))))
  {
    BlockInText(s, i, lines, e);
    CollectStep(s, i, lines, f, j);
  }

  lemma CollectStep(s: string, i: nat, lines: seq<string>, f: Fields, j: nat)
    requires lines != [] && InText(s, BlockLines(i, lines)) && j == i + |lines[0]|
    ensures j <= |s| && InText(s, BlockLines(j + 2, lines[1..]))
    ensures Collect(s, BlockLines(i, lines), f)
         == Collect(s, BlockLines(j + 2, lines[1..]), ApplyField(f, FieldOf(s, Line(i, j))))
  {
    var l, rest := Line(i, j), BlockLines(j + 2, lines[1..]);
    var all := BlockLines(i, lines);
    assert all == [l] + rest;
    assert all[0] == l && forall k :: 0 <= k < |rest| ==> rest[k] == all[k + 1];
    CollectCons(s, l, rest, f);
  }

  lemma CollectCons(s: string, l: Line, rest: seq<Line>, f: Fields)
    requires l.start <= l.end <= |s| && InText(s, rest)
    ensures InText(s, [l] + rest) && Collect(s, [l] + rest, f) == Collect(s, rest, ApplyField(f, FieldOf(s, l)))
  {
    assert ([l] + rest)[1..] == rest;
  }

  /** The fields of a well-formed header block are what its lines say, in order. */
  lemma HeaderFieldsOfBlock(s: string, lines: seq<string>, body: string)
    requires lines != [] && forall k :: 0 <= k < |lines| ==> IsLine(lines[k])
    requires s == HeaderBlock(lines, CRLF) + body
    ensures BlockAt(s, 0, lines, |HeaderBlock(lines, CRLF)|)
    ensures HeaderFields(s, |HeaderBlock(lines, CRLF)|)
         == Said(s, 0, lines, |HeaderBlock(lines, CRLF)|, NoFields)
  {
    var e := |HeaderBlock(lines, CRLF)|;
    assert s[0..] == s;
    BlockIsAt(s, 0, lines, body);
    LinesOfBlock(s, 0, lines, e);
  }

  lemma FieldNone(s: string, i: nat, line: string)
    requires i + |line| <= |s| && s[i..i + |line|] == line && forall k :: 0 <= k < |line| ==> line[k] != ':'
    ensures FieldOf(s, Line(i, i + |line|)) == NoField
  {
    if line != "" {
      assert forall k :: i <= k < i + |line| ==> s[k] == line[k - i];
      ColonFromIs(s, i + 1, i + |line|, i + |line|);
    }
  }

  lemma FieldSome(s: string, i: nat, name: string, value: string)
    requires name != "" && (forall k :: 0 <= k < |name| ==> name[k] != ':')
    requires value != "" && !IsBlank(value[0])
    requires i + |name| + 2 + |value| <= |s| && s[i..i + |name| + 2 + |value|] == name + ": " + value
    ensures FieldOf(s, Line(i, i + |name| + 2 + |value|)) == Field(name, s[i + |name| + 2..])
  {
    var line, c := name + ": " + value, i + |name|;
    assert forall k :: i <= k < i + |line| ==> s[k] == line[k - i];
    ColonFromIs(s, i + 1, c, i + |line|);
    assert s[c + 1] == ' ' && s[c + 2] == value[0];
    assert BlanksEnd(s, c + 1) == c + 2;
    assert s[i..c] == name;
  }
}
