/**
 * Discovery end to end: the reply that the server prints, the client's scan of it, and the client's parsing of
 * the address found in it.
 */
module Ssdp {
  import opened Sequences
  import opened Text

  // ----- The reply -----

  datatype Line = Line(name: string, value: string)

  const EOL := "\r\n"

  function LineText(l: Line): string {
    l.name + ":" + l.value + EOL
  }

  function LinesText(ls: seq<Line>): string {
    if ls == [] then "" else LineText(ls[0]) + LinesText(ls[1..])
  }

  const STATUS := "HTTP/1.1 200 OK"

  function ReplyLines(target: string, uuid: string, server: string, location: string): seq<Line> {
    [
      Line("CACHE-CONTROL", " max-age=120"),
      Line("ST", " " + target),
      Line("USN", " " + uuid + "::" + target),
      Line("EXT", ""),
      Line("SERVER", " " + server),
      Line("LOCATION", " " + location)
    ]
  }

  function Location(host: string, port: nat, path: string): string {
    "http://" + (host + (":" + (Numeral(port, TEN) + path)))
  }

  /** The text formatted by `SendSSDPAnnounce2`; `target` is the search target with its suffix. */
  function Reply(target: string, uuid: string, server: string, host: string, port: nat, path: string): string {
    STATUS + EOL + LinesText(ReplyLines(target, uuid, server, Location(host, port, path))) + EOL
  }

  // ----- The client's scan -----

  datatype Found = Found(location: Option<string>, st: Option<string>)

  /** The text at `a` starts with the word, in either case. */
  predicate StartsWith(s: string, a: nat, word: string) {
    a + |word| <= |s| && forall k :: 0 <= k < |word| ==> Lower(s[a + k]) == word[k]
  }

  /** The position of the first character from `b` on, before `i`, that is not a blank. */
  function SkipBlanks(s: string, b: nat, i: nat): (r: nat)
    requires b <= i <= |s|
    ensures b <= r <= i
    decreases i - b
  {
    if b < i && s[b] == ' ' then SkipBlanks(s, b + 1, i) else b
  }

  /** A line from `a` to `i` with its colon at `b` is taken in. */
  function Take(s: string, a: nat, b: nat, i: nat, f: Found): Found
    requires b < i <= |s|
  {
    var value := s[SkipBlanks(s, b + 1, i)..i];
    if StartsWith(s, a, "location") then f.(location := Some(value))
    else if StartsWith(s, a, "st") then f.(st := Some(value))
    else f
  }

  /** `parseMSEARCHReply` from position `i` on; `a` is the start of the line and `b` its colon, 0 when not yet seen. */
  function Scan(s: string, i: nat, a: nat, b: nat, f: Found): Found
    requires b <= i
    requires b == i ==> b == 0
    decreases |s| - i
  {
    if i >= |s| then f
    else if s[i] == ':' then Scan(s, i + 1, a, if b == 0 then i else b, f)
    else if IsEol(s[i]) then Scan(s, i + 1, i + 1, 0, if b != 0 then Take(s, a, b, i, f) else f)
    else Scan(s, i + 1, a, b, f)
  }

  method ScanReply(s: string) returns (f: Found)
    ensures f == Scan(s, 0, 0, 0, Found(None, None))
  {
    f := Found(None, None);
    var a, b := 0, 0;
    var i := 0;
    while i < |s|
      invariant 0 <= a <= i <= |s| && 0 <= b <= i && (b == i ==> b == 0)
      invariant Scan(s, i, a, b, f) == Scan(s, 0, 0, 0, Found(None, None))
    {
      if s[i] == ':' {
        if b == 0 {
          b := i;
        }
      } else if IsEol(s[i]) {
        if b != 0 {
          var v := b + 1;
          while v < i && s[v] == ' '
            invariant b + 1 <= v <= i
            invariant SkipBlanks(s, v, i) == SkipBlanks(s, b + 1, i)
          {
            v := v + 1;
          }
          if StartsWith(s, a, "location") {
            f := f.(location := Some(s[v..i]));
          } else if StartsWith(s, a, "st") {
            f := f.(st := Some(s[v..i]));
          }
          b := 0;
        }
        a := i + 1;
      }
      i := i + 1;
    }
  }

  // ----- Scanning a line -----

  /** No line break. */
  predicate OneLine(s: string) {
    forall k :: 0 <= k < |s| ==> !IsEol(s[k])
  }

  predicate Plain(c: char) {
    !IsEol(c) && c != ':'
  }

  /** Up to and with the colon at `n`. */
  lemma {:induction false} NamePass(s: string, i: nat, n: nat, a: nat, f: Found)
    requires 0 < i <= n < |s| && s[n] == ':' && forall k :: i <= k < n ==> Plain(s[k])
    ensures Scan(s, i, a, 0, f) == Scan(s, n + 1, a, n, f)
    decreases n - i
  {
    if i < n {
      assert Plain(s[i]);
      NamePass(s, i + 1, n, a, f);
    }
  }

  /** From after the colon at `b` over the line break at `n`. */
  lemma {:induction false} ValuePass(s: string, i: nat, n: nat, a: nat, b: nat, f: Found)
    requires 0 < b < i <= n && n + 2 <= |s| && s[n] == '\r' && s[n + 1] == '\n'
    requires forall k :: i <= k < n ==> !IsEol(s[k])
    ensures Scan(s, i, a, b, f) == Scan(s, n + 2, n + 2, 0, Take(s, a, b, n, f))
    decreases n - i
  {
    if i < n {
      assert !IsEol(s[i]);
      ValuePass(s, i + 1, n, a, b, f);
    } else {
      BreakPass(s, n, a, b, f);
    }
  }

  lemma BreakPass(s: string, n: nat, a: nat, b: nat, f: Found)
    requires 0 < b < n && n + 2 <= |s| && s[n] == '\r' && s[n + 1] == '\n'
    ensures Scan(s, n, a, b, f) == Scan(s, n + 2, n + 2, 0, Take(s, a, b, n, f))
  {
    assert Scan(s, n, a, b, f) == Scan(s, n + 1, n + 1, 0, Take(s, a, b, n, f));
  }

  lemma {:induction false} BlanksIn(s: string, i: nat, v: string, k: nat)
    requires Stands(s, i, v) && k <= |v|
    ensures SkipBlanks(s, i + k, i + |v|) == i + SkipBlanks(v, k, |v|)
    decreases |v| - k
  {
    if k < |v| {
      StandsAt(s, i, v);
      BlanksIn(s, i, v, k + 1);
    }
  }

  predicate GoodLine(l: Line) {
    ':' !in l.name && OneLine(l.name) && OneLine(l.value)
  }

  lemma NameStarts(s: string, a: nat, name: string, word: string)
    requires Stands(s, a, name + ":") && ':' !in word
    ensures StartsWith(s, a, word) == StartsWith(name, 0, word)
  {
    StandsAt(s, a, name + ":");
    assert s[a + |name|] == (name + ":")[|name|] == ':';
    if |word| > |name| {
      assert word[|name|] in word && Lower(s[a + |name|]) == ':';
    } else {
      assert forall k :: 0 <= k < |word| ==> s[a + k] == (name + ":")[k] == name[0 + k];
    }
  }

  function Trim(v: string): string {
    v[SkipBlanks(v, 0, |v|)..]
  }

  /** What a header line adds to the result. */
  function TakeLine(l: Line, f: Found): Found {
    if StartsWith(l.name, 0, "location") then f.(location := Some(Trim(l.value)))
    else if StartsWith(l.name, 0, "st") then f.(st := Some(Trim(l.value)))
    else f
  }

  function TakeLines(ls: seq<Line>, f: Found): Found {
    if ls == [] then f else TakeLines(ls[1..], TakeLine(ls[0], f))
  }

  lemma LineParts(s: string, a: nat, l: Line)
    requires Stands(s, a, LineText(l))
    ensures
      var b := a + |l.name|;
      var i := b + 1 + |l.value|;
      && Stands(s, a, l.name + ":") && Stands(s, b + 1, l.value) && i + 2 <= |s|
      && s[b] == ':' && s[i] == '\r' && s[i + 1] == '\n'
  {
    StandsParts(s, a, l.name + ":" + l.value, EOL);
    StandsParts(s, a, l.name + ":", l.value);
    StandsAt(s, a, l.name + ":");
    StandsAt(s, a + |l.name + ":" + l.value|, EOL);
    assert (l.name + ":")[|l.name|] == ':';
  }

  lemma Taken(s: string, a: nat, l: Line, f: Found)
    requires GoodLine(l) && Stands(s, a, l.name + ":") && Stands(s, a + |l.name| + 1, l.value)
    ensures
      var b := a + |l.name|;
      Take(s, a, b, b + 1 + |l.value|, f) == TakeLine(l, f)
  {
    var b := a + |l.name|;
    var i := b + 1 + |l.value|;
    NameStarts(s, a, l.name, "location");
    NameStarts(s, a, l.name, "st");
    BlanksIn(s, b + 1, l.value, 0);
    var k := SkipBlanks(l.value, 0, |l.value|);
    assert s[b + 1 + k..i] == s[b + 1..i][k..];
  }

  lemma PlainPart(s: string, a: nat, name: string)
    requires Stands(s, a, name) && ':' !in name && OneLine(name)
    ensures forall k :: a <= k < a + |name| ==> Plain(s[k])
  {
    StandsAt(s, a, name);
    assert forall k :: a <= k < a + |name| ==> s[k] == name[k - a];
  }

  lemma OneLinePart(s: string, a: nat, value: string)
    requires Stands(s, a, value) && OneLine(value)
    ensures forall k :: a <= k < a + |value| ==> !IsEol(s[k])
  {
    StandsAt(s, a, value);
    assert forall k :: a <= k < a + |value| ==> s[k] == value[k - a];
  }

  lemma LineScan(s: string, a: nat, l: Line, f: Found)
    requires a > 0 && GoodLine(l) && Stands(s, a, LineText(l))
    ensures Scan(s, a, a, 0, f) == Scan(s, a + |LineText(l)|, a + |LineText(l)|, 0, TakeLine(l, f))
  {
    var b := a + |l.name|;
    var i := b + 1 + |l.value|;
    LineParts(s, a, l);
    StandsParts(s, a, l.name, ":");
    PlainPart(s, a, l.name);
    NamePass(s, a, b, a, f);
    OneLinePart(s, b + 1, l.value);
    ValuePass(s, b + 1, i, a, b, f);
    Taken(s, a, l, f);
    assert |LineText(l)| == |l.name| + 1 + |l.value| + 2;
  }

  lemma {:induction false} LinesScan(s: string, a: nat, ls: seq<Line>, f: Found)
    requires a > 0 && (forall k :: 0 <= k < |ls| ==> GoodLine(ls[k])) && Stands(s, a, LinesText(ls))
    ensures Scan(s, a, a, 0, f) == Scan(s, a + |LinesText(ls)|, a + |LinesText(ls)|, 0, TakeLines(ls, f))
    decreases |ls|
  {
    if ls != [] {
      var l, rest := ls[0], ls[1..];
      var n := a + |LineText(l)|;
      StandsParts(s, a, LineText(l), LinesText(rest));
      LineScan(s, a, l, f);
      LinesScan(s, n, rest, TakeLine(l, f));
      assert |LinesText(ls)| == |LineText(l)| + |LinesText(rest)|;
    }
  }

  // ----- The address in the reply -----

  datatype Url = Url(host: string, port: nat, path: string)

  const MAX_HOST := 64

  /** The first position from `i` on where the character stands, or the length. */
  function Position(s: string, c: char, i: nat): (k: nat)
    requires i <= |s|
    ensures i <= k <= |s|
    decreases |s| - i
  {
    if i == |s| || s[i] == c then i else Position(s, c, i + 1)
  }

  /** Where "://" first stands from `i` on, or the length. */
  function Separator(s: string, i: nat): (k: nat)
    requires i <= |s|
    ensures i <= k <= |s| && (k < |s| ==> k + 3 <= |s|)
    decreases |s| - i
  {
    if i == |s| then i
    else if i + 3 <= |s| && s[i] == ':' && s[i + 1] == '/' && s[i + 2] == '/' then i
    else Separator(s, i + 1)
  }

  /** The port, kept to sixteen bits, from the digits at `i`. */
  function ReadPort(s: string, i: nat, port: nat): nat
    requires i <= |s|
    decreases |s| - i
  {
    if i < |s| && IsDigit(s[i]) then ReadPort(s, i + 1, (port * 10 + DigitValue(s[i])) % 65536) else port
  }

  function HostName(s: string, i: nat, j: nat): string
    requires i <= j <= |s|
  {
    if j - i > MAX_HOST then s[i..i + MAX_HOST] else s[i..j]
  }

  /** `parseURL` */
  function ParseUrl(s: string): Option<Url> {
    var sep := Separator(s, 0);
    if sep == |s| || |s| < 4 || s[..4] != "http" then None
    else
      var p := sep + 3;
      var slash := Position(s, '/', p);
      var bracket := Position(s, ']', p);
      if p < |s| && s[p] == '[' && bracket < |s| && slash < |s| then
        var port := if bracket + 1 < |s| && s[bracket + 1] == ':' then ReadPort(s, bracket + 2, 0) else 80;
        Some(Url(HostName(s, p, bracket + 1), port, s[slash..]))
      else if slash == |s| then None
      else
        var colon := Position(s, ':', p);
        if colon > slash then Some(Url(HostName(s, p, slash), 80, s[slash..]))
        else Some(Url(HostName(s, p, colon), ReadPort(s, colon + 1, 0), s[slash..]))
  }

  lemma {:induction false} PositionIs(s: string, c: char, i: nat, k: nat)
    requires i <= k < |s| && s[k] == c && forall j :: i <= j < k ==> s[j] != c
    ensures Position(s, c, i) == k
    decreases k - i
  {
    if i < k {
      PositionIs(s, c, i + 1, k);
    }
  }

  /** A host name or address in plain text. */
  predicate PlainHost(host: string) {
    |host| <= MAX_HOST && OneLine(host) && ':' !in host && '/' !in host && (host != "" ==> host[0] != '[')
  }

  predicate AllDigits(d: string) {
    forall j :: 0 <= j < |d| ==> IsDigit(d[j])
  }

  lemma ValueNext(d: string, k: nat)
    requires k < |d| && AllDigits(d)
    ensures Value(d[..k + 1], TEN) == Value(d[..k], TEN) * TEN + DigitValue(d[k])
  {
    assert d[..k + 1][..k] == d[..k];
  }

  lemma PortNext(s: string, i: nat, v: nat, w: nat)
    requires i < |s| && IsDigit(s[i]) && w == v * 10 + DigitValue(s[i]) < 65536
    ensures ReadPort(s, i, v) == ReadPort(s, i + 1, w)
  {
    assert (v * 10 + DigitValue(s[i])) % 65536 == w;
  }

  lemma {:induction false} PortRead(s: string, i: nat, d: string, k: nat)
    requires Stands(s, i, d) && k <= |d| && AllDigits(d) && Value(d, TEN) < 65536
    requires i + |d| < |s| ==> !IsDigit(s[i + |d|])
    ensures ReadPort(s, i + k, Value(d[..k], TEN)) == Value(d, TEN)
    decreases |d| - k
  {
    if k == |d| {
      assert d[..k] == d;
    } else {
      assert s[i + k] == d[k] by { StandsAt(s, i, d); }
      ValueNext(d, k);
      ValueGrows(d, k + 1);
      PortNext(s, i + k, Value(d[..k], TEN), Value(d[..k + 1], TEN));
      PortRead(s, i, d, k + 1);
    }
  }

  lemma {:induction false} ValueGrows(d: string, k: nat)
    requires k <= |d| && AllDigits(d)
    ensures Value(d[..k], TEN) <= Value(d, TEN)
    decreases |d| - k
  {
    if k == |d| {
      assert d[..k] == d;
    } else {
      ValueGrows(d, k + 1);
      ValueNext(d, k);
    }
  }

  lemma {:induction false} SeparatorIs(s: string, i: nat, k: nat)
    requires i <= k && k + 3 <= |s| && s[k] == ':' && s[k + 1] == '/' && s[k + 2] == '/'
    requires forall j :: i <= j < k ==> s[j] != ':'
    ensures Separator(s, i) == k
    decreases k - i
  {
    if i < k {
      SeparatorIs(s, i + 1, k);
    }
  }

  lemma LocationPieces(s: string, host: string, digits: string, path: string)
    requires s == "http://" + (host + (":" + (digits + path)))
    ensures
      var colon := 7 + |host|;
      var slash := colon + 1 + |digits|;
      && Stands(s, 0, "http://") && Stands(s, 7, host) && Stands(s, colon, ":")
      && Stands(s, colon + 1, digits) && slash + |path| == |s| && s[slash..] == path
  {
    assert s[0..|s|] == s;
    StandsParts(s, 0, "http://", host + (":" + (digits + path)));
    StandsParts(s, 7, host, ":" + (digits + path));
    StandsParts(s, 7 + |host|, ":", digits + path);
    StandsParts(s, 8 + |host|, digits, path);
  }

  lemma FirstSlash(s: string, host: string, digits: string, path: string)
    requires s == "http://" + (host + (":" + (digits + path)))
    requires '/' !in host && '/' !in digits && path != "" && path[0] == '/'
    ensures Position(s, '/', 7) == 8 + |host| + |digits|
  {
    var slash := 8 + |host| + |digits|;
    assert s[slash] == path[0];
    forall j | 7 <= j < slash ensures s[j] != '/' {
      assert s[j] == (host + (":" + digits))[j - 7];
    }
    PositionIs(s, '/', 7, slash);
  }

  lemma FirstColon(s: string, host: string)
    requires Stands(s, 7, host) && Stands(s, 7 + |host|, ":") && ':' !in host
    ensures Position(s, ':', 7) == 7 + |host|
  {
    StandsAt(s, 7, host);
    StandsAt(s, 7 + |host|, ":");
    assert forall j :: 7 <= j < 7 + |host| ==> s[j] == host[j - 7];
    PositionIs(s, ':', 7, 7 + |host|);
  }

  lemma Scheme(s: string)
    requires Stands(s, 0, "http://")
    ensures Separator(s, 0) == 4 && s[..4] == "http"
  {
    StandsAt(s, 0, "http://");
    SeparatorIs(s, 0, 4);
  }

  lemma DigitsPort(s: string, i: nat, port: nat)
    requires port < 65536 && Stands(s, i, Numeral(port, TEN))
    requires i + |Numeral(port, TEN)| < |s| ==> !IsDigit(s[i + |Numeral(port, TEN)|])
    ensures ReadPort(s, i, 0) == port
  {
    var d := Numeral(port, TEN);
    NumeralValue(port, TEN);
    PortRead(s, i, d, 0);
    assert d[..0] == "";
  }

  lemma HostAndPort(s: string, colon: nat, slash: nat)
    requires Separator(s, 0) == 4 && 7 <= colon < slash < |s| && s[..4] == "http" && s[7] != '['
    requires Position(s, ':', 7) == colon && Position(s, '/', 7) == slash
    ensures ParseUrl(s) == Some(Url(HostName(s, 7, colon), ReadPort(s, colon + 1, 0), s[slash..]))
  {
  }

  /** Parsing the printed address gives back the host, the port and the path. */
  lemma LocationParsed(host: string, port: nat, path: string)
    requires PlainHost(host) && port < 65536 && path != "" && path[0] == '/'
    ensures ParseUrl(Location(host, port, path)) == Some(Url(host, port, path))
  {
    var s := Location(host, port, path);
    var d := Numeral(port, TEN);
    LocationPieces(s, host, d, path);
    Scheme(s);
    FirstSlash(s, host, d, path);
    FirstColon(s, host);
    NoBracket(s, host);
    assert s[8 + |host| + |d|] == path[0] by { assert s[8 + |host| + |d|..][0] == path[0]; }
    DigitsPort(s, 8 + |host|, port);
    HostAndPort(s, 7 + |host|, 8 + |host| + |d|);
  }

  lemma NoBracket(s: string, host: string)
    requires Stands(s, 7, host) && Stands(s, 7 + |host|, ":") && (host != "" ==> host[0] != '[')
    ensures s[7] != '['
  {
    StandsAt(s, 7, host);
    StandsAt(s, 7 + |host|, ":");
  }

  // ----- The whole exchange -----

  lemma {:induction false} StatusPass(s: string, i: nat, n: nat, f: Found)
    requires i <= n && n + 2 <= |s| && s[n] == '\r' && s[n + 1] == '\n' && forall k :: i <= k < n ==> Plain(s[k])
    ensures Scan(s, i, 0, 0, f) == Scan(s, n + 2, n + 2, 0, f)
    decreases n - i
  {
    if i < n {
      assert Plain(s[i]);
      StatusPass(s, i + 1, n, f);
    } else {
      assert Scan(s, n, 0, 0, f) == Scan(s, n + 1, n + 1, 0, f);
    }
  }

  lemma EndPass(s: string, n: nat, f: Found)
    requires |s| == n + 2 && Stands(s, n, EOL)
    ensures Scan(s, n, n, 0, f) == f
  {
    StandsAt(s, n, EOL);
    assert Scan(s, n, n, 0, f) == Scan(s, n + 1, n + 1, 0, f);
  }

  lemma HeadersScan(s: string, status: string, ls: seq<Line>, f: Found)
    requires s == status + EOL + LinesText(ls) + EOL && ':' !in status && OneLine(status)
    requires forall k :: 0 <= k < |ls| ==> GoodLine(ls[k])
    ensures Scan(s, 0, 0, 0, f) == TakeLines(ls, f)
  {
    var a := |status| + 2;
    ReplyParts(s, status, LinesText(ls));
    assert Scan(s, 0, 0, 0, f) == Scan(s, a, a, 0, f) by {
      PlainPart(s, 0, status);
      StatusPass(s, 0, |status|, f);
    }
    LinesScan(s, a, ls, f);
    EndPass(s, a + |LinesText(ls)|, TakeLines(ls, f));
  }

  lemma ReplyParts(s: string, status: string, lines: string)
    requires s == status + EOL + lines + EOL
    ensures
      var n := |status|;
      && Stands(s, 0, status) && n + 2 + |lines| + 2 == |s| && s[n] == '\r' && s[n + 1] == '\n'
      && Stands(s, n + 2, lines) && Stands(s, n + 2 + |lines|, EOL)
  {
    assert s[0..|s|] == s;
    StandsParts(s, 0, status + EOL + lines, EOL);
    StandsParts(s, 0, status + EOL, lines);
    StandsParts(s, 0, status, EOL);
    StandsAt(s, |status|, EOL);
  }

  lemma {:induction false} Trimmed(v: string, k: nat)
    requires k <= |v|
    ensures
      var r := SkipBlanks(v, k, |v|);
      (r < |v| ==> v[r] != ' ') && (r == k <==> k == |v| || v[k] != ' ')
    decreases |v| - k
  {
    if k < |v| && v[k] == ' ' {
      Trimmed(v, k + 1);
    }
  }

  /** The blank that the server prints before a value is dropped, with every blank that follows it. */
  lemma TrimBlank(x: string)
    ensures Trim(" " + x) == x <==> (x == "" || x[0] != ' ')
  {
    var v := " " + x;
    Trimmed(v, 1);
    var r := SkipBlanks(v, 1, |v|);
    assert SkipBlanks(v, 0, |v|) == r && v[1..] == x;
    assert r > 1 ==> |v[r..]| < |x|;
  }

  lemma OtherTaken(l: Line, f: Found)
    requires l.name == "CACHE-CONTROL" || l.name == "USN" || l.name == "EXT" || l.name == "SERVER"
    ensures TakeLine(l, f) == f
  {
    var loc, st := "location", "st";
    assert Lower(l.name[0]) != loc[0];
    assert Lower(l.name[0]) != st[0] || Lower(l.name[1]) != st[1];
  }

  lemma TargetTaken(l: Line, f: Found)
    requires l.name == "ST"
    ensures TakeLine(l, f) == f.(st := Some(Trim(l.value)))
  {
  }

  lemma LocationTaken(l: Line, f: Found)
    requires l.name == "LOCATION"
    ensures TakeLine(l, f) == f.(location := Some(Trim(l.value)))
  {
  }

  lemma TakeOne(l: Line, ls: seq<Line>, f: Found, g: Found)
    requires TakeLine(l, f) == g
    ensures TakeLines([l] + ls, f) == TakeLines(ls, g)
  {
    assert ([l] + ls)[1..] == ls;
  }

  lemma TakeSix(a: Line, b: Line, c: Line, d: Line, e: Line, l: Line, f: Found, g: Found, h: Found)
    requires TakeLine(a, f) == f && TakeLine(b, f) == g && TakeLine(c, g) == g && TakeLine(d, g) == g
    requires TakeLine(e, g) == g && TakeLine(l, g) == h
    ensures TakeLines([a, b, c, d, e, l], f) == h
  {
    assert [a, b, c, d, e, l] == [a] + ([b] + ([c] + ([d] + ([e] + ([l] + [])))));
    TakeOne(l, [], g, h);
    TakeOne(e, [l] + [], g, g);
    TakeOne(d, [e] + ([l] + []), g, g);
    TakeOne(c, [d] + ([e] + ([l] + [])), g, g);
    TakeOne(b, [c] + ([d] + ([e] + ([l] + []))), f, g);
    TakeOne(a, [b] + ([c] + ([d] + ([e] + ([l] + [])))), f, f);
  }

  lemma ReplyTaken(target: string, uuid: string, server: string, location: string)
    ensures TakeLines(ReplyLines(target, uuid, server, location), Found(None, None))
         == Found(Some(Trim(" " + location)), Some(Trim(" " + target)))
  {
    var f := Found(None, None);
    var g := f.(st := Some(Trim(" " + target)));
    var a, b, c := Line("CACHE-CONTROL", " max-age=120"), Line("ST", " " + target), Line("USN", " " + uuid + "::" + target);
    var d, e, l := Line("EXT", ""), Line("SERVER", " " + server), Line("LOCATION", " " + location);
    OtherTaken(a, f);
    TargetTaken(b, f);
    OtherTaken(c, g);
    OtherTaken(d, g);
    OtherTaken(e, g);
    LocationTaken(l, g);
    TakeSix(a, b, c, d, e, l, f, g, g.(location := Some(Trim(" " + location))));
  }

  lemma OneLineAppend(a: string, b: string)
    requires OneLine(a) && OneLine(b)
    ensures OneLine(a + b)
  {
  }

  lemma LocationOneLine(host: string, port: nat, path: string)
    requires OneLine(host) && OneLine(path)
    ensures OneLine(Location(host, port, path))
  {
    var d := Numeral(port, TEN);
    assert OneLine(d);
    OneLineAppend(d, path);
    OneLineAppend(":", d + path);
    OneLineAppend(host, ":" + (d + path));
    OneLineAppend("http://", host + (":" + (d + path)));
  }

  lemma CacheGood()
    ensures GoodLine(Line("CACHE-CONTROL", " max-age=120"))
  {
  }

  lemma NamedGood(name: string, value: string)
    requires name == "ST" || name == "USN" || name == "EXT" || name == "SERVER" || name == "LOCATION"
    requires OneLine(value)
    ensures GoodLine(Line(name, value))
  {
  }

  lemma ReplyGood(target: string, uuid: string, server: string, location: string, k: nat)
    requires OneLine(target) && OneLine(uuid) && OneLine(server) && OneLine(location) && k < 6
    ensures GoodLine(ReplyLines(target, uuid, server, location)[k])
  {
    if k == 0 {
      CacheGood();
    } else if k == 1 {
      OneLineAppend(" ", target);
      NamedGood("ST", " " + target);
    } else if k == 2 {
      OneLineAppend(" ", uuid);
      OneLineAppend(" " + uuid, "::");
      OneLineAppend(" " + uuid + "::", target);
      NamedGood("USN", " " + uuid + "::" + target);
    } else if k == 3 {
      NamedGood("EXT", "");
    } else if k == 4 {
      OneLineAppend(" ", server);
      NamedGood("SERVER", " " + server);
    } else {
      OneLineAppend(" ", location);
      NamedGood("LOCATION", " " + location);
    }
  }

  /**
   * From the server's reply the client takes the address of the description, which parses to the server's host,
   * port and path; and the search target, exactly when that has no leading blank.
   */
  lemma EndToEnd(target: string, uuid: string, server: string, host: string, port: nat, path: string)
    requires OneLine(target) && OneLine(uuid) && OneLine(server) && OneLine(path)
    requires PlainHost(host) && port < 65536 && path != "" && path[0] == '/'
    ensures
      var f := Scan(Reply(target, uuid, server, host, port, path), 0, 0, 0, Found(None, None));
      && f.location.Some? && ParseUrl(f.location.value) == Some(Url(host, port, path))
      && (f.st == Some(target) <==> (target == "" || target[0] != ' '))
  {
    var location := Location(host, port, path);
    var ls := ReplyLines(target, uuid, server, location);
    LocationOneLine(host, port, path);
    forall k | 0 <= k < |ls| ensures GoodLine(ls[k]) {
      ReplyGood(target, uuid, server, location, k);
    }
    HeadersScan(Reply(target, uuid, server, host, port, path), STATUS, ls, Found(None, None));
    ReplyTaken(target, uuid, server, location);
    TrimBlank(location);
    TrimBlank(target);
    LocationParsed(host, port, path);
  }

  // ----- The client's loop over the port -----

  /** Sixteen-bit arithmetic may wrap early or late. */
  lemma ShortAdd(a: nat, b: nat)
    ensures (a % 65536 + b) % 65536 == (a + b) % 65536
  {
  }

  method PortDigits(s: string, start: nat) returns (port: nat)
    requires start <= |s|
    ensures port == ReadPort(s, start, 0)
  {
    port := 0;
    var i := start;
    while i < |s| && IsDigit(s[i])
      invariant start <= i <= |s| && ReadPort(s, i, port) == ReadPort(s, start, 0)
    {
      ShortAdd(port * 10, DigitValue(s[i]));
      port := (port * 10) % 65536;
      port := (port + DigitValue(s[i])) % 65536;
      i := i + 1;
    }
  }

  /** `parseURL` */
  method ReadUrl(s: string) returns (r: Option<Url>)
    ensures r == ParseUrl(s)
  {
    var sep := Separator(s, 0);
    if sep == |s| {
      return None;
    }
    var p := sep + 3;
    if |s| < 4 || s[..4] != "http" {
      return None;
    }
    var slash := Position(s, '/', p);
    if p < |s| && s[p] == '[' {
      var bracket := Position(s, ']', p);
      if bracket < |s| && slash < |s| {
        var port := 80;
        if bracket + 1 < |s| && s[bracket + 1] == ':' {
          port := PortDigits(s, bracket + 2);
        }
        return Some(Url(HostName(s, p, bracket + 1), port, s[slash..]));
      }
    }
    if slash == |s| {
      return None;
    }
    var colon := Position(s, ':', p);
    if colon > slash {
      return Some(Url(HostName(s, p, slash), 80, s[slash..]));
    }
    var port := PortDigits(s, colon + 1);
    r := Some(Url(HostName(s, p, colon), port, s[slash..]));
  }
}
