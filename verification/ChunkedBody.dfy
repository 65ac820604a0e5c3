/**
 The HTTP response reader of miniupnpc (`getHTTPResponse`).  A response arrives
 as a list of socket reads.  The nested loops of the body reader are refined to
 a byte automaton whose phase is forgotten at every read boundary, and the
 theorems say when that forgetting cannot be seen.
 */
module ChunkedBody {
  import opened Text

  // ----- the chunked body as a byte automaton

  /** Where inside a chunk-size line the reader is. */
  datatype Phase =
    | Start      // at the start of a pass; a leading CR LF may still be skipped
    | SkippedCR  // a leading CR was skipped
    | Size       // among the size digits
    | Ext        // discarding a chunk extension
    | SizeCR     // the CR that ends the size line was read

  /** `Unspecified`: an announced size of 2^31 or more, for which C leaves the copy undefined. */
  datatype Status = Open | Ended | Unspecified

  datatype RawReader = Reader(phase: Phase, left: nat, digits: string, content: string, status: Status)

  const WORD: nat := 0x1_0000_0000
  const INT_LIMIT: nat := 0x8000_0000
  /** `sizeof(chunksize_buf) - 1` */
  const MAX_DIGITS: nat := 31

  ghost predicate Valid(m: RawReader) {
    && |m.digits| <= MAX_DIGITS
    && (forall k :: 0 <= k < |m.digits| ==> IsHex(m.digits[k]))
    && (m.left > 0 ==> m.phase == Start && m.digits == "")
    && (m.phase == SkippedCR ==> m.digits == "")
    && (m.status != Open ==> m.phase == Start)
  }

  const Fresh: RawReader := Reader(Start, 0, "", "", Open)

  type Reader = m: RawReader | Valid(m) witness Fresh

  /** The reader right after a size line that announced `size` bytes. */
  function SizeKnown(content: string, size: nat): Reader {
    if size == 0 then Reader(Start, 0, "", content, Ended)
    else if size >= INT_LIMIT then Reader(Start, 0, "", content, Unspecified)
    else Reader(Start, size, "", content, Open)
  }

  /** The LF that completes a size line; sizes are computed in 32-bit arithmetic. */
  function EndLine(m: Reader): Reader {
    SizeKnown(m.content, Value(m.digits, SIXTEEN) % WORD)
  }

  function ExtByte(m: Reader, c: char): Reader
    requires m.left == 0 && m.status == Open
  {
    if c == '\r' then m.(phase := SizeCR)
    else if c == '\n' then EndLine(m)
    else m.(phase := Ext)
  }

  function SizeByte(m: Reader, c: char): Reader
    requires m.left == 0 && m.status == Open
  {
    if IsHex(c) && |m.digits| < MAX_DIGITS then m.(phase := Size, digits := m.digits + [c])
    else ExtByte(m, c)
  }

  function StartByte(m: Reader, c: char): Reader
    requires m.left == 0 && m.status == Open
  {
    if m.digits == "" && c == '\r' then m.(phase := SkippedCR)
    else if m.digits == "" && c == '\n' then m.(phase := Size)
    else SizeByte(m, c)
  }

  function Step(m: Reader, c: char): (r: Reader)
    ensures m.content <= r.content
  {
    if m.status != Open then m
    else if m.left > 0 then m.(left := m.left - 1, content := m.content + [c])
    else
      match m.phase
      case Start => StartByte(m, c)
      case SkippedCR => if c == '\n' then m.(phase := Size) else SizeByte(m, c)
      case Size => SizeByte(m, c)
      case Ext => ExtByte(m, c)
      case SizeCR => if c == '\n' then EndLine(m) else StartByte(m, c)
  }

  function Run(m: Reader, s: string): (r: Reader)
    decreases |s|
  {
    if s == "" then m else Run(Step(m, s[0]), s[1..])
  }

  /** What survives a read boundary: everything but the phase. */
  function Forget(m: Reader): (r: Reader)
  {
    m.(phase := Start)
  }

  lemma RunStopped(m: Reader, s: string)
    requires m.status != Open
    ensures Run(m, s) == m
  {
  }

  lemma {:induction false} RunAppend(m: Reader, s: string, t: string)
    ensures Run(m, s + t) == Run(Run(m, s), t)
    decreases |s|
  {
    if s == "" {
      assert s + t == t;
    } else {
      assert (s + t)[1..] == s[1..] + t;
      RunAppend(Step(m, s[0]), s[1..], t);
    }
  }

  lemma {:induction false} RunData(m: Reader, s: string, k: nat)
    requires m.status == Open
    requires k <= m.left && k <= |s|
    ensures Run(m, s) == Run(m.(left := m.left - k, content := m.content + s[..k]), s[k..])
    decreases k
  {
    if k == 0 {
      assert m.content + s[..0] == m.content;
      assert s[0..] == s;
    } else {
      var m' := Step(m, s[0]);
      RunData(m', s[1..], k - 1);
      assert m'.content + s[1..][..k - 1] == m.content + s[..k];
      assert s[1..][k - 1..] == s[k..];
    }
  }

  lemma RunOne(m: Reader, s: string)
    requires s != ""
    ensures Run(m, s) == Run(Step(m, s[0]), s[1..])
  {
  }

  /** The next byte, if any, is handled as a byte of the size field. */
  ghost predicate AtSize(m: Reader, rest: string)
  {
    m.status == Open && m.left == 0 && (rest != "" ==> Step(m, rest[0]) == SizeByte(m, rest[0]))
  }

  /** The next byte, if any, is handled as a byte after the size digits. */
  ghost predicate AtExt(m: Reader, rest: string)
  {
    m.status == Open && m.left == 0 && (rest != "" ==> Step(m, rest[0]) == ExtByte(m, rest[0]))
  }

  /** `if(i<n && buf[i] == c) i++;` */
  method SkipByte(buf: string, i0: nat, c: char, ghost m: Reader) returns (i: nat, ghost r: Reader)
    requires i0 <= |buf|
    ensures i0 <= i <= |buf|
    ensures if i0 < |buf| && buf[i0] == c then i == i0 + 1 && r == Step(m, c) else i == i0 && r == m
    ensures Run(r, buf[i..]) == Run(m, buf[i0..])
  {
    i, r := i0, m;
    if i < |buf| && buf[i] == c {
      RunOne(m, buf[i..]);
      assert buf[i..][1..] == buf[i + 1..];
      i, r := i + 1, Step(m, c);
    }
  }

  /** Reading `s` from `r` comes to the same as reading `t` from `m`. */
  ghost predicate Leads(r: Reader, s: string, m: Reader, t: string) {
    Run(r, s) == Run(m, t)
  }

  /** A digit that is collected leaves the reader in the size field, one digit on. */
  lemma DigitTaken(m: Reader, r: Reader, s: string, m0: Reader, s0: string)
    requires s != "" && AtSize(m, s) && Leads(m, s, m0, s0) && IsHex(s[0]) && |m.digits| < MAX_DIGITS
    requires r == m.(phase := Size, digits := m.digits + [s[0]])
    ensures AtSize(r, s[1..]) && Leads(r, s[1..], m0, s0)
  {
    RunOne(m, s);
  }

  /** What is not collected is left to the code behind the digits. */
  lemma DigitsDone(m: Reader, rest: string)
    requires AtSize(m, rest)
    requires rest == "" || !IsHex(rest[0]) || |m.digits| >= MAX_DIGITS
    ensures AtExt(m, rest)
  {
  }

  /** The loop that collects size digits. */
  method TakeDigits(buf: string, i0: nat, digits0: string, ghost m: Reader)
    returns (i: nat, digits: string, ghost r: Reader)
    requires i0 <= |buf|
    requires m.digits == digits0 && AtSize(m, buf[i0..])
    ensures i0 <= i <= |buf|
    ensures i == i0 ==> r == m
    ensures i > i0 ==> r == m.(phase := Size, digits := digits)
    ensures r.digits == digits && AtExt(r, buf[i..])
    ensures Run(r, buf[i..]) == Run(m, buf[i0..])
  {
    i, digits, r := i0, digits0, m;
    while i < |buf| && IsHex(buf[i]) && |digits| < MAX_DIGITS
      invariant i0 <= i <= |buf|
      invariant r == if i == i0 then m else m.(phase := Size, digits := digits)
      invariant r.digits == digits && AtSize(r, buf[i..])
      invariant Leads(r, buf[i..], m, buf[i0..])
    {
      ghost var r' := r.(phase := Size, digits := digits + [buf[i]]);
      DigitTaken(r, r', buf[i..], m, buf[i0..]);
      assert buf[i..][1..] == buf[i + 1..];
      r := r';
      digits := digits + [buf[i]];
      i := i + 1;
    }
    DigitsDone(r, buf[i..]);
  }

  /** The loop that discards a chunk extension. */
  method SkipExtension(buf: string, i0: nat, ghost m: Reader) returns (i: nat, ghost r: Reader)
    requires i0 <= |buf|
    requires AtExt(m, buf[i0..])
    ensures i0 <= i <= |buf|
    ensures i < |buf| ==> buf[i] == '\r' || buf[i] == '\n'
    ensures r == if i == i0 then m else m.(phase := Ext)
    ensures AtExt(r, buf[i..])
    ensures Run(r, buf[i..]) == Run(m, buf[i0..])
  {
    i, r := i0, m;
    while i < |buf| && buf[i] != '\r' && buf[i] != '\n'
      invariant i0 <= i <= |buf|
      invariant r == if i == i0 then m else m.(phase := Ext)
      invariant AtExt(r, buf[i..])
      invariant Run(r, buf[i..]) == Run(m, buf[i0..])
    {
      RunOne(r, buf[i..]);
      assert buf[i..][1..] == buf[i + 1..];
      r := Step(r, buf[i]);
      i := i + 1;
    }
  }

  lemma ShiftMod(a: nat, d: nat)
    ensures (a % WORD * 16 + d) % WORD == (a * 16 + d) % WORD
  {
    var q := a / WORD;
    assert a * 16 + d == (a % WORD * 16 + d) + WORD * (q * 16);
    ModPlusMultiple(a % WORD * 16 + d, q * 16);
  }

  lemma ModPlusMultiple(x: nat, k: nat)
    ensures (x + WORD * k) % WORD == x % WORD
  {
    if k > 0 {
      ModPlusMultiple(x, k - 1);
      assert x + WORD * k == (x + WORD * (k - 1)) + WORD;
    }
  }

  /** The loop that turns the collected digits into `chunksize`, in 32-bit arithmetic. */
  method ReadSize(digits: string) returns (size: nat)
    requires forall k :: 0 <= k < |digits| ==> IsHex(digits[k])
    ensures size == Value(digits, SIXTEEN) % WORD
  {
    size := 0;
    assert digits[..|digits|] == digits;
    for j := 0 to |digits|
      invariant size == Value(digits[..j], SIXTEEN) % WORD
    {
      ghost var before := Value(digits[..j], SIXTEEN);
      assert digits[..j + 1][..j] == digits[..j];
      assert Value(digits[..j + 1], SIXTEEN) == before * 16 + DigitValue(digits[j]);
      ShiftMod(before, DigitValue(digits[j]));
      size := (size * 16 + DigitValue(digits[j])) % WORD;
    }
  }

  /** Skips the CR LF that ends the preceding chunk. */
  method SkipLeading(buf: string, i0: nat, digits: string, ghost m: Reader) returns (i: nat, ghost r: Reader)
    requires i0 < |buf|
    requires m.left == 0 && m.digits == digits && m.status == Open
    requires m.phase == Start || (m.phase == SizeCR && buf[i0] != '\n')
    ensures i0 <= i <= |buf|
    ensures i == i0 ==> r == m && (digits == "" ==> buf[i] != '\r' && buf[i] != '\n')
    ensures r.digits == digits && r.content == m.content && AtSize(r, buf[i..])
    ensures Run(r, buf[i..]) == Run(m, buf[i0..])
  {
    i, r := i0, m;
    if digits == "" {
      i, r := SkipByte(buf, i, '\r', r);
      i, r := SkipByte(buf, i, '\n', r);
    }
  }

  /** The CR LF that ends a size line, if this read holds it. */
  method FinishSizeLine(buf: string, i0: nat, digits0: string, ghost m: Reader)
    returns (i: nat, digits: string, complete: bool, size: nat, ghost r: Reader)
    requires i0 <= |buf|
    requires m.digits == digits0 && AtExt(m, buf[i0..])
    requires i0 < |buf| ==> buf[i0] == '\r' || buf[i0] == '\n'
    ensures i0 <= i <= |buf| && (i0 < |buf| ==> i0 < i)
    ensures r.content == m.content && r.digits == digits
    ensures Run(r, buf[i..]) == Run(m, buf[i0..])
    ensures complete ==> digits == "" && r == SizeKnown(m.content, size)
    ensures !complete ==> r.status == Open && r.left == 0
    ensures !complete && i < |buf| ==> r.phase == SizeCR && buf[i] != '\n'
  {
    i, r := SkipByte(buf, i0, '\r', m);
    assert i > i0 ==> r == m.(phase := SizeCR);
    complete := i < |buf| && buf[i] == '\n';
    size := 0;
    digits := digits0;
    if complete {
      ghost var line := r;
      i, r := SkipByte(buf, i, '\n', r);
      assert r == EndLine(line);
      size := ReadSize(digits);
      digits := "";
    }
  }

  /**
   One pass over a chunk-size line: `size` is the announced size once the line
   is complete.  At least one byte is consumed, so the outer loop makes progress.
   */
  method ReadSizeLine(buf: string, i0: nat, digits0: string, ghost m: Reader)
    returns (i: nat, digits: string, complete: bool, size: nat, ghost r: Reader)
    requires i0 < |buf|
    requires m.left == 0 && m.digits == digits0 && m.status == Open
    requires m.phase == Start || (m.phase == SizeCR && buf[i0] != '\n')
    ensures i0 < i <= |buf|
    ensures r.content == m.content && r.digits == digits
    ensures Run(r, buf[i..]) == Run(m, buf[i0..])
    ensures complete ==> digits == "" && r == SizeKnown(m.content, size)
    ensures !complete ==> r.status == Open && r.left == 0
    ensures !complete && i < |buf| ==> r.phase == SizeCR && buf[i] != '\n'
  {
    i, r := SkipLeading(buf, i0, digits0, m);
    i, digits, r := TakeDigits(buf, i, digits0, r);
    i, r := SkipExtension(buf, i, r);
    i, digits, complete, size, r := FinishSizeLine(buf, i, digits, r);
  }

  /** Copies what this read holds of the current chunk. */
  method CopyData(buf: string, i0: nat, left0: nat, content0: string, ghost m: Reader)
    returns (i: nat, left: nat, content: string, ghost r: Reader)
    requires i0 <= |buf|
    requires m == Reader(Start, left0, "", content0, Open)
    ensures i0 <= i <= |buf| && (left0 > 0 && i0 < |buf| ==> i0 < i)
    ensures left > 0 ==> i == |buf|
    ensures r == Reader(Start, left, "", content, Open)
    ensures Run(r, buf[i..]) == Run(m, buf[i0..])
  {
    var bytesToCopy := if left0 < |buf| - i0 then left0 else |buf| - i0;
    RunData(m, buf[i0..], bytesToCopy);
    assert buf[i0..][..bytesToCopy] == buf[i0..i0 + bytesToCopy];
    assert buf[i0..][bytesToCopy..] == buf[i0 + bytesToCopy..];
    content := content0 + buf[i0..i0 + bytesToCopy];
    i := i0 + bytesToCopy;
    left := left0 - bytesToCopy;
    r := m.(left := left, content := content);
  }

  /**
   One `receivedata` worth of chunked body, with the source's nested loops.
   */
  method FeedChunked(left0: nat, digits0: string, content0: string, buf: string)
    returns (left: nat, digits: string, content: string, status: Status)
    requires Valid(Reader(Start, left0, digits0, content0, Open))
    ensures Valid(Reader(Start, left, digits, content, status))
    ensures Reader(Start, left, digits, content, status)
         == Forget(Run(Reader(Start, left0, digits0, content0, Open), buf))
  {
    left, digits, content, status := left0, digits0, content0, Open;
    ghost var m: Reader := Reader(Start, left0, digits0, content0, Open);
    ghost var target := Run(m, buf);
    var i := 0;
    assert buf[0..] == buf;
    while i < |buf|
      invariant 0 <= i <= |buf|
      invariant status == Open
      invariant m == Reader(m.phase, left, digits, content, Open)
      invariant Run(m, buf[i..]) == target
      invariant i < |buf| ==> m.phase == Start || (m.phase == SizeCR && buf[i] != '\n')
    {
      if left == 0 {
        var complete;
        i, digits, complete, left, m := ReadSizeLine(buf, i, digits, m);
        if !complete {
          left := 0;
          continue;
        }
        if left == 0 {
          status := Ended;
          RunStopped(m, buf[i..]);
          return;
        }
        if left >= INT_LIMIT {
          left, status := 0, Unspecified;
          RunStopped(m, buf[i..]);
          return;
        }
      }
      i, left, content, m := CopyData(buf, i, left, content, m);
    }
  }

  // ----- read boundaries

  /** All the reads of a body, one after the other. */
  function FeedAll(m: Reader, pieces: seq<string>): Reader
    decreases |pieces|
  {
    if pieces == [] then m else FeedAll(Forget(Run(m, pieces[0])), pieces[1..])
  }

  /**
   The bytes before which a read boundary changes what the reader does: a hex
   digit of a chunk extension, or a CR or LF where no size digit has been read.
   */
  predicate Sensitive(m: Reader, c: char) {
    && m.status == Open && m.left == 0
    && match m.phase
       case Start => false
       case SkippedCR => c == '\r'
       case Size => m.digits == "" && (c == '\r' || c == '\n')
       case Ext => (IsHex(c) && |m.digits| < MAX_DIGITS) || (m.digits == "" && (c == '\r' || c == '\n'))
       case SizeCR => m.digits == "" && c == '\n'
  }

  /** A boundary before `c` goes unnoticed exactly when `c` is not sensitive. */
  lemma BoundaryInvisible(m: Reader, c: char)
    ensures Step(Forget(m), c) == Step(m, c) <==> !Sensitive(m, c)
  {
    if m.status == Open && m.phase == Ext && IsHex(c) && |m.digits| < MAX_DIGITS {
      assert Step(Forget(m), c).digits == m.digits + [c];
    }
  }

  /** No read starts with a byte that is sensitive at its place. */
  ghost predicate Quiet(m: Reader, pieces: seq<string>)
    decreases |pieces|
  {
    pieces == [] ||
    (&& (Flatten(pieces) != "" ==> !Sensitive(m, Flatten(pieces)[0]))
     && Quiet(Run(m, pieces[0]), pieces[1..]))
  }

  /** Reads that start at no sensitive byte give what one single read gives. */
  lemma {:induction false} SplitInvisible(m: Reader, pieces: seq<string>)
    requires Quiet(m, pieces)
    ensures FeedAll(Forget(m), pieces) == Forget(Run(m, Flatten(pieces)))
    decreases |pieces|
  {
    if pieces != [] {
      var r, rest := pieces[0], Flatten(pieces[1..]);
      var m' := Run(m, r);
      RunAppend(m, r, rest);
      SplitInvisible(m', pieces[1..]);
      if r != "" {
        BoundaryInvisible(m, r[0]);
        assert Run(Forget(m), r) == m';
      }
    }
  }

  // ----- well-formed chunked bodies (section 3.6.1 of RFC 2616)

  /** One chunk as written on the wire: any spelling of its size, an extension, its data. */
  datatype Chunk = Chunk(size: string, ext: string, data: string)

  ghost predicate SizeText(size: string) {
    1 <= |size| <= MAX_DIGITS && forall k :: 0 <= k < |size| ==> IsHex(size[k])
  }

  ghost predicate ExtText(ext: string) {
    && (forall k :: 0 <= k < |ext| ==> ext[k] != '\r' && ext[k] != '\n')
    && (ext != "" ==> !IsHex(ext[0]))
  }

  ghost predicate GoodChunk(c: Chunk) {
    && SizeText(c.size) && ExtText(c.ext)
    && 0 < |c.data| < INT_LIMIT
    && Value(c.size, SIXTEEN) == |c.data|
  }

  function EncodeChunk(c: Chunk): string {
    c.size + c.ext + "\r\n" + c.data + "\r\n"
  }

  function EncodeChunks(chunks: seq<Chunk>): string {
    if chunks == [] then "" else EncodeChunk(chunks[0]) + EncodeChunks(chunks[1..])
  }

  function DataOf(chunks: seq<Chunk>): string {
    if chunks == [] then "" else chunks[0].data + DataOf(chunks[1..])
  }

  /**
   No sensitive byte is met while reading `s`, except, when extensions are
   allowed, hex digits of an extension.
   */
  ghost predicate Tame(m: Reader, s: string, exts: bool)
    decreases |s|
  {
    s == "" ||
    ((Sensitive(m, s[0]) ==> exts && m.phase == Ext && IsHex(s[0])) && Tame(Step(m, s[0]), s[1..], exts))
  }

  lemma {:induction false} TameAppend(m: Reader, s: string, t: string, exts: bool)
    requires Tame(m, s, exts) && Tame(Run(m, s), t, exts)
    ensures Tame(m, s + t, exts)
    decreases |s|
  {
    if s == "" {
      assert s + t == t;
    } else {
      assert (s + t)[1..] == s[1..] + t;
      TameAppend(Step(m, s[0]), s[1..], t, exts);
    }
  }

  /** `s` takes the reader from `m` to `r`, tamely. */
  ghost predicate Reads(m: Reader, s: string, r: Reader, exts: bool) {
    Run(m, s) == r && Tame(m, s, exts)
  }

  lemma ReadsAppend(m: Reader, s: string, n: Reader, t: string, r: Reader, exts: bool)
    requires Reads(m, s, n, exts) && Reads(n, t, r, exts)
    ensures Reads(m, s + t, r, exts)
  {
    RunAppend(m, s, t);
    TameAppend(m, s, t, exts);
  }

  /** Before a chunk: no size digit read yet, and a leading CR LF no longer expected or skipped. */
  ghost predicate Between(m: Reader, content: string) {
    (m.phase == Start || m.phase == Size) && m.left == 0 && m.digits == "" && m.content == content && m.status == Open
  }

  lemma {:induction false} ReadsDigits(m: Reader, d: string, exts: bool)
    requires m.phase == Size && m.left == 0 && m.status == Open
    requires |m.digits| + |d| <= MAX_DIGITS && forall k :: 0 <= k < |d| ==> IsHex(d[k])
    ensures Reads(m, d, m.(digits := m.digits + d), exts)
    decreases |d|
  {
    if d == "" {
      assert m.digits + d == m.digits;
    } else {
      var m' := Step(m, d[0]);
      assert m' == m.(digits := m.digits + [d[0]]);
      ReadsDigits(m', d[1..], exts);
      assert m'.digits + d[1..] == m.digits + d;
    }
  }

  lemma ReadsSize(m: Reader, content: string, size: string, exts: bool)
    requires Between(m, content) && SizeText(size)
    ensures Reads(m, size, Reader(Size, 0, size, content, Open), exts)
  {
    var m' := Step(m, size[0]);
    ReadsDigits(m', size[1..], exts);
    assert m'.digits + size[1..] == size;
  }

  lemma {:induction false} ReadsExt(m: Reader, ext: string, exts: bool)
    requires exts
    requires m.left == 0 && m.status == Open && m.digits != ""
    requires m.phase == Ext || (m.phase == Size && ext != "" && !IsHex(ext[0]))
    requires forall k :: 0 <= k < |ext| ==> ext[k] != '\r' && ext[k] != '\n'
    ensures Reads(m, ext, m.(phase := Ext), exts)
    decreases |ext|
  {
    if ext != "" {
      assert Step(m, ext[0]) == m.(phase := Ext);
      ReadsExt(m.(phase := Ext), ext[1..], exts);
    }
  }

  lemma ReadsLineEnd(m: Reader, exts: bool)
    requires m.left == 0 && m.status == Open && m.digits != "" && (m.phase == Size || m.phase == Ext)
    ensures Reads(m, "\r\n", EndLine(m), exts)
  {
    var m' := Step(m, '\r');
    assert m' == m.(phase := SizeCR);
    assert "\r\n"[1..] == "\n";
    assert Run(m', "\n") == Run(Step(m', '\n'), "");
    assert Tame(m', "\n", exts);
  }

  lemma ReadsSizeLine(m: Reader, content: string, size: string, ext: string, exts: bool)
    requires Between(m, content) && SizeText(size) && ExtText(ext) && (ext == "" || exts)
    ensures Reads(m, size + ext + "\r\n", SizeKnown(content, Value(size, SIXTEEN) % WORD), exts)
  {
    var m1: Reader := Reader(Size, 0, size, content, Open);
    ReadsSize(m, content, size, exts);
    var m2 := if ext == "" then m1 else m1.(phase := Ext);
    if ext != "" {
      ReadsExt(m1, ext, exts);
    }
    ReadsAppend(m, size, m1, ext, m2, exts);
    ReadsLineEnd(m2, exts);
    ReadsAppend(m, size + ext, m2, "\r\n", EndLine(m2), exts);
  }

  lemma {:induction false} ReadsData(m: Reader, data: string, exts: bool)
    requires m.status == Open && m.left == |data|
    ensures Reads(m, data, m.(left := 0, content := m.content + data), exts)
    decreases |data|
  {
    if data == "" {
      assert m.content + data == m.content;
    } else {
      var m' := Step(m, data[0]);
      ReadsData(m', data[1..], exts);
      assert m'.content + data[1..] == m.content + data;
    }
  }

  lemma ReadsChunkEnd(content: string, exts: bool)
    ensures Reads(Reader(Start, 0, "", content, Open), "\r\n", Reader(Size, 0, "", content, Open), exts)
  {
    var m: Reader := Reader(Start, 0, "", content, Open);
    var m': Reader := Reader(SkippedCR, 0, "", content, Open);
    assert Step(m, '\r') == m';
    assert "\r\n"[1..] == "\n";
    assert Run(m', "\n") == Run(Step(m', '\n'), "");
    assert Tame(m', "\n", exts);
  }

  lemma ReadsChunk(m: Reader, content: string, c: Chunk, exts: bool)
    requires Between(m, content) && GoodChunk(c) && (c.ext == "" || exts)
    ensures Reads(m, EncodeChunk(c), Reader(Size, 0, "", content + c.data, Open), exts)
  {
    var m1: Reader := Reader(Start, |c.data|, "", content, Open);
    var m2: Reader := Reader(Start, 0, "", content + c.data, Open);
    var m3: Reader := Reader(Size, 0, "", content + c.data, Open);
    ReadsSizeLine(m, content, c.size, c.ext, exts);
    ReadsData(m1, c.data, exts);
    ReadsAppend(m, c.size + c.ext + "\r\n", m1, c.data, m2, exts);
    ReadsChunkEnd(content + c.data, exts);
    ReadsAppend(m, c.size + c.ext + "\r\n" + c.data, m2, "\r\n", m3, exts);
  }

  lemma {:induction false} ReadsChunks(m: Reader, content: string, chunks: seq<Chunk>, exts: bool) returns (r: Reader)
    requires Between(m, content)
    requires forall k :: 0 <= k < |chunks| ==> GoodChunk(chunks[k]) && (chunks[k].ext == "" || exts)
    ensures Between(r, content + DataOf(chunks)) && Reads(m, EncodeChunks(chunks), r, exts)
    decreases |chunks|
  {
    if chunks == [] {
      r := m;
      assert content + "" == content;
    } else {
      ReadsChunk(m, content, chunks[0], exts);
      var n: Reader := Reader(Size, 0, "", content + chunks[0].data, Open);
      r := ReadsChunks(n, content + chunks[0].data, chunks[1..], exts);
      ReadsAppend(m, EncodeChunk(chunks[0]), n, EncodeChunks(chunks[1..]), r, exts);
      assert content + chunks[0].data + DataOf(chunks[1..]) == content + DataOf(chunks);
    }
  }

  /** A whole body: chunks, the last chunk of size zero, and whatever follows it. */
  function EncodeBody(chunks: seq<Chunk>, zeros: string, ext: string, after: string): string {
    EncodeChunks(chunks) + (zeros + ext + "\r\n") + after
  }

  ghost predicate GoodBody(chunks: seq<Chunk>, zeros: string, ext: string) {
    && (forall k :: 0 <= k < |chunks| ==> GoodChunk(chunks[k]))
    && SizeText(zeros) && Value(zeros, SIXTEEN) == 0 && ExtText(ext)
  }

  ghost predicate NoExtensions(chunks: seq<Chunk>, ext: string) {
    ext == "" && forall k :: 0 <= k < |chunks| ==> chunks[k].ext == ""
  }

  lemma ReadsBody(chunks: seq<Chunk>, zeros: string, ext: string, after: string, exts: bool)
    requires GoodBody(chunks, zeros, ext) && (NoExtensions(chunks, ext) || exts)
    ensures Reads(Fresh, EncodeBody(chunks, zeros, ext, after), Reader(Start, 0, "", DataOf(chunks), Ended), exts)
  {
    var m := ReadsChunks(Fresh, "", chunks, exts);
    assert "" + DataOf(chunks) == DataOf(chunks);
    var r: Reader := Reader(Start, 0, "", DataOf(chunks), Ended);
    ReadsSizeLine(m, DataOf(chunks), zeros, ext, exts);
    ReadsAppend(Fresh, EncodeChunks(chunks), m, zeros + ext + "\r\n", r, exts);
    StoppedReads(r, after, exts);
    ReadsAppend(Fresh, EncodeChunks(chunks) + (zeros + ext + "\r\n"), r, after, r, exts);
  }

  lemma StoppedReads(m: Reader, s: string, exts: bool)
    requires m.status != Open
    ensures Reads(m, s, m, exts)
    decreases |s|
  {
    if s != "" {
      StoppedReads(m, s[1..], exts);
    }
  }

  /** No piece begins with a hex digit of a chunk extension. */
  ghost predicate AvoidsExtensions(m: Reader, pieces: seq<string>)
    decreases |pieces|
  {
    pieces == [] ||
    (&& (m.phase == Ext && Flatten(pieces) != "" ==> !IsHex(Flatten(pieces)[0]))
     && AvoidsExtensions(Run(m, pieces[0]), pieces[1..]))
  }

  lemma {:induction false} TameQuiet(m: Reader, pieces: seq<string>, exts: bool)
    requires Tame(m, Flatten(pieces), exts) && (exts ==> AvoidsExtensions(m, pieces))
    ensures Quiet(m, pieces)
    decreases |pieces|
  {
    if pieces != [] {
      TameSplit(m, pieces[0], Flatten(pieces[1..]), exts);
      TameQuiet(Run(m, pieces[0]), pieces[1..], exts);
    }
  }

  lemma {:induction false} TameSplit(m: Reader, s: string, t: string, exts: bool)
    requires Tame(m, s + t, exts)
    ensures Tame(Run(m, s), t, exts)
    decreases |s|
  {
    if s == "" {
      assert s + t == t;
    } else {
      assert (s + t)[1..] == s[1..] + t;
      TameSplit(Step(m, s[0]), s[1..], t, exts);
    }
  }

  /**
   Chunked round trip: however the data is cut into chunks, however each size is
   spelled, whatever follows the last chunk, and however the bytes are split into
   reads, the reader ends the stream with exactly the data.  With extensions, no
   read may start with a hex digit of one.
   */
  lemma ChunkedRoundTrip(chunks: seq<Chunk>, zeros: string, ext: string, after: string, pieces: seq<string>)
    requires GoodBody(chunks, zeros, ext)
    requires Flatten(pieces) == EncodeBody(chunks, zeros, ext, after)
    requires NoExtensions(chunks, ext) || AvoidsExtensions(Fresh, pieces)
    ensures FeedAll(Fresh, pieces) == Reader(Start, 0, "", DataOf(chunks), Ended)
  {
    var exts := !NoExtensions(chunks, ext);
    ReadsBody(chunks, zeros, ext, after, exts);
    TameQuiet(Fresh, pieces, exts);
    SplitInvisible(Fresh, pieces);
  }

  // ----- extensions that are split

  type HexText = s: string | forall k :: 0 <= k < |s| ==> IsHex(s[k])

  /** The hex digits that `s` starts with. */
  function HexRun(s: string): HexText {
    if s != "" && IsHex(s[0]) then [s[0]] + HexRun(s[1..]) else ""
  }

  /** As many of the digits as the buffer holds. */
  function Held(digits: HexText, more: HexText): HexText {
    if |digits| + |more| > MAX_DIGITS then (digits + more)[..MAX_DIGITS] else digits + more
  }

  /** The digits held after the reads: those that each read starts with are taken for further size digits. */
  function Widened(digits: HexText, pieces: seq<string>): HexText
    decreases |pieces|
  {
    if pieces == [] then digits else Widened(Held(digits, HexRun(pieces[0])), pieces[1..])
  }

  /** Inside a size line whose digits are `digits`, the byte that ends it not yet read. */
  ghost predicate InLine(m: Reader, digits: HexText, content: string) {
    && m.status == Open && m.left == 0 && m.digits == digits != "" && |digits| <= MAX_DIGITS && m.content == content
    && (m.phase == Start || m.phase == Size || m.phase == Ext)
  }

  predicate NoBreak(s: string) {
    forall k :: 0 <= k < |s| ==> s[k] != '\r' && s[k] != '\n'
  }

  lemma HeldMore(digits: HexText, c: char, more: HexText)
    requires |digits| < MAX_DIGITS && IsHex(c)
    ensures Held(digits + [c], more) == Held(digits, [c] + more)
  {
    assert digits + [c] + more == digits + ([c] + more);
  }

  /** Bytes of an extension: hex digits are kept only at the start of a read. */
  lemma {:induction false} LineBytes(m: Reader, digits: HexText, content: string, s: string)
    requires InLine(m, digits, content) && NoBreak(s)
    ensures InLine(Run(m, s), if m.phase == Ext then digits else Held(digits, HexRun(s)), content)
    decreases |s|
  {
    if s == "" {
      assert digits + "" == digits;
    } else {
      var c, m' := s[0], Step(m, s[0]);
      assert NoBreak(s[1..]);
      if m.phase != Ext && IsHex(c) && |digits| < MAX_DIGITS {
        HeldMore(digits, c, HexRun(s[1..]));
        LineBytes(m', digits + [c], content, s[1..]);
      } else {
        LineBytes(m', digits, content, s[1..]);
        assert (digits + HexRun(s))[..|digits|] == digits;
      }
    }
  }

  lemma {:induction false} HexRunBreak(s: string, t: string)
    requires NoBreak(s) && t != "" && !IsHex(t[0])
    ensures HexRun(s + t) == HexRun(s)
  {
    if s == "" {
      assert s + t == t;
    } else {
      assert (s + t)[1..] == s[1..] + t;
      assert NoBreak(s[1..]);
      HexRunBreak(s[1..], t);
    }
  }

  /** What is left of a size line: bytes of its extension and the line break, or the last byte of that. */
  predicate LineRest(ext: string, end: string) {
    NoBreak(ext) && (end == "\r\n" || (ext == "" && end == "\n"))
  }

  lemma LineEnds(m: Reader, digits: HexText, content: string, end: string, rest: string)
    requires InLine(m, digits, content) && (end == "\r\n" || (end == "\n" && m.phase == Start))
    ensures Run(m, end + rest) == Run(SizeKnown(content, Value(digits, SIXTEEN) % WORD), rest)
  {
    RunAppend(m, end, rest);
    if end == "\n" {
      assert Run(m, "\n") == Run(Step(m, '\n'), "\n"[1..]);
    } else {
      assert "\r\n"[1..] == "\n" && "\n"[1..] == "";
      assert Run(m, "\r\n") == Run(Step(m, '\r'), "\n") == Run(Step(Step(m, '\r'), '\n'), "");
    }
  }

  /** The reader after the reads, `rest` being further bytes of the last of them. */
  function AfterReads(m: Reader, pieces: seq<string>, rest: string): Reader
    requires pieces != []
    decreases |pieces|
  {
    if |pieces| == 1 then Run(m, pieces[0] + rest) else AfterReads(Forget(Run(m, pieces[0])), pieces[1..], rest)
  }

  lemma LastRead(m: Reader, digits: HexText, content: string, ext: string, end: string, rest: string)
    requires InLine(m, digits, content) && m.phase == Start && LineRest(ext, end)
    ensures Run(m, ext + end + rest)
         == Run(SizeKnown(content, Value(Held(digits, HexRun(ext + end)), SIXTEEN) % WORD), rest)
  {
    LineBytes(m, digits, content, ext);
    HexRunBreak(ext, end);
    assert ext + end + rest == ext + (end + rest);
    RunAppend(m, ext, end + rest);
    LineEnds(Run(m, ext), Held(digits, HexRun(ext)), content, end, rest);
  }

  /** A read that ends inside the line. */
  lemma PartRead(m: Reader, digits: HexText, content: string, r: string, t: string, ext: string, end: string)
    returns (ext': string, end': string)
    requires InLine(m, digits, content) && m.phase == Start && LineRest(ext, end) && r + t == ext + end && t != ""
    ensures LineRest(ext', end') && t == ext' + end'
    ensures InLine(Forget(Run(m, r)), Held(digits, HexRun(r)), content)
  {
    if |r| <= |ext| {
      ext', end' := ext[|r|..], end;
      assert r == (ext + end)[..|r|] == ext[..|r|] && t == (ext + end)[|r|..];
      LineBytes(m, digits, content, r);
    } else {
      ext', end' := "", "\n";
      assert r == (ext + end)[..|r|] == ext + "\r" && t == (ext + end)[|r|..];
      LineBytes(m, digits, content, ext);
      HexRunBreak(ext, "\r");
      RunAppend(m, ext, "\r");
      assert Run(Run(m, ext), "\r") == Step(Run(m, ext), '\r');
    }
  }

  lemma {:induction false} LineReads(m: Reader, digits: HexText, content: string, pieces: seq<string>,
                                     ext: string, end: string, rest: string)
    requires InLine(m, digits, content) && m.phase == Start && LineRest(ext, end)
    requires pieces != [] && pieces[|pieces| - 1] != "" && Flatten(pieces) == ext + end
    ensures AfterReads(m, pieces, rest) == Run(SizeKnown(content, Value(Widened(digits, pieces), SIXTEEN) % WORD), rest)
    decreases |pieces|
  {
    var r, later := pieces[0], pieces[1..];
    if later == [] {
      assert pieces[0] == ext + end;
      LastRead(m, digits, content, ext, end, rest);
    } else {
      LastNotEmpty(later);
      var ext', end' := PartRead(m, digits, content, r, Flatten(later), ext, end);
      LineReads(Forget(Run(m, r)), Held(digits, HexRun(r)), content, later, ext', end', rest);
    }
  }

  lemma {:induction false} LastNotEmpty(pieces: seq<string>)
    requires pieces != [] && pieces[|pieces| - 1] != ""
    ensures Flatten(pieces) != ""
  {
    if |pieces| > 1 {
      LastNotEmpty(pieces[1..]);
    }
  }

  /**
   What a size line announces, exactly: the reader holds the digits `size`, the rest of its read is `first`, and
   the later reads bring the rest of the line.  The hex digits of the extension that start a read are taken for
   further digits of the size, as far as the buffer holds them; the chunk that follows is the one meant if and
   only if that does not change the size, in 32-bit arithmetic.
   */
  lemma SizeLineExactly(m: Reader, size: HexText, first: string, pieces: seq<string>, ext: string, rest: string)
    requires InLine(m, size, m.content) && m.phase == Size && ExtText(ext) && Value(size, SIXTEEN) < INT_LIMIT
    requires first + Flatten(pieces) == ext + "\r\n" && pieces != [] && pieces[|pieces| - 1] != ""
    ensures
      var announced := Value(Widened(size, pieces), SIXTEEN) % WORD;
      && AfterReads(Forget(Run(m, first)), pieces, rest) == Run(SizeKnown(m.content, announced), rest)
      && (SizeKnown(m.content, announced) == SizeKnown(m.content, Value(size, SIXTEEN))
          <==> announced == Value(size, SIXTEEN))
  {
    LastNotEmpty(pieces);
    var ext', end' := FirstRead(m, size, first, Flatten(pieces), ext);
    LineReads(Forget(Run(m, first)), size, m.content, pieces, ext', end', rest);
  }

  lemma FirstRead(m: Reader, size: HexText, first: string, t: string, ext: string) returns (ext': string, end': string)
    requires InLine(m, size, m.content) && m.phase == Size && ExtText(ext)
    requires first + t == ext + "\r\n" && t != ""
    ensures LineRest(ext', end') && t == ext' + end'
    ensures InLine(Forget(Run(m, first)), size, m.content)
  {
    var whole := ext + "\r\n";
    assert first == whole[..|first|] && t == whole[|first|..];
    if |first| <= |ext| {
      ext', end' := ext[|first|..], "\r\n";
      assert first == ext[..|first|];
      assert NoBreak(first) && NoBreak(ext') && HexRun(first) == "";
      LineBytes(m, size, m.content, first);
      assert size + "" == size;
    } else {
      ext', end' := "", "\n";
      assert first == ext + "\r";
      assert NoBreak(ext) && HexRun(ext) == "";
      LineBytes(m, size, m.content, ext);
      assert size + "" == size;
      RunAppend(m, ext, "\r");
      assert Run(Run(m, ext), "\r") == Step(Run(m, ext), '\r');
    }
  }

  /**
   Two reads of which the second starts with one hex digit of the extension: the size is multiplied by sixteen
   and the digit added.  So one byte with the digit `a` becomes 26 bytes, while a size of zero with the digit 0
   stays what it is.
   */
  lemma SplitWidens(m: Reader, size: HexText, first: string, last: string, ext: string, rest: string)
    requires InLine(m, size, m.content) && m.phase == Size && ExtText(ext) && Value(size, SIXTEEN) < INT_LIMIT
    requires first + last == ext + "\r\n" && |HexRun(last)| == 1 && |size| < MAX_DIGITS
    ensures
      var v, announced := Value(size, SIXTEEN), (16 * Value(size, SIXTEEN) + DigitValue(last[0])) % WORD;
      && AfterReads(Forget(Run(m, first)), [last], rest) == Run(SizeKnown(m.content, announced), rest)
      && (SizeKnown(m.content, announced) == SizeKnown(m.content, v) <==> announced == v)
  {
    OneRead(last);
    OneMore(size, last);
    SizeLineExactly(m, size, first, [last], ext, rest);
  }

  lemma OneRead(last: string)
    ensures Flatten([last]) == last
  {
    assert [last][1..] == [] && last + "" == last;
  }

  lemma OneMore(size: HexText, last: string)
    requires |HexRun(last)| == 1 && |size| < MAX_DIGITS
    ensures Value(Widened(size, [last]), SIXTEEN) == 16 * Value(size, SIXTEEN) + DigitValue(last[0])
  {
    assert [last][1..] == [];
    assert HexRun(last) == [last[0]];
    assert (size + [last[0]])[..|size|] == size;
  }
}
