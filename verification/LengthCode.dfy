/**
 * The answer of the discovery daemon: a count, then records of three strings, each after its length written with
 * seven bits to a byte.
 */
module LengthCode {
  import opened Sequences

  type Byte = x: int | 0 <= x < 256

  const BUFFER_SIZE := 2048
  const WORD := 0x1_0000_0000

  // ----- One length -----

  /** The groups of seven bits of `n`, highest first, each marked as followed by another. */
  function High(n: nat): seq<Byte> {
    if n == 0 then [] else High(n / 128) + [n % 128 + 128]
  }

  /** The code of a length. */
  function Code(n: nat): seq<Byte> {
    High(n / 128) + [n % 128]
  }

  datatype Length = Length(n: nat, next: nat)

  /** What `DECODELENGTH` reads from position `i`; nothing when the code does not end in the buffer. */
  function Decode(buf: seq<Byte>, i: nat, n: nat): Option<Length>
    decreases |buf| - i
  {
    if i >= |buf| then None
    else
      var n' := (n * 128 + buf[i] % 128) % WORD;
      if buf[i] >= 128 then Decode(buf, i + 1, n') else Some(Length(n', i + 1))
  }

  lemma Reads(buf: seq<Byte>, i: nat, piece: seq<Byte>, k: nat)
    requires Stands(buf, i, piece) && k < |piece|
    ensures buf[i + k] == piece[k]
  {
    assert buf[i..i + |piece|][k] == piece[k];
  }

  lemma GroupRead(buf: seq<Byte>, i: nat, hi: nat, lo: nat)
    requires lo < 128 && hi * 128 + lo < WORD && i < |buf|
    ensures buf[i] == lo + 128 ==> Decode(buf, i, hi) == Decode(buf, i + 1, hi * 128 + lo)
    ensures buf[i] == lo ==> Decode(buf, i, hi) == Some(Length(hi * 128 + lo, i + 1))
  {
  }

  lemma {:induction false} HighRead(buf: seq<Byte>, i: nat, n: nat)
    requires n < WORD && Stands(buf, i, High(n))
    ensures Decode(buf, i, 0) == Decode(buf, i + |High(n)|, n)
  {
    if n > 0 {
      StandsParts(buf, i, High(n / 128), [n % 128 + 128]);
      HighRead(buf, i, n / 128);
      Reads(buf, i + |High(n / 128)|, [n % 128 + 128], 0);
      GroupRead(buf, i + |High(n / 128)|, n / 128, n % 128);
    }
  }

  /** For every 32-bit number, decoding its code gives it back and reads just the bytes written. */
  lemma LengthRead(buf: seq<Byte>, i: nat, n: nat)
    requires n < WORD && Stands(buf, i, Code(n))
    ensures Decode(buf, i, 0) == Some(Length(n, i + |Code(n)|))
  {
    StandsParts(buf, i, High(n / 128), [n % 128]);
    HighRead(buf, i, n / 128);
    Reads(buf, i + |High(n / 128)|, [n % 128], 0);
    GroupRead(buf, i + |High(n / 128)|, n / 128, n % 128);
  }

  // ----- The records -----

  datatype Record = Record(url: seq<Byte>, st: seq<Byte>, usn: seq<Byte>)
  datatype Device = Device(url: seq<Byte>, st: seq<Byte>)

  function Field(s: seq<Byte>): seq<Byte> {
    Code(|s|) + s
  }

  function EncodeRecord(r: Record): seq<Byte> {
    Field(r.url) + (Field(r.st) + Field(r.usn))
  }

  function EncodeRecords(rs: seq<Record>): seq<Byte> {
    if rs == [] then [] else EncodeRecord(rs[0]) + EncodeRecords(rs[1..])
  }

  /** One record read from `i`: the device and where the next record starts, or why the loop ends. */
  datatype Step = Next(device: Device, next: nat) | Stop | Last(device: Device) | Beyond

  function ReadRecord(buf: seq<Byte>, i: nat): Step {
    if i + 2 >= |buf| then Stop
    else
      var u := Decode(buf, i, 0);
      if u.None? then Beyond
      else if u.value.next + u.value.n + 2 >= |buf| then Stop
      else
        var url := buf[u.value.next..u.value.next + u.value.n];
        var t := Decode(buf, u.value.next + u.value.n, 0);
        if t.None? then Beyond
        else if t.value.next + t.value.n + 2 >= |buf| then Stop
        else
          var device := Device(url, buf[t.value.next..t.value.next + t.value.n]);
          var v := Decode(buf, t.value.next + t.value.n, 0);
          if v.None? then Beyond
          else if v.value.next + v.value.n > |buf| then Last(device)
          else Next(device, v.value.next + v.value.n)
  }

  /** The device list after reading up to `count` records from `i`; nothing when a length runs out of the buffer. */
  function ReadRecords(buf: seq<Byte>, i: nat, count: nat, devices: seq<Device>): Option<seq<Device>>
    decreases count
  {
    if count == 0 then Some(devices)
    else
      match ReadRecord(buf, i)
      case Next(device, next) => ReadRecords(buf, next, count - 1, [device] + devices)
      case Last(device) => Some([device] + devices)
      case Stop => Some(devices)
      case Beyond => None
  }

  /** The list is built from the front. */
  function Listed(rs: seq<Record>, devices: seq<Device>): seq<Device> {
    if rs == [] then devices else Listed(rs[1..], [Device(rs[0].url, rs[0].st)] + devices)
  }

  lemma {:induction false} ListedReversed(rs: seq<Record>, devices: seq<Device>)
    ensures |Listed(rs, devices)| == |rs| + |devices|
    ensures forall k :: 0 <= k < |rs| ==> Listed(rs, devices)[|rs| - 1 - k] == Device(rs[k].url, rs[k].st)
    ensures Listed(rs, devices)[|rs|..] == devices
  {
    if rs != [] {
      var d := [Device(rs[0].url, rs[0].st)] + devices;
      ListedReversed(rs[1..], d);
      var l := Listed(rs, devices);
      assert l[|rs| - 1] == l[|rs| - 1..][0] == d[0];
      assert l[|rs|..] == l[|rs| - 1..][1..] == devices;
      assert forall k :: 0 < k < |rs| ==> rs[k] == rs[1..][k - 1];
    }
  }

  /** Where a record's search target ends, and where the record does. */
  datatype Place = Place(st: nat, end: nat)

  function PlaceOf(r: Record, i: nat): Place {
    Place(i + |Field(r.url)| + |Field(r.st)|, i + |EncodeRecord(r)|)
  }

  /** The places of records one after another from `i` on. */
  function Places(rs: seq<Record>, i: nat): seq<Place> {
    if rs == [] then [] else [PlaceOf(rs[0], i)] + Places(rs[1..], PlaceOf(rs[0], i).end)
  }

  /** The loop's own bound: the search target ends more than two bytes before the buffer does. */
  predicate Clear(p: Place, size: nat) {
    p.st + 2 < size
  }

  /** The string `s` with its length stands in the buffer from `i` up to `j`. */
  ghost predicate ReadsAs(buf: seq<Byte>, i: nat, s: seq<Byte>, j: nat) {
    && |s| <= j <= |buf| && i < j
    && Decode(buf, i, 0) == Some(Length(|s|, j - |s|)) && buf[j - |s|..j] == s
  }

  lemma FieldRead(buf: seq<Byte>, i: nat, s: seq<Byte>)
    requires |s| < WORD && Stands(buf, i, Field(s))
    ensures ReadsAs(buf, i, s, i + |Field(s)|)
  {
    StandsParts(buf, i, Code(|s|), s);
    LengthRead(buf, i, |s|);
  }

  lemma ThreeRead(buf: seq<Byte>, i: nat, r: Record, j: nat, k: nat, l: nat)
    requires ReadsAs(buf, i, r.url, j) && ReadsAs(buf, j, r.st, k) && ReadsAs(buf, k, r.usn, l)
    ensures ReadRecord(buf, i) == if k + 2 < |buf| then Next(Device(r.url, r.st), l) else Stop
  {
  }

  predicate Small(r: Record) {
    |r.url| < WORD && |r.st| < WORD && |r.usn| < WORD
  }

  /** A record is read whole, or not at all when it is too near the end. */
  ghost predicate ReadAt(buf: seq<Byte>, i: nat, r: Record, p: Place) {
    ReadRecord(buf, i) == if Clear(p, |buf|) then Next(Device(r.url, r.st), p.end) else Stop
  }

  lemma RecordFields(buf: seq<Byte>, i: nat, r: Record, j: nat, k: nat, l: nat)
    requires Small(r) && Stands(buf, i, EncodeRecord(r))
    requires j == i + |Field(r.url)| && k == j + |Field(r.st)| && l == k + |Field(r.usn)|
    ensures ReadsAs(buf, i, r.url, j) && ReadsAs(buf, j, r.st, k) && ReadsAs(buf, k, r.usn, l)
    ensures PlaceOf(r, i) == Place(k, l)
  {
    StandsParts(buf, i, Field(r.url), Field(r.st) + Field(r.usn));
    StandsParts(buf, j, Field(r.st), Field(r.usn));
    assert ReadsAs(buf, i, r.url, j) by { FieldRead(buf, i, r.url); }
    assert ReadsAs(buf, j, r.st, k) by { FieldRead(buf, j, r.st); }
    assert ReadsAs(buf, k, r.usn, l) by { FieldRead(buf, k, r.usn); }
  }

  lemma RecordRead(buf: seq<Byte>, i: nat, r: Record)
    requires Small(r) && Stands(buf, i, EncodeRecord(r))
    ensures ReadAt(buf, i, r, PlaceOf(r, i))
  {
    var j := i + |Field(r.url)|;
    var k := j + |Field(r.st)|;
    var l := k + |Field(r.usn)|;
    RecordFields(buf, i, r, j, k, l);
    ThreeRead(buf, i, r, j, k, l);
  }

  predicate AllSmall(rs: seq<Record>) {
    forall k :: 0 <= k < |rs| ==> Small(rs[k])
  }

  ghost predicate AllReadAt(buf: seq<Byte>, i: nat, rs: seq<Record>, ps: seq<Place>)
    decreases |rs|
  {
    && |rs| == |ps|
    && (rs != [] ==> ReadAt(buf, i, rs[0], ps[0]) && AllReadAt(buf, ps[0].end, rs[1..], ps[1..]))
  }

  lemma {:induction false} RecordsPlaced(buf: seq<Byte>, i: nat, rs: seq<Record>)
    requires AllSmall(rs) && Stands(buf, i, EncodeRecords(rs))
    ensures AllReadAt(buf, i, rs, Places(rs, i))
    decreases |rs|
  {
    if rs != [] {
      StandsParts(buf, i, EncodeRecord(rs[0]), EncodeRecords(rs[1..]));
      RecordRead(buf, i, rs[0]);
      RecordsPlaced(buf, PlaceOf(rs[0], i).end, rs[1..]);
      assert Places(rs, i)[1..] == Places(rs[1..], PlaceOf(rs[0], i).end);
    }
  }

  lemma {:induction false} RecordsRead(buf: seq<Byte>, i: nat, rs: seq<Record>, ps: seq<Place>, devices: seq<Device>)
    requires AllReadAt(buf, i, rs, ps)
    ensures ReadRecords(buf, i, |rs|, devices) == Some(Listed(rs, devices))
       <==> AllClear(ps, |buf|)
    decreases |rs|
  {
    if rs != [] {
      assert ReadAt(buf, i, rs[0], ps[0]);
      RecordsRead(buf, ps[0].end, rs[1..], ps[1..], [Device(rs[0].url, rs[0].st)] + devices);
      ListedReversed(rs, devices);
      assert forall k :: 0 < k < |ps| ==> ps[k] == ps[1..][k - 1];
    }
  }

  lemma MessageStands(buf: seq<Byte>, n: Byte, records: seq<Byte>)
    requires Stands(buf, 0, [n] + records)
    ensures |buf| > 0 && buf[0] == n && Stands(buf, 1, records)
  {
    Reads(buf, 0, [n] + records, 0);
    StandsParts(buf, 0, [n], records);
  }

  predicate AllClear(ps: seq<Place>, size: nat) {
    forall k :: 0 <= k < |ps| ==> Clear(ps[k], size)
  }

  /**
   * A message in the buffer is decoded to its (url, search target) pairs, the last record first, exactly when
   * every search target ends more than two bytes before the end of the buffer.
   */
  lemma MessageRead(buf: seq<Byte>, rs: seq<Record>)
    requires AllSmall(rs) && |rs| < 256 && Stands(buf, 0, [|rs|] + EncodeRecords(rs))
    ensures ReadRecords(buf, 1, buf[0], []) == Some(Listed(rs, [])) <==> AllClear(Places(rs, 1), |buf|)
  {
    MessageStands(buf, |rs|, EncodeRecords(rs));
    RecordsPlaced(buf, 1, rs);
    RecordsRead(buf, 1, rs, Places(rs, 1), []);
  }

  // ----- The loops -----

  /** The byte written for a group: the shifted length, cut to a byte, with the mark. */
  function Group(n: nat): Byte {
    n % 128 + 128
  }

  /** What the macro writes, at most five groups. */
  function Macro(n: nat): (r: seq<Byte>)
    ensures |r| <= 5
  {
    (if n >= 268435456 then [Group(n / 268435456)] else [])
    + (if n >= 2097152 then [Group(n / 2097152)] else [])
    + (if n >= 16384 then [Group(n / 16384)] else [])
    + (if n >= 128 then [Group(n / 128)] else [])
    + [n % 128]
  }

  lemma Shifts(n: nat)
    requires n < WORD
    ensures n / 128 / 128 == n / 16384 && n / 16384 / 128 == n / 2097152 && n / 2097152 / 128 == n / 268435456
    ensures n / 268435456 / 128 == 0
  {
  }

  /** For 32-bit lengths the macro writes the code. */
  lemma MacroCode(n: nat)
    requires n < WORD
    ensures Macro(n) == Code(n)
  {
    Shifts(n);
    assert High(n / 268435456) == if n >= 268435456 then [Group(n / 268435456)] else [];
    assert High(n / 2097152) == High(n / 268435456) + if n >= 2097152 then [Group(n / 2097152)] else [];
    assert High(n / 16384) == High(n / 2097152) + if n >= 16384 then [Group(n / 16384)] else [];
    assert High(n / 128) == High(n / 16384) + if n >= 128 then [Group(n / 128)] else [];
  }

  /** `CODELENGTH`, at position `p` of the buffer. */
  method WriteLength(buf: array<Byte>, p: nat, n: nat) returns (q: nat)
    requires n < WORD && p + 5 <= buf.Length
    modifies buf
    ensures q == p + |Code(n)| <= buf.Length && buf[..q] == old(buf[..p]) + Code(n)
  {
    q := p;
    if n >= 268435456 {
      buf[q] := Group(n / 268435456);
      q := q + 1;
    }
    if n >= 2097152 {
      buf[q] := Group(n / 2097152);
      q := q + 1;
    }
    if n >= 16384 {
      buf[q] := Group(n / 16384);
      q := q + 1;
    }
    if n >= 128 {
      buf[q] := Group(n / 128);
      q := q + 1;
    }
    buf[q] := n % 128;
    q := q + 1;
    MacroCode(n);
    assert buf[..q] == old(buf[..p]) + Macro(n);
  }

  /** `DECODELENGTH` */
  method ReadLength(buf: array<Byte>, p: nat) returns (r: Option<Length>)
    ensures r == Decode(buf[..], p, 0)
  {
    var n: nat, i := 0, p;
    while i < buf.Length
      invariant Decode(buf[..], i, n) == Decode(buf[..], p, 0)
    {
      n := (n * 128 + buf[i] % 128) % WORD;
      i := i + 1;
      if buf[i - 1] < 128 {
        return Some(Length(n, i));
      }
    }
    r := None;
  }

  /** The body of the loop over the answer. */
  method ReadOne(buf: array<Byte>, i: nat) returns (r: Step)
    ensures r == ReadRecord(buf[..], i)
  {
    var p := i;
    if p + 2 >= buf.Length {
      return Stop;
    }
    var url := ReadLength(buf, p);
    if url.None? {
      return Beyond;
    }
    var u := url.value.next;
    p := u + url.value.n;
    if p + 2 >= buf.Length {
      return Stop;
    }
    var st := ReadLength(buf, p);
    if st.None? {
      return Beyond;
    }
    var t := st.value.next;
    p := t + st.value.n;
    if p + 2 >= buf.Length {
      return Stop;
    }
    var device := Device(buf[u..u + url.value.n], buf[t..p]);
    var usn := ReadLength(buf, p);
    if usn.None? {
      return Beyond;
    }
    p := usn.value.next + usn.value.n;
    if p > buf.Length {
      return Last(device);
    }
    r := Next(device, p);
  }

  ghost predicate Yields(buf: seq<Byte>, i: nat, count: nat, devices: seq<Device>, r: Option<seq<Device>>) {
    ReadRecords(buf, i, count, devices) == r
  }

  /** The loop over the answer; nothing when a length runs out of the buffer. */
  method ReadDevices(buf: array<Byte>) returns (r: Option<seq<Device>>)
    requires buf.Length == BUFFER_SIZE
    ensures r == ReadRecords(buf[..], 1, buf[0], [])
  {
    ghost var whole := ReadRecords(buf[..], 1, buf[0], []);
    var devices, p: nat, i: nat := [], 1, 0;
    while i < buf[0]
      invariant i <= buf[0] && Yields(buf[..], p, buf[0] - i, devices, whole)
    {
      var step := ReadOne(buf, p);
      match step {
        case Next(device, next) =>
          devices, p := [device] + devices, next;
        case Last(device) =>
          return Some([device] + devices);
        case Stop =>
          return Some(devices);
        case Beyond =>
          return None;
      }
      i := i + 1;
    }
    r := Some(devices);
  }
}
