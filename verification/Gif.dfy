/**
 * The captcha image writer and an independent reader for its output.
 *
 * The reader follows the GIF89a specification: the screen and its colour table, one image, its data
 * sub-blocks, and the variable-length LZW code of its Appendix F with a dictionary that grows as codes arrive.
 * The writer never compresses: it sends a clear code before every pixel, so that each code is five bits long.
 */
module Gif {
  import opened Sequences

  type Byte = bv8
  type Bits = seq<bool>

  const WIDTH := 200
  const HEIGHT := 70
  const SIZE := 17646

  // ----- Bits -----

  predicate Bit(b: Byte, mask: Byte) {
    b & mask != 0
  }

  /** The bits of a byte, lowest first. */
  function ByteBits(b: Byte): Bits {
    [Bit(b, 0x01), Bit(b, 0x02), Bit(b, 0x04), Bit(b, 0x08), Bit(b, 0x10), Bit(b, 0x20), Bit(b, 0x40), Bit(b, 0x80)]
  }

  function BitsOf(bytes: seq<Byte>): Bits {
    if bytes == [] then [] else ByteBits(bytes[0]) + BitsOf(bytes[1..])
  }

  /** The number whose binary digits, lowest first, are `bits`. */
  function Number(bits: Bits): nat {
    if bits == [] then 0 else (if bits[0] then 1 else 0) + 2 * Number(bits[1..])
  }

  function Pow2(n: nat): nat {
    if n == 0 then 1 else 2 * Pow2(n - 1)
  }

  // ----- The LZW decoder -----

  /** Every dictionary entry is a string of colours; the clear and end codes take two empty entries. */
  function Roots(n: nat): seq<seq<nat>> {
    seq(n, i requires 0 <= i < n => [i]) + [[], []]
  }

  const MAX_CODES := 4096
  const MAX_WIDTH := 12

  /** The string that `code` stands for, `last` being the string before it. */
  function Entry(dict: seq<seq<nat>>, code: nat, last: seq<nat>): Option<seq<nat>> {
    if code < |dict| then Some(dict[code])
    else if code == |dict| && last != [] then Some(last + [last[0]])
    else None
  }

  function Learn(dict: seq<seq<nat>>, last: seq<nat>, entry: seq<nat>): seq<seq<nat>> {
    if last == [] || entry == [] || |dict| >= MAX_CODES then dict else dict + [last + [entry[0]]]
  }

  function Grow(width: nat, codes: nat): nat {
    if codes == Pow2(width) && width < MAX_WIDTH then width + 1 else width
  }

  function Emit(s: seq<nat>, rest: Option<seq<nat>>): Option<seq<nat>> {
    if rest.Some? then Some(s + rest.value) else None
  }

  /**
   * The colours coded by `bits` up to the end code, with codes of `width` bits, the dictionary `dict`, and the
   * string `last` coded just before, empty right after a clear code. Nothing when the code is malformed or ends early.
   */
  function Lzw(bits: Bits, size: nat, width: nat, dict: seq<seq<nat>>, last: seq<nat>): Option<seq<nat>> {
    if width == 0 || |bits| < width then None
    else
      var code, rest := Number(bits[..width]), bits[width..];
      if code == Pow2(size) then Lzw(rest, size, size + 1, Roots(Pow2(size)), [])
      else if code == Pow2(size) + 1 then Some([])
      else if last == [] && code >= Pow2(size) then None
      else
        var entry := Entry(dict, code, last);
        if entry.None? || entry.value == [] then None
        else
          var dict' := Learn(dict, last, entry.value);
          Emit(entry.value, Lzw(rest, size, Grow(width, |dict'|), dict', entry.value))
  }

  // ----- The file reader -----

  datatype Blocks = Blocks(data: seq<Byte>, rest: seq<Byte>)

  /** Data sub-blocks: each a length and that many bytes, up to an empty one. */
  function SubBlocks(s: seq<Byte>): Option<Blocks> {
    if s == [] then None
    else if s[0] == 0 then Some(Blocks([], s[1..]))
    else
      var n := s[0] as nat;
      if |s| < 1 + n then None
      else
        var r := SubBlocks(s[1 + n..]);
        if r.None? then None else Some(Blocks(s[1..1 + n] + r.value.data, r.value.rest))
  }

  function Word(lo: Byte, hi: Byte): nat {
    lo as nat + 256 * hi as nat
  }

  datatype Rgb = Rgb(red: Byte, green: Byte, blue: Byte)

  function ColourTable(s: seq<Byte>, n: nat): seq<Rgb>
    requires |s| == 3 * n
  {
    if n == 0 then [] else [Rgb(s[0], s[1], s[2])] + ColourTable(s[3..], n - 1)
  }

  datatype Picture = Picture(width: nat, height: nat, colours: seq<Rgb>, pixels: seq<nat>)

  const MAGIC: seq<Byte> := [71, 73, 70, 56, 57, 97]

  /** The image part: a descriptor with no colour table of its own, the code size, the data and the trailer. */
  function ReadImage(s: seq<Byte>, colours: seq<Rgb>): Option<Picture> {
    if |s| < 11 || s[0] != 44 || s[9] != 0 then None
    else
      var size := s[10] as nat;
      var blocks := SubBlocks(s[11..]);
      if blocks.None? || blocks.value.rest != [59] then None
      else
        var pixels := Lzw(BitsOf(blocks.value.data), size, size + 1, Roots(Pow2(size)), []);
        if pixels.None? then None
        else Some(Picture(Word(s[5], s[6]), Word(s[7], s[8]), colours, pixels.value))
  }

  /** A file with a global colour table and one image. */
  function ReadGif(s: seq<Byte>): Option<Picture> {
    if |s| < 13 || s[..6] != MAGIC || s[10] & 0x80 == 0 then None
    else
      var n := Pow2((s[10] & 7) as nat + 1);
      if |s| < 13 + 3 * n then None
      else ReadImage(s[13 + 3 * n..], ColourTable(s[13..13 + 3 * n], n))
  }

  // ----- What the writer writes -----

  type Image = s: seq<Byte> | |s| == 14000 witness seq(14000, _ => 0)

  const LEVELS: seq<Byte> :=
    [0x00, 0x10, 0x20, 0x30, 0x40, 0x50, 0x60, 0x70, 0x80, 0x90, 0xa0, 0xb0, 0xc0, 0xd0, 0xe0, 0xff]

  const SCREEN: seq<Byte> := [71, 73, 70, 56, 57, 97, 0xc8, 0, 0x46, 0, 0x83, 0, 0]
  const DESCRIPTOR: seq<Byte> := [44, 0, 0, 0, 0, 0xc8, 0, 0x46, 0, 0, 4]
  const TRAILER: seq<Byte> := [1, 0x11, 0, 59]

  /** Grey levels as red, green and blue. */
  function Tripled(levels: seq<Byte>): (r: seq<Byte>)
    ensures |r| == 3 * |levels|
  {
    if levels == [] then [] else [levels[0], levels[0], levels[0]] + Tripled(levels[1..])
  }

  /** Four pixels packed into five bytes. */
  function Pack(a: Byte, b: Byte, c: Byte, d: Byte): seq<Byte> {
    [16 | (a << 5), (a >> 3) | 64 | (b << 7), b >> 1, 1 | (c << 1), 4 | (d << 3)]
  }

  /** The first four pixels packed. */
  function Group(im: seq<Byte>): (r: seq<Byte>)
    requires |im| >= 4
    ensures |r| == 5
  {
    Pack(im[0] >> 4, im[1] >> 4, im[2] >> 4, im[3] >> 4)
  }

  /** The pixels packed, four at a time. */
  function Packed(im: seq<Byte>): seq<Byte> {
    if |im| < 4 then [] else Group(im) + Packed(im[4..])
  }

  /** The rows, each a sub-block of 250 bytes. */
  function Rows(im: seq<Byte>): seq<Byte> {
    if |im| < WIDTH then [] else [250] + (Packed(im[..WIDTH]) + Rows(im[WIDTH..]))
  }

  function File(im: Image): seq<Byte> {
    SCREEN + (Tripled(LEVELS) + (DESCRIPTOR + (Rows(im) + TRAILER)))
  }

  // ----- The packed codes -----

  function Nibble(b: Byte): nat {
    (b >> 4) as nat
  }

  /** A pixel's code: its four bits and a zero. */
  function PixelCode(a: Byte): Bits {
    [Bit(a, 0x01), Bit(a, 0x02), Bit(a, 0x04), Bit(a, 0x08), false]
  }

  const CLEAR: Bits := [false, false, false, false, true]

  lemma PackedBytes(a: Byte, b: Byte, c: Byte, d: Byte)
    requires a < 16 && b < 16 && c < 16 && d < 16
    ensures
      var s, x, y, z, w := Pack(a, b, c, d), PixelCode(a), PixelCode(b), PixelCode(c), PixelCode(d);
      && ByteBits(s[0]) == [false, false, false, false, true, x[0], x[1], x[2]]
      && ByteBits(s[1]) == [x[3], false, false, false, false, false, true, y[0]]
      && ByteBits(s[2]) == [y[1], y[2], y[3], false, false, false, false, false]
      && ByteBits(s[3]) == [true, z[0], z[1], z[2], z[3], false, false, false]
      && ByteBits(s[4]) == [false, false, true, w[0], w[1], w[2], w[3], false]
  {
  }

  lemma Recut(x: Bits, y: Bits, z: Bits, w: Bits, rest: Bits)
    requires |x| == |y| == |z| == |w| == 5 && !x[4] && !y[4] && !z[4] && !w[4]
    ensures
      [false, false, false, false, true, x[0], x[1], x[2]]
      + ([x[3], false, false, false, false, false, true, y[0]]
      + ([y[1], y[2], y[3], false, false, false, false, false]
      + ([true, z[0], z[1], z[2], z[3], false, false, false]
      + ([false, false, true, w[0], w[1], w[2], w[3], false] + rest))))
      == CLEAR + (x + (CLEAR + (y + (CLEAR + (z + (CLEAR + (w + rest)))))))
  {
  }

  lemma BitsOfCons(b: Byte, s: seq<Byte>)
    ensures BitsOf([b] + s) == ByteBits(b) + BitsOf(s)
  {
    assert ([b] + s)[1..] == s;
  }

  lemma Cons(s: seq<Byte>, rest: seq<Byte>)
    requires |s| == 5
    ensures s + rest == [s[0]] + ([s[1]] + ([s[2]] + ([s[3]] + ([s[4]] + rest))))
  {
  }

  lemma FiveBytes(s: seq<Byte>, rest: seq<Byte>)
    requires |s| == 5
    ensures BitsOf(s + rest)
         == ByteBits(s[0]) + (ByteBits(s[1]) + (ByteBits(s[2]) + (ByteBits(s[3]) + (ByteBits(s[4]) + BitsOf(rest)))))
  {
    Cons(s, rest);
    BitsOfCons(s[4], rest);
    BitsOfCons(s[3], [s[4]] + rest);
    BitsOfCons(s[2], [s[3]] + ([s[4]] + rest));
    BitsOfCons(s[1], [s[2]] + ([s[3]] + ([s[4]] + rest)));
    BitsOfCons(s[0], [s[1]] + ([s[2]] + ([s[3]] + ([s[4]] + rest))));
  }

  /** The forty bits of a group are a clear code and a pixel code, four times over. */
  lemma PackedBits(a: Byte, b: Byte, c: Byte, d: Byte, rest: seq<Byte>)
    requires a < 16 && b < 16 && c < 16 && d < 16
    ensures BitsOf(Pack(a, b, c, d) + rest)
         == CLEAR + (PixelCode(a) + (CLEAR + (PixelCode(b) + (CLEAR + (PixelCode(c) + (CLEAR + (PixelCode(d) + BitsOf(rest))))))))
  {
    FiveBytes(Pack(a, b, c, d), rest);
    PackedBytes(a, b, c, d);
    Recut(PixelCode(a), PixelCode(b), PixelCode(c), PixelCode(d), BitsOf(rest));
  }

  // ----- Decoding the codes -----

  function Digit(bit: bool): nat {
    if bit then 1 else 0
  }

  lemma FiveBits(s: Bits)
    requires |s| == 5
    ensures Number(s) == Digit(s[0]) + 2 * Digit(s[1]) + 4 * Digit(s[2]) + 8 * Digit(s[3]) + 16 * Digit(s[4])
  {
    assert Number(s[1..][1..][1..][1..]) == Digit(s[4]);
    assert Number(s[1..][1..][1..]) == Digit(s[3]) + 2 * Digit(s[4]);
    assert Number(s[1..][1..]) == Digit(s[2]) + 2 * Digit(s[3]) + 4 * Digit(s[4]);
  }

  lemma PixelNumber(a: Byte)
    requires a < 16
    ensures Number(PixelCode(a)) == a as nat
  {
    FiveBits(PixelCode(a));
  }

  lemma Sizes()
    ensures Pow2(4) == 16 && Pow2(5) == 32
  {
    assert Pow2(2) == 4;
  }

  lemma Cut(s: Bits, rest: Bits)
    ensures (s + rest)[..|s|] == s && (s + rest)[|s|..] == rest
  {
  }

  lemma ClearStep(rest: Bits, dict: seq<seq<nat>>, last: seq<nat>)
    ensures Lzw(CLEAR + rest, 4, 5, dict, last) == Lzw(rest, 4, 5, Roots(16), [])
  {
    Cut(CLEAR, rest);
    FiveBits(CLEAR);
    Sizes();
  }

  lemma PixelStep(a: Byte, rest: Bits)
    requires a < 16
    ensures Lzw(PixelCode(a) + rest, 4, 5, Roots(16), []) == Emit([a as nat], Lzw(rest, 4, 5, Roots(16), [a as nat]))
  {
    Cut(PixelCode(a), rest);
    PixelNumber(a);
    Sizes();
  }

  lemma PairStep(a: Byte, rest: Bits, dict: seq<seq<nat>>, last: seq<nat>)
    requires a < 16
    ensures Lzw(CLEAR + (PixelCode(a) + rest), 4, 5, dict, last)
         == Emit([a as nat], Lzw(rest, 4, 5, Roots(16), [a as nat]))
  {
    ClearStep(PixelCode(a) + rest, dict, last);
    PixelStep(a, rest);
  }

  lemma GroupStep(a: Byte, b: Byte, c: Byte, d: Byte, rest: seq<Byte>, dict: seq<seq<nat>>, last: seq<nat>)
    requires a < 16 && b < 16 && c < 16 && d < 16
    ensures Lzw(BitsOf(Pack(a, b, c, d) + rest), 4, 5, dict, last)
         == Emit([a as nat], Emit([b as nat], Emit([c as nat], Emit([d as nat],
              Lzw(BitsOf(rest), 4, 5, Roots(16), [d as nat])))))
  {
    PackedBits(a, b, c, d, rest);
    var r3 := CLEAR + (PixelCode(d) + BitsOf(rest));
    var r2 := CLEAR + (PixelCode(c) + r3);
    var r1 := CLEAR + (PixelCode(b) + r2);
    PairStep(a, r1, dict, last);
    PairStep(b, r2, Roots(16), [a as nat]);
    PairStep(c, r3, Roots(16), [b as nat]);
    PairStep(d, BitsOf(rest), Roots(16), [c as nat]);
  }

  lemma EndStep(dict: seq<seq<nat>>, last: seq<nat>)
    ensures Lzw(BitsOf([0x11]), 4, 5, dict, last) == Some([])
  {
    var bits := BitsOf([0x11]);
    BitsOfCons(0x11, []);
    assert bits == [true, false, false, false, true, false, false, false];
    assert bits[..5] == [true, false, false, false, true];
    FiveBits(bits[..5]);
    Sizes();
  }

  /** The high four bits of every pixel. */
  function Nibbles(im: seq<Byte>): (r: seq<nat>)
    ensures |r| == |im|
  {
    seq(|im|, i requires 0 <= i < |im| => Nibble(im[i]))
  }

  lemma FourMore(im: seq<Byte>)
    requires |im| >= 4
    ensures Emit([Nibble(im[0])], Emit([Nibble(im[1])], Emit([Nibble(im[2])], Emit([Nibble(im[3])],
              Some(Nibbles(im[4..]))))))
         == Some(Nibbles(im))
  {
    var n := Nibbles(im);
    assert [n[0]] + ([n[1]] + ([n[2]] + ([n[3]] + Nibbles(im[4..])))) == n;
  }

  /** From any decoder state with five-bit codes, packed pixels decode to their high four bits. */
  lemma {:induction false} DataDecode(im: seq<Byte>, n: nat, dict: seq<seq<nat>>, last: seq<nat>)
    requires |im| == 4 * n
    ensures Lzw(BitsOf(Packed(im) + [0x11]), 4, 5, dict, last) == Some(Nibbles(im))
  {
    if im == [] {
      assert Packed(im) + [0x11] == [0x11];
      EndStep(dict, last);
    } else {
      var a, b, c, d := im[0] >> 4, im[1] >> 4, im[2] >> 4, im[3] >> 4;
      Regroup(Pack(a, b, c, d), Packed(im[4..]), [0x11]);
      GroupStep(a, b, c, d, Packed(im[4..]) + [0x11], dict, last);
      DataDecode(im[4..], n - 1, Roots(16), [d as nat]);
      FourMore(im);
    }
  }

  // ----- The sub-blocks -----

  lemma GroupAppend(s: seq<Byte>, t: seq<Byte>)
    requires |s| >= 4
    ensures Group(s + t) == Group(s) && (s + t)[4..] == s[4..] + t
  {
  }

  lemma {:induction false} PackedAppend(s: seq<Byte>, n: nat, t: seq<Byte>)
    requires |s| == 4 * n
    ensures Packed(s + t) == Packed(s) + Packed(t)
  {
    if s == [] {
      assert s + t == t;
    } else {
      PackedAppend(s[4..], n - 1, t);
      GroupAppend(s, t);
      Regroup(Group(s), Packed(s[4..]), Packed(t));
    }
  }

  lemma {:induction false} PackedLength(s: seq<Byte>, n: nat)
    requires |s| == 4 * n
    ensures |Packed(s)| == 5 * n
  {
    if n > 0 {
      PackedLength(s[4..], n - 1);
    }
  }

  lemma BlockStep(block: seq<Byte>, rest: seq<Byte>)
    requires |block| == 250
    ensures
      var r := SubBlocks(rest);
      SubBlocks([250] + (block + rest)) == if r.None? then None else Some(Blocks(block + r.value.data, r.value.rest))
  {
    var s := [250] + (block + rest);
    assert s[1..251] == block && s[251..] == rest;
  }

  lemma LastBlocks()
    ensures SubBlocks(TRAILER) == Some(Blocks([0x11], [59]))
  {
    assert TRAILER[2..] == [0, 59] && TRAILER[1..2] == [0x11];
    assert [0, 59][1..] == [59];
    assert SubBlocks([0, 59]) == Some(Blocks([], [59]));
    assert [0x11] + [] == [0x11 as Byte];
  }

  lemma RowRead(block: seq<Byte>, rows: seq<Byte>, groups: seq<Byte>)
    requires |block| == 250 && SubBlocks(rows + TRAILER) == Some(Blocks(groups + [0x11], [59]))
    ensures SubBlocks([250] + (block + rows) + TRAILER) == Some(Blocks(block + groups + [0x11], [59]))
  {
    Regroup([250], block + rows, TRAILER);
    Regroup(block, rows, TRAILER);
    BlockStep(block, rows + TRAILER);
    Regroup(block, groups, [0x11]);
  }

  /** Reading the sub-blocks of some rows gives the packed pixels and the byte holding the end code. */
  lemma {:induction false} RowsRead(im: seq<Byte>, n: nat)
    requires |im| == WIDTH * n
    ensures SubBlocks(Rows(im) + TRAILER) == Some(Blocks(Packed(im) + [0x11], [59]))
  {
    if im == [] {
      assert Rows(im) + TRAILER == TRAILER;
      assert Packed(im) + [0x11] == [0x11];
      LastBlocks();
    } else {
      RowsRead(im[WIDTH..], n - 1);
      PackedAppend(im[..WIDTH], 50, im[WIDTH..]);
      PackedLength(im[..WIDTH], 50);
      assert im[..WIDTH] + im[WIDTH..] == im;
      RowRead(Packed(im[..WIDTH]), Rows(im[WIDTH..]), Packed(im[WIDTH..]));
    }
  }

  // ----- The whole file -----

  function Greys(levels: seq<Byte>): seq<Rgb> {
    if levels == [] then [] else [Rgb(levels[0], levels[0], levels[0])] + Greys(levels[1..])
  }

  lemma DescriptorCut(rest: seq<Byte>)
    ensures
      var s := DESCRIPTOR + rest;
      && |s| >= 11 && s[0] == 44 && s[9] == 0 && s[10] == 4 && s[11..] == rest
      && Word(s[5], s[6]) == WIDTH && Word(s[7], s[8]) == HEIGHT
  {
  }

  lemma ImageRead(im: Image, colours: seq<Rgb>)
    ensures ReadImage(DESCRIPTOR + (Rows(im) + TRAILER), colours)
         == Some(Picture(WIDTH, HEIGHT, colours, Nibbles(im)))
  {
    DescriptorCut(Rows(im) + TRAILER);
    RowsRead(im, HEIGHT);
    DataDecode(im, 3500, Roots(16), []);
    Sizes();
  }

  lemma {:induction false} PaletteRead(levels: seq<Byte>)
    ensures ColourTable(Tripled(levels), |levels|) == Greys(levels)
  {
    if levels != [] {
      PaletteRead(levels[1..]);
      assert Tripled(levels)[3..] == Tripled(levels[1..]);
    }
  }

  lemma ScreenCut(palette: seq<Byte>, rest: seq<Byte>)
    requires |palette| == 48
    ensures
      var s := SCREEN + (palette + rest);
      |s| >= 61 && s[..6] == MAGIC && s[10] == 0x83 && s[13..61] == palette && s[61..] == rest
  {
  }

  lemma ScreenRead(levels: seq<Byte>, rest: seq<Byte>)
    requires |levels| == 16
    ensures ReadGif(SCREEN + (Tripled(levels) + rest)) == ReadImage(rest, Greys(levels))
  {
    ScreenCut(Tripled(levels), rest);
    Sizes();
    PaletteRead(levels);
  }

  /** What is read back from the file is the picture: its size, the grey levels, and every pixel's high four bits. */
  lemma FileRead(im: Image)
    ensures ReadGif(File(im)) == Some(Picture(WIDTH, HEIGHT, Greys(LEVELS), Nibbles(im)))
  {
    ScreenRead(LEVELS, DESCRIPTOR + (Rows(im) + TRAILER));
    ImageRead(im, Greys(LEVELS));
  }

  lemma {:induction false} GreyAt(levels: seq<Byte>, v: nat)
    requires v < |levels|
    ensures v < |Greys(levels)| && Greys(levels)[v] == Rgb(levels[v], levels[v], levels[v])
  {
    if v > 0 {
      GreyAt(levels[1..], v - 1);
    }
  }

  /** A pixel is shown at its own level with the low four bits dropped, except that the brightest become white. */
  lemma Shown(im: Image, i: nat, levels: seq<Byte>)
    requires i < 14000 && levels == LEVELS
    ensures
      var v, level := Nibbles(im)[i], if im[i] >= 0xf0 then 0xff else im[i] & 0xf0;
      v < |Greys(levels)| && Greys(levels)[v] == Rgb(level, level, level)
  {
    var b, v := im[i], Nibbles(im)[i];
    assert v < |levels| && levels[v] == if b >= 0xf0 then 0xff else b & 0xf0 by { LevelOf(b, levels); }
    GreyAt(levels, v);
  }

  lemma LevelOf(b: Byte, levels: seq<Byte>)
    requires levels == LEVELS
    ensures Nibble(b) < |levels| && levels[Nibble(b)] == if b >= 0xf0 then 0xff else b & 0xf0
  {
  }

  // ----- The writer -----

  /** Copies `bytes` into the buffer at `at`. */
  method CopyBytes(gif: array<Byte>, at: nat, bytes: seq<Byte>)
    requires at + |bytes| <= gif.Length
    modifies gif
    ensures gif[..at + |bytes|] == old(gif[..at]) + bytes
  {
    var i := 0;
    while i < |bytes|
      invariant 0 <= i <= |bytes|
      invariant gif[..at + i] == old(gif[..at]) + bytes[..i]
    {
      gif[at + i] := bytes[i];
      i := i + 1;
    }
  }

  method WriteGroup(gif: array<Byte>, p: nat, a: Byte, b: Byte, c: Byte, d: Byte)
    requires p + 5 <= gif.Length
    modifies gif
    ensures gif[..p + 5] == old(gif[..p]) + Pack(a, b, c, d)
  {
    gif[p] := 16 | (a << 5);
    gif[p + 1] := (a >> 3) | 64 | (b << 7);
    gif[p + 2] := b >> 1;
    gif[p + 3] := 1 | (c << 1);
    gif[p + 4] := 4 | (d << 3);
  }

  lemma PackedNext(s: seq<Byte>, i: nat)
    requires i + 4 <= |s|
    ensures Packed(s[i..]) == Group(s[i..]) + Packed(s[i + 4..])
  {
    assert s[i..][4..] == s[i + 4..];
  }

  /** With `front` written, the groups of the pixels from `x` on complete it to `whole`. */
  ghost predicate CompletesRow(front: seq<Byte>, row: seq<Byte>, x: nat, whole: seq<Byte>) {
    x <= |row| && front + Packed(row[x..]) == whole
  }

  lemma GroupWritten(front: seq<Byte>, row: seq<Byte>, x: nat, group: seq<Byte>, whole: seq<Byte>)
    requires x + 4 <= |row| && CompletesRow(front, row, x, whole) && group == Group(row[x..x + 4])
    ensures CompletesRow(front + group, row, x + 4, whole)
  {
    PackedNext(row, x);
    FirstFour(row[x..], row[x..x + 4]);
    Regroup(front, group, Packed(row[x + 4..]));
  }

  lemma FirstFour(s: seq<Byte>, t: seq<Byte>)
    requires |s| >= 4 && t == s[..4]
    ensures Group(s) == Group(t)
  {
  }

  /** The next four pixels. */
  method WriteFour(im: array<Byte>, gif: array<Byte>, k: nat, q: nat)
    requires im != gif && k + 4 <= im.Length && q + 5 <= gif.Length
    modifies gif
    ensures gif[..q + 5] == old(gif[..q]) + Group(im[k..k + 4])
  {
    WriteGroup(gif, q, im[k] >> 4, im[k + 1] >> 4, im[k + 2] >> 4, im[k + 3] >> 4);
  }

  method WriteNext(im: array<Byte>, gif: array<Byte>, k: nat, q: nat, ghost row: seq<Byte>, ghost x: nat,
      ghost whole: seq<Byte>)
    requires im != gif && q + 5 <= gif.Length
    requires x + 4 <= |row| && x <= k && k - x + |row| <= im.Length && row == im[k - x..k - x + |row|]
    requires CompletesRow(gif[..q], row, x, whole)
    modifies gif
    ensures CompletesRow(gif[..q + 5], row, x + 4, whole)
  {
    assert im[k..k + 4] == row[x..x + 4];
    GroupWritten(gif[..q], row, x, Group(im[k..k + 4]), whole);
    WriteFour(im, gif, k, q);
  }

  lemma RowStarts(front: seq<Byte>, row: seq<Byte>)
    ensures CompletesRow(front + [250], row, 0, front + ([250] + Packed(row)))
  {
    assert row[0..] == row;
    Regroup(front, [250], Packed(row));
  }

  lemma RowEnds(front: seq<Byte>, row: seq<Byte>, whole: seq<Byte>)
    requires CompletesRow(front, row, |row|, whole)
    ensures front == whole
  {
    assert front + [] == front;
  }

  /** One row, of the pixels from `i` on; `p` is where it starts. */
  method WriteRow(im: array<Byte>, gif: array<Byte>, i: nat, p: nat)
    requires im.Length == 14000 && gif.Length == SIZE && i + WIDTH <= 14000 && p + 251 <= SIZE
    modifies gif
    ensures gif[..p + 251] == old(gif[..p]) + ([250] + Packed(im[i..i + WIDTH]))
  {
    ghost var row := im[i..i + WIDTH];
    ghost var whole := gif[..p] + ([250] + Packed(row));
    RowStarts(gif[..p], row);
    gif[p] := 250;
    assert gif[..p + 1] == old(gif[..p]) + [250];
    var x, q := 0, p + 1;
    while x < 50
      invariant 0 <= x <= 50 && q == p + 1 + 5 * x && row == im[i..i + WIDTH]
      invariant CompletesRow(gif[..q], row, 4 * x, whole)
    {
      WriteNext(im, gif, i + 4 * x, q, row, 4 * x, whole);
      x, q := x + 1, q + 5;
    }
    RowEnds(gif[..q], row, whole);
  }

  lemma RowsNext(s: seq<Byte>, i: nat)
    requires i + WIDTH <= |s|
    ensures Rows(s[i..]) == [250] + Packed(s[i..i + WIDTH]) + Rows(s[i + WIDTH..])
  {
    assert s[i..][..WIDTH] == s[i..i + WIDTH];
    assert s[i..][WIDTH..] == s[i + WIDTH..];
    Regroup([250], Packed(s[i..i + WIDTH]), Rows(s[i + WIDTH..]));
  }

  /** With `front` written, the rows of the pixels from `i` on complete it to `whole`. */
  ghost predicate Completes(front: seq<Byte>, im: seq<Byte>, i: nat, whole: seq<Byte>) {
    i <= |im| && front + Rows(im[i..]) == whole
  }

  lemma RowWritten(front: seq<Byte>, im: seq<Byte>, i: nat, whole: seq<Byte>)
    requires i + WIDTH <= |im| && Completes(front, im, i, whole)
    ensures Completes(front + ([250] + Packed(im[i..i + WIDTH])), im, i + WIDTH, whole)
  {
    RowsNext(im, i);
    Regroup(front, [250] + Packed(im[i..i + WIDTH]), Rows(im[i + WIDTH..]));
  }

  /** The loop over the rows; the first starts at `p`. */
  method WriteRows(im: array<Byte>, gif: array<Byte>, p: nat)
    requires im.Length == 14000 && gif.Length == SIZE && p + 251 * HEIGHT <= SIZE
    modifies gif
    ensures gif[..p + 251 * HEIGHT] == old(gif[..p]) + Rows(im[..])
  {
    ghost var image := im[..];
    ghost var whole := gif[..p] + Rows(image);
    assert Completes(gif[..p], image, 0, whole) by { assert image[0..] == image; }
    var y, q := 0, p;
    while y < HEIGHT
      invariant 0 <= y <= HEIGHT && q == p + 251 * y && im[..] == image
      invariant Completes(gif[..q], image, WIDTH * y, whole)
    {
      RowWritten(gif[..q], image, WIDTH * y, whole);
      WriteRow(im, gif, WIDTH * y, q);
      y, q := y + 1, q + 251;
    }
    assert gif[..q] + [] == gif[..q];
  }

  method WriteParts(im: array<Byte>, gif: array<Byte>, header: seq<Byte>, trailer: seq<Byte>)
    requires im.Length == 14000 && gif.Length == SIZE && |header| == 72 && |trailer| == 4
    modifies gif
    ensures gif[..] == header + Rows(im[..]) + trailer
  {
    ghost var image: Image := im[..];
    CopyBytes(gif, 0, header);
    WriteRows(im, gif, 72);
    CopyBytes(gif, SIZE - 4, trailer);
    assert im[..] == image && gif[..] == gif[..SIZE];
  }

  /** `makegif` */
  method MakeGif(im: array<Byte>, gif: array<Byte>)
    requires im.Length == 14000 && gif.Length == SIZE
    modifies gif
    ensures gif[..] == File(im[..])
  {
    ghost var image: Image := im[..];
    WriteParts(im, gif, SCREEN + (Tripled(LEVELS) + DESCRIPTOR), TRAILER);
    assert im[..] == image;
    FileParts(SCREEN, Tripled(LEVELS), DESCRIPTOR, Rows(image), TRAILER);
  }

  lemma FileParts(a: seq<Byte>, b: seq<Byte>, c: seq<Byte>, d: seq<Byte>, e: seq<Byte>)
    ensures a + (b + c) + d + e == a + (b + (c + (d + e)))
  {
  }
}
