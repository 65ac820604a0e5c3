/**
 * A rule's address and interface fields, as the save program prints them and the rule parser reads them back.
 *
 * An address is held as its four bytes in network order. Looking up host and network names is the resolver's
 * business and is not modelled: a text that is not dotted is handed on.
 */
module SaveRestore {
  import opened Sequences
  import opened Text
  import Tokenizer

  type Byte = bv8
  type Addr = s: seq<Byte> | |s| == 4 witness [0, 0, 0, 0]

  const ZERO: Addr := [0, 0, 0, 0]
  const ONES: Addr := [0xff, 0xff, 0xff, 0xff]

  function And(a: Addr, b: Addr): Addr {
    [a[0] & b[0], a[1] & b[1], a[2] & b[2], a[3] & b[3]]
  }

  // ----- Numbers -----

  const ULL := 0x1_0000_0000_0000_0000

  predicate AllDigits(s: string, base: nat) {
    forall k :: 0 <= k < |s| ==> IsHex(s[k]) && DigitValue(s[k]) < base
  }

  function Unsigned(s: string): string {
    if s != "" && (s[0] == '-' || s[0] == '+') then s[1..] else s
  }

  /** The base that the C library chooses, and the digits after any prefix. */
  function Radix(s: string): (nat, string) {
    if |s| >= 3 && s[0] == '0' && (s[1] == 'x' || s[1] == 'X') && IsHex(s[2]) then (16, s[2..])
    else if s != "" && s[0] == '0' then (8, s)
    else (10, s)
  }

  /** `string_to_number`: the whole text must be one number, of at most `max`. */
  function StringToNumber(s: string, max: nat): Option<nat> {
    var t := s[Spaces(s)..];
    var (base, digits) := Radix(Unsigned(t));
    if digits == "" || !AllDigits(digits, base) then None
    else
      var v := Value(digits, base);
      if v >= ULL then None
      else
        var n := if t[0] == '-' then (ULL - v) % ULL else v;
        if n <= max then Some(n) else None
  }

  function Number(n: nat): string {
    Numeral(n, TEN)
  }

  lemma {:induction false} NumberLength(n: nat)
    requires n < 1000
    ensures |Number(n)| <= 3
  {
    if n >= 10 {
      var m := n / 10;
      assert Number(n) == Number(m) + [DigitChar(n % 10)];
      if m >= 10 {
        assert Number(m) == Number(m / 10) + [DigitChar(m % 10)];
        assert |Number(m / 10)| == 1;
      }
    }
  }

  lemma NumberDigits(n: nat)
    ensures AllDigits(Number(n), 10)
  {
  }

  /** A printed number is read back, whatever base its first digit suggests. */
  lemma NumberRead(n: nat, max: nat)
    requires n <= max < ULL
    ensures StringToNumber(Number(n), max) == Some(n)
  {
    var s := Number(n);
    NumeralValue(n, TEN);
    NumberDigits(n);
    NumeralLeading(n, TEN);
    assert IsDigit(s[0]) && Spaces(s) == 0 && s[0..] == s;
    if s[0] == '0' {
      assert n == 0 && s == "0";
      assert Value("0", 8) == 0 by { assert "0"[..0] == ""; }
    }
  }

  // ----- Dotted addresses -----

  const DOTTED_SIZE := 20

  function Zeros(n: nat): seq<Byte> {
    seq(n, _ => 0)
  }

  /** `string_to_number` for one byte. */
  function ByteOf(s: string): Option<Byte> {
    var n := StringToNumber(s, 255);
    if n.None? || n.value > 255 then None else Some(n.value as Byte)
  }

  /** The bytes left in `p` after those in `done`; a short address is filled up with zeros, a short mask is not. */
  function DottedFrom(p: string, done: seq<Byte>, isMask: bool): Option<Addr>
    requires |done| <= 3
    decreases 3 - |done|, 1
  {
    var q := if |done| == 3 then |p| else Until(p, {'.'});
    DottedWith(p, done, isMask, q, ByteOf(p[..q]))
  }

  /** The same, the next byte being `b`, given up to position `q`. */
  function DottedWith(p: string, done: seq<Byte>, isMask: bool, q: nat, b: Option<Byte>): Option<Addr>
    requires |done| <= 3 && q <= |p| && (|done| == 3 ==> q == |p|)
    decreases 3 - |done|, 0
  {
    if q == |p| && |done| < 3 && isMask then None
    else if b.None? then None
    else if q == |p| then Some(done + [b.value] + Zeros(3 - |done|))
    else DottedFrom(p[q + 1..], done + [b.value], isMask)
  }

  /** `__dotted_to_addr`, which looks at no more than its buffer holds. */
  function Dotted(s: string, isMask: bool): Option<Addr> {
    DottedFrom(if |s| >= DOTTED_SIZE then s[..DOTTED_SIZE - 1] else s, [], isMask)
  }

  function ByteText(b: Byte): string {
    Number(b as nat)
  }

  function Dots(a: Addr): string {
    ByteText(a[0]) + ("." + (ByteText(a[1]) + ("." + (ByteText(a[2]) + ("." + ByteText(a[3]))))))
  }

  lemma ByteRead(b: Byte)
    ensures ByteOf(ByteText(b)) == Some(b)
  {
    NumberRead(b as nat, 255);
  }

  lemma BytePart(b: Byte, rest: string, done: seq<Byte>, next: seq<Byte>, isMask: bool)
    requires |done| < 3 && next == done + [b]
    ensures DottedFrom(ByteText(b) + ("." + rest), done, isMask) == DottedFrom(rest, next, isMask)
  {
    var p := ByteText(b) + ("." + rest);
    var q := |ByteText(b)|;
    UntilAppend(ByteText(b), "." + rest, {'.'});
    assert p[..q] == ByteText(b) && p[q + 1..] == rest;
    ByteRead(b);
  }

  lemma LastByte(b: Byte, done: seq<Byte>, isMask: bool)
    requires |done| == 3
    ensures DottedFrom(ByteText(b), done, isMask) == Some(done + [b])
  {
    assert ByteText(b)[..|ByteText(b)|] == ByteText(b);
    ByteRead(b);
    assert done + [b] + Zeros(0) == done + [b];
  }

  lemma DotsShort(a: Addr)
    ensures |Dots(a)| < DOTTED_SIZE - 1
  {
    NumberLength(a[0] as nat);
    NumberLength(a[1] as nat);
    NumberLength(a[2] as nat);
    NumberLength(a[3] as nat);
  }

  lemma Prefixes(a: Addr)
    ensures a[..1] == [] + [a[0]] && a[..2] == a[..1] + [a[1]] && a[..3] == a[..2] + [a[2]] && a == a[..3] + [a[3]]
  {
  }

  lemma DotsRead(a: Addr, isMask: bool)
    ensures Dotted(Dots(a), isMask) == Some(a)
  {
    DotsShort(a);
    Prefixes(a);
    var t3 := ByteText(a[3]);
    var t2 := ByteText(a[2]) + ("." + t3);
    var t1 := ByteText(a[1]) + ("." + t2);
    BytePart(a[0], t1, [], a[..1], isMask);
    BytePart(a[1], t2, a[..1], a[..2], isMask);
    BytePart(a[2], t3, a[..2], a[..3], isMask);
    LastByte(a[3], a[..3], isMask);
  }

  // ----- Address and mask -----

  const HEADS: seq<Byte> := [0x00, 0x80, 0xc0, 0xe0, 0xf0, 0xf8, 0xfc, 0xfe, 0xff]

  function Head(bits: int): Byte {
    HEADS[if bits < 0 then 0 else if bits > 8 then 8 else bits]
  }

  /** The mask of `bits` leading ones. */
  function PrefixMask(bits: nat): Addr {
    [Head(bits), Head(bits - 8), Head(bits - 16), Head(bits - 24)]
  }

  function ParseMask(s: string): Option<Addr> {
    var d := Dotted(s, true);
    if d.Some? then d
    else
      var bits := StringToNumber(s, 32);
      if bits.None? then None else Some(PrefixMask(bits.value))
  }

  /** The position of the last slash, or the length. */
  function LastSlash(s: string): (k: nat)
    ensures k <= |s|
  {
    if '/' !in s then |s| else if s[|s| - 1] == '/' then |s| - 1 else LastSlash(s[..|s| - 1])
  }

  /** An address inside its mask, a bad mask, or a name to look up. */
  datatype Parsed = Parsed(addr: Addr, mask: Addr) | BadMask | Lookup(name: string, mask: Addr)

  const NAME_SIZE := 256

  /** The address named by `host`, masked. */
  function Host(host: string, mask: Addr): Parsed {
    var addr := Dotted(host, false);
    if addr.None? then Lookup(host, mask) else Parsed(And(addr.value, mask), mask)
  }

  function Masked(host: string, mask: Option<Addr>): Parsed {
    if mask.None? then BadMask else Host(if mask.value == ZERO then Dots(mask.value) else host, mask.value)
  }

  /** `parse_hostnetworkmask`; with an empty mask the name is not looked at, and read as "0.0.0.0". */
  function HostNetworkMask(name: string): Parsed {
    var buf := if |name| >= NAME_SIZE then name[..NAME_SIZE - 1] else name;
    var k := LastSlash(buf);
    Masked(buf[..k], if k < |buf| then ParseMask(buf[k + 1..]) else Some(ONES))
  }

  function AddressText(ip: Addr, mask: Addr): string {
    Dots(ip) + (if mask != ONES then "/" + Dots(mask) else "")
  }

  predicate Dotty(s: string) {
    forall k :: 0 <= k < |s| ==> IsDigit(s[k]) || s[k] == '.'
  }

  lemma DotsDotty(a: Addr)
    ensures Dotty(Dots(a))
  {
  }

  lemma {:induction false} SlashAt(a: string, b: string)
    requires '/' !in b
    ensures LastSlash(a + ("/" + b)) == |a|
    decreases |b|
  {
    var s := a + ("/" + b);
    assert s[|a|] == '/';
    if b != "" {
      assert s[..|s| - 1] == a + ("/" + b[..|b| - 1]);
      SlashAt(a, b[..|b| - 1]);
    }
  }

  lemma ZeroText()
    ensures "0.0.0.0" == Dots(ZERO)
  {
    assert ByteText(0) == "0";
  }

  lemma OnesMask(a: Addr)
    ensures And(a, ONES) == a
  {
  }

  lemma ZeroMask(a: Addr)
    ensures And(a, ZERO) == ZERO == And(ZERO, ZERO)
  {
  }

  lemma SlashCut(host: string, text: string)
    requires Dotty(text)
    ensures
      var s, k := host + ("/" + text), |host|;
      LastSlash(s) == k && s[..k] == host && s[k + 1..] == text
  {
    SlashAt(host, text);
  }

  lemma HostRead(host: string, ip: Addr, mask: Addr)
    requires Dotted(host, false) == Some(ip)
    ensures Host(host, mask) == Parsed(And(ip, mask), mask)
  {
  }

  lemma SlashMasked(host: string, text: string)
    requires Dotty(text) && |host| + 1 + |text| < NAME_SIZE
    ensures HostNetworkMask(host + ("/" + text)) == Masked(host, ParseMask(text))
  {
    SlashCut(host, text);
    SlashUsed(host + ("/" + text), |host|, host, text);
  }

  lemma SlashUsed(s: string, k: nat, host: string, text: string)
    requires |s| < NAME_SIZE && LastSlash(s) == k < |s| && s[..k] == host && s[k + 1..] == text
    ensures HostNetworkMask(s) == Masked(host, ParseMask(text))
  {
  }

  lemma MaskUsed(host: string, mask: Addr)
    ensures Masked(host, Some(mask)) == Host(if mask == ZERO then Dots(mask) else host, mask)
  {
  }

  lemma MaskedRead(host: string, text: string, ip: Addr, mask: Addr)
    requires Dotty(text) && |host| + 1 + |text| < NAME_SIZE
    requires Dotted(text, true) == Some(mask) && Dotted(host, false) == Some(ip)
    ensures HostNetworkMask(host + ("/" + text)) == Parsed(And(ip, mask), mask)
  {
    SlashMasked(host, text);
    MaskUsed(host, mask);
    if mask == ZERO {
      DotsRead(mask, false);
      HostRead(Dots(mask), mask, mask);
      ZeroMask(ip);
    } else {
      HostRead(host, ip, mask);
    }
  }

  lemma UnmaskedRead(host: string, ip: Addr)
    requires Dotty(host) && |host| < NAME_SIZE && Dotted(host, false) == Some(ip)
    ensures HostNetworkMask(host) == Parsed(ip, ONES)
  {
    assert '/' !in host && host[..|host|] == host;
    OnesMask(ip);
  }

  /** Printed and parsed, an address comes back inside its mask, whatever the mask. */
  lemma AddressRead(ip: Addr, mask: Addr)
    ensures HostNetworkMask(AddressText(ip, mask)) == Parsed(And(ip, mask), mask)
  {
    DotsShort(ip);
    DotsRead(ip, false);
    if mask == ONES {
      DotsDotty(ip);
      UnmaskedRead(Dots(ip), ip);
      OnesMask(ip);
      assert Dots(ip) + "" == Dots(ip);
    } else {
      DotsShort(mask);
      DotsDotty(mask);
      DotsRead(mask, true);
      MaskedRead(Dots(ip), Dots(mask), ip, mask);
    }
  }

  /** What an omitted address stands for. */
  const ANYWHERE := "0.0.0.0/0"

  lemma BitsRead(s: string, bits: nat)
    requires StringToNumber(s, 32) == Some(bits) && '.' !in s && |s| < DOTTED_SIZE
    ensures ParseMask(s) == Some(PrefixMask(bits))
  {
    UntilIs(s, {'.'}, |s|);
  }

  lemma SlashBits(host: string, text: string, bits: nat)
    requires StringToNumber(text, 32) == Some(bits) && Dotty(text) && '.' !in text && |text| < DOTTED_SIZE
    requires |host| + 1 + |text| < NAME_SIZE
    ensures
      var mask := PrefixMask(bits);
      HostNetworkMask(host + ("/" + text)) == Host(if mask == ZERO then Dots(mask) else host, mask)
  {
    BitsRead(text, bits);
    SlashMasked(host, text);
    MaskUsed(host, PrefixMask(bits));
  }

  lemma AnywhereRead(any: string)
    requires any == ANYWHERE
    ensures HostNetworkMask(any) == Parsed(ZERO, ZERO)
  {
    var zero := Number(0);
    NumberRead(0, 32);
    assert any == Dots(ZERO) + ("/" + zero) by { ZeroText(); }
    DotsShort(ZERO);
    SlashBits(Dots(ZERO), zero, 0);
    DotsRead(ZERO, false);
    HostRead(Dots(ZERO), ZERO, ZERO);
  }

  // ----- An option on the saved line -----

  function OptionWords(prefix: string, invert: bool, text: string): seq<string> {
    if invert then [prefix, "!", text] else [prefix, text]
  }

  function OptionText(prefix: string, invert: bool, text: string): string {
    prefix + " " + (if invert then "! " else "") + text + " "
  }

  predicate Word(s: string) {
    0 < |s| < Tokenizer.BUFFER_SIZE && Tokenizer.Bare(s)
  }

  lemma PrintTwo(a: string, b: string)
    requires Word(a) && Word(b)
    ensures Tokenizer.Print([a, b]) == a + " " + b + " "
  {
    assert [a, b][1..] == [b] && [b][1..] == [];
    assert Tokenizer.Print([b]) == b + " " + "";
    assert b + " " + "" == b + " ";
  }

  lemma PrintThree(a: string, b: string, c: string)
    requires Word(a) && Word(b) && Word(c)
    ensures Tokenizer.Print([a, b, c]) == a + " " + (b + " ") + c + " "
  {
    PrintTwo(b, c);
    assert [a, b, c][1..] == [b, c];
    assert Tokenizer.Print([a, b, c]) == a + " " + (b + " " + c + " ");
  }

  /** The tokenizer finds the words of the option. */
  lemma OptionSplit(prefix: string, invert: bool, text: string)
    requires Word(prefix) && Word(text)
    ensures Tokenizer.Lex(OptionText(prefix, invert, text), 0, false, [])
         == Tokenizer.Lexed(OptionWords(prefix, invert, text), Tokenizer.Done)
  {
    var ws := OptionWords(prefix, invert, text);
    if invert {
      assert Word("!");
      PrintThree(prefix, "!", text);
      assert "!" + " " == "! ";
    } else {
      PrintTwo(prefix, text);
      assert prefix + " " + "" + text + " " == prefix + " " + text + " ";
    }
    assert forall k :: 0 <= k < |ws| ==> Word(ws[k]) && Tokenizer.Survives(ws[k]);
    Tokenizer.RoundTrip(ws);
  }

  datatype Given = Given(invert: bool, text: string)

  /** The argument of an option: an exclamation mark before it inverts, and must be followed by an argument. */
  function ReadOption(words: seq<string>): Option<Given> {
    if |words| < 2 then None
    else if words[1] != "!" then Some(Given(false, words[1]))
    else if |words| < 3 then None
    else Some(Given(true, words[2]))
  }

  lemma OptionRead(prefix: string, invert: bool, text: string)
    ensures ReadOption(OptionWords(prefix, invert, text)) == Some(Given(invert, text)) <==> (invert || text != "!")
  {
  }

  // ----- Saving and restoring an address -----

  /** `print_ip` */
  function SaveAddress(prefix: string, ip: Addr, mask: Addr, invert: bool): string {
    if mask == ZERO && ip == ZERO && !invert then "" else OptionText(prefix, invert, AddressText(ip, mask))
  }

  datatype AddressField = AddressField(addr: Addr, mask: Addr, invert: bool)

  function MakeAddress(p: Parsed, invert: bool): Option<AddressField> {
    if p.Parsed? then Some(AddressField(p.addr, p.mask, invert)) else None
  }

  /** What the parser makes of a saved address option, or of its absence. */
  function RestoreAddress(line: string): Option<AddressField> {
    var words := Tokenizer.Lex(line, 0, false, []).words;
    if words == [] then MakeAddress(HostNetworkMask(ANYWHERE), false)
    else
      var given := ReadOption(words);
      if given.None? then None else MakeAddress(HostNetworkMask(given.value.text), given.value.invert)
  }

  lemma AddressWord(ip: Addr, mask: Addr)
    ensures Word(AddressText(ip, mask)) && AddressText(ip, mask)[0] != '!'
  {
    DotsShort(ip);
    DotsShort(mask);
    DotsDotty(ip);
    DotsDotty(mask);
    var s := AddressText(ip, mask);
    assert IsDigit(s[0]);
    forall c | c in s ensures !Tokenizer.Blank(c) && c != '"' {
      assert c in Dots(ip) || c == '/' || c in Dots(mask);
    }
  }

  lemma NothingSaved()
    ensures RestoreAddress("") == Some(AddressField(ZERO, ZERO, false))
  {
    AnywhereRead(ANYWHERE);
  }

  /** A saved address is restored inside its mask, contiguous or not, with its inversion. */
  lemma AddressRestored(prefix: string, ip: Addr, mask: Addr, invert: bool)
    requires Word(prefix)
    ensures RestoreAddress(SaveAddress(prefix, ip, mask, invert)) == Some(AddressField(And(ip, mask), mask, invert))
  {
    if mask == ZERO && ip == ZERO && !invert {
      NothingSaved();
      ZeroMask(ip);
    } else {
      var text := AddressText(ip, mask);
      AddressWord(ip, mask);
      OptionSplit(prefix, invert, text);
      OptionRead(prefix, invert, text);
      AddressRead(ip, mask);
    }
  }

  /** So the field is kept exactly when the address lies inside its mask. */
  lemma AddressKept(prefix: string, ip: Addr, mask: Addr, invert: bool)
    requires Word(prefix)
    ensures RestoreAddress(SaveAddress(prefix, ip, mask, invert)) == Some(AddressField(ip, mask, invert))
       <==> And(ip, mask) == ip
  {
    AddressRestored(prefix, ip, mask, invert);
  }

  // ----- Interfaces -----

  const IFNAMSIZ := 16

  type Name = s: seq<char> | |s| == IFNAMSIZ witness seq(IFNAMSIZ, _ => '\0')
  type NameMask = s: seq<Byte> | |s| == IFNAMSIZ witness seq(IFNAMSIZ, _ => 0)

  /** An interface field: the name padded with zeros, and which of its bytes must match. */
  datatype Via = Via(name: Name, mask: NameMask)

  function Padded(s: string): Name
    requires |s| <= IFNAMSIZ
  {
    s + seq(IFNAMSIZ - |s|, _ => '\0')
  }

  function Leading(n: nat): NameMask
    requires n <= IFNAMSIZ
  {
    seq(n, _ => 0xff) + seq(IFNAMSIZ - n, _ => 0)
  }

  predicate Wild(arg: string) {
    arg != "" && arg[|arg| - 1] == '+'
  }

  /** `parse_interface` */
  function ParseInterface(arg: string): Option<Via> {
    if |arg| + 1 > IFNAMSIZ then None
    else Some(Via(Padded(arg), Leading(if arg == "" then 0 else if Wild(arg) then |arg| - 1 else |arg| + 1)))
  }

  /** The name as printed from byte `i` on. */
  function NameText(v: Via, i: nat): string
    requires i > 0 || v.mask[0] != 0
    decreases IFNAMSIZ - i
  {
    if i >= IFNAMSIZ then ""
    else if v.mask[i] != 0 then (if v.name[i] != '\0' then [v.name[i]] else "") + NameText(v, i + 1)
    else if v.name[i - 1] != '\0' then "+"
    else ""
  }

  /** `print_iface` */
  function SaveInterface(prefix: string, v: Via, invert: bool): string {
    if v.mask[0] == 0 then "" else OptionText(prefix, invert, NameText(v, 0))
  }

  datatype InterfaceField = InterfaceField(via: Via, invert: bool)

  /** What an omitted interface stands for: nothing need match. */
  function AnyInterface(): Via {
    Via(Padded(""), Leading(0))
  }

  function RestoreInterface(line: string): Option<InterfaceField> {
    var words := Tokenizer.Lex(line, 0, false, []).words;
    if words == [] then Some(InterfaceField(AnyInterface(), false))
    else
      var given := ReadOption(words);
      if given.None? then None
      else
        var via := ParseInterface(given.value.text);
        if via.None? then None else Some(InterfaceField(via.value, given.value.invert))
  }

  predicate NoZero(s: string) {
    forall k :: 0 <= k < |s| ==> s[k] != '\0'
  }

  lemma {:induction false} ExactText(arg: string, v: Via, i: nat)
    requires 0 < |arg| < IFNAMSIZ && NoZero(arg) && !Wild(arg) && ParseInterface(arg) == Some(v) && i <= |arg|
    ensures NameText(v, i) == arg[i..]
    decreases |arg| - i
  {
    if i < |arg| {
      ExactText(arg, v, i + 1);
      assert v.name[i] == arg[i] && v.mask[i] == 0xff;
      assert [arg[i]] + arg[i + 1..] == arg[i..];
    } else {
      assert v.mask[i] == 0xff && v.name[i] == '\0';
      assert NameText(v, i + 1) == "";
    }
  }

  lemma {:induction false} WildText(arg: string, v: Via, i: nat)
    requires 1 < |arg| < IFNAMSIZ && NoZero(arg) && Wild(arg) && ParseInterface(arg) == Some(v) && i < |arg|
    ensures NameText(v, i) == arg[i..]
    decreases |arg| - i
  {
    if i < |arg| - 1 {
      WildText(arg, v, i + 1);
      assert v.name[i] == arg[i] && v.mask[i] == 0xff;
      assert [arg[i]] + arg[i + 1..] == arg[i..];
    } else {
      assert v.mask[i] == 0 && v.name[i - 1] == arg[i - 1];
      assert arg[i..] == "+";
    }
  }

  lemma NameBack(arg: string, v: Via)
    requires |arg| < IFNAMSIZ && NoZero(arg) && arg != "" && arg != "+" && ParseInterface(arg) == Some(v)
    ensures v.mask[0] == 0xff && NameText(v, 0) == arg
  {
    if Wild(arg) {
      WildText(arg, v, 0);
    } else {
      ExactText(arg, v, 0);
    }
    assert arg[0..] == arg;
  }

  lemma PlusDiffers(v: Via)
    requires ParseInterface("+") == Some(v)
    ensures v.mask[0] == 0 && v != AnyInterface()
  {
    assert v.name[0] == '+' && AnyInterface().name[0] == '\0';
  }

  /** A shorter name does not give the same field. */
  lemma ShorterDiffers(arg: string, v: Via, w: string)
    requires |w| < |arg| < IFNAMSIZ && NoZero(arg) && ParseInterface(arg) == Some(v)
    ensures ParseInterface(w) != Some(v)
  {
    assert Padded(arg)[|w|] == arg[|w|] && Padded(w)[|w|] == '\0';
  }

  lemma WordThen(line: string, i: nat, w: string, rest: string)
    requires Word(w) && i <= |line| && line[i..] == w + " " + rest
    ensures
      var j := i + |w| + 1;
      j <= |line| && line[j..] == rest
      && Tokenizer.Lex(line, i, false, []) == Tokenizer.Cons(w, Tokenizer.Lex(line, j, false, []))
  {
    assert line[i..i + |w| + 1] == line[i..][..|w| + 1] == w + [' '];
    assert line[i + |w| + 1..] == line[i..][|w| + 1..];
    Tokenizer.BareRead(line, i, w);
  }

  /** What stands before the option's text is read; what the text is read as comes after it. */
  lemma BeforeText(prefix: string, invert: bool, text: string) returns (i: nat)
    requires Word(prefix)
    ensures
      var line := OptionText(prefix, invert, text);
      && i <= |line| && line[i..] == text + " "
      && Tokenizer.Lex(line, 0, false, []).words
         == (if invert then [prefix, "!"] else [prefix]) + Tokenizer.Lex(line, i, false, []).words
  {
    var line := OptionText(prefix, invert, text);
    var rest := (if invert then "! " else "") + text + " ";
    assert line[0..] == prefix + " " + rest;
    WordThen(line, 0, prefix, rest);
    i := |prefix| + 1;
    if invert {
      AfterBang(line, i, "!", text + " ");
      var words := Tokenizer.Lex(line, i + 2, false, []).words;
      assert [prefix] + (["!"] + words) == [prefix, "!"] + words;
      i := i + 2;
    } else {
      assert rest == text + " ";
    }
  }

  lemma AfterBang(line: string, i: nat, bang: string, rest: string)
    requires bang == "!" && i <= |line| && line[i..] == "! " + rest
    ensures
      && i + 2 <= |line| && line[i + 2..] == rest
      && Tokenizer.Lex(line, i, false, []) == Tokenizer.Cons(bang, Tokenizer.Lex(line, i + 2, false, []))
  {
    assert bang + " " == "! ";
    WordThen(line, i, bang, rest);
  }

  /** A name with a blank or a quote in it is not restored. */
  lemma SpecialNameLost(prefix: string, arg: string, v: Via, invert: bool)
    requires Word(prefix) && |arg| < IFNAMSIZ && NoZero(arg) && ParseInterface(arg) == Some(v) && !Tokenizer.Bare(arg)
    ensures RestoreInterface(SaveInterface(prefix, v, invert)) != Some(InterfaceField(v, invert))
  {
    NameBack(arg, v);
    var line := OptionText(prefix, invert, arg);
    var i := BeforeText(prefix, invert, arg);
    Tokenizer.SpecialMisread(line, i, arg);
    FirstWordShort(line, prefix, invert, Tokenizer.Lex(line, i, false, []).words, arg, v);
  }

  lemma FirstWordShort(line: string, prefix: string, invert: bool, rest: seq<string>, arg: string, v: Via)
    requires |arg| < IFNAMSIZ && NoZero(arg) && ParseInterface(arg) == Some(v)
    requires Tokenizer.Lex(line, 0, false, []).words == (if invert then [prefix, "!"] else [prefix]) + rest
    requires rest != [] ==> |rest[0]| < |arg|
    ensures RestoreInterface(line) != Some(InterfaceField(v, invert))
  {
    if rest != [] {
      ShorterDiffers(arg, v, rest[0]);
    }
  }

  /**
   * A saved interface is restored, exact or wildcard, exactly when its name has no blank or quote in it and is not a
   * lone plus sign, and when the inversion can be told: there is a name to print it before, and the name is not
   * itself an exclamation mark.
   */
  lemma InterfaceKept(prefix: string, arg: string, v: Via, invert: bool)
    requires Word(prefix) && |arg| < IFNAMSIZ && NoZero(arg) && ParseInterface(arg) == Some(v)
    ensures RestoreInterface(SaveInterface(prefix, v, invert)) == Some(InterfaceField(v, invert))
       <==> Tokenizer.Bare(arg) && arg != "+" && (arg == "" ==> !invert) && (arg == "!" ==> invert)
  {
    if arg == "" {
      assert v == AnyInterface() && v.mask[0] == 0;
    } else if arg == "+" {
      PlusDiffers(v);
    } else if Tokenizer.Bare(arg) {
      NameBack(arg, v);
      OptionSplit(prefix, invert, arg);
      OptionRead(prefix, invert, arg);
    } else {
      SpecialNameLost(prefix, arg, v, invert);
    }
  }

  // ----- The loops -----

  /** The bytes from `k` on are filled with zeros. */
  method FillZeros(addr: array<Byte>, k: nat)
    requires k <= addr.Length == 4
    modifies addr
    ensures addr[..] == old(addr[..k]) + Zeros(4 - k)
  {
    var i := k;
    while i < 4
      invariant k <= i <= 4
      invariant addr[..i] == old(addr[..k]) + Zeros(i - k)
    {
      addr[i] := 0;
      i := i + 1;
    }
    assert addr[..] == addr[..4];
  }

  lemma DottedShort(p: string, done: seq<Byte>, isMask: bool)
    requires |done| == 3 || Until(p, {'.'}) == |p|
    requires |done| <= 3
    ensures
      var n := ByteOf(p);
      DottedFrom(p, done, isMask)
      == if n.None? || (|done| < 3 && isMask) then None else Some(done + [n.value] + Zeros(3 - |done|))
  {
    assert p[..|p|] == p;
  }

  /** Stores byte `i`. */
  method Store(addr: array<Byte>, i: nat, b: Byte)
    requires i < addr.Length == 4
    modifies addr
    ensures addr[..i + 1] == old(addr[..i]) + [b]
  {
    addr[i] := b;
  }

  /** The last byte given, and zeros for those left out. */
  method FinishDotted(p: string, isMask: bool, addr: array<Byte>, i: nat) returns (ok: bool)
    requires addr.Length == 4 && (i == 3 || (i < 3 && Until(p, {'.'}) == |p|))
    modifies addr
    ensures
      var r := DottedFrom(p, old(addr[..i]), isMask);
      ok == r.Some? && (ok ==> addr[..] == r.value)
  {
    DottedShort(p, addr[..i], isMask);
    if i < 3 && isMask {
      return false;
    }
    var n := ByteOf(p);
    if n.None? {
      return false;
    }
    Store(addr, i, n.value);
    FillZeros(addr, i + 1);
    ok := true;
  }

  lemma NextPart(p: string, done: seq<Byte>, isMask: bool, n: Option<Byte>)
    requires |done| < 3 && Until(p, {'.'}) < |p| && n == ByteOf(p[..Until(p, {'.'})])
    ensures
      DottedFrom(p, done, isMask)
      == if n.None? then None else DottedFrom(p[Until(p, {'.'}) + 1..], done + [n.value], isMask)
  {
    assert DottedFrom(p, done, isMask) == DottedWith(p, done, isMask, Until(p, {'.'}), n);
  }

  /** `__dotted_to_addr` */
  method ReadDotted(dotted: string, isMask: bool, addr: array<Byte>) returns (ok: bool)
    requires addr.Length == 4
    modifies addr
    ensures
      var r := Dotted(dotted, isMask);
      ok == r.Some? && (ok ==> addr[..] == r.value)
  {
    ghost var wanted := Dotted(dotted, isMask);
    var p := if |dotted| >= DOTTED_SIZE then dotted[..DOTTED_SIZE - 1] else dotted;
    assert addr[..0] == [];
    var i := 0;
    while i < 3
      invariant 0 <= i <= 3
      invariant DottedFrom(p, addr[..i], isMask) == wanted
    {
      var q := Until(p, {'.'});
      if q == |p| {
        break;
      }
      var n := ByteOf(p[..q]);
      NextPart(p, addr[..i], isMask, n);
      if n.None? {
        return false;
      }
      Store(addr, i, n.value);
      p := p[q + 1..];
      i := i + 1;
    }
    ok := FinishDotted(p, isMask, addr, i);
  }

  /** `parse_interface` */
  method ReadInterface(arg: string, name: array<char>, mask: array<Byte>) returns (ok: bool)
    requires name.Length == IFNAMSIZ && mask.Length == IFNAMSIZ && (name as object) != (mask as object)
    modifies name, mask
    ensures ok == ParseInterface(arg).Some?
    ensures ok ==> name[..] == ParseInterface(arg).value.name && mask[..] == ParseInterface(arg).value.mask
  {
    var len := |arg|;
    if len + 1 > IFNAMSIZ {
      return false;
    }
    var fixed := if len == 0 then 0 else if arg[len - 1] == '+' then len - 1 else len + 1;
    ghost var wanted := Via(Padded(arg), Leading(fixed));
    var i := 0;
    while i < IFNAMSIZ
      invariant 0 <= i <= IFNAMSIZ
      invariant forall j :: 0 <= j < i ==> name[j] == wanted.name[j] && mask[j] == wanted.mask[j]
    {
      PaddedAt(arg, i);
      LeadingAt(fixed, i);
      name[i] := if i < len then arg[i] else '\0';
      mask[i] := if i < fixed then 0xff else 0;
      i := i + 1;
    }
    assert name[..] == wanted.name && mask[..] == wanted.mask;
    ok := true;
  }

  lemma PaddedAt(s: string, i: nat)
    requires |s| <= IFNAMSIZ && i < IFNAMSIZ
    ensures Padded(s)[i] == if i < |s| then s[i] else '\0'
  {
  }

  lemma LeadingAt(n: nat, i: nat)
    requires n <= IFNAMSIZ && i < IFNAMSIZ
    ensures Leading(n)[i] == if i < n then 0xff else 0
  {
  }

  /** With `out` printed, the name from byte `i` on completes it to `whole`. */
  ghost predicate Completes(out: string, v: Via, i: nat, whole: string) {
    (i > 0 || v.mask[0] != 0) && out + NameText(v, i) == whole
  }

  lemma NextByte(out: string, v: Via, i: nat, whole: string)
    requires i < IFNAMSIZ && Completes(out, v, i, whole)
    ensures v.mask[i] != 0 ==> Completes(if v.name[i] != '\0' then out + [v.name[i]] else out, v, i + 1, whole)
    ensures v.mask[i] == 0 ==> whole == if v.name[i - 1] != '\0' then out + "+" else out
  {
    if v.mask[i] != 0 {
      var rest := NameText(v, i + 1);
      assert out + ([v.name[i]] + rest) == out + [v.name[i]] + rest;
      assert "" + rest == rest;
    } else {
      assert out + "" == out;
    }
  }

  /** The loop of `print_iface` over the name. */
  method PrintName(name: array<char>, mask: array<Byte>) returns (out: string)
    requires name.Length == IFNAMSIZ && mask.Length == IFNAMSIZ && mask[0] != 0
    ensures out == NameText(Via(name[..], mask[..]), 0)
  {
    ghost var v := Via(name[..], mask[..]);
    ghost var whole := NameText(v, 0);
    out := "";
    var i: nat := 0;
    assert Completes(out, v, i, whole) by { assert "" + whole == whole; }
    while i < IFNAMSIZ
      invariant i <= IFNAMSIZ && Completes(out, v, i, whole)
    {
      NextByte(out, v, i, whole);
      if mask[i] != 0 {
        if name[i] != '\0' {
          out := out + [name[i]];
        }
      } else {
        if name[i - 1] != '\0' {
          out := out + "+";
        }
        return;
      }
      i := i + 1;
    }
    assert out + "" == out;
  }
}
