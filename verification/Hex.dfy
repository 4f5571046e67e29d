/** Two upper-case hexadecimal digits a byte, as `%02X` prints them. */
module Hex {
  import opened Bytes

  function Digit(d: bv8): bv8 {
    if d < 10 then d + 0x30 else d + 0x37
  }

  /** A digit as `%x` prints it. */
  function LowerDigit(d: bv8): bv8 {
    if d < 10 then d + 0x30 else d + 0x57
  }

  /** The value ASC_TO_INT gives a character: anything but a digit or A to F is zero. */
  function Value(c: bv8): bv8 {
    if 0x30 <= c <= 0x39 then c - 0x30 else if 0x41 <= c <= 0x46 then c - 0x37 else 0
  }

  function HexByte(b: bv8): (s: seq<bv8>)
    ensures |s| == 2
  {
    [Digit(b >> 4), Digit(b & 0xF)]
  }

  function HexWord(w: bv32): (s: seq<bv8>)
    ensures |s| == 8
  {
    var b := BeBytes(w);
    HexByte(b[0]) + HexByte(b[1]) + HexByte(b[2]) + HexByte(b[3])
  }

  /** The byte two characters stand for. */
  function Pair(c0: bv8, c1: bv8): bv8 {
    (Value(c0) << 4) | Value(c1)
  }

  const HEX_DIGITS: set<bv8> := {0x30, 0x31, 0x32, 0x33, 0x34, 0x35, 0x36, 0x37, 0x38, 0x39,
                                 0x41, 0x42, 0x43, 0x44, 0x45, 0x46}

  /** Printing a byte and reading it back; no digit is mistaken for a control character or a mark. */
  lemma HexByteRoundTrip(b: bv8)
    ensures var s := HexByte(b); Pair(s[0], s[1]) == b
    ensures forall i :: 0 <= i < 2 ==> HexByte(b)[i] in HEX_DIGITS
  {
  }

  function Shift4(n: bv32, d: bv8): bv32 {
    (n << 4) | d as bv32
  }

  function Shift8(n: bv32, b: bv8): bv32 {
    (n << 8) | b as bv32
  }

  /** A text of hexadecimal digits read as a number, in a 32-bit register. */
  function Number(text: seq<bv8>): bv32 {
    if text == [] then 0 else Shift4(Number(text[..|text| - 1]), Value(text[|text| - 1]))
  }

  lemma NumberNext(text: seq<bv8>, c: bv8)
    ensures Number(text + [c]) == Shift4(Number(text), Value(c))
  {
    hide Value, Shift4;
    assert (text + [c])[..|text|] == text;
  }

  lemma DigitRead(d: bv8)
    requires d < 16
    ensures Value(Digit(d)) == d
  {
  }

  lemma ByteShift(n: bv32, b: bv8)
    ensures b >> 4 < 16 && b & 0xF < 16 && Shift4(Shift4(n, b >> 4), b & 0xF) == Shift8(n, b)
  {
  }

  /** Each printed byte is the next eight bits of the number. */
  lemma NumberByte(text: seq<bv8>, b: bv8)
    ensures Number(text + HexByte(b)) == Shift8(Number(text), b)
  {
    ByteShift(Number(text), b);
    DigitRead(b >> 4);
    DigitRead(b & 0xF);
    hide Value, Digit, Shift4, Shift8, Number;
    var u, l := Digit(b >> 4), Digit(b & 0xF);
    NumberNext(text, u);
    NumberNext(text + [u], l);
    assert text + HexByte(b) == text + [u] + [l];
  }

  lemma FromNothing(b: bv8)
    ensures Shift8(Number([]), b) == b as bv32
  {
  }

  /** Two digits of a byte, read back as a number. */
  lemma NumberOfByte(b: bv8)
    ensures Number(HexByte(b)) == b as bv32
  {
    NumberByte([], b);
    FromNothing(b);
    hide HexByte, Number, Shift8;
    assert [] + HexByte(b) == HexByte(b);
  }

  lemma FourShifts(a: bv8, b: bv8, c: bv8, d: bv8)
    ensures Shift8(Shift8(Shift8(a as bv32, b), c), d) == BeWord(a, b, c, d)
  {
  }

  /** And the eight digits of a word. */
  lemma NumberOfWord(w: bv32)
    ensures Number(HexWord(w)) == w
  {
    var b := BeBytes(w);
    WordRoundTrip(w);
    FourShifts(b[0], b[1], b[2], b[3]);
    hide HexByte, Number, BeBytes, BeWord, Shift8;
    var t := HexByte(b[0]);
    NumberOfByte(b[0]);
    NumberByte(t, b[1]);
    NumberByte(t + HexByte(b[1]), b[2]);
    NumberByte(t + HexByte(b[1]) + HexByte(b[2]), b[3]);
  }

  lemma HexByteInjective(a: bv8, b: bv8)
    requires HexByte(a) == HexByte(b)
    ensures a == b
  {
    HexByteRoundTrip(a);
    HexByteRoundTrip(b);
    hide *;
  }

  lemma HexWordInjective(v: bv32, w: bv32)
    requires HexWord(v) == HexWord(w)
    ensures v == w
  {
    hide HexByte, BeBytes;
    var a, b, s := BeBytes(v), BeBytes(w), HexWord(v);
    assert s[..2] == HexByte(a[0]) == HexByte(b[0]);
    assert s[2..4] == HexByte(a[1]) == HexByte(b[1]);
    assert s[4..6] == HexByte(a[2]) == HexByte(b[2]);
    assert s[6..] == HexByte(a[3]) == HexByte(b[3]);
    HexByteInjective(a[0], b[0]);
    HexByteInjective(a[1], b[1]);
    HexByteInjective(a[2], b[2]);
    HexByteInjective(a[3], b[3]);
    WordRoundTrip(v);
    WordRoundTrip(w);
    assert a == b;
  }
}
