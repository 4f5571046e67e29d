/** Running a check register over a byte stream. */
module CrcFold {
  function Run<R>(f: (R, bv8) -> R, r: R, data: seq<bv8>): R {
    if data == [] then r else f(Run(f, r, data[..|data| - 1]), data[|data| - 1])
  }

  /** The register can be handed from one chunk to the next. */
  lemma {:induction false} RunConcat<R>(f: (R, bv8) -> R, r: R, a: seq<bv8>, b: seq<bv8>)
    ensures Run(f, r, a + b) == Run(f, Run(f, r, a), b)
  {
    if b == [] {
      assert a + b == a;
    } else {
      var n := |b| - 1;
      assert (a + b)[..|a + b| - 1] == a + b[..n];
      RunConcat(f, r, a, b[..n]);
    }
  }

  lemma RunNext<R>(f: (R, bv8) -> R, r: R, data: seq<bv8>, n: nat)
    requires n < |data|
    ensures Run(f, r, data[..n + 1]) == f(Run(f, r, data[..n]), data[n])
  {
    assert data[..n + 1][..n] == data[..n];
  }
}

/** The check of the Modbus RTU frame, software/das/das_util.c. */
module Crc16 {
  import opened Bytes
  import opened CrcFold
  import opened CrcTables

  /** One bit of the reflected polynomial 0xA001: section 6.2.2 of MODBUS over Serial Line V1.02. */
  function Bit(r: bv16): bv16 {
    if r & 1 == 1 then (r >> 1) ^ 0xA001 else r >> 1
  }

  function EightBits(r: bv16): bv16 {
    Bit(Bit(Bit(Bit(Bit(Bit(Bit(Bit(r))))))))
  }

  function Feed(r: bv16, b: bv8): bv16 {
    r ^ b as bv16
  }

  /** One byte, bit by bit. */
  function Byte(r: bv16, b: bv8): bv16 {
    EightBits(Feed(r, b))
  }

  function Crc(data: seq<bv8>): bv16 {
    Run(Byte, 0xFFFF, data)
  }

  function Hi(r: bv16): bv8 {
    (r >> 8) as bv8
  }

  function Lo(r: bv16): bv8 {
    (r & 0xFF) as bv8
  }

  function HiEntry(i: bv8): bv8 {
    CrcHiShape();
    CRC_HI[High(i)][CrcTables.Low(i)]
  }

  function LoEntry(i: bv8): bv8 {
    CrcLoShape();
    CRC_LO[High(i)][CrcTables.Low(i)]
  }

  /** What eight shifts do to a byte alone: each of its bits contributes a constant. */
  function Linear(x: bv8): bv16 {
    (if x & 0x01 != 0 then 0xC0C1 else 0) ^ (if x & 0x02 != 0 then 0xC181 else 0)
    ^ (if x & 0x04 != 0 then 0xC301 else 0) ^ (if x & 0x08 != 0 then 0xC601 else 0)
    ^ (if x & 0x10 != 0 then 0xCC01 else 0) ^ (if x & 0x20 != 0 then 0xD801 else 0)
    ^ (if x & 0x40 != 0 then 0xF001 else 0) ^ (if x & 0x80 != 0 then 0xA001 else 0)
  }

  lemma HiLow(i: bv8)
    requires i < 0x80
    ensures HiEntry(i) == Lo(Linear(i))
  {
  }

  lemma HiHigh(i: bv8)
    requires i >= 0x80
    ensures HiEntry(i) == Lo(Linear(i))
  {
  }

  lemma LoLow(i: bv8)
    requires i < 0x80
    ensures LoEntry(i) == Hi(Linear(i))
  {
  }

  lemma LoHigh(i: bv8)
    requires i >= 0x80
    ensures LoEntry(i) == Hi(Linear(i))
  {
  }

  /** The two tables hold the two bytes of eight shifts. */
  lemma TablesAreBitwise(i: bv8)
    ensures HiEntry(i) == Lo(Linear(i)) && LoEntry(i) == Hi(Linear(i))
  {
    hide HiEntry, LoEntry, Linear, Hi, Lo;
    if i < 0x80 {
      HiLow(i);
      LoLow(i);
    } else {
      HiHigh(i);
      LoHigh(i);
    }
  }

  /** Eight shifts act on the low byte and move the high byte down. */
  lemma ByteAtATime(r: bv16)
    ensures EightBits(r) == Linear(Lo(r)) ^ (r >> 8)
  {
  }

  lemma HiOfStep(r: bv16)
    ensures Hi(EightBits(r)) == Hi(Linear(Lo(r)))
  {
    ByteAtATime(r);
    hide EightBits, Linear;
  }

  lemma LoOfStep(r: bv16)
    ensures Lo(EightBits(r)) == ByteXor(Hi(r), Lo(Linear(Lo(r))))
  {
    ByteAtATime(r);
    hide EightBits, Linear;
  }

  lemma FeedParts(r: bv16, b: bv8)
    ensures Lo(Feed(r, b)) == ByteXor(Lo(r), b) && Hi(Feed(r, b)) == Hi(r)
  {
  }

  /** One step of the two-register loop is one byte of the bitwise definition. */
  lemma TableStep(r: bv16, b: bv8)
    ensures Lo(Byte(r, b)) == ByteXor(Hi(r), HiEntry(ByteXor(Lo(r), b)))
    ensures Hi(Byte(r, b)) == LoEntry(ByteXor(Lo(r), b))
  {
    hide Hi, Lo, EightBits, Linear, Feed, ByteXor, HiEntry, LoEntry;
    FeedParts(r, b);
    HiOfStep(Feed(r, b));
    LoOfStep(Feed(r, b));
    TablesAreBitwise(ByteXor(Lo(r), b));
  }

  lemma InitialBytes()
    ensures Hi(0xFFFF) == 0xFF && Lo(0xFFFF) == 0xFF
  {
  }

  lemma Joined(r: bv16)
    ensures (Hi(r) as bv16 << 8) | Lo(r) as bv16 == r
  {
  }

  /** `das_crc16`: the register in two bytes, each looked up in its table. */
  method DasCrc16(data: seq<bv8>) returns (r: bv16)
    ensures r == Crc(data)
  {
    hide Byte, HiEntry, LoEntry, Hi, Lo, ByteXor;
    var hi: bv8, lo: bv8 := 0xFF, 0xFF;
    assert Hi(0xFFFF) == 0xFF && Lo(0xFFFF) == 0xFF by { InitialBytes(); }
    for n := 0 to |data|
      invariant hi == Hi(Run(Byte, 0xFFFF, data[..n])) && lo == Lo(Run(Byte, 0xFFFF, data[..n]))
    {
      RunNext(Byte, 0xFFFF, data, n);
      TableStep(Run(Byte, 0xFFFF, data[..n]), data[n]);
      var index := ByteXor(lo, data[n]);
      lo := ByteXor(hi, HiEntry(index));
      hi := LoEntry(index);
    }
    assert data[..|data|] == data;
    r := (hi as bv16 << 8) | lo as bv16;
    Joined(Crc(data));
  }

  /** Appending a register low byte first, and nothing else, brings it to zero. */
  lemma ResidueZero(r: bv16, b0: bv8, b1: bv8)
    ensures Byte(Byte(r, b0), b1) == 0 <==> b0 == Lo(r) && b1 == Hi(r)
  {
  }

  /** The RTU test `das_crc16(frame, len) == 0`: the last two bytes are the check of the rest, low byte first. */
  lemma FrameCheck(frame: seq<bv8>)
    requires |frame| >= 2
    ensures var n := |frame| - 2; var c := Crc(frame[..n]);
            Crc(frame) == 0 <==> frame[n..] == [Lo(c), Hi(c)]
  {
    hide Byte, Hi, Lo;
    var n := |frame| - 2;
    RunNext(Byte, 0xFFFF, frame, n);
    RunNext(Byte, 0xFFFF, frame, n + 1);
    assert frame[..n + 2] == frame;
    ResidueZero(Crc(frame[..n]), frame[n], frame[n + 1]);
  }
}

/** The check of files and update images, software/das/board/rtcrc32.c. */
module Crc32 {
  import opened Bytes
  import opened CrcFold
  import opened CrcTables

  /** One bit of the reflected polynomial 0xEDB88320: section 8 of RFC 1952. */
  function Bit(r: bv32): bv32 {
    if r & 1 == 1 then (r >> 1) ^ 0xEDB88320 else r >> 1
  }

  function EightBits(r: bv32): bv32 {
    Bit(Bit(Bit(Bit(Bit(Bit(Bit(Bit(r))))))))
  }

  function Feed(r: bv32, b: bv8): bv32 {
    r ^ b as bv32
  }

  function LowByte(r: bv32): bv8 {
    (r & 0xFF) as bv8
  }

  function Byte(r: bv32, b: bv8): bv32 {
    EightBits(Feed(r, b))
  }

  function Not(r: bv32): bv32 {
    !r
  }

  /** The check of `data` continued from `crc`: inverted going in and coming out. */
  function Crc(crc: bv32, data: seq<bv8>): bv32 {
    Not(Run(Byte, Not(crc), data))
  }

  function Entry(i: bv8): bv32 {
    Crc32TabShape();
    CRC32_TAB[High(i)][Low(i)]
  }

  /** CRC32_TAB[(crc ^ b) & 0xFF] ^ (crc >> 8) */
  function TableByte(r: bv32, b: bv8): bv32 {
    Entry(ByteXor(LowByte(r), b)) ^ (r >> 8)
  }

  /** What eight shifts do to a byte alone. */
  function Linear(x: bv8): bv32 {
    (if x & 0x01 != 0 then 0x77073096 else 0) ^ (if x & 0x02 != 0 then 0xEE0E612C else 0)
    ^ (if x & 0x04 != 0 then 0x076DC419 else 0) ^ (if x & 0x08 != 0 then 0x0EDB8832 else 0)
    ^ (if x & 0x10 != 0 then 0x1DB71064 else 0) ^ (if x & 0x20 != 0 then 0x3B6E20C8 else 0)
    ^ (if x & 0x40 != 0 then 0x76DC4190 else 0) ^ (if x & 0x80 != 0 then 0xEDB88320 else 0)
  }

  lemma EntryLow(i: bv8)
    requires i < 0x80
    ensures Entry(i) == Linear(i)
  {
  }

  lemma EntryHigh(i: bv8)
    requires i >= 0x80
    ensures Entry(i) == Linear(i)
  {
  }

  /** What four shifts do to the low four bits. */
  function Nibble(x: bv32): bv32 {
    (if x & 1 != 0 then 0x1DB71064 else 0) ^ (if x & 2 != 0 then 0x3B6E20C8 else 0)
    ^ (if x & 4 != 0 then 0x76DC4190 else 0) ^ (if x & 8 != 0 then 0xEDB88320 else 0)
  }

  function FourBits(r: bv32): bv32 {
    Bit(Bit(Bit(Bit(r))))
  }

  function FourTable(r: bv32): bv32 {
    Nibble(r) ^ (r >> 4)
  }

  function EightTable(r: bv32): bv32 {
    Linear(LowByte(r)) ^ (r >> 8)
  }

  lemma FourAtATime(r: bv32)
    ensures FourBits(r) == FourTable(r)
  {
  }

  lemma TwoNibbles(r: bv32)
    ensures FourTable(FourTable(r)) == EightTable(r)
  {
  }

  lemma TwoFours(r: bv32)
    ensures EightBits(r) == FourBits(FourBits(r))
  {
    hide Bit;
  }

  lemma ByteAtATime(r: bv32)
    ensures EightBits(r) == EightTable(r)
  {
    hide EightBits, FourBits, FourTable, EightTable;
    TwoFours(r);
    FourAtATime(r);
    FourAtATime(FourBits(r));
    TwoNibbles(r);
  }

  lemma LowParts(r: bv32, b: bv8)
    ensures LowByte(Feed(r, b)) == ByteXor(LowByte(r), b) && Feed(r, b) >> 8 == r >> 8
  {
  }

  lemma EntryIsLinear(i: bv8)
    ensures Entry(i) == Linear(i)
  {
    hide Entry, Linear;
    if i < 0x80 {
      EntryLow(i);
    } else {
      EntryHigh(i);
    }
  }

  lemma TableStep(r: bv32, b: bv8)
    ensures TableByte(r, b) == Byte(r, b)
  {
    hide Entry, Linear, EightBits, Feed, LowByte, ByteXor;
    ByteAtATime(Feed(r, b));
    LowParts(r, b);
    EntryIsLinear(ByteXor(LowByte(r), b));
  }

  /** `ulRTCrc32`. */
  method RtCrc32(crc: bv32, data: seq<bv8>) returns (r: bv32)
    ensures r == Crc(crc, data)
  {
    hide Byte, TableByte, Not;
    r := Not(crc);
    for n := 0 to |data|
      invariant r == Run(Byte, Not(crc), data[..n])
    {
      RunNext(Byte, Not(crc), data, n);
      TableStep(r, data[n]);
      r := TableByte(r, data[n]);
    }
    assert data[..|data|] == data;
    r := Not(r);
  }

  lemma NotTwice(r: bv32)
    ensures Not(Not(r)) == r
  {
  }

  /** The check of a concatenation, from the check of its first part. */
  lemma CrcConcat(crc: bv32, a: seq<bv8>, b: seq<bv8>)
    ensures Crc(crc, a + b) == Crc(Crc(crc, a), b)
    ensures Crc(crc, []) == crc
  {
    hide Byte, Not;
    RunConcat(Byte, Not(crc), a, b);
    NotTwice(Run(Byte, Not(crc), a));
    NotTwice(crc);
  }

  // ----- the residue, which sees both inversions -----

  /** The lowest byte of the inverted register. */
  function NotLow(r: bv32): bv8 {
    (!r & 0xFF) as bv8
  }

  /** The register without its lowest byte. */
  function Down(r: bv32): bv32 {
    r >> 8
  }

  /** Where a byte leads the constant part of a register that is fed its own inverted bytes. */
  function NextConstant(c: bv32): bv32 {
    Xor(Linear(!LowByte(c)), Down(c))
  }

  lemma FedOwnLow(c: bv32, r: bv32)
    ensures LowByte(Feed(c ^ r, NotLow(r))) == !LowByte(c)
  {
  }

  lemma FedOwnHigh(c: bv32, r: bv32)
    ensures Feed(c ^ r, NotLow(r)) >> 8 == (c >> 8) ^ (r >> 8)
  {
  }

  lemma FedOwn(c: bv32, r: bv32)
    ensures var f := Feed(Xor(c, r), NotLow(r)); LowByte(f) == !LowByte(c) && Down(f) == Xor(Down(c), Down(r))
  {
    FedOwnLow(c, r);
    FedOwnHigh(c, r);
    hide Feed, NotLow, LowByte;
  }

  lemma EightTableIs(r: bv32)
    ensures EightTable(r) == Xor(Linear(LowByte(r)), Down(r))
  {
  }

  lemma XorAssociates(a: bv32, b: bv32, c: bv32)
    ensures Xor(a, Xor(b, c)) == Xor(Xor(a, b), c)
  {
  }

  lemma OwnByte(c: bv32, r: bv32)
    ensures Byte(Xor(c, r), NotLow(r)) == Xor(NextConstant(c), Down(r))
  {
    hide EightBits, EightTable, Linear, Feed, LowByte, Xor, NotLow, Down;
    var f := Feed(Xor(c, r), NotLow(r));
    ByteAtATime(f);
    EightTableIs(f);
    FedOwn(c, r);
    XorAssociates(Linear(!LowByte(c)), Down(c), Down(r));
  }

  lemma OwnBytes(r: bv32)
    ensures LeBytes(Not(r)) == [NotLow(r), NotLow(Down(r)), NotLow(Down(Down(r))), NotLow(Down(Down(Down(r))))]
  {
  }

  lemma OwnStarts(r: bv32)
    ensures Xor(0, r) == r && Down(Down(Down(Down(r)))) == 0
  {
  }

  lemma OwnEnds()
    ensures Xor(NextConstant(NextConstant(NextConstant(NextConstant(0)))), 0) == Not(0x2144DF1C)
  {
  }

  lemma RunFour(r: bv32, a: bv8, b: bv8, c: bv8, d: bv8)
    ensures Run(Byte, r, [a, b, c, d]) == Byte(Byte(Byte(Byte(r, a), b), c), d)
  {
    hide Byte;
    assert [a, b, c, d][..3] == [a, b, c] && [a, b, c][..2] == [a, b] && [a, b][..1] == [a] && [a][..0] == [];
    assert Run(Byte, r, [a]) == Byte(r, a);
    assert Run(Byte, r, [a, b]) == Byte(Byte(r, a), b);
    assert Run(Byte, r, [a, b, c]) == Byte(Byte(Byte(r, a), b), c);
  }

  lemma ResidueRun(r: bv32)
    ensures Run(Byte, r, LeBytes(Not(r))) == Not(0x2144DF1C)
  {
    hide Byte, Xor, NotLow, NextConstant, Not, LeBytes, Down, Run;
    OwnBytes(r);
    OwnStarts(r);
    OwnEnds();
    RunFour(r, NotLow(r), NotLow(Down(r)), NotLow(Down(Down(r))), NotLow(Down(Down(Down(r)))));
    var c1 := NextConstant(0);
    OwnByte(0, r);
    OwnByte(c1, Down(r));
    OwnByte(NextConstant(c1), Down(Down(r)));
    OwnByte(NextConstant(NextConstant(c1)), Down(Down(Down(r))));
  }

  /** Behind any data its own check, low-order byte first, leaves the constant of the standard. */
  lemma Residue(data: seq<bv8>)
    ensures Crc(0, data + LeBytes(Crc(0, data))) == 0x2144DF1C
  {
    var r := Run(Byte, Not(0), data);
    NotTwice(0x2144DF1C);
    hide Byte, Not, LeBytes;
    RunConcat(Byte, Not(0), data, LeBytes(Not(r)));
    ResidueRun(r);
  }

  /** A single zero byte is seen. */
  lemma ZeroSeen()
    ensures Crc(0, [0]) == 0xD202EF8D
  {
    assert [0 as bv8][..0] == [];
  }
}

/** The check of the building-data frames, software/das/sdccp/cc_bjdc.c. */
module CrcCcitt {
  import opened Bytes
  import opened CrcFold
  import opened CrcTables

  function Shl(r: bv16): bv16 {
    r << 1
  }

  predicate Top(r: bv16) {
    r & 0x8000 != 0
  }

  /** One bit of the polynomial 0x1021, most significant bit first. */
  function Bit(r: bv16): bv16 {
    if Top(r) then HalfXor(Shl(r), 0x1021) else Shl(r)
  }

  function EightBits(r: bv16): bv16 {
    Bit(Bit(Bit(Bit(Bit(Bit(Bit(Bit(r))))))))
  }

  /** A byte in the upper half of a register. */
  function Up(b: bv8): bv16 {
    b as bv16 << 8
  }

  function Byte(r: bv16, b: bv8): bv16 {
    EightBits(HalfXor(r, Up(b)))
  }

  function Crc(data: seq<bv8>): bv16 {
    Run(Byte, 0, data)
  }

  function Entry(i: bv8): bv16 {
    CcTableShape();
    CC_TABLE[High(i)][Low(i)]
  }

  /** The body of the loop of `CC_GetCrc16`. */
  function TableByte(r: bv16, b: bv8): bv16 {
    HalfXor(r << 8, Entry(b ^ (r >> 8) as bv8))
  }

  function Linear(x: bv8): bv16 {
    (if x & 0x01 != 0 then 0x1021 else 0) ^ (if x & 0x02 != 0 then 0x2042 else 0)
    ^ (if x & 0x04 != 0 then 0x4084 else 0) ^ (if x & 0x08 != 0 then 0x8108 else 0)
    ^ (if x & 0x10 != 0 then 0x1231 else 0) ^ (if x & 0x20 != 0 then 0x2462 else 0)
    ^ (if x & 0x40 != 0 then 0x48C4 else 0) ^ (if x & 0x80 != 0 then 0x9188 else 0)
  }

  lemma EntryLow(i: bv8)
    requires i < 0x80
    ensures Entry(i) == Linear(i)
  {
  }

  lemma EntryHigh(i: bv8)
    requires i >= 0x80
    ensures Entry(i) == Linear(i)
  {
  }

  lemma LinearBits(x: bv8)
    ensures EightBits(Up(x)) == Linear(x)
  {
  }

  lemma ShiftXor(a: bv16, b: bv16)
    ensures Shl(HalfXor(a, b)) == HalfXor(Shl(a), Shl(b))
  {
  }

  lemma TopXor(a: bv16, b: bv16)
    requires !Top(b)
    ensures Top(HalfXor(a, b)) == Top(a)
  {
  }

  lemma XorSwap(a: bv16, b: bv16, c: bv16)
    ensures HalfXor(HalfXor(a, b), c) == HalfXor(HalfXor(a, c), b)
  {
  }

  /** A part with its top bit clear is only shifted. */
  lemma BitXor(a: bv16, b: bv16)
    requires !Top(b)
    ensures Bit(HalfXor(a, b)) == HalfXor(Bit(a), Shl(b))
  {
    hide HalfXor, Shl, Top;
    ShiftXor(a, b);
    TopXor(a, b);
    XorSwap(Shl(a), Shl(b), 0x1021);
  }

  /** The lower byte of a register stays clear of the top for eight shifts. */
  lemma LowByte(r: bv16)
    ensures var l := r & 0xFF; var l2 := Shl(Shl(l)); var l4 := Shl(Shl(l2)); var l6 := Shl(Shl(l4));
            && !Top(l) && !Top(Shl(l)) && !Top(l2) && !Top(Shl(l2))
            && !Top(l4) && !Top(Shl(l4)) && !Top(l6) && !Top(Shl(l6))
            && Shl(Shl(l6)) == r << 8
  {
  }

  lemma FourXor(a: bv16, l: bv16)
    requires !Top(l) && !Top(Shl(l)) && !Top(Shl(Shl(l))) && !Top(Shl(Shl(Shl(l))))
    ensures Bit(Bit(Bit(Bit(HalfXor(a, l))))) == HalfXor(Bit(Bit(Bit(Bit(a)))), Shl(Shl(Shl(Shl(l)))))
  {
    hide Bit, HalfXor, Shl, Top;
    BitXor(a, l);
    BitXor(Bit(a), Shl(l));
    BitXor(Bit(Bit(a)), Shl(Shl(l)));
    BitXor(Bit(Bit(Bit(a))), Shl(Shl(Shl(l))));
  }

  lemma EightXor(a: bv16, l: bv16)
    requires !Top(l) && !Top(Shl(l)) && !Top(Shl(Shl(l))) && !Top(Shl(Shl(Shl(l))))
    requires var m := Shl(Shl(Shl(Shl(l)))); !Top(m) && !Top(Shl(m)) && !Top(Shl(Shl(m))) && !Top(Shl(Shl(Shl(m))))
    ensures var m := Shl(Shl(Shl(Shl(l)))); EightBits(HalfXor(a, l)) == HalfXor(EightBits(a), Shl(Shl(Shl(Shl(m)))))
  {
    hide Bit, HalfXor, Shl, Top;
    FourXor(a, l);
    FourXor(Bit(Bit(Bit(Bit(a)))), Shl(Shl(Shl(Shl(l)))));
  }

  lemma Halves(r: bv16, b: bv8)
    ensures HalfXor(r, Up(b)) == HalfXor(Up(b ^ (r >> 8) as bv8), r & 0xFF)
    ensures forall x: bv16, y: bv16 :: HalfXor(x, y) == HalfXor(y, x)
  {
  }

  lemma TableStep(r: bv16, b: bv8)
    ensures TableByte(r, b) == Byte(r, b)
  {
    LowByte(r);
    Halves(r, b);
    hide Entry, Linear, EightBits, HalfXor, Up, Shl, Top;
    var i := b ^ (r >> 8) as bv8;
    EightXor(Up(i), r & 0xFF);
    LinearBits(i);
    if i < 0x80 {
      EntryLow(i);
    } else {
      EntryHigh(i);
    }
  }

  /** `CC_GetCrc16`. */
  method GetCrc16(data: seq<bv8>) returns (r: bv16)
    ensures r == Crc(data)
  {
    hide Byte, TableByte;
    r := 0;
    for n := 0 to |data|
      invariant r == Run(Byte, 0, data[..n])
    {
      RunNext(Byte, 0, data, n);
      TableStep(r, data[n]);
      r := TableByte(r, data[n]);
    }
    assert data[..|data|] == data;
  }
}
