/** The SHA-1 shaped digest of software/das/reg/rtu_sha.c: the structure of FIPS 180-4
    with the repository's own initial value and round constants. */
module Sha1Spec {
  import opened Bytes
  import opened BlockFold

  /** Five chaining or working words. */
  datatype Chain = Chain(a: bv32, b: bv32, c: bv32, d: bv32, e: bv32)

  const INIT := Chain(0x124a5cbf, 0x36edb5fc, 0xf5d7810a, 0x25864753, 0xadcfedbe)

  /** The round constants, by round. */
  function K(t: nat): bv32 {
    if t < 20 then 0x15fc7893 else if t < 40 then 0x7182fcae
    else if t < 60 then 0x97fceda0 else 0xfb7450ca
  }

  function Ch(x: bv32, y: bv32, z: bv32): bv32 {
    (x & y) ^ (!x & z)
  }

  function Parity(x: bv32, y: bv32, z: bv32): bv32 {
    x ^ y ^ z
  }

  function Maj(x: bv32, y: bv32, z: bv32): bv32 {
    (x & y) ^ (x & z) ^ (y & z)
  }

  /** Section 4.1.1 of FIPS 180-4. */
  function Logical(t: nat, x: bv32, y: bv32, z: bv32): bv32 {
    if t < 20 then Ch(x, y, z) else if t < 40 then Parity(x, y, z)
    else if t < 60 then Maj(x, y, z) else Parity(x, y, z)
  }

  /** Each of the four constants serves twenty rounds on end. */
  lemma TwentyRoundsEach(t: nat)
    requires t < 80
    ensures K(t) == [0x15fc7893, 0x7182fcae, 0x97fceda0, 0xfb7450ca][t / 20]
  {
    assert t < 20 || 20 <= t < 40 || 40 <= t < 60 || 60 <= t;
  }

  /** Ch takes y where x has a one, and z where it has a zero. */
  lemma ChSelects(x: bv32, y: bv32, z: bv32)
    ensures Ch(x, y, z) & x == y & x && Ch(x, y, z) & !x == z & !x
  {
  }

  /** Maj goes with y and z where they agree, and with x where they differ. */
  lemma MajVotes(x: bv32, y: bv32, z: bv32)
    ensures Maj(x, y, z) & !(y ^ z) == y & !(y ^ z) && Maj(x, y, z) & (y ^ z) == x & (y ^ z)
  {
  }

  /** Parity is the difference of x and y where z has a zero, and its complement where it has a one. */
  lemma ParityFlips(x: bv32, y: bv32, z: bv32)
    ensures Parity(x, y, z) & !z == (x ^ y) & !z && Parity(x, y, z) & z == !(x ^ y) & z
  {
  }

  function BlockWord(data: Block, t: nat): bv32
    requires t < 16
  {
    BeWord(data[4 * t], data[4 * t + 1], data[4 * t + 2], data[4 * t + 3])
  }

  function Xor4(p: bv32, q: bv32, r: bv32, s: bv32): bv32 {
    p ^ q ^ r ^ s
  }

  /** The 80-word message schedule: step 1 of section 6.1.2. */
  function W(data: Block, t: nat): bv32 {
    if t < 16 then BlockWord(data, t)
    else Rotl(Xor4(W(data, t - 3), W(data, t - 8), W(data, t - 14), W(data, t - 16)), 1)
  }

  /** The schedule can be run backwards: any one of the four words is the combination of the others and the result. */
  lemma Xor4Back(p: bv32, q: bv32, r: bv32, s: bv32)
    ensures var x := Xor4(p, q, r, s);
            Xor4(x, q, r, s) == p && Xor4(p, x, r, s) == q && Xor4(p, q, x, s) == r && Xor4(p, q, r, x) == s
  {
  }

  function Temp(rotated: bv32, f: bv32, e: bv32, k: bv32, w: bv32): bv32 {
    rotated + f + e + k + w
  }

  /** One round: step 3 of section 6.1.2, every word moving to the next name. */
  function Step(r: Chain, t: nat, w: bv32): Chain {
    Chain(Temp(Rotl(r.a, 5), Logical(t, r.b, r.c, r.d), r.e, K(t), w), r.a, Rotl(r.b, 30), r.c, r.d)
  }

  function Rounds(data: Block, t: nat, r: Chain): Chain
    decreases t, data
  {
    if t == 0 then r else Step(Rounds(data, t - 1, r), t - 1, W(data, t - 1))
  }

  function Compress(h: Chain, data: Block): Chain {
    var r := Rounds(data, 80, h);
    Chain(Add(h.a, r.a), Add(h.b, r.b), Add(h.c, r.c), Add(h.d, r.d), Add(h.e, r.e))
  }

  /** A 64-bit integer, most significant byte first. */
  function Be64(v: nat): (b: seq<bv8>)
    ensures |b| == 8
  {
    [ByteOf(v / 0x100_0000_0000_0000), ByteOf(v / 0x1_0000_0000_0000), ByteOf(v / 0x100_0000_0000),
     ByteOf(v / 0x1_0000_0000), ByteOf(v / 0x100_0000), ByteOf(v / 0x1_0000), ByteOf(v / 0x100), ByteOf(v)]
  }

  /** Zero bytes between the 0x80 and the length. */
  function ZeroPad(n: nat): nat {
    (119 - n % 64) % 64
  }

  /** The padded message, for a given length field. */
  function PadWith(m: seq<bv8>, bits: nat): (p: seq<bv8>)
    ensures |p| % 64 == 0
  {
    m + [0x80] + Zeros(ZeroPad(|m|)) + Be64(bits)
  }

  /** Section 5.1.1 of FIPS 180-4: the length field is the bit count. */
  function Pad(m: seq<bv8>): seq<bv8> {
    PadWith(m, 8 * |m| % TWO64)
  }

  /** The bit count `rtu_sha1_final` can express: its block counter has 32 bits. */
  function CodeBits(n: nat): nat {
    8 * (64 * U32(n / 64) + n % 64)
  }

  function DigestBytes(h: Chain): (d: seq<bv8>)
    ensures |d| == 20
  {
    BeBytes(h.a) + BeBytes(h.b) + BeBytes(h.c) + BeBytes(h.d) + BeBytes(h.e)
  }

  function Digest(padded: seq<bv8>): seq<bv8> {
    DigestBytes(Fold(Compress, INIT, padded))
  }
}

/** The streaming context and its refinement of the one-shot definition. */
module Sha1 {
  import Modular
  import opened Bytes
  import opened BlockFold
  import opened Sha1Spec

  /** The macros F1 and F3; F2 and F4 are Parity as it stands. */
  function F1(x: bv32, y: bv32, z: bv32): bv32 {
    z ^ (x & (y ^ z))
  }

  function F3(x: bv32, y: bv32, z: bv32): bv32 {
    (x & y) | (z & (x | y))
  }

  function F(t: nat, x: bv32, y: bv32, z: bv32): bv32 {
    if t < 20 then F1(x, y, z) else if t < 40 then Parity(x, y, z)
    else if t < 60 then F3(x, y, z) else Parity(x, y, z)
  }

  /** e += rotated + f + k + m */
  function AddInto(e: bv32, rotated: bv32, f: bv32, k: bv32, m: bv32): bv32 {
    e + (rotated + f + k + m)
  }

  /** The macro R: new values of its last and its second register. */
  function R(a: bv32, b: bv32, c: bv32, d: bv32, e: bv32, t: nat, m: bv32): (bv32, bv32) {
    (AddInto(e, Rotl(a, 5), F(t, b, c, d), K(t), m), Rotl(b, 30))
  }

  lemma ChForms(x: bv32, y: bv32, z: bv32)
    ensures z ^ (x & (y ^ z)) == (x & y) ^ (!x & z)
  {
  }

  lemma MajForms(x: bv32, y: bv32, z: bv32)
    ensures (x & y) | (z & (x | y)) == (x & y) ^ (x & z) ^ (y & z)
  {
  }

  lemma F1IsCh(x: bv32, y: bv32, z: bv32)
    ensures F1(x, y, z) == Ch(x, y, z)
  {
    ChForms(x, y, z);
  }

  lemma F3IsMaj(x: bv32, y: bv32, z: bv32)
    ensures F3(x, y, z) == Maj(x, y, z)
  {
    MajForms(x, y, z);
  }

  lemma LogicalForms(t: nat, x: bv32, y: bv32, z: bv32)
    ensures F(t, x, y, z) == Logical(t, x, y, z)
  {
    hide F1, F3, Ch, Maj, Parity;
    F1IsCh(x, y, z);
    F3IsMaj(x, y, z);
  }

  lemma SumForms(e: bv32, p: bv32, q: bv32, k: bv32, w: bv32)
    ensures AddInto(e, p, q, k, w) == Temp(p, q, e, k, w)
  {
  }

  /** A round that renames nothing is the FIPS round with its registers relabelled. */
  lemma RenamedRound(data: Block, t: nat, h: Chain, a: bv32, b: bv32, c: bv32, d: bv32, e: bv32)
    requires Rounds(data, t, h) == Chain(a, b, c, d, e)
    ensures var r := R(a, b, c, d, e, t, W(data, t));
            Rounds(data, t + 1, h) == Chain(r.0, a, r.1, c, d)
  {
    hide Logical, F, Rotl, K, W, AddInto, Temp;
    LogicalForms(t, b, c, d);
    SumForms(e, Rotl(a, 5), Logical(t, b, c, d), K(t), W(data, t));
  }

  lemma Xor4Reversed(p: bv32, q: bv32, r: bv32, s: bv32)
    ensures Xor4(p, q, r, s) == Xor4(s, r, q, p)
  {
  }

  lemma PadLength(n: nat, blocks: nat, count: nat)
    requires n == 64 * blocks + count && count < 64
    ensures ZeroPad(n) == if count < 56 then 55 - count else 63 - count + 56
  {
  }

  lemma ZerosJoin(front: seq<bv8>, n: nat, m: nat)
    ensures front + Zeros(n) + Zeros(m) == front + Zeros(n + m)
  {
  }

  /** A 32-bit integer, most significant byte first. */
  function WordBytes(v: nat): (b: seq<bv8>)
    ensures |b| == 4
  {
    [ByteOf(v / 0x100_0000), ByteOf(v / 0x1_0000), ByteOf(v / 0x100), ByteOf(v)]
  }

  lemma LowByte(high: nat, low: nat)
    ensures ByteOf(256 * high + low) == ByteOf(low)
  {
    assert (256 * high + low) % 256 == low % 256;
  }

  lemma HalvesBytes(msb: nat, lsb: nat)
    requires msb < TWO32 && lsb < TWO32
    ensures Be64(msb * TWO32 + lsb) == WordBytes(msb) + WordBytes(lsb)
  {
    hide ByteOf;
    var v := msb * TWO32 + lsb;
    assert v / 0x100_0000_0000_0000 == msb / 0x100_0000;
    assert v / 0x1_0000_0000_0000 == msb / 0x1_0000;
    assert v / 0x100_0000_0000 == msb / 0x100;
    assert v / 0x1_0000_0000 == msb;
    assert v / 0x100_0000 == 256 * msb + lsb / 0x100_0000;
    assert v / 0x1_0000 == 256 * (msb * 256) + lsb / 0x1_0000;
    assert v / 0x100 == 256 * (msb * 0x1_0000) + lsb / 0x100;
    LowByte(msb, lsb / 0x100_0000);
    LowByte(msb * 256, lsb / 0x1_0000);
    LowByte(msb * 0x1_0000, lsb / 0x100);
    LowByte(msb * 0x100_0000, lsb);
  }

  lemma BlockCount(n: nat, blocks: nat, count: nat)
    requires n == 64 * blocks + count && count < 64
    ensures n / 64 == blocks && n % 64 == count
  {
  }

  /** 8 * (64 * t + count) in two 32-bit halves, by the shifts and the carry of the C code. */
  method ShiftedCount(nblocks: nat, count: nat) returns (msb: nat, lsb: nat)
    requires nblocks < TWO32 && count < 64
    ensures lsb < TWO32 && msb < TWO32
    ensures msb * TWO32 + lsb == 8 * (64 * nblocks + count)
  {
    hide U32;
    var t: int := nblocks;
    lsb := U32(t * 64);
    var hi: int := t / 0x400_0000;
    U32Split(t * 64, hi, 64 * (t - hi * 0x400_0000));
    t := lsb;
    U32Split(lsb + count, 0, lsb + count);
    lsb := U32(lsb + count);
    if lsb < t {
      hi := hi + 1;
    }
    t := lsb;
    U32Split(8 * t, t / 0x2000_0000, 8 * (t - t / 0x2000_0000 * 0x2000_0000));
    lsb := U32(8 * t);
    U32Split(8 * hi, 0, 8 * hi);
    hi := U32(8 * hi);
    assert hi % 8 == 0 && t / 0x2000_0000 < 8;  // so the bitwise or below is an addition
    msb := hi + t / 0x2000_0000;
  }

  /** What x[16] holds before round t: the block, then the last sixteen words of the schedule. */
  ghost predicate Rolled(x: seq<bv32>, data: Block, t: nat) {
    && |x| == 16
    && (t < 16 ==> forall j :: 0 <= j < 16 ==> x[j] == W(data, j))
    && (t >= 16 ==> forall j :: t - 16 <= j < t ==> x[j % 16] == W(data, j))
  }

  method LoadWords(x: array<bv32>, data: Block)
    requires x.Length == 16
    modifies x
    ensures Rolled(x[..], data, 0)
  {
    hide BeWord;
    var i := 0;
    while i < 16
      invariant 0 <= i <= 16
      invariant forall j :: 0 <= j < i ==> x[j] == W(data, j)
    {
      x[i] := BeWord(data[4 * i], data[4 * i + 1], data[4 * i + 2], data[4 * i + 3]);
      i := i + 1;
    }
  }

  /** Sixteen successive indices fall in sixteen different places. */
  lemma Slots(t: nat)
    requires t >= 16
    ensures (t - 16) % 16 == t % 16
    ensures forall j :: t - 16 < j < t ==> j % 16 != t % 16
  {
    forall j | t - 16 < j < t
      ensures j % 16 != t % 16
    {
      assert t - j == 16 * (t / 16 - j / 16) + (t % 16 - j % 16);
    }
  }

  /** The word of round t: read as loaded below round 16, rolled in place by M from there on. */
  method NextWord(x: array<bv32>, t: nat, ghost data: Block) returns (w: bv32)
    requires Rolled(x[..], data, t)
    modifies x
    ensures w == W(data, t) && Rolled(x[..], data, t + 1)
  {
    hide Rotl, Xor4, BlockWord;
    if t >= 16 {
      Slots(t);
      Xor4Reversed(W(data, t - 16), W(data, t - 14), W(data, t - 8), W(data, t - 3));
      var tm := Xor4(x[t % 16], x[(t - 14) % 16], x[(t - 8) % 16], x[(t - 3) % 16]);
      x[t % 16] := Rotl(tm, 1);
    }
    w := x[t % 16];
  }

  /** One expansion of R, with the register it adds into and the one it rotates as results. */
  method Round(x: array<bv32>, t: nat, a: bv32, b: bv32, c: bv32, d: bv32, e: bv32,
               ghost data: Block, ghost h: Chain)
    returns (sum: bv32, turned: bv32)
    requires Rolled(x[..], data, t)
    requires Rounds(data, t, h) == Chain(a, b, c, d, e)
    modifies x
    ensures Rolled(x[..], data, t + 1)
    ensures Rounds(data, t + 1, h) == Chain(sum, a, turned, c, d)
  {
    hide W, R, Rolled;
    var m := NextWord(x, t, data);
    RenamedRound(data, t, h, a, b, c, d, e);
    var r := R(a, b, c, d, e, t, m);
    sum, turned := r.0, r.1;
  }

  /** The 80 expansions of R: the registers keep their places and the names rotate. */
  method EightyRounds(x: array<bv32>, h: Chain, ghost data: Block) returns (r: Chain)
    requires Rolled(x[..], data, 0)
    modifies x
    ensures r == Rounds(data, 80, h)
  {
    assert Rounds(data, 0, h) == h;
    hide *;
    var Chain(a, b, c, d, e) := h;
    for g := 0 to 16
      invariant Rolled(x[..], data, 5 * g)
      invariant Rounds(data, 5 * g, h) == Chain(a, b, c, d, e)
    {
      var t := 5 * g;
      e, b := Round(x, t, a, b, c, d, e, data, h);
      d, a := Round(x, t + 1, e, a, b, c, d, data, h);
      c, e := Round(x, t + 2, d, e, a, b, c, data, h);
      b, d := Round(x, t + 3, c, d, e, a, b, data, h);
      a, c := Round(x, t + 4, b, c, d, e, a, data, h);
    }
    r := Chain(a, b, c, d, e);
  }

  class Context {
    var h0: bv32
    var h1: bv32
    var h2: bv32
    var h3: bv32
    var h4: bv32
    var nblocks: nat
    const buf: array<bv8>
    var count: nat

    ghost var message: seq<bv8>  // everything written since Init
    ghost var blocks: nat        // whole blocks compressed since Init

    function Chaining(): Chain
      reads this
    {
      Chain(h0, h1, h2, h3, h4)
    }

    ghost predicate Valid()
      reads this, buf
    {
      && buf.Length == 64 && count <= 64
      && |message| == 64 * blocks + count
      && nblocks == U32(blocks)
      && Chaining() == Fold(Compress, INIT, message[..64 * blocks])
      && buf[..count] == message[64 * blocks..]
    }

    constructor ()
      ensures buf.Length == 64 && fresh(buf)
    {
      buf := new bv8[64];
    }

    method Init()
      requires buf.Length == 64
      modifies this
      ensures Valid() && message == []
    {
      h0, h1, h2, h3, h4 := 0x124a5cbf, 0x36edb5fc, 0xf5d7810a, 0x25864753, 0xadcfedbe;
      nblocks, count := 0, 0;
      message, blocks := [], 0;
    }

    method Transform(data: Block)
      modifies `h0, `h1, `h2, `h3, `h4
      ensures Chaining() == Compress(old(Chaining()), data)
    {
      hide Add, Rounds;
      var x := new bv32[16];
      LoadWords(x, data);
      var r := EightyRounds(x, Chaining(), data);
      h0, h1, h2, h3, h4 := Add(h0, r.a), Add(h1, r.b), Add(h2, r.c), Add(h3, r.d), Add(h4, r.e);
    }

    /** `rtu_sha1_write(hd, NULL, 0)`: compress the buffer when it is full. */
    method Flush()
      requires Valid()
      modifies this
      ensures Valid() && message == old(message)
      ensures count == (if old(count) == 64 then 0 else old(count)) && count < 64
    {
      hide Compress, U32, Fold;
      if count == 64 {
        U32Add(blocks, 1);
        assert message[..64 * (blocks + 1)] == message[..64 * blocks] + buf[..];
        FoldBlock(Compress, INIT, message[..64 * blocks], buf[..]);
        Transform(buf[..]);
        count := 0;
        nblocks := U32(nblocks + 1);
        blocks := blocks + 1;
      }
    }

    /** One byte into the buffer: `hd->buf[hd->count++] = *inbuf++`. */
    method Store(b: bv8)
      requires Valid() && count < 64
      modifies `count, `message, buf
      ensures Valid() && count == old(count) + 1 && message == old(message) + [b]
    {
      hide Fold;
      buf[count] := b;
      count := count + 1;
      message := message + [b];
      assert message[..64 * blocks] == old(message)[..64 * blocks];
    }

    /** A whole block straight from the input. */
    method Direct(data: Block)
      requires Valid() && count == 0
      modifies this
      ensures Valid() && count == 0 && message == old(message) + data
    {
      hide Compress, U32, Fold;
      U32Add(blocks, 1);
      assert message[..64 * blocks] == message;
      FoldBlock(Compress, INIT, message, data);
      Transform(data);
      count := 0;
      nblocks := U32(nblocks + 1);
      blocks := blocks + 1;
      message := message + data;
      assert message[..64 * blocks] == message && message[64 * blocks..] == [] == buf[..0];
    }

    /** The byte loop both ends of `rtu_sha1_write` use: bytes go in until either side is exhausted. */
    method Fill(inbuf: seq<bv8>, from: nat) returns (p: nat)
      requires Valid() && from <= |inbuf|
      modifies `count, `message, buf
      ensures Valid() && from <= p <= |inbuf| && message == old(message) + inbuf[from..p]
      ensures count == old(count) + (p - from) && (p == |inbuf| || count == 64) && count <= 64
    {
      hide Fold, Compress, U32;
      p := from;
      while p < |inbuf| && count < 64
        invariant Valid() && from <= p <= |inbuf| && message == old(message) + inbuf[from..p]
        invariant count == old(count) + (p - from)
      {
        Store(inbuf[p]);
        p := p + 1;
      }
    }

    method Write(inbuf: seq<bv8>)
      requires Valid()
      modifies this, buf
      ensures Valid() && count < 64 && message == old(message) + inbuf
    {
      hide *;
      Flush();
      var p := 0;
      if count != 0 {
        p := Fill(inbuf, 0);
        Flush();
        if p == |inbuf| {
          return;
        }
      }
      while |inbuf| - p >= 64
        invariant Valid() && count == 0 && p <= |inbuf| && message == old(message) + inbuf[..p]
      {
        Direct(inbuf[p..p + 64]);
        p := p + 64;
      }
      p := Fill(inbuf, p);
    }

    /** The bit counter of the final block, from the block count and the bytes left over. */
    method BitCount() returns (msb: nat, lsb: nat)
      requires Valid() && count < 64
      ensures lsb < TWO32 && msb < TWO32
      ensures msb * TWO32 + lsb == CodeBits(|message|)
    {
      BlockCount(|message|, blocks, count);
      msb, lsb := ShiftedCount(nblocks, count);
    }

    /** `while( hd->count < limit ) hd->buf[hd->count++] = 0` */
    method ZeroTo(limit: nat)
      requires Valid() && count <= limit <= 64
      modifies `count, `message, buf
      ensures Valid() && count == limit && message == old(message) + Zeros(limit - old(count))
    {
      hide Fold, Compress, U32;
      while count < limit
        invariant Valid() && count <= limit && message == old(message) + Zeros(count - old(count))
      {
        Store(0);
      }
    }

    /** The second block of a long padding starts with zeros, put there without counting them. */
    method ClearFront()
      requires buf.Length == 64
      modifies buf
      ensures buf[..56] == Zeros(56)
    {
      for i := 0 to 56
        invariant forall j :: 0 <= j < i ==> buf[j] == 0
      {
        buf[i] := 0;
      }
    }

    /** With room for the length field in the block at hand. */
    method PadHere() returns (ghost whole: seq<bv8>)
      requires Valid() && count < 56
      modifies this, buf
      ensures |whole| % 64 == 0 && Chaining() == Fold(Compress, INIT, whole)
      ensures whole + buf[..56] == old(message) + [0x80] + Zeros(55 - old(count))
    {
      hide Fold, Compress, U32;
      Store(0x80);
      ZeroTo(56);
      whole := message[..64 * blocks];
    }

    /** And without: the rest of the block is filled and compressed. */
    method PadOver() returns (ghost whole: seq<bv8>)
      requires Valid() && 56 <= count < 64
      modifies this, buf
      ensures |whole| % 64 == 0 && Chaining() == Fold(Compress, INIT, whole)
      ensures whole + buf[..56] == old(message) + [0x80] + Zeros(63 - old(count) + 56)
    {
      hide Fold, Compress, U32;
      Store(0x80);
      ZeroTo(64);
      Flush();
      whole := message[..64 * blocks];
      ghost var n := 63 - old(count);
      assert whole == old(message) + [0x80] + Zeros(n);
      ClearFront();
      ZerosJoin(old(message) + [0x80], n, 56);
    }

    /** Stores the 0x80 and the zeros, up to the place of the length field. */
    method PadBuffer() returns (ghost whole: seq<bv8>)
      requires Valid() && count < 64
      modifies this, buf
      ensures |whole| % 64 == 0 && Chaining() == Fold(Compress, INIT, whole)
      ensures whole + buf[..56] == old(message) + [0x80] + Zeros(ZeroPad(|old(message)|))
    {
      PadLength(|message|, blocks, count);
      hide Fold, Compress, U32, ZeroPad, Zeros;
      if count < 56 {
        whole := PadHere();
      } else {
        whole := PadOver();
      }
    }

    method PutWord(at: nat, v: nat)
      requires at + 4 <= buf.Length
      modifies buf
      ensures buf[..at + 4] == old(buf[..at]) + WordBytes(v) && buf[at + 4..] == old(buf[at + 4..])
    {
      hide ByteOf;
      buf[at], buf[at + 1] := ByteOf(v / 0x100_0000), ByteOf(v / 0x1_0000);
      buf[at + 2], buf[at + 3] := ByteOf(v / 0x100), ByteOf(v);
    }

    /** The 64-bit count, most significant byte first, at offset 56. */
    method PutLength(msb: nat, lsb: nat)
      requires buf.Length == 64 && msb < TWO32 && lsb < TWO32
      modifies buf
      ensures buf[..56] == old(buf[..56]) && buf[56..] == Be64(msb * TWO32 + lsb)
    {
      hide WordBytes, Be64;
      PutWord(56, msb);
      PutWord(60, lsb);
      HalvesBytes(msb, lsb);
      assert buf[..] == buf[..64] == old(buf[..56]) + WordBytes(msb) + WordBytes(lsb);
    }

    method PutDigest()
      requires buf.Length == 64
      modifies buf
      ensures buf[..20] == DigestBytes(Chaining())
    {
      hide BeBytes;
      PutBe(buf, 0, h0);
      PutBe(buf, 4, h1);
      PutBe(buf, 8, h2);
      PutBe(buf, 12, h3);
      PutBe(buf, 16, h4);
    }

    /** Leaves the digest in the first twenty bytes of the buffer. */
    method Final()
      requires Valid()
      modifies this, buf
      ensures buf[..20] == Digest(PadWith(old(message), CodeBits(|old(message)|)))
    {
      hide Fold, Compress, U32, Be64;
      ghost var m := message;
      Flush();
      var msb, lsb := BitCount();
      ghost var whole := PadBuffer();
      PutLength(msb, lsb);
      assert whole + buf[..] == whole + buf[..56] + buf[56..];
      FoldBlock(Compress, INIT, whole, buf[..]);
      Transform(buf[..]);
      PutDigest();
    }
  }

  lemma SameByte(x: nat, y: nat)
    requires x / 256 == y / 256 && ByteOf(x) == ByteOf(y)
    ensures x == y
  {
    ByteOfInjective(x, y);
  }

  /** The high and the low four bytes of a 64-bit integer. */
  lemma Be32Injective(v: nat, w: nat)
    requires v / TWO32 == w / TWO32
    requires ByteOf(v / 0x100_0000) == ByteOf(w / 0x100_0000) && ByteOf(v / 0x1_0000) == ByteOf(w / 0x1_0000)
    requires ByteOf(v / 0x100) == ByteOf(w / 0x100) && ByteOf(v) == ByteOf(w)
    ensures v == w
  {
    hide ByteOf;
    assert v / 0x100_0000 / 256 == v / TWO32 && w / 0x100_0000 / 256 == w / TWO32;
    SameByte(v / 0x100_0000, w / 0x100_0000);
    assert v / 0x1_0000 / 256 == v / 0x100_0000 && w / 0x1_0000 / 256 == w / 0x100_0000;
    SameByte(v / 0x1_0000, w / 0x1_0000);
    assert v / 0x100 / 256 == v / 0x1_0000 && w / 0x100 / 256 == w / 0x1_0000;
    SameByte(v / 0x100, w / 0x100);
    SameByte(v, w);
  }

  lemma Be64Injective(v: nat, w: nat)
    requires v < TWO64 && w < TWO64 && Be64(v) == Be64(w)
    ensures v == w
  {
    hide ByteOf;
    var a, b := Be64(v), Be64(w);
    assert a[0] == b[0] && a[1] == b[1] && a[2] == b[2] && a[3] == b[3];
    assert a[4] == b[4] && a[5] == b[5] && a[6] == b[6] && a[7] == b[7];
    assert v / 0x100_0000_0000_0000 == v / TWO32 / 0x100_0000 && w / 0x100_0000_0000_0000 == w / TWO32 / 0x100_0000;
    assert v / 0x1_0000_0000_0000 == v / TWO32 / 0x1_0000 && w / 0x1_0000_0000_0000 == w / TWO32 / 0x1_0000;
    assert v / 0x100_0000_0000 == v / TWO32 / 0x100 && w / 0x100_0000_0000 == w / TWO32 / 0x100;
    Be32Injective(v / TWO32, w / TWO32);
    Be32Injective(v, w);
  }

  lemma PaddingInjective(m: seq<bv8>, v: nat, w: nat)
    requires v < TWO64 && w < TWO64 && PadWith(m, v) == PadWith(m, w)
    ensures v == w
  {
    assert Be64(v) == Be64(w) by {
      hide Be64, ZeroPad;
      var front := m + [0x80] + Zeros(ZeroPad(|m|));
      assert PadWith(m, v)[|front|..] == Be64(v) && PadWith(m, w)[|front|..] == Be64(w);
    }
    Be64Injective(v, w);
  }

  lemma CountExact(n: nat)
    ensures CodeBits(n) < TWO64
    ensures CodeBits(n) == 8 * n <==> n < 0x40_0000_0000
  {
    if n / 64 < TWO32 {
      assert U32(n / 64) == n / 64;
    }
  }

  /** Exactly the messages FIPS 180-4 admits and this code pads as it requires: below 2^38 bytes. */
  lemma PaddingExact(m: seq<bv8>)
    requires 8 * |m| < TWO64
    ensures PadWith(m, CodeBits(|m|)) == Pad(m) <==> |m| < 0x40_0000_0000
  {
    var bits := 8 * |m|;
    assert bits % TWO64 == bits;
    hide PadWith, CodeBits;
    CountExact(|m|);
    if PadWith(m, CodeBits(|m|)) == PadWith(m, 8 * |m|) {
      PaddingInjective(m, CodeBits(|m|), 8 * |m|);
    }
  }

  /** Any split of a message into writes gives the digest of the whole message. */
  method HashChunks(chunks: seq<seq<bv8>>) returns (digest: seq<bv8>)
    ensures var m := Flatten(chunks); digest == Digest(PadWith(m, CodeBits(|m|)))
    ensures var m := Flatten(chunks); |m| < 0x40_0000_0000 ==> digest == Digest(Pad(m))
  {
    var hd := new Context();
    hd.Init();
    for i := 0 to |chunks|
      invariant hd.Valid() && fresh(hd) && fresh(hd.buf)
      invariant hd.message == Flatten(chunks[..i])
    {
      hd.Write(chunks[i]);
      assert chunks[..i + 1][..i] == chunks[..i];
    }
    assert chunks[..|chunks|] == chunks;
    hd.Final();
    digest := hd.buf[..20];
    ghost var m := Flatten(chunks);
    if |m| < 0x40_0000_0000 {
      PaddingExact(m);
    }
  }

  /** The count wraps with the 32-bit block counter: bits modulo 2^41, not modulo 2^64. */
  lemma CountWraps(n: nat)
    ensures CodeBits(n) == 8 * n % 0x200_0000_0000
  {
    var b := n / 64;
    var q := b / TWO32;
    U32Split(b, q, b - q * TWO32);
    hide U32;
    assert 8 * n == q * 0x200_0000_0000 + CodeBits(n) && CodeBits(n) < 0x200_0000_0000;
    hide CodeBits;
    Modular.ModUnique(8 * n, q, CodeBits(n), 0x200_0000_0000);
  }
}
