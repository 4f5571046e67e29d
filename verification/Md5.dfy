/** RFC 1321 as a fold over 16-word blocks. */
module Md5Spec {
  import opened Bytes
  import opened BlockFold

  datatype State = State(a: bv32, b: bv32, c: bv32, d: bv32)

  const INIT := State(0x67452301, 0xefcdab89, 0x98badcfe, 0x10325476)

  type Words16 = x: seq<bv32> | |x| == 16 witness seq(16, _ => 0)

  /** One line of the four rounds: message word, shift, additive constant. */
  datatype Op = Op(k: nat, s: bv6, ac: bv32)

  const ROUND1: seq<Op> := [
    Op(0, 7, 3614090360), Op(1, 12, 3905402710), Op(2, 17, 606105819), Op(3, 22, 3250441966),
    Op(4, 7, 4118548399), Op(5, 12, 1200080426), Op(6, 17, 2821735955), Op(7, 22, 4249261313),
    Op(8, 7, 1770035416), Op(9, 12, 2336552879), Op(10, 17, 4294925233), Op(11, 22, 2304563134),
    Op(12, 7, 1804603682), Op(13, 12, 4254626195), Op(14, 17, 2792965006), Op(15, 22, 1236535329)
  ]

  const ROUND2: seq<Op> := [
    Op(1, 5, 4129170786), Op(6, 9, 3225465664), Op(11, 14, 643717713), Op(0, 20, 3921069994),
    Op(5, 5, 3593408605), Op(10, 9, 38016083), Op(15, 14, 3634488961), Op(4, 20, 3889429448),
    Op(9, 5, 568446438), Op(14, 9, 3275163606), Op(3, 14, 4107603335), Op(8, 20, 1163531501),
    Op(13, 5, 2850285829), Op(2, 9, 4243563512), Op(7, 14, 1735328473), Op(12, 20, 2368359562)
  ]

  const ROUND3: seq<Op> := [
    Op(5, 4, 4294588738), Op(8, 11, 2272392833), Op(11, 16, 1839030562), Op(14, 23, 4259657740),
    Op(1, 4, 2763975236), Op(4, 11, 1272893353), Op(7, 16, 4139469664), Op(10, 23, 3200236656),
    Op(13, 4, 681279174), Op(0, 11, 3936430074), Op(3, 16, 3572445317), Op(6, 23, 76029189),
    Op(9, 4, 3654602809), Op(12, 11, 3873151461), Op(15, 16, 530742520), Op(2, 23, 3299628645)
  ]

  const ROUND4: seq<Op> := [
    Op(0, 6, 4096336452), Op(7, 10, 1126891415), Op(14, 15, 2878612391), Op(5, 21, 4237533241),
    Op(12, 6, 1700485571), Op(3, 10, 2399980690), Op(10, 15, 4293915773), Op(1, 21, 2240044497),
    Op(8, 6, 1873313359), Op(15, 10, 4264355552), Op(6, 15, 2734768916), Op(13, 21, 1309151649),
    Op(4, 6, 4149444226), Op(11, 10, 3174756917), Op(2, 15, 718787259), Op(9, 21, 3951481745)
  ]
  function OpAt(i: nat): Op
    requires i < 64
  {
    if i < 16 then ROUND1[i] else if i < 32 then ROUND2[i - 16]
    else if i < 48 then ROUND3[i - 32] else ROUND4[i - 48]
  }

  /** F, G, H and I: section 3.4. */
  function Aux(round: nat, x: bv32, y: bv32, z: bv32): bv32 {
    if round == 0 then (x & y) | (!x & z)
    else if round == 1 then (x & z) | (y & !z)
    else if round == 2 then x ^ y ^ z
    else y ^ (x | !z)
  }

  /** F takes y where x has a one, and z where it has a zero. */
  lemma FSelects(x: bv32, y: bv32, z: bv32)
    ensures Aux(0, x, y, z) & x == y & x && Aux(0, x, y, z) & !x == z & !x
  {
  }

  /** G takes x where z has a one, and y where it has a zero. */
  lemma GSelects(x: bv32, y: bv32, z: bv32)
    ensures Aux(1, x, y, z) & z == x & z && Aux(1, x, y, z) & !z == y & !z
  {
  }

  /** H is the difference of x and z where y has a zero, and its complement where it has a one. */
  lemma HSelects(x: bv32, y: bv32, z: bv32)
    ensures Aux(2, x, y, z) & !y == (x ^ z) & !y && Aux(2, x, y, z) & y == !(x ^ z) & y
  {
  }

  /** I is the difference of x and y where z has a one, and the complement of y where it has a zero. */
  lemma ISelects(x: bv32, y: bv32, z: bv32)
    ensures Aux(3, x, y, z) & z == (x ^ y) & z && Aux(3, x, y, z) & !z == !y & !z
  {
  }

  /** The message word operation i reads: every word in turn, then steps of 5, 3 and 7. */
  function WordOf(i: nat): (k: nat)
    ensures k < 16
  {
    if i < 16 then i else if i < 32 then (5 * i + 1) % 16 else if i < 48 then (3 * i + 5) % 16 else 7 * i % 16
  }

  function ShiftOf(i: nat): (s: bv6)
    ensures s <= 32
  {
    if i < 16 then [7, 12, 17, 22][i % 4] else if i < 32 then [5, 9, 14, 20][i % 4]
    else if i < 48 then [4, 11, 16, 23][i % 4] else [6, 10, 15, 21][i % 4]
  }

  function Sum4(a: bv32, f: bv32, x: bv32, t: bv32): bv32 {
    a + f + x + t
  }

  /** One operation, every register moving to the next name. */
  function Step(r: State, i: nat, x: Words16): State
    requires i < 64
  {
    var sum := Sum4(r.a, Aux(i / 16, r.b, r.c, r.d), x[WordOf(i)], OpAt(i).ac);
    State(r.d, Add(r.b, Rotl(sum, ShiftOf(i))), r.b, r.c)
  }

  function Steps(x: Words16, n: nat, r: State): State
    requires n <= 64
    decreases n, x
  {
    if n == 0 then r else Step(Steps(x, n - 1, r), n - 1, x)
  }

  function Compress(h: State, x: Words16): State {
    var r := Steps(x, 64, h);
    State(Add(h.a, r.a), Add(h.b, r.b), Add(h.c, r.c), Add(h.d, r.d))
  }

  /** Bytes as words, low-order byte first. */
  function Words(b: seq<bv8>): (w: seq<bv32>)
    ensures |w| == |b| / 4
  {
    seq(|b| / 4, i requires 0 <= i < |b| / 4 => LeWord(b[4 * i], b[4 * i + 1], b[4 * i + 2], b[4 * i + 3]))
  }

  function CompressBlock(h: State, data: Block): State {
    Compress(h, Words(data))
  }

  function FoldWords(h: State, x: seq<bv32>): State
    decreases |x|
  {
    if |x| < 16 then h else FoldWords(Compress(h, x[..16]), x[16..])
  }

  /** Step 1: a one bit, then zeros up to 56 bytes modulo 64. */
  function PadLength(n: nat): (l: nat)
    ensures 1 <= l <= 64 && (n + l) % 64 == 56
  {
    if n % 64 < 56 then 56 - n % 64 else 120 - n % 64
  }

  function Padding(n: nat): (p: seq<bv8>)
    ensures |p| == PadLength(n)
  {
    [0x80] + Zeros(PadLength(n) - 1)
  }

  /** Step 2: the bit count modulo 2^64, low-order word first. */
  function LengthWords(n: nat): (w: seq<bv32>)
    ensures |w| == 2
  {
    [U32(8 * n) as bv32, U32(8 * n / TWO32) as bv32]
  }

  function DigestBytes(h: State): (d: seq<bv8>)
    ensures |d| == 16
  {
    LeBytes(h.a) + LeBytes(h.b) + LeBytes(h.c) + LeBytes(h.d)
  }

  /** The four registers start as the bytes section 3.3 of RFC 1321 lists, low-order bytes first. */
  lemma InitialBytes()
    ensures DigestBytes(INIT) == [
      0x01, 0x23, 0x45, 0x67, 0x89, 0xab, 0xcd, 0xef, 0xfe, 0xdc, 0xba, 0x98, 0x76, 0x54, 0x32, 0x10
    ]
  {
    assert LeBytes(INIT.a) == [0x01, 0x23, 0x45, 0x67] && LeBytes(INIT.b) == [0x89, 0xab, 0xcd, 0xef];
    assert LeBytes(INIT.c) == [0xfe, 0xdc, 0xba, 0x98] && LeBytes(INIT.d) == [0x76, 0x54, 0x32, 0x10];
  }

  /** The padded message and its length, as words. */
  function PaddedWords(m: seq<bv8>): seq<bv32> {
    Words(m + Padding(|m|)) + LengthWords(|m|)
  }

  /** The message digest of section 3. */
  function DigestOf(m: seq<bv8>): (d: seq<bv8>)
    ensures |d| == 16
  {
    DigestBytes(FoldWords(INIT, PaddedWords(m)))
  }

  lemma Row1(i: nat)
    requires 0 <= i < 16
    ensures OpAt(i).k == WordOf(i) && OpAt(i).s == ShiftOf(i)
  {
    hide ROUND2, ROUND3, ROUND4;
    assert i < 4 || 4 <= i < 8 || 8 <= i < 12 || 12 <= i;
    assert i % 4 == 0 || i % 4 == 1 || i % 4 == 2 || i % 4 == 3;
  }

  lemma Row2(i: nat)
    requires 16 <= i < 32
    ensures OpAt(i).k == WordOf(i) && OpAt(i).s == ShiftOf(i)
  {
    hide ROUND1, ROUND3, ROUND4;
  }

  lemma Row3(i: nat)
    requires 32 <= i < 48
    ensures OpAt(i).k == WordOf(i) && OpAt(i).s == ShiftOf(i)
  {
    hide ROUND1, ROUND2, ROUND4;
  }

  lemma Row4(i: nat)
    requires 48 <= i < 64
    ensures OpAt(i).k == WordOf(i) && OpAt(i).s == ShiftOf(i)
  {
    hide ROUND1, ROUND2, ROUND3;
  }

  /** The table of the C files is the access pattern and the shift pattern of the RFC. */
  lemma TableIsRfc(i: nat)
    requires i < 64
    ensures OpAt(i).k == WordOf(i) && OpAt(i).s == ShiftOf(i)
  {
    if i < 16 {
      Row1(i);
    } else if i < 32 {
      Row2(i);
    } else if i < 48 {
      Row3(i);
    } else {
      Row4(i);
    }
  }
}

/** The two copies of the digest, software/das/sdccp/cc_md5.c and software/das/reg/rtu_md5.c.
    They differ in one place: the second passes each additive constant through a cipher call. */
module Md5 {
  import opened Bytes
  import opened BlockFold
  import opened Md5Spec
  import Des

  datatype Copy = Cc | Rtu

  /** `rtu_crc32` and `rtu_ncrc32`: register, buffer and length to a word. Any functions will do. */
  type Crc = (bv32, seq<bv8>, int) -> bv32

  /** A shifted word cast to `unsigned char`. */
  function Cut(x: bv32, n: bv6): bv8
    requires n < 32
  {
    ((x >> n) & 0xFF) as bv8
  }

  /** The block each `__md5_transform_encN` enciphers. */
  function EncInput(n: nat, x: bv32): (b: seq<bv8>)
    ensures |b| == 8
  {
    if n == 1 then [Cut(x, 0), Cut(x, 24), Cut(x, 8), Cut(x, 16), Cut(x, 12), Cut(x, 20), Cut(x, 4), Cut(x, 22)]
    else if n == 2 then [Cut(x, 20), Cut(x, 4), Cut(x, 24), Cut(x, 12), Cut(x, 22), Cut(x, 8), Cut(x, 0), Cut(x, 16)]
    else if n == 3 then [Cut(x, 0), Cut(x, 16), Cut(x, 12), Cut(x, 20), Cut(x, 24), Cut(x, 8), Cut(x, 4), Cut(x, 22)]
    else [Cut(x, 8), Cut(x, 20), Cut(x, 0), Cut(x, 24), Cut(x, 4), Cut(x, 16), Cut(x, 12), Cut(x, 22)]
  }

  /** And the key it uses: one layout for 1 and 3, another for 2 and 4. */
  function EncKey(n: nat, x: bv32): (b: seq<bv8>)
    ensures |b| == 8
  {
    if n == 1 || n == 3 then [Cut(x, 0), 0x15, Cut(x, 24), 0xAF, Cut(x, 8), 0x5B, Cut(x, 16), 0x2C]
    else [0x35, Cut(x, 16), 0x47, Cut(x, 8), 0xCC, Cut(x, 24), Cut(x, 0), 0xAB]
  }

  /** `__md5_transform_encN`: the constant comes back, because the cipher call never returns a positive length. */
  method Enc(n: nat, k: bv32, x: bv32, crc: Crc) returns (r: bv32)
    ensures r == k
  {
    hide EncInput, EncKey;
    var b := EncInput(n, x);
    var inbuf := new bv8[8](i requires 0 <= i < 8 => b[i]);
    var out := new bv8[32];
    var len := Des.Encrypt(out, inbuf, 8, EncKey(n, x));
    var enciphered := out[..];
    if len > 0 {
      r := crc(x, enciphered, len);
    } else {
      r := k;
    }
  }

  /** Which of the four helpers each round's macro calls. */
  function EncOf(round: nat): nat {
    if round == 0 then 1 else if round == 1 then 3 else if round == 2 then 4 else 2
  }

  /** a += f + x + ac */
  function AddInto(a: bv32, f: bv32, x: bv32, ac: bv32): bv32 {
    a + (f + x + ac)
  }

  lemma AddIntoSum(a: bv32, f: bv32, x: bv32, ac: bv32)
    ensures AddInto(a, f, x, ac) == Sum4(a, f, x, ac)
  {
  }

  lemma AddCommutes(x: bv32, y: bv32)
    ensures Add(x, y) == Add(y, x)
  {
  }

  /** One expansion of FF, GG, HH or II on operation i. */
  method Operate(copy: Copy, crc: Crc, i: nat, a: bv32, b: bv32, c: bv32, d: bv32, x: Words16, ghost h: State)
    returns (r: bv32)
    requires i < 64 && Steps(x, i, h) == State(a, b, c, d)
    ensures Steps(x, i + 1, h) == State(d, r, b, c)
  {
    hide Aux, Rotl, Add, AddInto, Sum4, OpAt, WordOf, ShiftOf;
    var op := OpAt(i);
    TableIsRfc(i);
    var ac := op.ac;
    if copy.Rtu? {
      ac := Enc(EncOf(i / 16), ac, x[op.k], crc);
    }
    AddIntoSum(a, Aux(i / 16, b, c, d), x[op.k], ac);
    r := Add(Rotl(AddInto(a, Aux(i / 16, b, c, d), x[op.k], ac), op.s), b);
    AddCommutes(b, Rotl(Sum4(a, Aux(i / 16, b, c, d), x[op.k], ac), op.s));
  }

  /** The 64 lines of Transform: the registers keep their places and the names rotate. */
  method Operations(copy: Copy, crc: Crc, h: State, x: Words16) returns (r: State)
    ensures r == Steps(x, 64, h)
  {
    assert Steps(x, 0, h) == h;
    hide Steps;
    var State(a, b, c, d) := h;
    for g := 0 to 16
      invariant Steps(x, 4 * g, h) == State(a, b, c, d)
    {
      var i := 4 * g;
      a := Operate(copy, crc, i, a, b, c, d, x, h);
      d := Operate(copy, crc, i + 1, d, a, b, c, x, h);
      c := Operate(copy, crc, i + 2, c, d, a, b, x, h);
      b := Operate(copy, crc, i + 3, b, c, d, a, x, h);
    }
    r := State(a, b, c, d);
  }

  const PADDING: seq<bv8> := [0x80] + Zeros(63)

  lemma Division(n: nat, blocks: nat, count: nat)
    requires n == 64 * blocks + count && count < 64
    ensures n % 64 == count
  {
  }

  lemma WordsConcat(a: seq<bv8>, b: seq<bv8>)
    requires |a| % 4 == 0
    ensures Words(a + b) == Words(a) + Words(b)
  {
    hide LeWord;
    var n := |a| / 4;
    forall i | 0 <= i < |b| / 4
      ensures Words(a + b)[n + i] == Words(b)[i]
    {
      assert (a + b)[4 * n + 4 * i..] == b[4 * i..];
    }
  }

  lemma {:induction false} FoldWordsLast(h: State, whole: seq<bv8>, last: Words16)
    requires |whole| % 64 == 0
    ensures FoldWords(h, Words(whole) + last) == Compress(Fold(CompressBlock, h, whole), last)
    decreases |whole|
  {
    hide Compress, Words;
    var w := Words(whole) + last;
    if whole == [] {
      assert w == last && w[..16] == last && w[16..] == [];
    } else {
      WordsConcat(whole[..64], whole[64..]);
      assert whole == whole[..64] + whole[64..];
      assert w[..16] == Words(whole[..64]) && w[16..] == Words(whole[64..]) + last;
      FoldWordsLast(CompressBlock(h, whole[..64]), whole[64..], last);
    }
  }

  /** The one-shot definition, seen from the state the streaming code ends in. */
  lemma Regrouped(a: seq<bv32>, b: seq<bv32>, c: seq<bv32>)
    ensures a + b + c == a + (b + c)
  {
  }

  lemma DigestIs(m: seq<bv8>)
    ensures DigestOf(m) == DigestBytes(FoldWords(INIT, Words(m + Padding(|m|)) + LengthWords(|m|)))
  {
    hide Words, LengthWords, DigestBytes, FoldWords, Padding;
  }

  lemma FinalWords(m: seq<bv8>, whole: seq<bv8>, tail: seq<bv8>, length: seq<bv32>)
    requires |whole| % 64 == 0 && |tail| == 56 && whole + tail == m + Padding(|m|) && length == LengthWords(|m|)
    ensures DigestOf(m) == DigestBytes(Compress(Fold(CompressBlock, INIT, whole), Words(tail) + length))
  {
    hide *;
    DigestIs(m);
    WordsConcat(whole, tail);
    Regrouped(Words(whole), Words(tail), length);
    FoldWordsLast(INIT, whole, Words(tail) + length);
  }

  lemma Position(blocks: nat, count: nat)
    requires count < 64
    ensures U32(8 * (64 * blocks + count)) / 8 % 64 == count
  {
    var x := 64 * blocks + count;
    var q, r := x / 0x2000_0000, x % 0x2000_0000;
    U32Split(8 * x, q, 8 * r);
    hide U32;
    var b := blocks - q * 0x80_0000;
    assert r == 64 * b + count && b >= 0;
  }

  lemma CountStep(n: nat, len: nat)
    requires len < TWO32
    ensures var low, i0, i1 := U32(len * 8), U32(8 * n), U32(8 * n / TWO32);
            && U32(i0 + low) == U32(8 * (n + len))
            && U32((if U32(i0 + low) < i0 then U32(i1 + 1) else i1) + len / 0x2000_0000) == U32(8 * (n + len) / TWO32)
  {
    var q1, q2, low, i0 := 8 * n / TWO32, len / 0x2000_0000, U32(len * 8), U32(8 * n);
    assert 8 * n == q1 * TWO32 + i0 && len * 8 == q2 * TWO32 + low;
    hide U32;
    if i0 + low < TWO32 {
      U32Split(i0 + low, 0, i0 + low);
      U32Split(8 * (n + len), q1 + q2, i0 + low);
      U32Add(q1, q2);
    } else {
      U32Split(i0 + low, 1, i0 + low - TWO32);
      U32Split(8 * (n + len), q1 + q2 + 1, i0 + low - TWO32);
      U32Add(q1, 1);
      U32Add(q1 + 1, q2);
    }
  }

  class Context {
    const copy: Copy
    var i0: nat       // low and high word of the bit count
    var i1: nat
    var state: State  // buf[0..3]
    const inb: array<bv8>
    const digest: array<bv8>

    ghost var whole: seq<bv8>  // the bytes already compressed
    ghost var tail: seq<bv8>   // the bytes waiting in the buffer

    constructor (copy: Copy)
      ensures this.copy == copy && inb.Length == 64 && digest.Length == 16
      ensures fresh(inb) && fresh(digest) && inb != digest
    {
      this.copy := copy;
      inb, digest := new bv8[64], new bv8[16];
    }

    method Transform(x: Words16, crc: Crc)
      modifies `state
      ensures state == Compress(old(state), x)
    {
      hide Steps, Add;
      var r := Operations(copy, crc, state, x);
      state := State(Add(state.a, r.a), Add(state.b, r.b), Add(state.c, r.c), Add(state.d, r.d));
    }

    /** The buffer and the registers after the whole blocks and the bytes left over. */
    ghost predicate Absorbed()
      reads this, inb
    {
      && inb.Length == 64
      && |whole| % 64 == 0 && |tail| < 64
      && state == Fold(CompressBlock, INIT, whole)
      && inb[..|tail|] == tail
    }

    ghost predicate Counted(n: nat)
      reads this
    {
      i0 == U32(8 * n) && i1 == U32(8 * n / TWO32)
    }

    /** Everything written since Init. */
    ghost function Message(): seq<bv8>
      reads this
    {
      whole + tail
    }

    ghost predicate Valid()
      reads this, inb
    {
      Absorbed() && Counted(|whole| + |tail|)
    }

    method Init()
      requires inb.Length == 64
      modifies this
      ensures Valid() && Message() == []
    {
      i0, i1 := 0, 0;
      state := State(0x67452301, 0xefcdab89, 0x98badcfe, 0x10325476);
      whole, tail := [], [];
    }

    method Full(crc: Crc)
      requires inb.Length == 64 && |whole| % 64 == 0 && tail == inb[..]
      requires state == Fold(CompressBlock, INIT, whole)
      modifies `state, `whole, `tail
      ensures Absorbed() && Message() == old(Message()) && tail == []
    {
      hide Fold, Words, Compress;
      FoldBlock(CompressBlock, INIT, whole, inb[..]);
      Transform(Words(inb[..]), crc);
      whole, tail := whole + tail, [];
    }

    /** `mdContext->in[mdi++] = *inBuf++`, and the transform when the buffer is full. */
    method Put(b: bv8, mdi: nat, crc: Crc) returns (next: nat)
      requires Absorbed() && mdi == |tail|
      modifies `state, `whole, `tail, inb
      ensures Absorbed() && Message() == old(Message()) + [b] && next == |tail|
    {
      hide Fold, CompressBlock;
      inb[mdi] := b;
      next := mdi + 1;
      tail := tail + [b];
      if next == 64 {
        assert inb[..] == tail;
        Full(crc);
        next := 0;
      }
    }

    /** The 64-bit bit count moves on by 8 * inLen, with the carry as the C code finds it. */
    method Count(inLen: nat, ghost n: nat)
      requires inLen < TWO32 && Counted(n)
      modifies `i0, `i1
      ensures Counted(n + inLen)
    {
      var low := U32(inLen * 8);
      if U32(i0 + low) < i0 {
        i1 := U32(i1 + 1);
      }
      i0 := U32(i0 + low);
      i1 := U32(i1 + inLen / 0x2000_0000);
      CountStep(n, inLen);
    }

    method Update(inBuf: seq<bv8>, crc: Crc)
      requires Valid() && |inBuf| < TWO32
      modifies this, inb
      ensures Valid() && Message() == old(Message()) + inBuf
    {
      hide Fold, Compress, U32;
      var mdi := i0 / 8 % 64;
      Position(|whole| / 64, |tail|);
      assert mdi == |tail|;
      Count(|inBuf|, |whole| + |tail|);
      for p := 0 to |inBuf|
        invariant Absorbed() && mdi == |tail| && Message() == old(Message()) + inBuf[..p]
        invariant Counted(|old(Message())| + |inBuf|)
      {
        mdi := Put(inBuf[p], mdi, crc);
      }
    }

    /** in[0..13] from the buffer, then the saved bit count. */
    method LastBlock(low: bv32, high: bv32) returns (x: Words16)
      requires inb.Length == 64
      ensures x == Words(inb[..56]) + [low, high]
    {
      hide LeWord;
      var a := new bv32[16];
      a[14], a[15] := low, high;
      for i := 0 to 14
        invariant a[..i] == Words(inb[..56])[..i] && a[14] == low && a[15] == high
      {
        assert Words(inb[..56])[i] == LeWord(inb[4 * i], inb[4 * i + 1], inb[4 * i + 2], inb[4 * i + 3]);
        a[i] := LeWord(inb[4 * i], inb[4 * i + 1], inb[4 * i + 2], inb[4 * i + 3]);
      }
      assert a[..] == a[..14] + [low, high];
      x := a[..];
    }

    method PutDigest()
      requires digest.Length == 16
      modifies digest
      ensures digest[..] == DigestBytes(state)
    {
      hide LeBytes;
      PutLe(digest, 0, state.a);
      PutLe(digest, 4, state.b);
      PutLe(digest, 8, state.c);
      PutLe(digest, 12, state.d);
      assert digest[..] == digest[..16];
    }

    /** Bytes of PADDING up to 56 modulo 64. */
    method PadBuffer(crc: Crc)
      requires Valid()
      modifies this, inb
      ensures Absorbed() && |tail| == 56 && Message() == old(Message()) + Padding(|old(Message())|)
    {
      hide Fold, CompressBlock, U32, Compress;
      ghost var n := |Message()|;
      var mdi := i0 / 8 % 64;
      Position(|whole| / 64, |tail|);
      Division(n, |whole| / 64, |tail|);
      var padLen := if mdi < 56 then 56 - mdi else 120 - mdi;
      assert PADDING[..padLen] == Padding(n);
      Update(PADDING[..padLen], crc);
      Division(n + padLen, |whole| / 64, |tail|);
    }

    method SavedCount() returns (low: bv32, high: bv32)
      requires Valid()
      ensures [low, high] == LengthWords(|Message()|)
    {
      hide Fold, U32;
      low, high := i0 as bv32, i1 as bv32;
    }

    method LastTransform(crc: Crc, low: bv32, high: bv32, ghost m: seq<bv8>)
      requires Absorbed() && |tail| == 56 && Message() == m + Padding(|m|) && [low, high] == LengthWords(|m|)
      modifies `state
      ensures DigestBytes(state) == DigestOf(m)
    {
      hide Fold, CompressBlock, U32, Words, Compress, LengthWords, Padding, DigestOf, DigestBytes;
      var x := LastBlock(low, high);
      FinalWords(m, whole, tail, [low, high]);
      Transform(x, crc);
    }

    method Final(crc: Crc)
      requires Valid() && digest.Length == 16 && inb != digest
      modifies this, inb, digest
      ensures digest[..] == DigestOf(old(Message()))
    {
      ghost var m := Message();
      var low, high := SavedCount();
      hide *;
      PadBuffer(crc);
      LastTransform(crc, low, high, m);
      PutDigest();
    }
  }

  /** Either copy, any split of a message into updates: the digest of RFC 1321, so the two copies agree. */
  method HashChunks(copy: Copy, crc: Crc, chunks: seq<seq<bv8>>) returns (digest: seq<bv8>)
    requires forall i :: 0 <= i < |chunks| ==> |chunks[i]| < TWO32
    ensures digest == DigestOf(Flatten(chunks))
  {
    var ctx := new Context(copy);
    ctx.Init();
    for i := 0 to |chunks|
      invariant ctx.Valid() && fresh(ctx) && fresh(ctx.inb) && fresh(ctx.digest)
      invariant ctx.Message() == Flatten(chunks[..i])
    {
      ctx.Update(chunks[i], crc);
      assert chunks[..i + 1][..i] == chunks[..i];
    }
    assert chunks[..|chunks|] == chunks;
    ctx.Final(crc);
    digest := ctx.digest[..];
  }
}
