/** Bytes, 32-bit words and the layouts the C code reads and writes by shifting.
    Counters the C code keeps in 32-bit unsigned integers are natural numbers here,
    with every wrap-around written out against `TWO32`. */
module Bytes {
  const TWO32: nat := 0x1_0000_0000
  const TWO64: nat := 0x1_0000_0000_0000_0000

  /** The 64-byte blocks both digests work on. */
  type Block = b: seq<bv8> | |b| == 64 witness seq(64, _ => 0)

  /** The value of a 32-bit unsigned variable. */
  type Word = w: nat | w < TWO32

  /** What a 32-bit unsigned variable keeps of a value. */
  function U32(n: nat): (u: nat)
    ensures u < TWO32
  {
    n % TWO32
  }

  lemma U32Add(x: nat, y: nat)
    ensures U32(U32(x) + y) == U32(x + y)
  {
  }

  lemma U32Split(x: nat, q: nat, r: nat)
    requires x == q * TWO32 + r && r < TWO32
    ensures U32(x) == r && x / TWO32 == q
  {
  }

  /** A cast to `unsigned char`. */
  function ByteOf(n: nat): bv8 {
    (n % 256) as bv8
  }

  /** Addition modulo 2^32. */
  function Add(x: bv32, y: bv32): bv32 {
    x + y
  }

  function Xor(x: bv32, y: bv32): bv32 {
    x ^ y
  }

  /** Adding counts up from x, y times. */
  lemma AddCounts(x: bv32, y: bv32)
    ensures Add(x, 0) == x && Add(x, y + 1) == Add(x, y) + 1
  {
  }

  /** Rotation to the left, as both digests write it. */
  function Rotl(x: bv32, n: bv6): bv32
    requires n <= 32
  {
    (x << n) | (x >> (32 - n))
  }

  /** n ones from the least significant bit on. */
  function Ones(n: bv6): bv32
    requires n <= 32
  {
    (1 as bv32 << n) - 1
  }

  /** The top n bits come to stand at the bottom, the others n places up. */
  lemma RotlPlaces(x: bv32, n: bv6)
    requires n < 32
    ensures Rotl(x, n) & Ones(n) == x >> (32 - n) && Rotl(x, n) & !Ones(n) == x << n
  {
  }

  /** Exclusive or of half-words and of bytes. */
  function HalfXor(x: bv16, y: bv16): bv16 {
    x ^ y
  }

  function ByteXor(x: bv8, y: bv8): bv8 {
    x ^ y
  }

  function Min(a: nat, b: nat): nat {
    if a < b then a else b
  }

  /** What a pointer argument that may be null stands for. */
  datatype Maybe<T> = Absent | Present(value: T)

  function BeWord(b0: bv8, b1: bv8, b2: bv8, b3: bv8): bv32 {
    (b0 as bv32 << 24) | (b1 as bv32 << 16) | (b2 as bv32 << 8) | b3 as bv32
  }

  function LeWord(b0: bv8, b1: bv8, b2: bv8, b3: bv8): bv32 {
    BeWord(b3, b2, b1, b0)
  }

  /** The four bytes of a word, most significant first. */
  function BeBytes(w: bv32): (b: seq<bv8>)
    ensures |b| == 4
  {
    [(w >> 24) as bv8, ((w >> 16) & 0xFF) as bv8, ((w >> 8) & 0xFF) as bv8, (w & 0xFF) as bv8]
  }

  /** The four bytes of a word, least significant first. */
  function LeBytes(w: bv32): (b: seq<bv8>)
    ensures |b| == 4
  {
    [(w & 0xFF) as bv8, ((w >> 8) & 0xFF) as bv8, ((w >> 16) & 0xFF) as bv8, (w >> 24) as bv8]
  }

  /** Writing a word out and reading it back, in either byte order. */
  lemma WordRoundTrip(w: bv32)
    ensures var b := BeBytes(w); BeWord(b[0], b[1], b[2], b[3]) == w
    ensures var b := LeBytes(w); LeWord(b[0], b[1], b[2], b[3]) == w
  {
  }

  /** The first byte is the most significant one of a big-endian word. */
  lemma BePlaces(b0: bv8, b1: bv8, b2: bv8, b3: bv8)
    ensures var w := BeWord(b0, b1, b2, b3);
            && w & 0xFF00_0000 == b0 as bv32 << 24 && w & 0x00FF_0000 == b1 as bv32 << 16
            && w & 0x0000_FF00 == b2 as bv32 << 8 && w & 0x0000_00FF == b3 as bv32
  {
  }

  /** And the least significant one of a little-endian word. */
  lemma LePlaces(b0: bv8, b1: bv8, b2: bv8, b3: bv8)
    ensures var w := LeWord(b0, b1, b2, b3);
            && w & 0x0000_00FF == b0 as bv32 && w & 0x0000_FF00 == b1 as bv32 << 8
            && w & 0x00FF_0000 == b2 as bv32 << 16 && w & 0xFF00_0000 == b3 as bv32 << 24
  {
    BePlaces(b3, b2, b1, b0);
    hide BeWord;
  }

  lemma ByteRoundTrip(b0: bv8, b1: bv8, b2: bv8, b3: bv8)
    ensures BeBytes(BeWord(b0, b1, b2, b3)) == [b0, b1, b2, b3]
    ensures LeBytes(LeWord(b0, b1, b2, b3)) == [b0, b1, b2, b3]
  {
  }

  /** The byte stream a sequence of calls carries. */
  function Flatten(chunks: seq<seq<bv8>>): seq<bv8> {
    if chunks == [] then [] else Flatten(chunks[..|chunks| - 1]) + chunks[|chunks| - 1]
  }

  lemma ByteValue(k: nat)
    requires k < 256
    ensures (k as bv8) as int == k
  {
    assert k % 256 == k;
  }

  lemma ByteOfInjective(x: nat, y: nat)
    requires ByteOf(x) == ByteOf(y)
    ensures x % 256 == y % 256
  {
    ByteValue(x % 256);
    ByteValue(y % 256);
  }

  function Zeros(n: nat): (z: seq<bv8>)
    ensures |z| == n && forall i :: 0 <= i < n ==> z[i] == 0
  {
    seq(n, _ => 0)
  }

  /** The bytes before the first NUL. */
  function CString(s: seq<bv8>): (t: seq<bv8>)
    ensures |t| <= |s| && t <= s
  {
    if s == [] || s[0] == 0 then [] else [s[0]] + CString(s[1..])
  }

  lemma {:induction false} CStringConcat(a: seq<bv8>, b: seq<bv8>)
    requires 0 !in a
    ensures CString(a + b) == a + CString(b)
  {
    if a == [] {
      assert a + b == b;
    } else {
      assert (a + b)[1..] == a[1..] + b;
      CStringConcat(a[1..], b);
    }
  }

  /** `memcpy` into a buffer. */
  method Copy(buf: array<bv8>, at: nat, text: seq<bv8>)
    requires at + |text| <= buf.Length
    modifies buf
    ensures buf[..at] == old(buf[..at]) && buf[at..at + |text|] == text && buf[at + |text|..] == old(buf[at + |text|..])
  {
    for i := 0 to |text|
      invariant forall k :: 0 <= k < at || at + i <= k < buf.Length ==> buf[k] == old(buf[k])
      invariant forall k :: 0 <= k < i ==> buf[at + k] == text[k]
    {
      buf[at + i] := text[i];
    }
  }

  /** Writes a word big-endian at an offset. */
  method PutBe(buf: array<bv8>, at: nat, w: bv32)
    requires at + 4 <= buf.Length
    modifies buf
    ensures buf[..at + 4] == old(buf[..at]) + BeBytes(w) && buf[at + 4..] == old(buf[at + 4..])
  {
    hide BeBytes;
    var b := BeBytes(w);
    buf[at], buf[at + 1], buf[at + 2], buf[at + 3] := b[0], b[1], b[2], b[3];
  }

  /** And low-order byte first. */
  method PutLe(buf: array<bv8>, at: nat, w: bv32)
    requires at + 4 <= buf.Length
    modifies buf
    ensures buf[..at + 4] == old(buf[..at]) + LeBytes(w) && buf[at + 4..] == old(buf[at + 4..])
  {
    hide LeBytes;
    var b := LeBytes(w);
    buf[at], buf[at + 1], buf[at + 2], buf[at + 3] := b[0], b[1], b[2], b[3];
  }
}

/** Sequences with one element less. */
module Sequences {
  function Without<T>(s: seq<T>, k: nat): (r: seq<T>)
    requires k < |s|
    ensures |r| == |s| - 1 && forall i :: 0 <= i < |r| ==> r[i] == s[if i < k then i else i + 1]
  {
    s[..k] + s[k + 1..]
  }
}

/** Remainders, as rings of slots use them. */
module Modular {
  /** One step round a ring: what `x % size` is when x is less than twice the size. */
  function Wrap(x: nat, size: nat): nat {
    if x < size then x else x - size
  }

  lemma MultipleBound(a: int, size: int)
    requires size > 0
    ensures (a >= 1 ==> a * size >= size) && (a <= -1 ==> a * size <= -size)
  {
    if a >= 1 {
      assert (a - 1) * size >= 0;
    } else if a <= -1 {
      assert (-a - 1) * size >= 0;
    }
  }

  lemma Distribute(q: int, p: int, size: int)
    ensures (q - p) * size == q * size - p * size
  {
  }

  lemma ModUnique(x: nat, q: nat, m: nat, size: nat)
    requires size > 0 && x == q * size + m && m < size
    ensures x % size == m
  {
    var p, n := x / size, x % size;
    assert x == p * size + n && n < size;
    Distribute(q, p, size);
    assert n == (q - p) * size + m;
    MultipleBound(q - p, size);
  }

  lemma ModStep(x: nat, n: nat, size: nat)
    requires size > 0 && n <= size
    ensures (x + n) % size == Wrap(x % size + n, size)
  {
    var q, m := x / size, x % size;
    assert x == q * size + m;
    if m + n < size {
      ModUnique(x + n, q, m + n, size);
    } else {
      assert (q + 1) * size == q * size + size;
      ModUnique(x + n, q + 1, m + n - size, size);
    }
  }
}

/** Folding a compression function over the whole 64-byte blocks of a message. */
module BlockFold {
  import opened Bytes

  /** The state after every whole block of `m`; an incomplete last block is ignored. */
  function Fold<S>(f: (S, Block) -> S, s: S, m: seq<bv8>): S
    decreases |m|
  {
    if |m| < 64 then s else Fold(f, f(s, m[..64]), m[64..])
  }

  /** Folding can be interrupted after any whole number of blocks. */
  lemma {:induction false} FoldSplit<S>(f: (S, Block) -> S, s: S, a: seq<bv8>, b: seq<bv8>)
    requires |a| % 64 == 0
    ensures Fold(f, s, a + b) == Fold(f, Fold(f, s, a), b)
    decreases |a|
  {
    if |a| == 0 {
      assert a + b == b;
    } else {
      assert (a + b)[..64] == a[..64] && (a + b)[64..] == a[64..] + b;
      FoldSplit(f, f(s, a[..64]), a[64..], b);
    }
  }

  /** One more block. */
  lemma FoldBlock<S>(f: (S, Block) -> S, s: S, a: seq<bv8>, block: Block)
    requires |a| % 64 == 0
    ensures Fold(f, s, a + block) == f(Fold(f, s, a), block)
  {
    FoldSplit(f, s, a, block);
    assert block[..64] == block && block[64..] == [];
  }
}
