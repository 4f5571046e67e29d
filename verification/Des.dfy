/** The block cipher of software/das/reg/rtu_des.c as a function of its subkeys. */
module DesCipher {
  import opened Bytes
  import opened DesTables

  /** The two words a round takes from the key schedule. */
  type Subkey = (bv32, bv32)
  /** Two 32-bit halves. */
  type Halves = (bv32, bv32)

  /** `T = ((u >> n) ^ v) & mask; v ^= T; u ^= T << n`, as the pair (u, v). */
  function Exchange(u: bv32, v: bv32, n: bv6, mask: bv32): Halves
    requires n < 32
  {
    var t := ((u >> n) ^ v) & mask;
    (u ^ (t << n), v ^ t)
  }

  function RotL1(x: bv32): bv32 {
    (x << 1) | (x >> 31)
  }

  function RotR1(x: bv32): bv32 {
    (x << 31) | (x >> 1)
  }

  /** The macro DES_IP. */
  function Ip(x: bv32, y: bv32): Halves {
    var (x, y) := Exchange(x, y, 4, 0x0F0F0F0F);
    var (x, y) := Exchange(x, y, 16, 0x0000FFFF);
    var (y, x) := Exchange(y, x, 2, 0x33333333);
    var (y, x) := Exchange(y, x, 8, 0x00FF00FF);
    var y := RotL1(y);
    var (x, y) := Exchange(x, y, 0, 0xAAAAAAAA);
    (RotL1(x), y)
  }

  /** The macro DES_FP. */
  function Fp(x: bv32, y: bv32): Halves {
    var x := RotR1(x);
    var (y, x) := Exchange(y, x, 0, 0xAAAAAAAA);
    var y := RotR1(y);
    var (y, x) := Exchange(y, x, 8, 0x00FF00FF);
    var (y, x) := Exchange(y, x, 2, 0x33333333);
    var (x, y) := Exchange(x, y, 16, 0x0000FFFF);
    Exchange(x, y, 4, 0x0F0F0F0F)
  }

  /** `sb[(t >> n) & 0x3F]`. */
  function Look(sb: SBox, t: bv32, n: bv6): bv32
    requires n < 32
  {
    sb[((t >> n >> 4) & 0x3) as bv2 as int][((t >> n) & 0xF) as bv4 as int]
  }

  function RotR4(x: bv32): bv32 {
    (x << 28) | (x >> 4)
  }

  function Xor8(a: bv32, b: bv32, c: bv32, d: bv32, e: bv32, f: bv32, g: bv32, h: bv32): bv32 {
    a ^ b ^ c ^ d ^ e ^ f ^ g ^ h
  }

  /** What DES_ROUND combines into its second argument. */
  function F(sb: SBoxes, k: Subkey, x: bv32): bv32 {
    var t := Xor(k.0, x);
    var u := Xor(k.1, RotR4(x));
    Xor8(Look(sb.sb8, t, 0), Look(sb.sb6, t, 8), Look(sb.sb4, t, 16), Look(sb.sb2, t, 24),
         Look(sb.sb7, u, 0), Look(sb.sb5, u, 8), Look(sb.sb3, u, 16), Look(sb.sb1, u, 24))
  }

  /** The sixteen rounds in the form of FIPS 46-3: (L, R) becomes (R, L ^ f(R, K)). */
  function Rounds(sb: SBoxes, ks: seq<Subkey>, s: Halves): Halves {
    if ks == [] then s else Rounds(sb, ks[1..], (s.1, Xor(s.0, F(sb, ks[0], s.1))))
  }

  /** One block: the halves are exchanged after the last round. */
  function CryptHalves(sb: SBoxes, ks: seq<Subkey>, x: bv32, y: bv32): Halves {
    var i := Ip(x, y);
    var r := Rounds(sb, ks, i);
    Fp(r.1, r.0)
  }

  function CryptBlock(sb: SBoxes, ks: seq<Subkey>, b: seq<bv8>): (c: seq<bv8>)
    requires |b| == 8
    ensures |c| == 8
  {
    var h := CryptHalves(sb, ks, BeWord(b[0], b[1], b[2], b[3]), BeWord(b[4], b[5], b[6], b[7]));
    BeBytes(h.0) + BeBytes(h.1)
  }

  /** Every whole block in turn. */
  function CryptAll(sb: SBoxes, ks: seq<Subkey>, data: seq<bv8>): (c: seq<bv8>)
    requires |data| % 8 == 0
    ensures |c| == |data|
  {
    if data == [] then [] else CryptBlock(sb, ks, data[..8]) + CryptAll(sb, ks, data[8..])
  }

  function Reversed(ks: seq<Subkey>): (r: seq<Subkey>)
    ensures |r| == |ks|
  {
    if ks == [] then [] else Reversed(ks[1..]) + [ks[0]]
  }

  // ----- the permutations cancel -----

  // Each exchange recomputes the same mask word, so it undoes itself.

  lemma Exchange4Twice(u: bv32, v: bv32)
    ensures var e := Exchange(u, v, 4, 0x0F0F0F0F); Exchange(e.0, e.1, 4, 0x0F0F0F0F) == (u, v)
  {
  }

  lemma Exchange16Twice(u: bv32, v: bv32)
    ensures var e := Exchange(u, v, 16, 0x0000FFFF); Exchange(e.0, e.1, 16, 0x0000FFFF) == (u, v)
  {
  }

  lemma Exchange2Twice(u: bv32, v: bv32)
    ensures var e := Exchange(u, v, 2, 0x33333333); Exchange(e.0, e.1, 2, 0x33333333) == (u, v)
  {
  }

  lemma Exchange8Twice(u: bv32, v: bv32)
    ensures var e := Exchange(u, v, 8, 0x00FF00FF); Exchange(e.0, e.1, 8, 0x00FF00FF) == (u, v)
  {
  }

  /** With no shift the exchange treats both words alike. */
  lemma ExchangeZero(u: bv32, v: bv32)
    ensures var e := Exchange(u, v, 0, 0xAAAAAAAA); Exchange(e.1, e.0, 0, 0xAAAAAAAA) == (v, u)
  {
  }

  lemma Rotations(x: bv32)
    ensures RotR1(RotL1(x)) == x && RotL1(RotR1(x)) == x
  {
  }

  /** DES_FP undoes DES_IP. */
  lemma IpThenFp(x: bv32, y: bv32)
    ensures var i := Ip(x, y); Fp(i.0, i.1) == (x, y)
  {
    hide Exchange, RotL1, RotR1;
    var e1 := Exchange(x, y, 4, 0x0F0F0F0F);
    var e2 := Exchange(e1.0, e1.1, 16, 0x0000FFFF);
    var e3 := Exchange(e2.1, e2.0, 2, 0x33333333);
    var e4 := Exchange(e3.0, e3.1, 8, 0x00FF00FF);
    var e5 := Exchange(e4.1, RotL1(e4.0), 0, 0xAAAAAAAA);
    Exchange4Twice(x, y);
    Exchange16Twice(e1.0, e1.1);
    Exchange2Twice(e2.1, e2.0);
    Exchange8Twice(e3.0, e3.1);
    ExchangeZero(e4.1, RotL1(e4.0));
    Rotations(e4.0);
    Rotations(e5.0);
  }

  /** And DES_IP undoes DES_FP. */
  lemma FpThenIp(x: bv32, y: bv32)
    ensures var f := Fp(x, y); Ip(f.0, f.1) == (x, y)
  {
    hide Exchange, RotL1, RotR1;
    var e1 := Exchange(y, RotR1(x), 0, 0xAAAAAAAA);
    var e2 := Exchange(RotR1(e1.0), e1.1, 8, 0x00FF00FF);
    var e3 := Exchange(e2.0, e2.1, 2, 0x33333333);
    var e4 := Exchange(e3.1, e3.0, 16, 0x0000FFFF);
    ExchangeZero(y, RotR1(x));
    Rotations(x);
    Rotations(e1.0);
    Exchange8Twice(RotR1(e1.0), e1.1);
    Exchange2Twice(e2.0, e2.1);
    Exchange16Twice(e3.1, e3.0);
    Exchange4Twice(e4.0, e4.1);
  }

  // ----- sixteen rounds unwind -----

  lemma {:induction false} RoundsSnoc(sb: SBoxes, ks: seq<Subkey>, k: Subkey, s: Halves)
    ensures var r := Rounds(sb, ks, s); Rounds(sb, ks + [k], s) == (r.1, Xor(r.0, F(sb, k, r.1)))
  {
    hide F, Xor;
    if ks == [] {
      assert [k][1..] == [];
    } else {
      assert (ks + [k])[1..] == ks[1..] + [k];
      RoundsSnoc(sb, ks[1..], k, (s.1, Xor(s.0, F(sb, ks[0], s.1))));
    }
  }

  lemma XorTwice(u: bv32, v: bv32)
    ensures Xor(Xor(u, v), v) == u
  {
  }

  /** The Feistel network run with the subkeys in reverse order, from exchanged halves, whatever the tables. */
  lemma {:induction false} RoundsUnwind(sb: SBoxes, ks: seq<Subkey>, s: Halves)
    ensures var r := Rounds(sb, ks, s); Rounds(sb, Reversed(ks), (r.1, r.0)) == (s.1, s.0)
  {
    hide F, Xor;
    if ks != [] {
      var f := F(sb, ks[0], s.1);
      var s1 := (s.1, Xor(s.0, f));
      var r := Rounds(sb, ks, s);
      RoundsUnwind(sb, ks[1..], s1);
      RoundsSnoc(sb, Reversed(ks[1..]), ks[0], (r.1, r.0));
      assert Xor(Xor(s.0, f), f) == s.0 by { XorTwice(s.0, f); }
    }
  }

  lemma {:induction false} ReversedSnoc(ks: seq<Subkey>, k: Subkey)
    ensures Reversed(ks + [k]) == [k] + Reversed(ks)
  {
    if ks != [] {
      assert (ks + [k])[1..] == ks[1..] + [k];
      ReversedSnoc(ks[1..], k);
    }
  }

  lemma {:induction false} ReversedTwice(ks: seq<Subkey>)
    ensures Reversed(Reversed(ks)) == ks
  {
    if ks != [] {
      ReversedSnoc(Reversed(ks[1..]), ks[0]);
      ReversedTwice(ks[1..]);
    }
  }

  /** FIPS 46-3, Deciphering: the same computation under the reversed key schedule. */
  lemma HalvesUnwind(sb: SBoxes, ks: seq<Subkey>, x: bv32, y: bv32)
    ensures var c := CryptHalves(sb, ks, x, y); CryptHalves(sb, Reversed(ks), c.0, c.1) == (x, y)
  {
    hide Ip, Fp, Rounds;
    var i := Ip(x, y);
    var r := Rounds(sb, ks, i);
    FpThenIp(r.1, r.0);
    RoundsUnwind(sb, ks, i);
    IpThenFp(x, y);
  }

  lemma BlockUnwind(sb: SBoxes, ks: seq<Subkey>, b: seq<bv8>)
    requires |b| == 8
    ensures CryptBlock(sb, Reversed(ks), CryptBlock(sb, ks, b)) == b
  {
    hide CryptHalves, BeWord, BeBytes;
    var x, y := BeWord(b[0], b[1], b[2], b[3]), BeWord(b[4], b[5], b[6], b[7]);
    var c := CryptHalves(sb, ks, x, y);
    HalvesUnwind(sb, ks, x, y);
    WordRoundTrip(c.0);
    WordRoundTrip(c.1);
    ByteRoundTrip(b[0], b[1], b[2], b[3]);
    ByteRoundTrip(b[4], b[5], b[6], b[7]);
  }

  /** Every buffer of whole blocks, every table, every schedule. */
  lemma {:induction false} AllUnwind(sb: SBoxes, ks: seq<Subkey>, data: seq<bv8>)
    requires |data| % 8 == 0
    ensures CryptAll(sb, Reversed(ks), CryptAll(sb, ks, data)) == data
  {
    hide CryptBlock;
    if data != [] {
      var c := CryptAll(sb, ks, data);
      assert c[..8] == CryptBlock(sb, ks, data[..8]) && c[8..] == CryptAll(sb, ks, data[8..]);
      BlockUnwind(sb, ks, data[..8]);
      AllUnwind(sb, ks, data[8..]);
    }
  }
}

/** The key schedule and the buffer loops of software/das/reg/rtu_des.c. */
module Des {
  import opened Bytes
  import opened DesTables
  import opened DesCipher

  function Nib(t: bv32, n: bv6): (i: int)
    requires n < 32
    ensures 0 <= i < 16
  {
    ((t >> n) & 0xF) as bv4 as int
  }

  function Low28(x: bv32): bv32 {
    x & 0x0FFFFFFF
  }

  function SpreadLeft(x: bv32): bv32 {
    (LHS[Nib(x, 0)] << 3) | (LHS[Nib(x, 8)] << 2) | (LHS[Nib(x, 16)] << 1) | (LHS[Nib(x, 24)] << 0)
    | (LHS[Nib(x, 5)] << 7) | (LHS[Nib(x, 13)] << 6) | (LHS[Nib(x, 21)] << 5) | (LHS[Nib(x, 29)] << 4)
  }

  function SpreadRight(y: bv32): bv32 {
    (RHS[Nib(y, 1)] << 3) | (RHS[Nib(y, 9)] << 2) | (RHS[Nib(y, 17)] << 1) | (RHS[Nib(y, 25)] << 0)
    | (RHS[Nib(y, 4)] << 7) | (RHS[Nib(y, 12)] << 6) | (RHS[Nib(y, 20)] << 5) | (RHS[Nib(y, 28)] << 4)
  }

  /** The permuted choice that starts `_des_main_ks`. */
  function KeyHalves(key: seq<bv8>): Halves
    requires |key| == 8
  {
    var x := BeWord(key[0], key[1], key[2], key[3]);
    var y := BeWord(key[4], key[5], key[6], key[7]);
    var (y, x) := Exchange(y, x, 4, 0x0F0F0F0F);
    var (y, x) := Exchange(y, x, 0, 0x10101010);
    (Low28(SpreadLeft(x)), Low28(SpreadRight(y)))
  }

  /** A 28-bit rotation by the amount of round i. */
  function Turn(i: nat, x: bv32): bv32 {
    if i < 2 || i == 8 || i == 15 then ((x << 1) | (x >> 27)) & 0x0FFFFFFF
    else ((x << 2) | (x >> 26)) & 0x0FFFFFFF
  }

  /** The halves from which round i takes its subkey. */
  function Turned(key: seq<bv8>, i: nat): Halves
    requires |key| == 8
    decreases i, 1
  {
    var s := Before(key, i);
    (Turn(i, s.0), Turn(i, s.1))
  }

  /** The halves as round i finds them. */
  function Before(key: seq<bv8>, i: nat): Halves
    requires |key| == 8
    decreases i, 0
  {
    if i == 0 then KeyHalves(key) else Turned(key, i - 1)
  }

  function FirstWord(x: bv32, y: bv32): bv32 {
    ((x << 4) & 0x24000000) | ((x << 28) & 0x10000000) | ((x << 14) & 0x08000000) | ((x << 18) & 0x02080000)
    | ((x << 6) & 0x01000000) | ((x << 9) & 0x00200000) | ((x >> 1) & 0x00100000) | ((x << 10) & 0x00040000)
    | ((x << 2) & 0x00020000) | ((x >> 10) & 0x00010000) | ((y >> 13) & 0x00002000) | ((y >> 4) & 0x00001000)
    | ((y << 6) & 0x00000800) | ((y >> 1) & 0x00000400) | ((y >> 14) & 0x00000200) | (y & 0x00000100)
    | ((y >> 5) & 0x00000020) | ((y >> 10) & 0x00000010) | ((y >> 3) & 0x00000008) | ((y >> 18) & 0x00000004)
    | ((y >> 26) & 0x00000002) | ((y >> 24) & 0x00000001)
  }

  function SecondWord(x: bv32, y: bv32): bv32 {
    ((x << 15) & 0x20000000) | ((x << 17) & 0x10000000) | ((x << 10) & 0x08000000) | ((x << 22) & 0x04000000)
    | ((x >> 2) & 0x02000000) | ((x << 1) & 0x01000000) | ((x << 16) & 0x00200000) | ((x << 11) & 0x00100000)
    | ((x << 3) & 0x00080000) | ((x >> 6) & 0x00040000) | ((x << 15) & 0x00020000) | ((x >> 4) & 0x00010000)
    | ((y >> 2) & 0x00002000) | ((y << 8) & 0x00001000) | ((y >> 14) & 0x00000808) | ((y >> 9) & 0x00000400)
    | (y & 0x00000200) | ((y << 7) & 0x00000100) | ((y >> 7) & 0x00000020) | ((y >> 3) & 0x00000011)
    | ((y << 2) & 0x00000004) | ((y >> 21) & 0x00000002)
  }

  /** The sixteen subkeys in encryption order. */
  function Schedule(key: seq<bv8>): (ks: seq<Subkey>)
    requires |key| == 8
    ensures |ks| == 16
  {
    seq(16, i requires 0 <= i < 16 => var s := Turned(key, i); (FirstWord(s.0, s.1), SecondWord(s.0, s.1)))
  }

  lemma BeforeNext(key: seq<bv8>, i: nat)
    requires |key| == 8 && i < 16
    ensures var s := Before(key, i); var t := (Turn(i, s.0), Turn(i, s.1));
            Before(key, i + 1) == t && Schedule(key)[i] == (FirstWord(t.0, t.1), SecondWord(t.0, t.1))
    ensures Before(key, 0) == KeyHalves(key)
  {
    hide KeyHalves, Turn, FirstWord, SecondWord;
  }

  /** The first n subkeys sit in an array of 32 schedule words. */
  ghost predicate HoldsTo(sk: seq<bv32>, ks: seq<Subkey>, n: nat) {
    |sk| == 32 && |ks| == 16 && n <= 16
    && forall i {:trigger ks[i]} :: 0 <= i < n ==> sk[2 * i] == ks[i].0 && sk[2 * i + 1] == ks[i].1
  }

  ghost predicate Holds(sk: seq<bv32>, ks: seq<Subkey>) {
    HoldsTo(sk, ks, 16)
  }

  lemma HoldsNext(sk: seq<bv32>, ks: seq<Subkey>, n: nat, u: bv32, v: bv32)
    requires HoldsTo(sk, ks, n) && n < 16 && ks[n] == (u, v)
    ensures HoldsTo(sk[2 * n := u][2 * n + 1 := v], ks, n + 1)
  {
  }

  lemma {:induction false} ReversedAt(ks: seq<Subkey>, i: nat)
    requires i < |ks|
    ensures Reversed(ks)[i] == ks[|ks| - 1 - i]
  {
    if i < |ks| - 1 {
      ReversedAt(ks[1..], i);
    }
  }

  class Context {
    const esk: array<bv32>
    const dsk: array<bv32>

    constructor ()
      ensures fresh(esk) && fresh(dsk) && esk != dsk && esk.Length == 32 && dsk.Length == 32
    {
      esk := new bv32[32];
      dsk := new bv32[32];
    }

    method MainKs(key: seq<bv8>)
      requires |key| == 8 && esk.Length == 32
      modifies esk
      ensures Holds(esk[..], Schedule(key))
    {
      BeforeNext(key, 0);
      hide Schedule, Before, KeyHalves, Turn, FirstWord, SecondWord;
      var s := KeyHalves(key);
      ghost var ks := Schedule(key);
      assert HoldsTo(esk[..], ks, 0);
      for i := 0 to 16
        invariant s == Before(key, i) && HoldsTo(esk[..], ks, i)
      {
        hide HoldsTo;
        BeforeNext(key, i);
        s := (Turn(i, s.0), Turn(i, s.1));
        var u, v := FirstWord(s.0, s.1), SecondWord(s.0, s.1);
        HoldsNext(esk[..], ks, i, u, v);
        esk[2 * i] := u;
        esk[2 * i + 1] := v;
      }
    }

    /** Encryption order in esk; the same pairs in reverse order in dsk. */
    method SetKey(key: seq<bv8>)
      requires |key| == 8 && esk != dsk && esk.Length == 32 && dsk.Length == 32
      modifies esk, dsk
      ensures Holds(esk[..], Schedule(key))
      ensures Holds(dsk[..], Reversed(Schedule(key)))
    {
      hide Schedule, Reversed;
      MainKs(key);
      ghost var ks := Schedule(key);
      ghost var rs := Reversed(ks);
      for g := 0 to 16
        invariant Holds(esk[..], ks) && HoldsTo(dsk[..], rs, g)
      {
        var i := 2 * g;
        ReversedAt(ks, g);
        assert (esk[30 - i], esk[31 - i]) == ks[15 - g];
        hide HoldsTo;
        HoldsNext(dsk[..], rs, g, esk[30 - i], esk[31 - i]);
        dsk[i] := esk[30 - i];
        dsk[i + 1] := esk[31 - i];
      }
    }
  }

  lemma RoundsAt(ks: seq<Subkey>, n: nat, s: Halves)
    requires n < |ks|
    ensures var r := Rounds(SB, ks[..n], s);
            Rounds(SB, ks[..n + 1], s) == (r.1, Xor(r.0, F(SB, ks[n], r.1)))
  {
    hide Rounds, F, Xor;
    RoundsSnoc(SB, ks[..n], ks[n], s);
    assert ks[..n + 1] == ks[..n] + [ks[n]];
  }

  /** DES_ROUND(Y, X); DES_ROUND(X, Y). */
  method TwoRounds(sk: array<bv32>, g: nat, u: bv32, v: bv32, ghost ks: seq<Subkey>, ghost s: Halves)
    returns (x: bv32, y: bv32)
    requires g < 8 && Holds(sk[..], ks) && Rounds(SB, ks[..2 * g], s) == (u, v)
    ensures Rounds(SB, ks[..2 * g + 2], s) == (x, y)
  {
    hide F, Xor, Rounds;
    RoundsAt(ks, 2 * g, s);
    RoundsAt(ks, 2 * g + 1, s);
    x := Xor(u, F(SB, (sk[4 * g], sk[4 * g + 1]), v));
    y := Xor(v, F(SB, (sk[4 * g + 2], sk[4 * g + 3]), x));
    assert ks[2 * g] == (sk[4 * g], sk[4 * g + 1]);
    assert ks[2 * g + 1] == (sk[4 * g + 2], sk[4 * g + 3]);
  }

  method SixteenRounds(sk: array<bv32>, s: Halves, ghost ks: seq<Subkey>) returns (h: Halves)
    requires Holds(sk[..], ks)
    ensures h == Rounds(SB, ks, s)
  {
    assert ks[..0] == [];
    assert Rounds(SB, ks[..0], s) == s;
    hide Rounds;
    var x, y := s.0, s.1;
    for g := 0 to 8
      invariant Rounds(SB, ks[..2 * g], s) == (x, y)
    {
      x, y := TwoRounds(sk, g, x, y, ks, s);
    }
    assert ks[..16] == ks;
    h := (x, y);
  }

  method PutHalves(output: array<bv8>, p: nat, f: Halves)
    requires p + 8 <= output.Length
    modifies output
    ensures output[..p + 8] == old(output[..p]) + BeBytes(f.0) + BeBytes(f.1)
    ensures output[p + 8..] == old(output[p + 8..])
  {
    hide BeBytes;
    PutBe(output, p, f.0);
    ghost var mid := output[..];
    PutBe(output, p + 4, f.1);
    assert output[..p + 8] == old(output[..p]) + BeBytes(f.0) + BeBytes(f.1);
    assert output[p + 8..] == mid[p + 4..][4..];
  }

  /** `_des_crypt`: the eight bytes at `p`, from one buffer to the other. */
  method Crypt(sk: array<bv32>, input: array<bv8>, output: array<bv8>, p: nat, ghost ks: seq<Subkey>)
    requires Holds(sk[..], ks) && p + 8 <= input.Length && p + 8 <= output.Length
    modifies output
    ensures output[..p + 8] == old(output[..p]) + CryptBlock(SB, ks, old(input[p..p + 8]))
    ensures output[p + 8..] == old(output[p + 8..])
  {
    hide Ip, Fp, Rounds, BeWord, BeBytes;
    var x := BeWord(input[p], input[p + 1], input[p + 2], input[p + 3]);
    var y := BeWord(input[p + 4], input[p + 5], input[p + 6], input[p + 7]);
    var h := SixteenRounds(sk, Ip(x, y), ks);
    var f := Fp(h.1, h.0);
    PutHalves(output, p, f);
  }

  /** The blocks the buffer loops process for a length argument. */
  function Blocks(datalen: int): (n: nat)
    ensures datalen > 0 ==> datalen <= 8 * n < datalen + 8
    ensures datalen <= 0 ==> n == 0
  {
    if datalen <= 0 then 0 else (datalen + 7) / 8
  }

  /** The bytes they touch: whole blocks, rounded up. */
  function Span(datalen: int): (n: nat)
    ensures n % 8 == 0 && (datalen % 8 == 0 && datalen >= 0 ==> n == datalen)
  {
    8 * Blocks(datalen)
  }

  lemma {:induction false} CryptAllSnoc(ks: seq<Subkey>, data: seq<bv8>, b: seq<bv8>)
    requires |data| % 8 == 0 && |b| == 8
    ensures CryptAll(SB, ks, data + b) == CryptAll(SB, ks, data) + CryptBlock(SB, ks, b)
  {
    hide CryptBlock;
    if data == [] {
      assert data + b == b && b[..8] == b && b[8..] == [];
    } else {
      assert (data + b)[..8] == data[..8] && (data + b)[8..] == data[8..] + b;
      CryptAllSnoc(ks, data[8..], b);
    }
  }

  lemma EmptyBuffer(ks: seq<Subkey>)
    ensures CryptAll(SB, ks, []) == []
  {
  }

  lemma NextBlock(ks: seq<Subkey>, data: seq<bv8>, p: nat)
    requires p % 8 == 0 && p + 8 <= |data|
    ensures CryptAll(SB, ks, data[..p + 8]) == CryptAll(SB, ks, data[..p]) + CryptBlock(SB, ks, data[p..p + 8])
  {
    hide CryptAll, CryptBlock;
    CryptAllSnoc(ks, data[..p], data[p..p + 8]);
    assert data[..p + 8] == data[..p] + data[p..p + 8];
  }

  /** The loop of `rtu_des_encrypt` and `rtu_des_decrypt`; `input` and `output` may be the same buffer. */
  /** The block at p, of a buffer whose earlier blocks may have been written over. */
  method CryptNext(sk: array<bv32>, input: array<bv8>, output: array<bv8>, p: nat, ghost ks: seq<Subkey>,
                   ghost data: seq<bv8>)
    requires Holds(sk[..], ks) && p + 8 <= input.Length == |data| && p + 8 <= output.Length && input[p..] == data[p..]
    modifies output
    ensures output[..p + 8] == old(output[..p]) + CryptBlock(SB, ks, data[p..p + 8])
    ensures output[p + 8..] == old(output[p + 8..]) == old(output[p..])[8..] && input[p + 8..] == data[p + 8..]
  {
    hide CryptBlock, Holds;
    assert input[p..p + 8] == input[p..][..8] == data[p..p + 8];
    Crypt(sk, input, output, p, ks);
    assert data[p..][8..] == data[p + 8..];
  }

  method CryptBuffer(sk: array<bv32>, output: array<bv8>, input: array<bv8>, datalen: int, ghost ks: seq<Subkey>)
    returns (rest: int)
    requires Holds(sk[..], ks) && Span(datalen) <= input.Length && Span(datalen) <= output.Length
    modifies output
    ensures rest == (if datalen > 0 then datalen - Span(datalen) else datalen) && rest <= 0
    ensures output[..Span(datalen)] == CryptAll(SB, ks, old(input[..Span(datalen)]))
    ensures output[Span(datalen)..] == old(output[Span(datalen)..])
  {
    hide CryptAll, CryptBlock, Holds;
    rest := datalen;
    var p := 0;
    ghost var g, n, data := 0, Blocks(datalen), input[..];
    EmptyBuffer(ks);
    while rest > 0
      invariant p == 8 * g && rest == datalen - p && g <= n
      invariant output[..p] == CryptAll(SB, ks, data[..p])
      invariant output[p..] == old(output[p..]) && input[p..] == data[p..]
    {
      NextBlock(ks, data, p);
      CryptNext(sk, input, output, p, ks, data);
      p, rest, g := p + 8, rest - 8, g + 1;
    }
  }

  method Encrypt(output: array<bv8>, input: array<bv8>, datalen: int, key: seq<bv8>) returns (rest: int)
    requires |key| == 8 && Span(datalen) <= input.Length && Span(datalen) <= output.Length
    modifies output
    ensures rest == (if datalen > 0 then datalen - Span(datalen) else datalen) && rest <= 0
    ensures output[..Span(datalen)] == CryptAll(SB, Schedule(key), old(input[..Span(datalen)]))
    ensures output[Span(datalen)..] == old(output[Span(datalen)..])
  {
    hide Schedule, CryptAll, Holds, Span;
    var ctx := new Context();
    ctx.SetKey(key);
    rest := CryptBuffer(ctx.esk, output, input, datalen, Schedule(key));
  }

  method Decrypt(output: array<bv8>, input: array<bv8>, datalen: int, key: seq<bv8>) returns (rest: int)
    requires |key| == 8 && Span(datalen) <= input.Length && Span(datalen) <= output.Length
    modifies output
    ensures rest == (if datalen > 0 then datalen - Span(datalen) else datalen) && rest <= 0
    ensures output[..Span(datalen)] == CryptAll(SB, Reversed(Schedule(key)), old(input[..Span(datalen)]))
    ensures output[Span(datalen)..] == old(output[Span(datalen)..])
  {
    hide Schedule, CryptAll, Holds, Span;
    var ctx := new Context();
    ctx.SetKey(key);
    rest := CryptBuffer(ctx.dsk, output, input, datalen, Reversed(Schedule(key)));
  }

  /** Encryption and decryption of a buffer of whole blocks, as functions. */
  function Enc(key: seq<bv8>, data: seq<bv8>): (c: seq<bv8>)
    requires |key| == 8 && |data| % 8 == 0
    ensures |c| == |data|
  {
    CryptAll(SB, Schedule(key), data)
  }

  function Dec(key: seq<bv8>, data: seq<bv8>): (c: seq<bv8>)
    requires |key| == 8 && |data| % 8 == 0
    ensures |c| == |data|
  {
    CryptAll(SB, Reversed(Schedule(key)), data)
  }

  /** For every key and every buffer of whole blocks, each direction undoes the other. */
  lemma EncryptDecrypt(key: seq<bv8>, data: seq<bv8>)
    requires |key| == 8 && |data| % 8 == 0
    ensures Dec(key, Enc(key, data)) == data
    ensures Enc(key, Dec(key, data)) == data
  {
    AllUnwind(SB, Schedule(key), data);
    AllUnwind(SB, Reversed(Schedule(key)), data);
    ReversedTwice(Schedule(key));
  }

  /** In place, twice: the buffer is back where it started. */
  method InPlaceRoundTrip(buf: array<bv8>, datalen: nat, key: seq<bv8>)
    requires |key| == 8 && datalen % 8 == 0 && datalen <= buf.Length
    modifies buf
    ensures buf[..] == old(buf[..])
  {
    hide CryptAll, Schedule, Reversed;
    ghost var data := buf[..datalen];
    EncryptDecrypt(key, data);
    var rest := Encrypt(buf, buf, datalen, key);
    assert buf[..datalen] == Enc(key, data);
    rest := Decrypt(buf, buf, datalen, key);
    assert buf[..] == buf[..datalen] + buf[datalen..];
  }
}
