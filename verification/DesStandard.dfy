/** The Data Encryption Standard as FIPS 46-3 writes it: tables of bit numbers, counted from 1 at the left. */
module DesStandard {
  import opened Bytes

  /** A 64-bit block or a 56-bit key register, as two words. */
  type Pair = (bv32, bv32)

  /** A 48-bit block as its eight rows of six bits. */
  datatype Rows = Rows(b1: bv32, b2: bv32, b3: bv32, b4: bv32, b5: bv32, b6: bv32, b7: bv32, b8: bv32)

  /** Bit i of a word of 32 bits. */
  function Bit(w: bv32, i: bv7): bv32
    requires 1 <= i <= 32
  {
    (w >> (32 - i)) & 1
  }

  /** Bit i of a block. */
  function Of(p: Pair, i: bv7): bv32
    requires 1 <= i <= 64
  {
    if i <= 32 then Bit(p.0, i) else Bit(p.1, i - 32)
  }

  /** Bit i of the register CD, whose halves have 28 bits. */
  function Cd(p: Pair, i: bv7): bv32
    requires 1 <= i <= 56
  {
    if i <= 28 then Bit(p.0, i + 4) else Bit(p.1, i - 24)
  }

  predicate InBlock(i: bv7) {
    1 <= i <= 64
  }

  function Row8(p: Pair, a: bv7, b: bv7, c: bv7, d: bv7, e: bv7, f: bv7, g: bv7, h: bv7): bv32
    requires InBlock(a) && InBlock(b) && InBlock(c) && InBlock(d)
    requires InBlock(e) && InBlock(f) && InBlock(g) && InBlock(h)
  {
    (Of(p, a) << 7) | (Of(p, b) << 6) | (Of(p, c) << 5) | (Of(p, d) << 4)
    | (Of(p, e) << 3) | (Of(p, f) << 2) | (Of(p, g) << 1) | Of(p, h)
  }

  function Row7(p: Pair, a: bv7, b: bv7, c: bv7, d: bv7, e: bv7, f: bv7, g: bv7): bv32
    requires InBlock(a) && InBlock(b) && InBlock(c) && InBlock(d) && InBlock(e) && InBlock(f) && InBlock(g)
  {
    (Of(p, a) << 6) | (Of(p, b) << 5) | (Of(p, c) << 4) | (Of(p, d) << 3) | (Of(p, e) << 2) | (Of(p, f) << 1) | Of(p, g)
  }

  function RowE(r: bv32, a: bv7, b: bv7, c: bv7, d: bv7, e: bv7, f: bv7): bv32
    requires 1 <= a <= 32 && 1 <= b <= 32 && 1 <= c <= 32 && 1 <= d <= 32 && 1 <= e <= 32 && 1 <= f <= 32
  {
    (Bit(r, a) << 5) | (Bit(r, b) << 4) | (Bit(r, c) << 3) | (Bit(r, d) << 2) | (Bit(r, e) << 1) | Bit(r, f)
  }

  function RowK(p: Pair, a: bv7, b: bv7, c: bv7, d: bv7, e: bv7, f: bv7): bv32
    requires 1 <= a <= 56 && 1 <= b <= 56 && 1 <= c <= 56 && 1 <= d <= 56 && 1 <= e <= 56 && 1 <= f <= 56
  {
    (Cd(p, a) << 5) | (Cd(p, b) << 4) | (Cd(p, c) << 3) | (Cd(p, d) << 2) | (Cd(p, e) << 1) | Cd(p, f)
  }

  function RowP(x: bv32, a: bv7, b: bv7, c: bv7, d: bv7): bv32
    requires 1 <= a <= 32 && 1 <= b <= 32 && 1 <= c <= 32 && 1 <= d <= 32
  {
    (Bit(x, a) << 3) | (Bit(x, b) << 2) | (Bit(x, c) << 1) | Bit(x, d)
  }

  /** Four bytes as a word. */
  function Join(a: bv32, b: bv32, c: bv32, d: bv32): bv32 {
    (a << 24) | (b << 16) | (c << 8) | d
  }

  /** The initial permutation IP. */
  function InitialPermutation(p: Pair): Pair {
    (Join(Row8(p, 58, 50, 42, 34, 26, 18, 10, 2), Row8(p, 60, 52, 44, 36, 28, 20, 12, 4),
          Row8(p, 62, 54, 46, 38, 30, 22, 14, 6), Row8(p, 64, 56, 48, 40, 32, 24, 16, 8)),
     Join(Row8(p, 57, 49, 41, 33, 25, 17, 9, 1), Row8(p, 59, 51, 43, 35, 27, 19, 11, 3),
          Row8(p, 61, 53, 45, 37, 29, 21, 13, 5), Row8(p, 63, 55, 47, 39, 31, 23, 15, 7)))
  }

  /** Its inverse. */
  function FinalPermutation(p: Pair): Pair {
    (Join(Row8(p, 40, 8, 48, 16, 56, 24, 64, 32), Row8(p, 39, 7, 47, 15, 55, 23, 63, 31),
          Row8(p, 38, 6, 46, 14, 54, 22, 62, 30), Row8(p, 37, 5, 45, 13, 53, 21, 61, 29)),
     Join(Row8(p, 36, 4, 44, 12, 52, 20, 60, 28), Row8(p, 35, 3, 43, 11, 51, 19, 59, 27),
          Row8(p, 34, 2, 42, 10, 50, 18, 58, 26), Row8(p, 33, 1, 41, 9, 49, 17, 57, 25)))
  }

  /** The bit selection table E. */
  function Expansion(r: bv32): Rows {
    Rows(RowE(r, 32, 1, 2, 3, 4, 5), RowE(r, 4, 5, 6, 7, 8, 9),
         RowE(r, 8, 9, 10, 11, 12, 13), RowE(r, 12, 13, 14, 15, 16, 17),
         RowE(r, 16, 17, 18, 19, 20, 21), RowE(r, 20, 21, 22, 23, 24, 25),
         RowE(r, 24, 25, 26, 27, 28, 29), RowE(r, 28, 29, 30, 31, 32, 1))
  }

  /** The permutation P. */
  function Permutation(x: bv32): bv32 {
    (RowP(x, 16, 7, 20, 21) << 28) | (RowP(x, 29, 12, 28, 17) << 24)
    | (RowP(x, 1, 15, 23, 26) << 20) | (RowP(x, 5, 18, 31, 10) << 16)
    | (RowP(x, 2, 8, 24, 14) << 12) | (RowP(x, 32, 27, 3, 9) << 8)
    | (RowP(x, 19, 13, 30, 6) << 4) | RowP(x, 22, 11, 4, 25)
  }

  /** The row of a selection function that six bits name: the first and the last. */
  function RowOf(b: bv32): (r: int)
    ensures 0 <= r < 4
  {
    (((b >> 4) & 2) | (b & 1)) as bv2 as int
  }

  /** And the column: the four bits between. */
  function ColumnOf(b: bv32): (c: int)
    ensures 0 <= c < 16
  {
    ((b >> 1) & 15) as bv4 as int
  }

  function S1(row: int, column: int): bv4
    requires 0 <= row < 4 && 0 <= column < 16
  {
    if row == 0 then [14, 4, 13, 1, 2, 15, 11, 8, 3, 10, 6, 12, 5, 9, 0, 7][column]
    else if row == 1 then [0, 15, 7, 4, 14, 2, 13, 1, 10, 6, 12, 11, 9, 5, 3, 8][column]
    else if row == 2 then [4, 1, 14, 8, 13, 6, 2, 11, 15, 12, 9, 7, 3, 10, 5, 0][column]
    else [15, 12, 8, 2, 4, 9, 1, 7, 5, 11, 3, 14, 10, 0, 6, 13][column]
  }

  function S2(row: int, column: int): bv4
    requires 0 <= row < 4 && 0 <= column < 16
  {
    if row == 0 then [15, 1, 8, 14, 6, 11, 3, 4, 9, 7, 2, 13, 12, 0, 5, 10][column]
    else if row == 1 then [3, 13, 4, 7, 15, 2, 8, 14, 12, 0, 1, 10, 6, 9, 11, 5][column]
    else if row == 2 then [0, 14, 7, 11, 10, 4, 13, 1, 5, 8, 12, 6, 9, 3, 2, 15][column]
    else [13, 8, 10, 1, 3, 15, 4, 2, 11, 6, 7, 12, 0, 5, 14, 9][column]
  }

  function S3(row: int, column: int): bv4
    requires 0 <= row < 4 && 0 <= column < 16
  {
    if row == 0 then [10, 0, 9, 14, 6, 3, 15, 5, 1, 13, 12, 7, 11, 4, 2, 8][column]
    else if row == 1 then [13, 7, 0, 9, 3, 4, 6, 10, 2, 8, 5, 14, 12, 11, 15, 1][column]
    else if row == 2 then [13, 6, 4, 9, 8, 15, 3, 0, 11, 1, 2, 12, 5, 10, 14, 7][column]
    else [1, 10, 13, 0, 6, 9, 8, 7, 4, 15, 14, 3, 11, 5, 2, 12][column]
  }

  function S4(row: int, column: int): bv4
    requires 0 <= row < 4 && 0 <= column < 16
  {
    if row == 0 then [7, 13, 14, 3, 0, 6, 9, 10, 1, 2, 8, 5, 11, 12, 4, 15][column]
    else if row == 1 then [13, 8, 11, 5, 6, 15, 0, 3, 4, 7, 2, 12, 1, 10, 14, 9][column]
    else if row == 2 then [10, 6, 9, 0, 12, 11, 7, 13, 15, 1, 3, 14, 5, 2, 8, 4][column]
    else [3, 15, 0, 6, 10, 1, 13, 8, 9, 4, 5, 11, 12, 7, 2, 14][column]
  }

  function S5(row: int, column: int): bv4
    requires 0 <= row < 4 && 0 <= column < 16
  {
    if row == 0 then [2, 12, 4, 1, 7, 10, 11, 6, 8, 5, 3, 15, 13, 0, 14, 9][column]
    else if row == 1 then [14, 11, 2, 12, 4, 7, 13, 1, 5, 0, 15, 10, 3, 9, 8, 6][column]
    else if row == 2 then [4, 2, 1, 11, 10, 13, 7, 8, 15, 9, 12, 5, 6, 3, 0, 14][column]
    else [11, 8, 12, 7, 1, 14, 2, 13, 6, 15, 0, 9, 10, 4, 5, 3][column]
  }

  function S6(row: int, column: int): bv4
    requires 0 <= row < 4 && 0 <= column < 16
  {
    if row == 0 then [12, 1, 10, 15, 9, 2, 6, 8, 0, 13, 3, 4, 14, 7, 5, 11][column]
    else if row == 1 then [10, 15, 4, 2, 7, 12, 9, 5, 6, 1, 13, 14, 0, 11, 3, 8][column]
    else if row == 2 then [9, 14, 15, 5, 2, 8, 12, 3, 7, 0, 4, 10, 1, 13, 11, 6][column]
    else [4, 3, 2, 12, 9, 5, 15, 10, 11, 14, 1, 7, 6, 0, 8, 13][column]
  }

  function S7(row: int, column: int): bv4
    requires 0 <= row < 4 && 0 <= column < 16
  {
    if row == 0 then [4, 11, 2, 14, 15, 0, 8, 13, 3, 12, 9, 7, 5, 10, 6, 1][column]
    else if row == 1 then [13, 0, 11, 7, 4, 9, 1, 10, 14, 3, 5, 12, 2, 15, 8, 6][column]
    else if row == 2 then [1, 4, 11, 13, 12, 3, 7, 14, 10, 15, 6, 8, 0, 5, 9, 2][column]
    else [6, 11, 13, 8, 1, 4, 10, 7, 9, 5, 0, 15, 14, 2, 3, 12][column]
  }

  function S8(row: int, column: int): bv4
    requires 0 <= row < 4 && 0 <= column < 16
  {
    if row == 0 then [13, 2, 8, 4, 6, 15, 11, 1, 10, 9, 3, 14, 5, 0, 12, 7][column]
    else if row == 1 then [1, 15, 13, 8, 10, 3, 7, 4, 12, 5, 6, 11, 0, 14, 9, 2][column]
    else if row == 2 then [7, 11, 4, 1, 9, 12, 14, 2, 0, 6, 10, 13, 15, 3, 5, 8][column]
    else [2, 1, 14, 7, 4, 10, 8, 13, 15, 12, 9, 0, 3, 5, 6, 11][column]
  }

  /** Eight results of four bits side by side. */
  function SideBySide(a: bv4, b: bv4, c: bv4, d: bv4, e: bv4, f: bv4, g: bv4, h: bv4): bv32 {
    (a as bv32 << 28) | (b as bv32 << 24) | (c as bv32 << 20) | (d as bv32 << 16)
    | (e as bv32 << 12) | (f as bv32 << 8) | (g as bv32 << 4) | h as bv32
  }

  function Selection(b: Rows): bv32 {
    SideBySide(S1(RowOf(b.b1), ColumnOf(b.b1)), S2(RowOf(b.b2), ColumnOf(b.b2)),
               S3(RowOf(b.b3), ColumnOf(b.b3)), S4(RowOf(b.b4), ColumnOf(b.b4)),
               S5(RowOf(b.b5), ColumnOf(b.b5)), S6(RowOf(b.b6), ColumnOf(b.b6)),
               S7(RowOf(b.b7), ColumnOf(b.b7)), S8(RowOf(b.b8), ColumnOf(b.b8)))
  }

  function XorRows(a: Rows, b: Rows): Rows {
    Rows(Xor(a.b1, b.b1), Xor(a.b2, b.b2), Xor(a.b3, b.b3), Xor(a.b4, b.b4),
         Xor(a.b5, b.b5), Xor(a.b6, b.b6), Xor(a.b7, b.b7), Xor(a.b8, b.b8))
  }

  /** The cipher function f(R, K). */
  function CipherFunction(r: bv32, k: Rows): bv32 {
    Permutation(Selection(XorRows(k, Expansion(r))))
  }

  // ----- the key schedule KS -----

  /** Permuted choice 1. */
  function PermutedChoice1(p: Pair): Pair {
    ((Row7(p, 57, 49, 41, 33, 25, 17, 9) << 21) | (Row7(p, 1, 58, 50, 42, 34, 26, 18) << 14)
     | (Row7(p, 10, 2, 59, 51, 43, 35, 27) << 7) | Row7(p, 19, 11, 3, 60, 52, 44, 36),
     (Row7(p, 63, 55, 47, 39, 31, 23, 15) << 21) | (Row7(p, 7, 62, 54, 46, 38, 30, 22) << 14)
     | (Row7(p, 14, 6, 61, 53, 45, 37, 29) << 7) | Row7(p, 21, 13, 5, 28, 20, 12, 4))
  }

  /** Permuted choice 2. */
  function PermutedChoice2(p: Pair): Rows {
    Rows(RowK(p, 14, 17, 11, 24, 1, 5), RowK(p, 3, 28, 15, 6, 21, 10),
         RowK(p, 23, 19, 12, 4, 26, 8), RowK(p, 16, 7, 27, 20, 13, 2),
         RowK(p, 41, 52, 31, 37, 47, 55), RowK(p, 30, 40, 51, 45, 33, 48),
         RowK(p, 44, 49, 39, 56, 34, 53), RowK(p, 46, 42, 50, 36, 29, 32))
  }

  /** The left shifts of iteration n, counted from 1. */
  function Shifts(n: nat): nat
    requires 1 <= n <= 16
  {
    [1, 1, 2, 2, 2, 2, 2, 2, 1, 2, 2, 2, 2, 2, 2, 1][n - 1]
  }

  function LeftShift(x: bv32): bv32 {
    ((x << 1) | (x >> 27)) & 0x0FFFFFFF
  }

  function ShiftedBy(p: Pair, n: nat): Pair {
    if n == 0 then p else var q := ShiftedBy(p, n - 1); (LeftShift(q.0), LeftShift(q.1))
  }

  /** CnDn for a key. */
  function Register(key: Pair, n: nat): Pair
    requires n <= 16
  {
    if n == 0 then PermutedChoice1(key) else ShiftedBy(Register(key, n - 1), Shifts(n))
  }

  /** K1 to K16. */
  function Keys(key: Pair): (ks: seq<Rows>)
    ensures |ks| == 16
  {
    seq(16, i requires 0 <= i < 16 => PermutedChoice2(Register(key, i + 1)))
  }

  // ----- enciphering and deciphering -----

  /** Iterations: L' = R and R' = L xor f(R, K). */
  function Iterations(ks: seq<Rows>, s: Pair): Pair {
    if ks == [] then s else Iterations(ks[1..], (s.1, Xor(s.0, CipherFunction(s.1, ks[0]))))
  }

  /** Enciphering under K1 to K16, deciphering under K16 to K1. */
  function Cipher(ks: seq<Rows>, block: Pair): Pair {
    var s := Iterations(ks, InitialPermutation(block));
    FinalPermutation((s.1, s.0))
  }

  function Backward<T>(ks: seq<T>): (r: seq<T>)
    ensures |r| == |ks| && forall i :: 0 <= i < |ks| ==> r[i] == ks[|ks| - 1 - i]
  {
    seq(|ks|, i requires 0 <= i < |ks| => ks[|ks| - 1 - i])
  }

  function PairOf(b: seq<bv8>): Pair
    requires |b| == 8
  {
    (BeWord(b[0], b[1], b[2], b[3]), BeWord(b[4], b[5], b[6], b[7]))
  }

  function BytesOf(p: Pair): (b: seq<bv8>)
    ensures |b| == 8
  {
    BeBytes(p.0) + BeBytes(p.1)
  }

  /** A buffer of whole blocks, each on its own. */
  function Blockwise(ks: seq<Rows>, data: seq<bv8>): (c: seq<bv8>)
    requires |data| % 8 == 0
    ensures |c| == |data|
  {
    if data == [] then [] else BytesOf(Cipher(ks, PairOf(data[..8]))) + Blockwise(ks, data[8..])
  }
}
