/** The cipher of software/das/reg/rtu_des.c is the Data Encryption Standard. */
module DesIsStandard {
  import opened Bytes
  import opened DesTables
  import C = DesCipher
  import Des
  import opened DesStandard

  // ----- the permutations: exchanges are wires -----

  /** The exchange as what it does: the masked bits change places. */
  function Swap(u: bv32, v: bv32, n: bv6, mask: bv32): Pair
    requires n < 32
  {
    ((u & !(mask << n)) | ((v & mask) << n), (v & !mask) | ((u >> n) & mask))
  }

  lemma SwapIs4(u: bv32, v: bv32)
    ensures C.Exchange(u, v, 4, 0x0F0F0F0F) == Swap(u, v, 4, 0x0F0F0F0F)
  {
  }

  lemma SwapIs16(u: bv32, v: bv32)
    ensures C.Exchange(u, v, 16, 0x0000FFFF) == Swap(u, v, 16, 0x0000FFFF)
  {
  }

  lemma SwapIs2(u: bv32, v: bv32)
    ensures C.Exchange(u, v, 2, 0x33333333) == Swap(u, v, 2, 0x33333333)
  {
  }

  lemma SwapIs8(u: bv32, v: bv32)
    ensures C.Exchange(u, v, 8, 0x00FF00FF) == Swap(u, v, 8, 0x00FF00FF)
  {
  }

  lemma SwapIs0(u: bv32, v: bv32)
    ensures C.Exchange(u, v, 0, 0xAAAAAAAA) == Swap(u, v, 0, 0xAAAAAAAA)
  {
  }

  function IpWires(x: bv32, y: bv32): Pair {
    var (x, y) := Swap(x, y, 4, 0x0F0F0F0F);
    var (x, y) := Swap(x, y, 16, 0x0000FFFF);
    var (y, x) := Swap(y, x, 2, 0x33333333);
    var (y, x) := Swap(y, x, 8, 0x00FF00FF);
    var y := C.RotL1(y);
    var (x, y) := Swap(x, y, 0, 0xAAAAAAAA);
    (C.RotL1(x), y)
  }

  function Turned(p: Pair): Pair {
    (C.RotL1(p.0), C.RotL1(p.1))
  }

  lemma WiresAreIp(x: bv32, y: bv32)
    ensures IpWires(x, y) == Turned(InitialPermutation((x, y)))
  {
  }

  lemma IpIsWires(x: bv32, y: bv32)
    ensures C.Ip(x, y) == IpWires(x, y)
  {
    hide C.Exchange, C.RotL1, Swap;
    var e1 := C.Exchange(x, y, 4, 0x0F0F0F0F);
    var e2 := C.Exchange(e1.0, e1.1, 16, 0x0000FFFF);
    var e3 := C.Exchange(e2.1, e2.0, 2, 0x33333333);
    var e4 := C.Exchange(e3.0, e3.1, 8, 0x00FF00FF);
    SwapIs4(x, y);
    SwapIs16(e1.0, e1.1);
    SwapIs2(e2.1, e2.0);
    SwapIs8(e3.0, e3.1);
    SwapIs0(e4.1, C.RotL1(e4.0));
  }

  /** DES_IP is the initial permutation, with both halves turned one place left. */
  lemma IpIs(x: bv32, y: bv32)
    ensures C.Ip(x, y) == Turned(InitialPermutation((x, y)))
  {
    hide C.Ip, IpWires, InitialPermutation;
    IpIsWires(x, y);
    WiresAreIp(x, y);
  }

  /** The second table of the standard inverts the first. */
  lemma PermutationsInvert(p: Pair)
    ensures FinalPermutation(InitialPermutation(p)) == p
  {
  }

  lemma TurnedTwice(x: bv32)
    ensures C.RotR1(C.RotL1(x)) == x
  {
  }

  /** And DES_FP of turned halves is the final permutation. */
  lemma FpIs(x: bv32, y: bv32)
    ensures C.Fp(C.RotL1(x), C.RotL1(y)) == FinalPermutation((x, y))
  {
    hide C.Ip, C.Fp, C.RotL1, C.RotR1, InitialPermutation, FinalPermutation;
    var p := C.Fp(C.RotL1(x), C.RotL1(y));
    C.FpThenIp(C.RotL1(x), C.RotL1(y));
    IpIs(p.0, p.1);
    var i := InitialPermutation(p);
    TurnedTwice(x);
    TurnedTwice(y);
    TurnedTwice(i.0);
    TurnedTwice(i.1);
    PermutationsInvert(p);
  }

  // ----- one table lookup is a selection function under the permutation P -----

  function Flag(v: bv32, n: bv6): bv32
    requires n < 32
  {
    (v >> n) & 1
  }

  /** Selection function k. */
  function S(k: nat, row: int, column: int): bv4
    requires 1 <= k <= 8 && 0 <= row < 4 && 0 <= column < 16
  {
    match k
    case 1 => S1(row, column)
    case 2 => S2(row, column)
    case 3 => S3(row, column)
    case 4 => S4(row, column)
    case 5 => S5(row, column)
    case 6 => S6(row, column)
    case 7 => S7(row, column)
    case 8 => S8(row, column)
  }

  /** The table of the C code for it. */
  function Box(k: nat): SBox
    requires 1 <= k <= 8
  {
    match k
    case 1 => SB1
    case 2 => SB2
    case 3 => SB3
    case 4 => SB4
    case 5 => SB5
    case 6 => SB6
    case 7 => SB7
    case 8 => SB8
  }

  // The four result bits of each after P, turned one place left.

  function Place1(v: bv32): bv32 {
    (Flag(v, 3) << 24) | (Flag(v, 2) << 16) | (Flag(v, 1) << 10) | (Flag(v, 0) << 2)
  }

  function Place2(v: bv32): bv32 {
    (Flag(v, 3) << 20) | (Flag(v, 2) << 5) | (Flag(v, 1) << 31) | (Flag(v, 0) << 15)
  }

  function Place3(v: bv32): bv32 {
    (Flag(v, 3) << 9) | (Flag(v, 2) << 17) | (Flag(v, 1) << 3) | (Flag(v, 0) << 27)
  }

  function Place4(v: bv32): bv32 {
    (Flag(v, 3) << 7) | (Flag(v, 2) << 13) | (Flag(v, 1) << 23) | (Flag(v, 0) << 0)
  }

  function Place5(v: bv32): bv32 {
    (Flag(v, 3) << 25) | (Flag(v, 2) << 19) | (Flag(v, 1) << 8) | (Flag(v, 0) << 30)
  }

  function Place6(v: bv32): bv32 {
    (Flag(v, 3) << 29) | (Flag(v, 2) << 4) | (Flag(v, 1) << 22) | (Flag(v, 0) << 14)
  }

  function Place7(v: bv32): bv32 {
    (Flag(v, 3) << 1) | (Flag(v, 2) << 21) | (Flag(v, 1) << 11) | (Flag(v, 0) << 26)
  }

  function Place8(v: bv32): bv32 {
    (Flag(v, 3) << 28) | (Flag(v, 2) << 6) | (Flag(v, 1) << 18) | (Flag(v, 0) << 12)
  }

  function Place(k: nat, v: bv32): bv32
    requires 1 <= k <= 8
  {
    match k
    case 1 => Place1(v)
    case 2 => Place2(v)
    case 3 => Place3(v)
    case 4 => Place4(v)
    case 5 => Place5(v)
    case 6 => Place6(v)
    case 7 => Place7(v)
    case 8 => Place8(v)
  }

  lemma Table1(b: bv32)
    requires b < 64
    ensures C.Look(SB1, b, 0) == Place1(S1(RowOf(b), ColumnOf(b)) as bv32)
  {
  }

  lemma Table2(b: bv32)
    requires b < 64
    ensures C.Look(SB2, b, 0) == Place2(S2(RowOf(b), ColumnOf(b)) as bv32)
  {
  }

  lemma Table3(b: bv32)
    requires b < 64
    ensures C.Look(SB3, b, 0) == Place3(S3(RowOf(b), ColumnOf(b)) as bv32)
  {
  }

  lemma Table4(b: bv32)
    requires b < 64
    ensures C.Look(SB4, b, 0) == Place4(S4(RowOf(b), ColumnOf(b)) as bv32)
  {
  }

  lemma Table5(b: bv32)
    requires b < 64
    ensures C.Look(SB5, b, 0) == Place5(S5(RowOf(b), ColumnOf(b)) as bv32)
  {
  }

  lemma Table6(b: bv32)
    requires b < 64
    ensures C.Look(SB6, b, 0) == Place6(S6(RowOf(b), ColumnOf(b)) as bv32)
  {
  }

  lemma Table7(b: bv32)
    requires b < 64
    ensures C.Look(SB7, b, 0) == Place7(S7(RowOf(b), ColumnOf(b)) as bv32)
  {
  }

  lemma Table8(b: bv32)
    requires b < 64
    ensures C.Look(SB8, b, 0) == Place8(S8(RowOf(b), ColumnOf(b)) as bv32)
  {
  }

  /** Every combined table is its selection function under the permutation P. */
  lemma TablesAre(k: nat, b: bv32)
    requires 1 <= k <= 8 && b < 64
    ensures C.Look(Box(k), b, 0) == Place(k, S(k, RowOf(b), ColumnOf(b)) as bv32)
  {
    hide C.Look, RowOf, ColumnOf, S1, S2, S3, S4, S5, S6, S7, S8, SB1, SB2, SB3, SB4, SB5, SB6, SB7, SB8;
    hide Place1, Place2, Place3, Place4, Place5, Place6, Place7, Place8;
    match k
    case 1 => Table1(b);
    case 2 => Table2(b);
    case 3 => Table3(b);
    case 4 => Table4(b);
    case 5 => Table5(b);
    case 6 => Table6(b);
    case 7 => Table7(b);
    case 8 => Table8(b);
  }

  // ----- the cipher function -----

  /** The six bits a lookup takes. */
  function Pick(t: bv32, n: bv6): bv32
    requires n < 32
  {
    (t >> n) & 0x3F
  }

  lemma LookPick(sb: SBox, t: bv32, n: bv6)
    requires n < 32
    ensures Pick(t, n) < 64 && C.Look(sb, t, n) == C.Look(sb, Pick(t, n), 0)
  {
  }

  /** The 48 bits of a subkey in the two words of the C code: odd rows in the second, even rows in the first. */
  function Unpack(k: C.Subkey): Rows {
    Rows(Pick(k.1, 24), Pick(k.0, 24), Pick(k.1, 16), Pick(k.0, 16),
         Pick(k.1, 8), Pick(k.0, 8), Pick(k.1, 0), Pick(k.0, 0))
  }

  lemma PickXor24(a: bv32, b: bv32)
    ensures Pick(Xor(a, b), 24) == Xor(Pick(a, 24), Pick(b, 24))
  {
  }

  lemma PickXor16(a: bv32, b: bv32)
    ensures Pick(Xor(a, b), 16) == Xor(Pick(a, 16), Pick(b, 16))
  {
  }

  lemma PickXor8(a: bv32, b: bv32)
    ensures Pick(Xor(a, b), 8) == Xor(Pick(a, 8), Pick(b, 8))
  {
  }

  lemma PickXor0(a: bv32, b: bv32)
    ensures Pick(Xor(a, b), 0) == Xor(Pick(a, 0), Pick(b, 0))
  {
  }

  /** The rows of E are runs of six bits of R turned one place left, or five places right. */
  lemma RowsOfE(r: bv32)
    ensures var t, u, e := C.RotL1(r), C.RotR4(C.RotL1(r)), Expansion(r);
            && e.b1 == Pick(u, 24) && e.b2 == Pick(t, 24) && e.b3 == Pick(u, 16) && e.b4 == Pick(t, 16)
            && e.b5 == Pick(u, 8) && e.b6 == Pick(t, 8) && e.b7 == Pick(u, 0) && e.b8 == Pick(t, 0)
  {
  }

  /** What the lookups of a round take is K xor E(R). */
  lemma RowsTaken(k: C.Subkey, r: bv32)
    ensures var t, u := Xor(k.0, C.RotL1(r)), Xor(k.1, C.RotR4(C.RotL1(r)));
            XorRows(Unpack(k), Expansion(r)) == Unpack((t, u))
  {
    RowsOfE(r);
    var a, b := C.RotL1(r), C.RotR4(C.RotL1(r));
    hide Pick, Expansion, C.RotL1, C.RotR4, Xor;
    PickXor24(k.1, b);
    PickXor24(k.0, a);
    PickXor16(k.1, b);
    PickXor16(k.0, a);
    PickXor8(k.1, b);
    PickXor8(k.0, a);
    PickXor0(k.1, b);
    PickXor0(k.0, a);
  }

  /** Under P the eight results go to different places, so one combination serves for all. */
  lemma PlacedSideBySide(a: bv4, b: bv4, c: bv4, d: bv4, e: bv4, f: bv4, g: bv4, h: bv4)
    ensures C.RotL1(Permutation(SideBySide(a, b, c, d, e, f, g, h)))
         == C.Xor8(Place(8, h as bv32), Place(6, f as bv32), Place(4, d as bv32), Place(2, b as bv32),
                 Place(7, g as bv32), Place(5, e as bv32), Place(3, c as bv32), Place(1, a as bv32))
  {
  }

  function Selected(k: nat, b: bv32): bv4
    requires 1 <= k <= 8
  {
    S(k, RowOf(b), ColumnOf(b))
  }

  lemma LookupIs(k: nat, t: bv32, n: bv6)
    requires 1 <= k <= 8 && n < 32
    ensures C.Look(Box(k), t, n) == Place(k, Selected(k, Pick(t, n)) as bv32)
  {
    hide S, Box, Place, RowOf, ColumnOf, C.Look, Pick;
    LookPick(Box(k), t, n);
    TablesAre(k, Pick(t, n));
  }

  lemma SelectionIs(c: Rows)
    ensures Selection(c) == SideBySide(Selected(1, c.b1), Selected(2, c.b2), Selected(3, c.b3), Selected(4, c.b4),
                                       Selected(5, c.b5), Selected(6, c.b6), Selected(7, c.b7), Selected(8, c.b8))
  {
    hide SideBySide, RowOf, ColumnOf, S1, S2, S3, S4, S5, S6, S7, S8;
  }

  /** Eight lookups are the selection functions side by side, under P and the turn by one place. */
  lemma LookupsAre(t: bv32, u: bv32)
    ensures C.Xor8(C.Look(SB8, t, 0), C.Look(SB6, t, 8), C.Look(SB4, t, 16), C.Look(SB2, t, 24),
                   C.Look(SB7, u, 0), C.Look(SB5, u, 8), C.Look(SB3, u, 16), C.Look(SB1, u, 24))
         == C.RotL1(Permutation(Selection(Unpack((t, u)))))
  {
    var c := Unpack((t, u));
    hide Pick, C.RotL1, Permutation, C.Look, C.Xor8, SideBySide, Selected, Place, Selection;
    hide SB1, SB2, SB3, SB4, SB5, SB6, SB7, SB8;
    LookupIs(1, u, 24);
    LookupIs(2, t, 24);
    LookupIs(3, u, 16);
    LookupIs(4, t, 16);
    LookupIs(5, u, 8);
    LookupIs(6, t, 8);
    LookupIs(7, u, 0);
    LookupIs(8, t, 0);
    SelectionIs(c);
    PlacedSideBySide(Selected(1, c.b1), Selected(2, c.b2), Selected(3, c.b3), Selected(4, c.b4),
                     Selected(5, c.b5), Selected(6, c.b6), Selected(7, c.b7), Selected(8, c.b8));
  }

  /** A round combines in f(R, K) of the standard, turned one place left, for R turned one place left. */
  lemma RoundIs(k: C.Subkey, r: bv32)
    ensures C.F(SB, k, C.RotL1(r)) == C.RotL1(CipherFunction(r, Unpack(k)))
  {
    var t, u := Xor(k.0, C.RotL1(r)), Xor(k.1, C.RotR4(C.RotL1(r)));
    hide Expansion, Unpack, C.RotL1, C.RotR4, Xor, XorRows, Permutation, Selection, C.Look, C.Xor8;
    RowsTaken(k, r);
    LookupsAre(t, u);
  }

  // ----- the key schedule -----

  function Four(t: bv32, n: bv6): bv4
    requires n < 32
  {
    ((t >> n) & 0xF) as bv4
  }

  function LeftBits(n: bv4): bv32 {
    (Flag(n as bv32, 3) << 24) | (Flag(n as bv32, 2) << 16) | (Flag(n as bv32, 1) << 8) | Flag(n as bv32, 0)
  }

  function RightBits(n: bv4): bv32 {
    (Flag(n as bv32, 0) << 24) | (Flag(n as bv32, 1) << 16) | (Flag(n as bv32, 2) << 8) | Flag(n as bv32, 3)
  }

  lemma LeftNibble(n: bv4)
    ensures LHS[n as int] == LeftBits(n)
  {
  }

  lemma RightNibble(n: bv4)
    ensures RHS[n as int] == RightBits(n)
  {
  }

  function Or8(a: bv32, b: bv32, c: bv32, d: bv32, e: bv32, f: bv32, g: bv32, h: bv32): bv32 {
    (a << 3) | (b << 2) | (c << 1) | (d << 0) | (e << 7) | (f << 6) | (g << 5) | (h << 4)
  }

  lemma LeftAt(x: bv32, n: bv6)
    requires n < 32
    ensures LHS[Des.Nib(x, n)] == LeftBits(Four(x, n))
  {
    LeftNibble(Four(x, n));
    hide LeftBits, LHS;
  }

  lemma RightAt(x: bv32, n: bv6)
    requires n < 32
    ensures RHS[Des.Nib(x, n)] == RightBits(Four(x, n))
  {
    RightNibble(Four(x, n));
    hide RightBits, RHS;
  }

  lemma SpreadLeftIs(x: bv32)
    ensures Des.SpreadLeft(x) ==
      Or8(LeftBits(Four(x, 0)), LeftBits(Four(x, 8)), LeftBits(Four(x, 16)), LeftBits(Four(x, 24)),
          LeftBits(Four(x, 5)), LeftBits(Four(x, 13)), LeftBits(Four(x, 21)), LeftBits(Four(x, 29)))
  {
    hide LeftBits, Four, Des.Nib, LHS;
    LeftAt(x, 0);
    LeftAt(x, 8);
    LeftAt(x, 16);
    LeftAt(x, 24);
    LeftAt(x, 5);
    LeftAt(x, 13);
    LeftAt(x, 21);
    LeftAt(x, 29);
  }

  lemma SpreadRightIs(y: bv32)
    ensures Des.SpreadRight(y) ==
      Or8(RightBits(Four(y, 1)), RightBits(Four(y, 9)), RightBits(Four(y, 17)), RightBits(Four(y, 25)),
          RightBits(Four(y, 4)), RightBits(Four(y, 12)), RightBits(Four(y, 20)), RightBits(Four(y, 28)))
  {
    hide RightBits, Four, Des.Nib, RHS;
    RightAt(y, 1);
    RightAt(y, 9);
    RightAt(y, 17);
    RightAt(y, 25);
    RightAt(y, 4);
    RightAt(y, 12);
    RightAt(y, 20);
    RightAt(y, 28);
  }

  lemma SwapIsKey(u: bv32, v: bv32)
    ensures C.Exchange(u, v, 0, 0x10101010) == Swap(u, v, 0, 0x10101010)
  {
  }

  function KeyWires(p: Pair): Pair {
    var (y, x) := Swap(p.1, p.0, 4, 0x0F0F0F0F);
    var (y, x) := Swap(y, x, 0, 0x10101010);
    (Des.Low28(Or8(LeftBits(Four(x, 0)), LeftBits(Four(x, 8)), LeftBits(Four(x, 16)), LeftBits(Four(x, 24)),
         LeftBits(Four(x, 5)), LeftBits(Four(x, 13)), LeftBits(Four(x, 21)), LeftBits(Four(x, 29)))),
     Des.Low28(Or8(RightBits(Four(y, 1)), RightBits(Four(y, 9)), RightBits(Four(y, 17)), RightBits(Four(y, 25)),
         RightBits(Four(y, 4)), RightBits(Four(y, 12)), RightBits(Four(y, 20)), RightBits(Four(y, 28)))))
  }

  lemma WiresAreChoice1(p: Pair)
    ensures KeyWires(p) == PermutedChoice1(p)
  {
  }

  /** The spreading tables after two exchanges are permuted choice 1. */
  lemma KeyHalvesAre(key: seq<bv8>)
    requires |key| == 8
    ensures Des.KeyHalves(key) == PermutedChoice1(PairOf(key))
  {
    hide C.Exchange, Swap, Des.Low28, Des.SpreadLeft, Des.SpreadRight, Or8, LeftBits, RightBits, Four;
    hide PermutedChoice1, BeWord;
    var p := PairOf(key);
    var e1 := C.Exchange(p.1, p.0, 4, 0x0F0F0F0F);
    var e2 := C.Exchange(e1.0, e1.1, 0, 0x10101010);
    SwapIs4(p.1, p.0);
    SwapIsKey(e1.0, e1.1);
    SpreadLeftIs(e2.1);
    SpreadRightIs(e2.0);
    WiresAreChoice1(p);
  }

  /** Both halves of the register have 28 bits. */
  predicate Halves28(p: Pair) {
    p.0 < 0x1000_0000 && p.1 < 0x1000_0000
  }

  lemma Choice1Halves(p: Pair)
    ensures Halves28(PermutedChoice1(p))
  {
  }

  lemma ShiftHalves(x: bv32)
    ensures LeftShift(x) < 0x1000_0000
  {
  }

  lemma TwoShifts(x: bv32)
    requires x < 0x1000_0000
    ensures ((x << 2) | (x >> 26)) & 0x0FFFFFFF == LeftShift(LeftShift(x))
  {
  }

  lemma {:induction false} RegisterHalves(key: Pair, n: nat)
    requires n <= 16
    ensures Halves28(Register(key, n))
  {
    hide PermutedChoice1, LeftShift;
    if n == 0 {
      Choice1Halves(key);
    } else {
      var q := ShiftedBy(Register(key, n - 1), Shifts(n) - 1);
      ShiftHalves(q.0);
      ShiftHalves(q.1);
    }
  }

  predicate Single(i: nat) {
    i < 2 || i == 8 || i == 15
  }

  lemma TurnOnce(i: nat, x: bv32)
    requires Single(i)
    ensures Des.Turn(i, x) == LeftShift(x)
  {
  }

  lemma TurnTwice(i: nat, x: bv32)
    requires !Single(i) && x < 0x1000_0000
    ensures Des.Turn(i, x) == LeftShift(LeftShift(x))
  {
    TwoShifts(x);
    hide LeftShift;
  }

  lemma ShiftedOnceTwice(p: Pair)
    ensures ShiftedBy(p, 1) == (LeftShift(p.0), LeftShift(p.1))
    ensures ShiftedBy(p, 2) == (LeftShift(LeftShift(p.0)), LeftShift(LeftShift(p.1)))
  {
    hide LeftShift;
    assert ShiftedBy(p, 0) == p;
    assert ShiftedBy(p, 1) == (LeftShift(p.0), LeftShift(p.1));
  }

  lemma TurnIs(i: nat, p: Pair)
    requires i < 16 && Halves28(p)
    ensures (Des.Turn(i, p.0), Des.Turn(i, p.1)) == ShiftedBy(p, Shifts(i + 1))
  {
    assert Shifts(i + 1) == if Single(i) then 1 else 2;
    ShiftedOnceTwice(p);
    hide LeftShift, ShiftedBy, Des.Turn;
    if Single(i) {
      TurnOnce(i, p.0);
      TurnOnce(i, p.1);
    } else {
      TurnTwice(i, p.0);
      TurnTwice(i, p.1);
    }
  }

  /** The halves before round i are the register CiDi. */
  lemma {:induction false} BeforeIs(key: seq<bv8>, i: nat)
    requires |key| == 8 && i <= 16
    ensures Des.Before(key, i) == Register(PairOf(key), i)
  {
    hide Des.KeyHalves, PermutedChoice1, Des.Turn, ShiftedBy;
    if i == 0 {
      KeyHalvesAre(key);
    } else {
      BeforeIs(key, i - 1);
      RegisterHalves(PairOf(key), i - 1);
      TurnIs(i - 1, Register(PairOf(key), i - 1));
    }
  }

  /** The two schedule words of a round are permuted choice 2. */
  lemma WordsAreChoice2(p: Pair)
    requires Halves28(p)
    ensures Unpack((Des.FirstWord(p.0, p.1), Des.SecondWord(p.0, p.1))) == PermutedChoice2(p)
  {
  }

  /** Each key of the standard is in a schedule, row by row. */
  predicate Match(ks: seq<C.Subkey>, rs: seq<Rows>) {
    |ks| == |rs| && forall i :: 0 <= i < |ks| ==> Unpack(ks[i]) == rs[i]
  }

  /** `_des_main_ks` computes the key schedule KS. */
  lemma KeysAre(key: seq<bv8>)
    requires |key| == 8
    ensures Match(Des.Schedule(key), Keys(PairOf(key)))
  {
    hide Unpack, Des.FirstWord, Des.SecondWord, PermutedChoice2, Register;
    var k := PairOf(key);
    forall i | 0 <= i < 16
      ensures Unpack(Des.Schedule(key)[i]) == Keys(k)[i]
    {
      BeforeIs(key, i + 1);
      RegisterHalves(k, i + 1);
      WordsAreChoice2(Register(k, i + 1));
    }
  }

  // ----- the whole cipher -----

  lemma RotXor(a: bv32, b: bv32)
    ensures C.RotL1(Xor(a, b)) == Xor(C.RotL1(a), C.RotL1(b))
  {
  }

  /** The rounds of the C code run the iterations of the standard on turned halves. */
  lemma {:induction false} RoundsAre(ks: seq<C.Subkey>, rs: seq<Rows>, s: Pair)
    requires Match(ks, rs)
    ensures C.Rounds(SB, ks, Turned(s)) == Turned(Iterations(rs, s))
  {
    hide C.F, CipherFunction, Unpack, C.RotL1, Xor;
    if ks != [] {
      RoundIs(ks[0], s.1);
      RotXor(s.0, CipherFunction(s.1, rs[0]));
      RoundsAre(ks[1..], rs[1..], (s.1, Xor(s.0, CipherFunction(s.1, rs[0]))));
    }
  }

  lemma CipherIs(ks: seq<C.Subkey>, rs: seq<Rows>, p: Pair)
    requires Match(ks, rs)
    ensures C.CryptHalves(SB, ks, p.0, p.1) == Cipher(rs, p)
  {
    hide C.Ip, C.Fp, C.Rounds, C.RotL1, InitialPermutation, FinalPermutation, Iterations;
    IpIs(p.0, p.1);
    RoundsAre(ks, rs, InitialPermutation(p));
    var s := Iterations(rs, InitialPermutation(p));
    FpIs(s.1, s.0);
  }

  lemma {:induction false} BlocksAre(ks: seq<C.Subkey>, rs: seq<Rows>, data: seq<bv8>)
    requires Match(ks, rs) && |data| % 8 == 0
    ensures C.CryptAll(SB, ks, data) == Blockwise(rs, data)
  {
    hide Match, C.CryptHalves, Cipher, BeWord, BeBytes;
    if data != [] {
      CipherIs(ks, rs, PairOf(data[..8]));
      BlocksAre(ks, rs, data[8..]);
    }
  }

  lemma MatchBack(ks: seq<C.Subkey>, rs: seq<Rows>)
    requires Match(ks, rs)
    ensures Match(C.Reversed(ks), Backward(rs))
  {
    hide Unpack, C.Reversed;
    forall i | 0 <= i < |ks|
      ensures Unpack(C.Reversed(ks)[i]) == Backward(rs)[i]
    {
      Des.ReversedAt(ks, i);
    }
  }

  /** Encryption and decryption of a buffer are those of FIPS 46-3, block by block, for every key. */
  lemma EncryptionIsDes(key: seq<bv8>, data: seq<bv8>)
    requires |key| == 8 && |data| % 8 == 0
    ensures Des.Enc(key, data) == Blockwise(Keys(PairOf(key)), data)
    ensures Des.Dec(key, data) == Blockwise(Backward(Keys(PairOf(key))), data)
  {
    hide Des.Schedule, Keys, C.Reversed, Match, C.CryptAll, Blockwise, PairOf, Backward;
    var ks, rs := Des.Schedule(key), Keys(PairOf(key));
    KeysAre(key);
    MatchBack(ks, rs);
    BlocksAre(ks, rs, data);
    BlocksAre(C.Reversed(ks), Backward(rs), data);
  }

}
