/** The data link of HJ 212-2017 as software/das/sdccp/hjt212.c frames and receives it. */
module Hjt212Frame {
  import opened Bytes
  import opened Hex
  import opened CrcFold
  import Crc16

  const BUF_SIZE := 2048
  const HASH: bv8 := 0x23
  const CR: bv8 := 0x0D
  const LF: bv8 := 0x0A

  /** One byte of the check of Appendix A: the upper half of the register takes the byte, the lower half is dropped. */
  function CrcByte(r: bv16, b: bv8): bv16 {
    Crc16.EightBits((r >> 8) ^ b as bv16)
  }

  function Check(data: seq<bv8>): bv16 {
    Run(CrcByte, 0xFFFF, data)
  }

  lemma UpperHalf(r: bv16, b: bv8)
    ensures b as bv16 ^ (r >> 8) as bv8 as bv16 == (r >> 8) ^ b as bv16
  {
  }

  lemma CrcByteIs(r: bv16, b: bv8)
    ensures CrcByte(r, b) == Crc16.EightBits((r >> 8) ^ b as bv16)
  {
  }

  /** n shifts of the register. */
  function Shifts(r: bv16, n: nat): bv16 {
    if n == 0 then r else Crc16.Bit(Shifts(r, n - 1))
  }

  lemma EightAre(r: bv16)
    ensures Shifts(r, 8) == Crc16.EightBits(r)
  {
    hide Crc16.Bit;
    assert Shifts(r, 1) == Crc16.Bit(Shifts(r, 0));
    assert Shifts(r, 3) == Crc16.Bit(Crc16.Bit(Shifts(r, 1)));
    assert Shifts(r, 5) == Crc16.Bit(Crc16.Bit(Shifts(r, 3)));
    assert Shifts(r, 7) == Crc16.Bit(Crc16.Bit(Shifts(r, 5)));
  }

  method OneShift(r: bv16) returns (s: bv16)
    ensures s == Crc16.Bit(r)
  {
    var moveOut := r & 0x0001;
    s := r >> 1;
    if moveOut == 1 {
      s := s ^ 0xA001;
    }
  }

  method EightShifts(r: bv16) returns (s: bv16)
    ensures s == Crc16.EightBits(r)
  {
    hide Crc16.Bit;
    s := r;
    for j := 0 to 8
      invariant s == Shifts(r, j)
    {
      s := OneShift(s);
    }
    EightAre(r);
  }

  /** `hjt212_GetCrc16`. */
  method GetCrc16(data: seq<bv8>) returns (crc: bv16)
    ensures crc == Check(data)
  {
    crc := 0xFFFF;
    for i := 0 to |data|
      invariant crc == Run(CrcByte, 0xFFFF, data[..i])
    {
      RunNext(CrcByte, 0xFFFF, data, i);
      ghost var r := crc;
      var x := (crc >> 8) as bv8;
      crc := data[i] as bv16 ^ x as bv16;
      assert crc == (r >> 8) ^ data[i] as bv16 by { UpperHalf(r, data[i]); }
      ghost var s := crc;
      hide CrcByte, Crc16.Bit;
      crc := EightShifts(crc);
      assert crc == CrcByte(r, data[i]) by { CrcByteIs(r, data[i]); }
    }
    assert data[..|data|] == data;
  }

  // ----- the frame -----

  function DecimalDigit(d: nat): bv8 {
    ByteOf(0x30 + d % 10)
  }

  /** Four decimal digits; a larger number loses its upper digits. */
  function Digits4(n: nat): (s: seq<bv8>)
    ensures |s| == 4
  {
    [DecimalDigit(n / 1000), DecimalDigit(n / 100), DecimalDigit(n / 10), DecimalDigit(n)]
  }

  /** A register as four characters, upper byte first. */
  function HexText(crc: bv16): (s: seq<bv8>)
    ensures |s| == 4
  {
    HexByte(Crc16.Hi(crc)) + HexByte(Crc16.Lo(crc))
  }

  lemma HalvesShift(crc: bv16)
    ensures Shift8(Crc16.Hi(crc) as bv32, Crc16.Lo(crc)) == crc as bv32
  {
  }

  /** The four characters, read as a hexadecimal number, are the register. */
  lemma HexTextReads(crc: bv16)
    ensures Number(HexText(crc)) == crc as bv32
  {
    var h, l := Crc16.Hi(crc), Crc16.Lo(crc);
    NumberOfByte(h);
    NumberByte(HexByte(h), l);
    HalvesShift(crc);
  }

  function CheckText(payload: seq<bv8>): (s: seq<bv8>)
    ensures |s| == 4
  {
    HexText(Check(payload))
  }

  /** Two hashes, the length, the payload, the check, CR LF. */
  function Frame(payload: seq<bv8>): (f: seq<bv8>)
    ensures |f| == |payload| + 12
  {
    [HASH, HASH] + Digits4(|payload|) + payload + CheckText(payload) + [CR, LF]
  }

  // ----- the receiver, one byte at a time -----

  type Buffer = b: seq<bv8> | |b| == BUF_SIZE witness seq(BUF_SIZE, _ => 0)

  /** What `HJT212_PutBytes` keeps between calls. */
  datatype Rcv = Rcv(buf: Buffer, pos: nat, head: bool)

  /** A frame handed to the parser: its length field and the memory from the payload on. */
  datatype Pack = Pack(len: nat, mem: seq<bv8>)
  {
    function Payload(): seq<bv8>
      requires len <= |mem|
    {
      mem[..len]
    }
  }

  /** The length field as the arithmetic of the C code reads it, digits or not. */
  function LenField(buf: Buffer): int {
    (buf[2] as int - 0x30) * 1000 + (buf[3] as int - 0x30) * 100 + (buf[4] as int - 0x30) * 10 + (buf[5] as int - 0x30)
  }

  /** The two tests on a complete frame that ends at `pos`. */
  predicate Accepts(buf: Buffer, pos: nat)
    requires 18 <= pos <= BUF_SIZE
  {
    LenField(buf) + 12 == pos && buf[pos - 6..pos - 2] == CheckText(buf[6..pos - 6])
  }

  function Stored(r: Rcv, b: bv8): Rcv
    requires r.pos < BUF_SIZE
  {
    var pos := if r.pos + 1 >= BUF_SIZE then 0 else r.pos + 1;
    Rcv(r.buf[r.pos := b], pos, r.head)
  }

  /** The state tests that follow the store. */
  function Judge(s: Rcv): (Rcv, seq<Pack>)
    requires s.pos < BUF_SIZE
  {
    if s.head then
      if s.pos == 2 then
        (if s.buf[0] == HASH && s.buf[1] == HASH then s.(head := false) else s.(pos := 1), [])
      else (s, [])
    else if s.pos >= 18 && s.buf[s.pos - 2] == CR && s.buf[s.pos - 1] == LF then
      (Rcv(s.buf, 0, true), if Accepts(s.buf, s.pos) then [Pack(s.pos - 12, s.buf[6..])] else [])
    else (s, [])
  }

  function Feed(r: Rcv, b: bv8): (Rcv, seq<Pack>)
    requires r.pos < BUF_SIZE
  {
    Judge(Stored(r, b))
  }

  /** The state and the frames delivered after a stream of bytes. */
  function FeedAll(r: Rcv, s: seq<bv8>): (res: (Rcv, seq<Pack>))
    requires r.pos < BUF_SIZE
    ensures res.0.pos < BUF_SIZE
  {
    if s == [] then (r, [])
    else
      var f := FeedAll(r, s[..|s| - 1]);
      var g := Feed(f.0, s[|s| - 1]);
      (g.0, f.1 + g.1)
  }

  lemma {:induction false} FeedConcat(r: Rcv, s: seq<bv8>, t: seq<bv8>)
    requires r.pos < BUF_SIZE
    ensures var f := FeedAll(r, s); var g := FeedAll(f.0, t);
            FeedAll(r, s + t) == (g.0, f.1 + g.1)
  {
    hide Feed;
    var f := FeedAll(r, s);
    if t == [] {
      assert s + t == s && f.1 + [] == f.1;
    } else {
      var m := |t| - 1;
      assert (s + t)[..|s + t| - 1] == s + t[..m];
      FeedConcat(r, s, t[..m]);
      var g, h := FeedAll(f.0, t[..m]), Feed(FeedAll(f.0, t[..m]).0, t[m]);
      assert (f.1 + g.1) + h.1 == f.1 + (g.1 + h.1);
    }
  }

  lemma FeedNext(r: Rcv, s: seq<bv8>, k: nat)
    requires r.pos < BUF_SIZE && k < |s|
    ensures var f := FeedAll(r, s[..k]); var g := Feed(f.0, s[k]);
            FeedAll(r, s[..k + 1]) == (g.0, f.1 + g.1)
  {
    assert s[..k + 1][..k] == s[..k];
  }

  /** A CR LF that the receiver would take for the end of a frame at position k. */
  predicate EomAt(s: seq<bv8>, k: nat) {
    18 <= k <= |s| && s[k - 2] == CR && s[k - 1] == LF
  }

  predicate QuietTo(s: seq<bv8>, n: nat) {
    forall k :: 18 <= k < n ==> !EomAt(s, k)
  }

  /** The receiver has stored k bytes of a frame and waits for its end. */
  predicate Holding(r: Rcv, s: seq<bv8>, k: nat) {
    !r.head && r.pos == k && k <= |s| && k < BUF_SIZE && r.buf[..k] == s[..k]
  }

  lemma HoldNext(r: Rcv, s: seq<bv8>, k: nat)
    requires Holding(r, s, k) && k + 1 < BUF_SIZE && k < |s| && !EomAt(s, k + 1) && k >= 2
    ensures Feed(r, s[k]).1 == [] && Holding(Feed(r, s[k]).0, s, k + 1)
  {
    hide Accepts;
    var t := Stored(r, s[k]);
    assert t.buf[..k + 1] == s[..k + 1];
    if t.pos >= 18 {
      assert t.buf[k - 1] == t.buf[..k + 1][k - 1] && t.buf[k] == t.buf[..k + 1][k];
    }
  }

  lemma Synchronise(r: Rcv, s: seq<bv8>)
    requires r.head && r.pos == 0 && |s| >= 2 && s[0] == HASH && s[1] == HASH
    ensures var f := FeedAll(r, s[..2]); f.1 == [] && Holding(f.0, s, 2)
  {
    assert s[..0] == [];
    FeedNext(r, s, 0);
    FeedNext(r, s, 1);
    var f := FeedAll(r, s[..2]).0;
    assert f.buf[..2] == s[..2];
  }

  /** From two hashes on, bytes are only stored as long as no end mark shows. */
  lemma {:induction false} HoldPrefix(r: Rcv, s: seq<bv8>, k: nat)
    requires r.head && r.pos == 0 && |s| >= 2 && s[0] == HASH && s[1] == HASH
    requires 2 <= k <= |s| && k < BUF_SIZE && QuietTo(s, k + 1)
    ensures var f := FeedAll(r, s[..k]); f.1 == [] && Holding(f.0, s, k)
  {
    if k == 2 {
      Synchronise(r, s);
    } else {
      HoldPrefix(r, s, k - 1);
      FeedNext(r, s, k - 1);
      HoldNext(FeedAll(r, s[..k - 1]).0, s, k - 1);
    }
  }

  lemma CloseStep(h: Rcv, s: seq<bv8>, k: nat)
    requires 18 <= k <= |s| && k < BUF_SIZE && Holding(h, s, k - 1) && EomAt(s, k)
    ensures var g := Feed(h, s[k - 1]);
            && g.0.head && g.0.pos == 0 && g.0.buf[..k] == s[..k]
            && g.1 == if Accepts(g.0.buf, k) then [Pack(k - 12, g.0.buf[6..])] else []
  {
    hide Accepts;
    var t := Stored(h, s[k - 1]);
    assert t.buf[..k] == s[..k];
    assert t.buf[k - 2] == t.buf[..k][k - 2] && t.buf[k - 1] == t.buf[..k][k - 1];
  }

  /** The first end mark at position 18 or later closes the frame and resets the receiver. */
  lemma CloseAt(r: Rcv, s: seq<bv8>, k: nat)
    requires r.head && r.pos == 0 && |s| >= 2 && s[0] == HASH && s[1] == HASH
    requires k < BUF_SIZE && QuietTo(s, k) && EomAt(s, k)
    ensures var f := FeedAll(r, s[..k]);
            && f.0.head && f.0.pos == 0 && f.0.buf[..k] == s[..k]
            && f.1 == if Accepts(f.0.buf, k) then [Pack(k - 12, f.0.buf[6..])] else []
  {
    hide Accepts, Feed, Holding, FeedAll;
    HoldPrefix(r, s, k - 1);
    FeedNext(r, s, k - 1);
    CloseStep(FeedAll(r, s[..k - 1]).0, s, k);
  }

  // ----- one frame -----

  /** No CR LF pair where the receiver looks for one: pairs in the first ten bytes do no harm. */
  predicate NoPair(p: seq<bv8>) {
    forall j :: 10 <= j < |p| - 1 ==> !(p[j] == CR && p[j + 1] == LF)
  }

  /** The payloads that survive framing. */
  predicate Deliverable(p: seq<bv8>) {
    6 <= |p| < BUF_SIZE - 12 && NoPair(p)
  }

  function Payloads(packs: seq<Pack>): seq<seq<bv8>> {
    seq(|packs|, i requires 0 <= i < |packs| => if packs[i].len <= |packs[i].mem| then packs[i].Payload() else [])
  }

  lemma FrameParts(p: seq<bv8>)
    ensures var f, n := Frame(p), |p|;
            && f[0] == HASH && f[1] == HASH && f[2..6] == Digits4(n) && f[6..6 + n] == p
            && f[6 + n..10 + n] == CheckText(p) && f[10 + n] == CR && f[11 + n] == LF
  {
    hide Digits4, CheckText;
  }

  lemma CheckTextIsHex(p: seq<bv8>)
    ensures forall i :: 0 <= i < 4 ==> CheckText(p)[i] != CR && CheckText(p)[i] != LF
  {
    hide HexByte;
    var h, l := Crc16.Hi(Check(p)), Crc16.Lo(Check(p));
    HexByteRoundTrip(h);
    HexByteRoundTrip(l);
    assert CheckText(p)[0] == HexByte(h)[0] && CheckText(p)[1] == HexByte(h)[1];
    assert CheckText(p)[2] == HexByte(l)[0] && CheckText(p)[3] == HexByte(l)[1];
  }

  lemma FrameBytes(p: seq<bv8>)
    ensures var f, n := Frame(p), |p|;
            && (forall i :: 0 <= i < n ==> f[6 + i] == p[i])
            && (forall i :: 0 <= i < 4 ==> f[6 + n + i] == CheckText(p)[i])
  {
    hide Digits4, CheckText;
    var f, n := Frame(p), |p|;
    FrameParts(p);
    hide Frame;
    forall i | 0 <= i < n
      ensures f[6 + i] == p[i]
    {
      assert f[6..6 + n][i] == p[i];
    }
    forall i | 0 <= i < 4
      ensures f[6 + n + i] == CheckText(p)[i]
    {
      assert f[6 + n..10 + n][i] == CheckText(p)[i];
    }
  }

  lemma QuietAt(p: seq<bv8>, f: seq<bv8>, k: nat)
    requires NoPair(p) && |f| == |p| + 12 && 18 <= k < |f|
    requires forall i :: 0 <= i < |p| ==> f[6 + i] == p[i]
    requires forall i :: 0 <= i < 4 ==> f[6 + |p| + i] == CheckText(p)[i]
    requires forall i :: 0 <= i < 4 ==> CheckText(p)[i] != CR && CheckText(p)[i] != LF
    ensures !EomAt(f, k)
  {
    hide CheckText;
    var n, j := |p|, k - 8;
    if j < n {
      assert f[6 + j] == p[j];
      if j + 1 < n {
        assert f[6 + (j + 1)] == p[j + 1];
      } else {
        assert f[6 + n + 0] == CheckText(p)[0];
      }
    } else {
      assert f[6 + n + (j - n)] == CheckText(p)[j - n];
    }
  }

  /** Where an end mark can show inside a frame. */
  lemma QuietExactly(p: seq<bv8>)
    ensures QuietTo(Frame(p), |p| + 12) <==> NoPair(p)
  {
    hide Frame, CheckText;
    var f, n := Frame(p), |p|;
    CheckTextIsHex(p);
    FrameBytes(p);
    if NoPair(p) {
      forall k | 18 <= k < n + 12
        ensures !EomAt(f, k)
      {
        QuietAt(p, f, k);
      }
    } else {
      var j :| 10 <= j < n - 1 && p[j] == CR && p[j + 1] == LF;
      assert f[6 + j] == p[j] && f[6 + (j + 1)] == p[j + 1];
      assert EomAt(f, j + 8);
    }
  }

  lemma DigitValue(d: nat)
    ensures DecimalDigit(d) as int == 0x30 + d % 10
  {
    ByteValue(0x30 + d % 10);
    assert (0x30 + d % 10) % 256 == 0x30 + d % 10;
  }

  lemma DecimalParts(n: nat)
    requires n < 10000
    ensures n / 1000 % 10 * 1000 + n / 100 % 10 * 100 + n / 10 % 10 * 10 + n % 10 == n
  {
    var a, b, c := n / 10, n / 100, n / 1000;
    assert a / 10 == b && b / 10 == c && c < 10;
    assert n == 10 * a + n % 10 && a == 10 * b + a % 10 && b == 10 * c + b % 10;
  }

  /** Characters as a decimal number. */
  function Decimal(t: seq<bv8>): int {
    if t == [] then 0 else 10 * Decimal(t[..|t| - 1]) + (t[|t| - 1] as int - 0x30)
  }

  lemma DecimalNext(t: seq<bv8>, c: bv8)
    ensures Decimal(t + [c]) == 10 * Decimal(t) + (c as int - 0x30)
  {
    assert (t + [c])[..|t|] == t;
  }

  lemma FourDigits(a: bv8, b: bv8, c: bv8, d: bv8)
    ensures Decimal([a, b, c, d]) ==
      (a as int - 0x30) * 1000 + (b as int - 0x30) * 100 + (c as int - 0x30) * 10 + (d as int - 0x30)
  {
    assert Decimal([]) == 0;
    hide Decimal;
    DecimalNext([], a);
    DecimalNext([a], b);
    DecimalNext([a, b], c);
    DecimalNext([a, b, c], d);
    assert [] + [a] == [a] && [a] + [b] == [a, b] && [a, b] + [c] == [a, b, c] && [a, b, c] + [d] == [a, b, c, d];
  }

  lemma Digits4Read(n: nat)
    requires n < 10000
    ensures Decimal(Digits4(n)) == n
  {
    hide Decimal, DecimalDigit;
    DigitValue(n / 1000);
    DigitValue(n / 100);
    DigitValue(n / 10);
    DigitValue(n);
    DecimalParts(n);
    FourDigits(DecimalDigit(n / 1000), DecimalDigit(n / 100), DecimalDigit(n / 10), DecimalDigit(n));
  }

  /** The frame, place by place, with its length and its check as numbers. */
  lemma FrameAt(p: seq<bv8>)
    requires |p| < 10000
    ensures var f, n := Frame(p), |p| + 6;
            && f[..2] == [0x23, 0x23] && Decimal(f[2..6]) == |p| && f[6..n] == p
            && Number(f[n..n + 4]) == Check(p) as bv32 && f[n + 4..] == [0x0D, 0x0A]
  {
    Digits4Read(|p|);
    HexTextReads(Check(p));
    hide Digits4, HexText, Check, Decimal, Number;
    var f, n := Frame(p), |p| + 6;
    assert f[2..6] == Digits4(|p|) && f[n..n + 4] == CheckText(p);
  }

  /** The length field of a frame in the buffer reads back as the payload length. */
  lemma LengthReads(p: seq<bv8>, buf: Buffer)
    requires |p| < 10000 && buf[2..6] == Digits4(|p|)
    ensures LenField(buf) == |p|
  {
    hide DecimalDigit;
    var n, d := |p|, buf[2..6];
    assert buf[2] == d[0] && buf[3] == d[1] && buf[4] == d[2] && buf[5] == d[3];
    DigitValue(n / 1000);
    DigitValue(n / 100);
    DigitValue(n / 10);
    DigitValue(n);
    DecimalParts(n);
  }

  /** A frame cut at an end mark passes the tests only at its true end. */
  lemma AcceptsOnlyWhole(p: seq<bv8>, buf: Buffer, k: nat)
    requires 18 <= k <= |p| + 12 && k < BUF_SIZE && |p| < 10000 && buf[..k] == Frame(p)[..k]
    ensures Accepts(buf, k) <==> k == |p| + 12
  {
    hide Digits4, CheckText, LenField;
    var f, n := Frame(p), |p|;
    FrameParts(p);
    assert buf[2..6] == f[2..6] by { assert buf[2..6] == buf[..k][2..6] && f[2..6] == f[..k][2..6]; }
    LengthReads(p, buf);
    if k == n + 12 {
      assert f[..k] == f;
      assert buf[6..k - 6] == p by { assert buf[6..k - 6] == buf[..k][6..k - 6]; }
      assert buf[k - 6..k - 2] == CheckText(p) by { assert buf[k - 6..k - 2] == buf[..k][k - 6..k - 2]; }
    }
  }

  /** A deliverable payload arrives, whatever the buffer held before, and the receiver is back where it started. */
  lemma Delivers(r: Rcv, p: seq<bv8>)
    requires r.head && r.pos == 0 && Deliverable(p)
    ensures var f := FeedAll(r, Frame(p));
            && f.0.head && f.0.pos == 0 && f.0.buf[..|p| + 12] == Frame(p)
            && f.1 == [Pack(|p|, f.0.buf[6..])]
    ensures Payloads(FeedAll(r, Frame(p)).1) == [p]
  {
    hide Accepts, Digits4, CheckText, FeedAll;
    var s, k := Frame(p), |p| + 12;
    QuietExactly(p);
    FrameParts(p);
    assert EomAt(s, k) && s[..k] == s;
    CloseAt(r, s, k);
    var f := FeedAll(r, s);
    AcceptsOnlyWhole(p, f.0.buf, k);
    assert f.0.buf[6..][..|p|] == f.0.buf[..k][6..6 + |p|] == p;
  }

  // ----- exactly when a frame arrives -----

  /** What n bytes from a reset receiver can have delivered. */
  predicate Bounded(packs: seq<Pack>, n: nat) {
    forall i :: 0 <= i < |packs| ==>
      6 <= packs[i].len <= n - 12 && packs[i].len + 12 < BUF_SIZE && packs[i].len <= |packs[i].mem|
  }

  lemma {:induction false} DeliveryBound(r: Rcv, s: seq<bv8>)
    requires r.head && r.pos == 0
    ensures var f := FeedAll(r, s); f.0.pos <= |s| && Bounded(f.1, |s|)
  {
    hide Accepts;
    if s != [] {
      DeliveryBound(r, s[..|s| - 1]);
    }
  }

  /** The first end mark strictly inside a stream that has one. */
  lemma FirstEom(s: seq<bv8>) returns (k: nat)
    requires !QuietTo(s, |s|)
    ensures 18 <= k < |s| && EomAt(s, k) && QuietTo(s, k)
  {
    k :| 18 <= k < |s| && EomAt(s, k);
    while !QuietTo(s, k)
      invariant 18 <= k < |s| && EomAt(s, k)
      decreases k
    {
      var j :| 18 <= j < k && EomAt(s, j);
      k := j;
    }
  }

  /** A frame with an earlier end mark is dropped there, and what follows is too short to be it. */
  lemma LostAt(r: Rcv, p: seq<bv8>, k: nat)
    requires r.head && r.pos == 0 && |p| < BUF_SIZE - 12
    requires 18 <= k < |p| + 12 && EomAt(Frame(p), k) && QuietTo(Frame(p), k)
    ensures Payloads(FeedAll(r, Frame(p)).1) != [p]
  {
    var s := Frame(p);
    FrameParts(p);
    hide Frame, FeedAll, Accepts;
    CloseAt(r, s, k);
    var f := FeedAll(r, s[..k]);
    AcceptsOnlyWhole(p, f.0.buf, k);
    FeedConcat(r, s[..k], s[k..]);
    assert s[..k] + s[k..] == s;
    DeliveryBound(f.0, s[k..]);
    var packs := FeedAll(r, s).1;
    assert packs == FeedAll(f.0, s[k..]).1;
    if |packs| == 1 {
      assert |Payloads(packs)[0]| == packs[0].len;
    }
  }

  lemma NotDelivered(r: Rcv, p: seq<bv8>)
    requires r.head && r.pos == 0 && !Deliverable(p)
    ensures Payloads(FeedAll(r, Frame(p)).1) != [p]
  {
    hide Frame, FeedAll, Accepts;
    var s, n := Frame(p), |p|;
    var packs := FeedAll(r, s).1;
    DeliveryBound(r, s);
    if Payloads(packs) == [p] {
      assert Payloads(packs)[0] == p && packs[0].len == n;
      QuietExactly(p);
      var k := FirstEom(s);
      LostAt(r, p, k);
    }
  }

  /** From a reset receiver a frame delivers its payload and nothing else if and only if the payload is deliverable. */
  lemma DeliversExactly(r: Rcv, p: seq<bv8>)
    requires r.head && r.pos == 0
    ensures Payloads(FeedAll(r, Frame(p)).1) == [p] <==> Deliverable(p)
  {
    if Deliverable(p) {
      Delivers(r, p);
    } else {
      NotDelivered(r, p);
    }
  }

  // ----- streams of frames -----

  function Frames(ps: seq<seq<bv8>>): seq<bv8> {
    if ps == [] then [] else Frames(ps[..|ps| - 1]) + Frame(ps[|ps| - 1])
  }

  lemma NoPayloads()
    ensures Payloads([]) == []
  {
  }

  lemma PayloadsConcat(a: seq<Pack>, b: seq<Pack>)
    ensures Payloads(a + b) == Payloads(a) + Payloads(b)
  {
  }

  /** Any number of deliverable payloads, framed back to back, arrive in order. */
  lemma {:induction false} StreamDelivers(r: Rcv, ps: seq<seq<bv8>>)
    requires r.head && r.pos == 0 && forall i :: 0 <= i < |ps| ==> Deliverable(ps[i])
    ensures var f := FeedAll(r, Frames(ps)); f.0.head && f.0.pos == 0 && Payloads(f.1) == ps
  {
    hide Frame, Deliverable, Payloads;
    if ps == [] {
      assert Payloads([]) == [] by { NoPayloads(); }
    } else {
      var m := |ps| - 1;
      StreamDelivers(r, ps[..m]);
      hide FeedAll;
      var f := FeedAll(r, Frames(ps[..m]));
      FeedConcat(r, Frames(ps[..m]), Frame(ps[m]));
      Delivers(f.0, ps[m]);
      PayloadsConcat(f.1, FeedAll(f.0, Frame(ps[m])).1);
      assert ps == ps[..m] + [ps[m]];
    }
  }

  // ----- losing and finding the start -----

  /** After a first byte that is no hash the receiver compares every later byte with it, and never syncs again. */
  lemma {:induction false} Deaf(r: Rcv, s: seq<bv8>)
    requires r.head && r.pos == 1 && r.buf[0] != HASH
    ensures var f := FeedAll(r, s); f.1 == [] && f.0.head && f.0.pos == 1 && f.0.buf[0] == r.buf[0]
  {
    if s != [] {
      Deaf(r, s[..|s| - 1]);
    }
  }

  /** A retained hash waits through anything without a hash, and then stands for the first byte of a frame. */
  lemma {:induction false} RetainedHash(r: Rcv, noise: seq<bv8>)
    requires r.head && r.pos == 1 && r.buf[0] == HASH && HASH !in noise
    ensures var f := FeedAll(r, noise); f.1 == [] && f.0.head && f.0.pos == 1 && f.0.buf[0] == HASH
  {
    if noise != [] {
      var m := |noise| - 1;
      assert noise[m] in noise;
      RetainedHash(r, noise[..m]);
    }
  }

  /** So the rest of a frame after its first hash is received as the whole frame. */
  lemma RetainedDelivers(r: Rcv, p: seq<bv8>)
    requires r.head && r.pos == 1 && r.buf[0] == HASH && Deliverable(p)
    ensures var f := FeedAll(r, Frame(p)[1..]); f.0.head && f.0.pos == 0 && Payloads(f.1) == [p]
  {
    var z := Rcv(r.buf, 0, true);
    var s := Frame(p);
    FrameParts(p);
    assert Feed(z, HASH).1 == [] && Feed(z, HASH).0 == r by { assert r.buf[0 := HASH] == r.buf; }
    hide Frame, Deliverable, Feed;
    Delivers(z, p);
    assert s == s[..1] + s[1..];
    FeedConcat(z, s[..1], s[1..]);
    assert s[..0] == [];
    FeedNext(z, s, 0);
    assert FeedAll(z, s[..0]) == (z, []);
    assert FeedAll(z, s[..1]) == (r, []);
    assert [] + FeedAll(r, s[1..]).1 == FeedAll(r, s[1..]).1;
  }
}

/** The receiver of software/das/sdccp/hjt212.c, with its buffer updated in place. */
module Hjt212Receiver {
  import opened Bytes
  import opened Hjt212Frame

  class Receiver {
    const buffer: array<bv8>
    var nPos: nat
    var head: bool           // HJT212_R_S_HEAD or HJT212_R_S_EOM
    var packs: seq<Pack>     // what the parser has been given, in order

    ghost predicate Valid()
      reads this
    {
      buffer.Length == BUF_SIZE && nPos < BUF_SIZE
    }

    ghost function View(): Rcv
      requires Valid()
      reads this, buffer
    {
      Rcv(buffer[..], nPos, head)
    }

    constructor ()
      ensures Valid() && fresh(buffer) && nPos == 0 && head && packs == []
    {
      buffer := new bv8[BUF_SIZE](_ => 0);
      nPos, head, packs := 0, true, [];
    }

    /** The length test and the check test on a frame that ends at nPos. */
    method Test() returns (ok: bool)
      requires Valid() && nPos >= 18
      ensures ok == Accepts(buffer[..], nPos)
    {
      hide LenField, HexText, Check;
      var len := LenField(buffer[..]);
      ok := false;
      if len + 12 == nPos {
        var crc := GetCrc16(buffer[6..nPos - 6]);
        ok := buffer[nPos - 6..nPos - 2] == HexText(crc);
      }
    }

    /** The state tests that follow the store. */
    method Turn()
      requires Valid()
      modifies this
      ensures Valid() && View() == Judge(old(View())).0 && packs == old(packs) + Judge(old(View())).1
    {
      hide Accepts;
      ghost var v := View();
      if head {
        if nPos == 2 {
          if buffer[0] == HASH && buffer[1] == HASH {
            head := false;
          } else {
            nPos := 1;
          }
        }
      } else if nPos >= 4 {
        if buffer[nPos - 2] == CR && buffer[nPos - 1] == LF && nPos >= 18 {
          var ok := Test();
          if ok {
            packs := packs + [Pack(nPos - 12, buffer[6..])];
          }
          head := true;
          nPos := 0;
        }
      }
    }

    /** One turn of the loop of `HJT212_PutBytes`. */
    method PutByte(b: bv8)
      requires Valid()
      modifies this, buffer
      ensures Valid() && View() == Feed(old(View()), b).0 && packs == old(packs) + Feed(old(View()), b).1
    {
      ghost var r := View();
      buffer[nPos] := b;
      nPos := nPos + 1;
      if nPos >= BUF_SIZE {
        nPos := 0;
      }
      assert View() == Stored(r, b);
      hide Stored, Judge;
      Turn();
    }

    method PutBytes(bytes: seq<bv8>)
      requires Valid()
      modifies this, buffer
      ensures Valid()
      ensures var f := FeedAll(old(View()), bytes); View() == f.0 && packs == old(packs) + f.1
    {
      hide Feed;
      ghost var r := View();
      assert bytes[..0] == [];
      for n := 0 to |bytes|
        invariant Valid()
        invariant var f := FeedAll(r, bytes[..n]); View() == f.0 && packs == old(packs) + f.1
      {
        FeedNext(r, bytes, n);
        ghost var f := FeedAll(r, bytes[..n]);
        PutByte(bytes[n]);
        assert old(packs) + f.1 + Feed(f.0, bytes[n]).1 == old(packs) + (f.1 + Feed(f.0, bytes[n]).1);
      }
      assert bytes[..|bytes|] == bytes;
    }
  }

  /** Frames back to back, cut anywhere into chunks: every payload arrives, in order, and nothing else. */
  method ReceiveChunks(ps: seq<seq<bv8>>, chunks: seq<seq<bv8>>) returns (rcv: Receiver)
    requires Flatten(chunks) == Frames(ps) && forall i :: 0 <= i < |ps| ==> Deliverable(ps[i])
    ensures Payloads(rcv.packs) == ps && rcv.head && rcv.nPos == 0
  {
    hide Feed, Frame;
    rcv := new Receiver();
    ghost var r := rcv.View();
    assert chunks[..0] == [];
    for i := 0 to |chunks|
      invariant rcv.Valid() && fresh(rcv) && fresh(rcv.buffer)
      invariant var f := FeedAll(r, Flatten(chunks[..i])); rcv.View() == f.0 && rcv.packs == f.1
    {
      assert chunks[..i + 1][..i] == chunks[..i];
      FeedConcat(r, Flatten(chunks[..i]), chunks[i]);
      rcv.PutBytes(chunks[i]);
    }
    assert chunks[..|chunks|] == chunks;
    StreamDelivers(r, ps);
  }
}
