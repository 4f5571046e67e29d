/** The binary link of software/das/sdccp/cc_bjdc.c: preamble, length, enciphered body, table CRC, end mark. */
module BjdcFrame {
  import opened Bytes
  import Crc16
  import CrcCcitt

  const BUF_SIZE := 2048
  const PRE: seq<bv8> := [0xAA, 0x55, 0xAA, 0x55]
  const EOM: seq<bv8> := [0x68, 0x68, 0x16, 0x16]

  /** The block cipher of the link, which works in place and is not part of this model. */
  datatype Cipher = Cipher(enc: seq<bv8> -> seq<bv8>, dec: seq<bv8> -> seq<bv8>)

  ghost predicate InPlace(c: Cipher) {
    forall x :: |c.dec(x)| == |x| && |c.enc(x)| == |x|
  }

  /** Deciphering undoes enciphering of whole 16-byte blocks. */
  ghost predicate Inverse(c: Cipher) {
    forall x :: |x| % 16 == 0 ==> c.dec(c.enc(x)) == x
  }

  // ----- the frame -----

  /** A 32-bit length, low-order byte first. */
  function LenBytes(n: nat): (s: seq<bv8>)
    ensures |s| == 4
  {
    [ByteOf(n), ByteOf(n / 0x100), ByteOf(n / 0x1_0000), ByteOf(n / 0x100_0000)]
  }

  function CheckBytes(crc: bv16): (s: seq<bv8>)
    ensures |s| == 2
  {
    [Crc16.Lo(crc), Crc16.Hi(crc)]
  }

  /** The two bytes, low byte first, read as a number. */
  lemma CheckBytesRead(crc: bv16)
    ensures var b := CheckBytes(crc); b[0] as bv16 == crc & 0xFF && b[1] as bv16 == crc >> 8
  {
  }

  function CheckWord(b0: bv8, b1: bv8): bv16 {
    b0 as bv16 | (b1 as bv16 << 8)
  }

  const TYPE: seq<bv8> := [0, 0, 0, 0]

  function Check(body: seq<bv8>): bv16 {
    CrcCcitt.Crc(TYPE + body)
  }

  function Frame(body: seq<bv8>): (f: seq<bv8>)
    ensures |f| == |body| + 18
  {
    PRE + LenBytes(4 + |body|) + TYPE + body + CheckBytes(Check(body)) + EOM
  }

  // ----- the receiver, one byte at a time -----

  type Buffer = b: seq<bv8> | |b| == BUF_SIZE witness seq(BUF_SIZE, _ => 0)

  /** What `CC_BJDC_PutBytes` keeps between calls. */
  datatype Rcv = Rcv(buf: Buffer, pos: nat, head: bool)

  /** A frame handed to the parser: the type word and the deciphered body. */
  datatype Pack = Pack(kind: seq<bv8>, body: seq<bv8>)

  function LenField(buf: Buffer): nat {
    buf[4] as nat + 0x100 * buf[5] as nat + 0x1_0000 * buf[6] as nat + 0x100_0000 * buf[7] as nat
  }

  /** The 32-bit sum of the length test does not wrap into a second solution. */
  lemma LengthTest(len: nat, pos: nat)
    requires len < TWO32 && 18 <= pos < TWO32
    ensures U32(len + 14) == pos <==> len == pos - 14
  {
  }

  predicate Accepts(buf: Buffer, pos: nat)
    requires 18 <= pos <= BUF_SIZE
  {
    U32(LenField(buf) + 14) == pos && CrcCcitt.Crc(buf[8..pos - 6]) == CheckWord(buf[pos - 6], buf[pos - 5])
  }

  function Stored(r: Rcv, b: bv8): Rcv
    requires r.pos < BUF_SIZE
  {
    var pos := if r.pos + 1 >= BUF_SIZE then 0 else r.pos + 1;
    Rcv(r.buf[r.pos := b], pos, r.head)
  }

  /** The body is deciphered where it stands and closed with a NUL over the first check byte. */
  function Opened(c: Cipher, buf: Buffer, pos: nat): seq<bv8>
    requires 18 <= pos <= BUF_SIZE
  {
    buf[..12] + c.dec(buf[12..pos - 6]) + [0] + buf[pos - 5..]
  }

  function Closed(c: Cipher, s: Rcv): (Rcv, seq<Pack>)
    requires 18 <= s.pos <= BUF_SIZE
  {
    if Accepts(s.buf, s.pos) && |c.dec(s.buf[12..s.pos - 6])| == s.pos - 18 then
      (Rcv(Opened(c, s.buf, s.pos), 0, true), [Pack(s.buf[8..12], c.dec(s.buf[12..s.pos - 6]))])
    else (Rcv(s.buf, 0, true), [])
  }

  /** The state tests that follow the store. */
  function Judge(c: Cipher, s: Rcv): (Rcv, seq<Pack>)
    requires s.pos < BUF_SIZE
  {
    if s.head then
      if s.pos == 4 then (if s.buf[..4] == PRE then s.(head := false) else s.(pos := 2), []) else (s, [])
    else if s.pos >= 18 && s.buf[s.pos - 4..s.pos] == EOM then Closed(c, s)
    else (s, [])
  }

  function Feed(c: Cipher, r: Rcv, b: bv8): (res: (Rcv, seq<Pack>))
    requires r.pos < BUF_SIZE
    ensures res.0.pos < BUF_SIZE
  {
    Judge(c, Stored(r, b))
  }

  function FeedAll(c: Cipher, r: Rcv, s: seq<bv8>): (res: (Rcv, seq<Pack>))
    requires r.pos < BUF_SIZE
    ensures res.0.pos < BUF_SIZE
  {
    if s == [] then (r, [])
    else
      var f := FeedAll(c, r, s[..|s| - 1]);
      var g := Feed(c, f.0, s[|s| - 1]);
      (g.0, f.1 + g.1)
  }

  lemma {:induction false} FeedConcat(c: Cipher, r: Rcv, s: seq<bv8>, t: seq<bv8>)
    requires r.pos < BUF_SIZE
    ensures var f := FeedAll(c, r, s); var g := FeedAll(c, f.0, t);
            FeedAll(c, r, s + t) == (g.0, f.1 + g.1)
  {
    hide Feed;
    var f := FeedAll(c, r, s);
    if t == [] {
      assert s + t == s && f.1 + [] == f.1;
    } else {
      var m := |t| - 1;
      assert (s + t)[..|s + t| - 1] == s + t[..m];
      FeedConcat(c, r, s, t[..m]);
      var g, h := FeedAll(c, f.0, t[..m]), Feed(c, FeedAll(c, f.0, t[..m]).0, t[m]);
      assert (f.1 + g.1) + h.1 == f.1 + (g.1 + h.1);
    }
  }

  lemma FeedNext(c: Cipher, r: Rcv, s: seq<bv8>, k: nat)
    requires r.pos < BUF_SIZE && k < |s|
    ensures var f := FeedAll(c, r, s[..k]); var g := Feed(c, f.0, s[k]);
            FeedAll(c, r, s[..k + 1]) == (g.0, f.1 + g.1)
  {
    assert s[..k + 1][..k] == s[..k];
  }

  predicate Ready(r: Rcv) {
    r.head && r.pos == 0
  }

  // ----- one frame -----

  predicate EomAt(s: seq<bv8>, k: nat) {
    18 <= k <= |s| && s[k - 4..k] == EOM
  }

  predicate QuietTo(s: seq<bv8>, n: nat) {
    forall k :: 18 <= k < n ==> !EomAt(s, k)
  }

  /** The receiver has stored k bytes of a frame: still in the preamble, or waiting for its end. */
  predicate Holding(r: Rcv, s: seq<bv8>, k: nat) {
    (r.head <==> k < 4) && r.pos == k && k <= |s| && k < BUF_SIZE && r.buf[..k] == s[..k]
  }

  lemma HoldNext(c: Cipher, r: Rcv, s: seq<bv8>, k: nat)
    requires |s| >= 4 && s[..4] == PRE && Holding(r, s, k) && k + 1 < BUF_SIZE && k < |s| && !EomAt(s, k + 1)
    ensures Feed(c, r, s[k]).1 == [] && Holding(Feed(c, r, s[k]).0, s, k + 1)
  {
    hide Closed;
    var t := Stored(r, s[k]);
    assert t.buf[..k + 1] == s[..k + 1];
    if t.pos >= 18 {
      assert t.buf[k + 1 - 4..k + 1] == t.buf[..k + 1][k + 1 - 4..] == s[k + 1 - 4..k + 1];
    }
  }

  /** Bytes are only stored as long as no end mark shows. */
  lemma {:induction false} HoldPrefix(c: Cipher, r: Rcv, s: seq<bv8>, k: nat)
    requires Ready(r) && |s| >= 4 && s[..4] == PRE
    requires k <= |s| && k < BUF_SIZE && QuietTo(s, k + 1)
    ensures var f := FeedAll(c, r, s[..k]); f.1 == [] && Holding(f.0, s, k)
  {
    hide Feed;
    if k > 0 {
      HoldPrefix(c, r, s, k - 1);
      FeedNext(c, r, s, k - 1);
      HoldNext(c, FeedAll(c, r, s[..k - 1]).0, s, k - 1);
    }
  }

  lemma CloseStep(c: Cipher, h: Rcv, s: seq<bv8>, k: nat)
    requires 18 <= k <= |s| && k < BUF_SIZE && Holding(h, s, k - 1) && EomAt(s, k)
    ensures exists t: Rcv :: t.pos == k && t.buf[..k] == s[..k] && Feed(c, h, s[k - 1]) == Closed(c, t)
  {
    hide Closed;
    var t := Stored(h, s[k - 1]);
    assert t.buf[..k] == s[..k];
    assert t.buf[k - 4..k] == t.buf[..k][k - 4..] == s[k - 4..k];
  }

  lemma EomRange(s: seq<bv8>, k: nat)
    requires EomAt(s, k)
    ensures 18 <= k <= |s|
  {
  }

  /** The first end mark at position 18 or later closes the frame. */
  lemma CloseAt(c: Cipher, r: Rcv, s: seq<bv8>, k: nat) returns (t: Rcv)
    requires Ready(r) && |s| >= 4 && s[..4] == PRE
    requires k < BUF_SIZE && QuietTo(s, k) && EomAt(s, k)
    ensures t.pos == k && t.buf[..k] == s[..k] && FeedAll(c, r, s[..k]) == Closed(c, t)
  {
    hide Feed, Holding, FeedAll, Closed, EomAt;
    assert 18 <= k <= |s| by { EomRange(s, k); }
    HoldPrefix(c, r, s, k - 1);
    FeedNext(c, r, s, k - 1);
    CloseStep(c, FeedAll(c, r, s[..k - 1]).0, s, k);
    t :| t.pos == k && t.buf[..k] == s[..k] && Feed(c, FeedAll(c, r, s[..k - 1]).0, s[k - 1]) == Closed(c, t);
    assert [] + Closed(c, t).1 == Closed(c, t).1;
  }

  lemma FrameParts(b: seq<bv8>)
    ensures var f, n := Frame(b), |b|;
            && f[..4] == PRE && f[4..8] == LenBytes(4 + n) && f[8..12] == TYPE && f[12..12 + n] == b
            && f[12 + n..14 + n] == CheckBytes(Check(b)) && f[14 + n..] == EOM
  {
    hide LenBytes, CheckBytes, Check;
  }

  lemma ByteOfValue(n: nat)
    ensures ByteOf(n) as nat == n % 256
  {
    ByteValue(n % 256);
  }

  lemma BaseDigits(n: nat)
    requires n < TWO32
    ensures n == n % 256 + 0x100 * (n / 0x100 % 256) + 0x1_0000 * (n / 0x1_0000 % 256)
                 + 0x100_0000 * (n / 0x100_0000 % 256)
  {
    var a, b, c := n / 0x100, n / 0x1_0000, n / 0x100_0000;
    assert a / 0x100 == b && b / 0x100 == c && c < 256;
    assert n == 0x100 * a + n % 256 && a == 0x100 * b + a % 256 && b == 0x100 * c + b % 256;
  }

  /** Four bytes as a number, low-order byte first. */
  function NumberLe(d: seq<bv8>): nat
    requires |d| == 4
  {
    d[0] as nat + 0x100 * d[1] as nat + 0x1_0000 * d[2] as nat + 0x100_0000 * d[3] as nat
  }

  lemma LengthValue(n: nat)
    requires n < TWO32
    ensures NumberLe(LenBytes(n)) == n
  {
    ByteOfValue(n);
    ByteOfValue(n / 0x100);
    ByteOfValue(n / 0x1_0000);
    ByteOfValue(n / 0x100_0000);
    hide ByteOf;
    BaseDigits(n);
  }

  lemma FramePieces(b: seq<bv8>)
    ensures var f, n := Frame(b), |b| + 12;
            && f[..4] == PRE && f[4..8] == LenBytes(4 + |b|) && f[8..12] == TYPE && f[12..n] == b
            && f[n..n + 2] == CheckBytes(Check(b)) && f[n + 2..] == EOM
  {
    hide LenBytes, Check, CheckBytes;
  }

  /** The frame, place by place, with its length and its check as numbers. */
  lemma FrameAt(b: seq<bv8>)
    requires |b| < BUF_SIZE
    ensures var f, n := Frame(b), |b| + 12;
            && f[..4] == [0xAA, 0x55, 0xAA, 0x55] && NumberLe(f[4..8]) == |b| + 4
            && f[8..12] == [0, 0, 0, 0] && f[12..n] == b
            && f[n] as bv16 == Check(b) & 0xFF && f[n + 1] as bv16 == Check(b) >> 8
            && f[n + 2..] == [0x68, 0x68, 0x16, 0x16]
  {
    FramePieces(b);
    CheckBytesRead(Check(b));
    LengthValue(4 + |b|);
    hide Frame, Check, CheckBytes, LenBytes, NumberLe;
    var f, n := Frame(b), |b| + 12;
    assert f[n] == f[n..n + 2][0] && f[n + 1] == f[n..n + 2][1];
  }

  lemma LengthReads(n: nat, buf: Buffer)
    requires n < TWO32 && buf[4..8] == LenBytes(n)
    ensures LenField(buf) == n
  {
    var d := buf[4..8];
    assert buf[4] == d[0] && buf[5] == d[1] && buf[6] == d[2] && buf[7] == d[3];
    LengthValue(n);
    hide LenBytes;
  }

  lemma CheckReads(crc: bv16)
    ensures CheckWord(CheckBytes(crc)[0], CheckBytes(crc)[1]) == crc
  {
  }

  lemma CheckIs(b: seq<bv8>)
    ensures Check(b) == CrcCcitt.Crc(TYPE + b)
  {
    hide CrcCcitt.Crc;
  }

  /** A frame cut at an end mark passes the tests only at its true end. */
  lemma AcceptsOnlyWhole(b: seq<bv8>, buf: Buffer, k: nat)
    requires 18 <= k <= |b| + 18 && k < BUF_SIZE && |b| < BUF_SIZE && buf[..k] == Frame(b)[..k]
    ensures Accepts(buf, k) <==> k == |b| + 18
    ensures k == |b| + 18 ==> buf[8..12] == TYPE && buf[12..k - 6] == b
  {
    hide LenBytes, CheckBytes, Check, CheckWord, LenField, CrcCcitt.Crc;
    var f, n := Frame(b), |b|;
    FrameParts(b);
    hide Frame;
    assert buf[4..8] == buf[..k][4..8] == f[..k][4..8] == f[4..8];
    LengthReads(4 + n, buf);
    LengthTest(4 + n, k);
    if k == n + 18 {
      assert f[..k] == f;
      assert buf[8..12] == f[8..12] && buf[12..k - 6] == f[12..12 + n];
      assert buf[8..k - 6] == TYPE + b;
      assert CrcCcitt.Crc(TYPE + b) == Check(b) by { CheckIs(b); }
      CheckReads(Check(b));
      assert buf[k - 6..k - 4] == f[12 + n..14 + n];
      assert buf[k - 6] == buf[k - 6..k - 4][0] && buf[k - 5] == buf[k - 6..k - 4][1];
    }
  }

  // ----- exactly when a frame arrives -----

  predicate MarkAt(s: seq<bv8>, j: nat) {
    j + 4 <= |s| && s[j] == EOM[0] && s[j + 1] == EOM[1] && s[j + 2] == EOM[2] && s[j + 3] == EOM[3]
  }

  lemma MarkBytes(s: seq<bv8>, j: nat)
    requires j + 4 <= |s|
    ensures MarkAt(s, j) <==> s[j..j + 4] == EOM
  {
    var w := s[j..j + 4];
    assert w[0] == s[j] && w[1] == s[j + 1] && w[2] == s[j + 2] && w[3] == s[j + 3];
  }

  /** The end mark occurs nowhere from the third byte of the body to the end of the check. */
  predicate NoMark(b: seq<bv8>) {
    forall j: nat :: 2 <= j <= |b| ==> !MarkAt(b + CheckBytes(Check(b)), j)
  }

  /** The bodies that survive framing. */
  predicate Deliverable(b: seq<bv8>) {
    |b| + 18 < BUF_SIZE && NoMark(b)
  }

  lemma MarkInside(f: seq<bv8>, t: seq<bv8>, j: nat)
    requires |f| == |t| + 16 && f[12..|f| - 4] == t && f[|f| - 4..] == EOM && j >= 2
    ensures j + 16 < |f| && EomAt(f, j + 16) <==> MarkAt(t, j)
  {
    var m := |f| - 4;
    forall i | 0 <= i < |t|
      ensures f[12 + i] == t[i]
    {
      assert f[12..m][i] == f[12 + i];
    }
    assert f[m] == 0x68 && f[m + 1] == 0x68 && f[m + 2] == 0x16 by {
      assert f[m] == f[m..][0] && f[m + 1] == f[m..][1] && f[m + 2] == f[m..][2];
    }
    if j + 16 <= |f| {
      MarkBytes(f, j + 12);
    }
    assert j + 4 <= |t| ==>
      t[j] == f[j + 12] && t[j + 1] == f[j + 13] && t[j + 2] == f[j + 14] && t[j + 3] == f[j + 15];
  }

  /** The end mark does not overlap itself, so only the body and the check can end a frame early. */
  lemma QuietExactly(b: seq<bv8>)
    ensures QuietTo(Frame(b), |b| + 18) <==> NoMark(b)
  {
    FrameParts(b);
    hide Frame, CheckBytes, Check, EomAt;
    var f, n, t := Frame(b), |b|, b + CheckBytes(Check(b));
    assert f[12..14 + n] == t by { assert f[12..14 + n] == f[12..12 + n] + f[12 + n..14 + n]; }
    hide MarkAt;
    if NoMark(b) {
      forall k | 18 <= k < n + 18
        ensures !EomAt(f, k)
      {
        MarkInside(f, t, k - 16);
      }
    } else {
      var j: nat :| 2 <= j <= n && MarkAt(t, j);
      MarkInside(f, t, j);
    }
  }

  /** A deliverable body arrives deciphered, whatever the buffer held before, and the receiver is reset. */
  lemma Delivers(c: Cipher, r: Rcv, b: seq<bv8>)
    requires Ready(r) && InPlace(c) && Deliverable(b)
    ensures var f := FeedAll(c, r, Frame(b)); Ready(f.0) && f.1 == [Pack(TYPE, c.dec(b))]
  {
    var s, k := Frame(b), |b| + 18;
    QuietExactly(b);
    FrameParts(b);
    hide Frame, FeedAll, Accepts, CheckBytes, Check, LenBytes;
    assert EomAt(s, k) && s[..k] == s;
    hide EomAt;
    var t := CloseAt(c, r, s, k);
    AcceptsOnlyWhole(b, t.buf, k);
    assert |c.dec(b)| == |b|;
  }

  /** What n bytes from a reset receiver can have delivered. */
  predicate Bounded(packs: seq<Pack>, n: nat) {
    forall i :: 0 <= i < |packs| ==> |packs[i].body| + 18 <= n && |packs[i].body| + 18 < BUF_SIZE
  }

  lemma {:induction false} DeliveryBound(c: Cipher, r: Rcv, s: seq<bv8>)
    requires Ready(r)
    ensures var f := FeedAll(c, r, s); f.0.pos <= |s| && Bounded(f.1, |s|)
  {
    hide Accepts, Opened;
    if s != [] {
      DeliveryBound(c, r, s[..|s| - 1]);
    }
  }

  lemma FirstEom(s: seq<bv8>) returns (k: nat)
    requires !QuietTo(s, |s|)
    ensures 18 <= k < |s| && EomAt(s, k) && QuietTo(s, k)
  {
    hide EomAt;
    k :| 18 <= k < |s| && EomAt(s, k);
    while !QuietTo(s, k)
      invariant 18 <= k < |s| && EomAt(s, k)
      decreases k
    {
      var j :| 18 <= j < k && EomAt(s, j);
      k := j;
    }
  }

  /** A frame with an earlier end mark is dropped there, and what follows is too short to be it. */
  lemma LostAt(c: Cipher, r: Rcv, b: seq<bv8>, k: nat)
    requires Ready(r) && InPlace(c) && |b| + 18 < BUF_SIZE
    requires 18 <= k < |b| + 18 && EomAt(Frame(b), k) && QuietTo(Frame(b), k)
    ensures FeedAll(c, r, Frame(b)).1 != [Pack(TYPE, c.dec(b))]
  {
    var s := Frame(b);
    FrameParts(b);
    hide Frame, FeedAll, Accepts, EomAt, QuietTo, LenBytes, CheckBytes, Check;
    var t := CloseAt(c, r, s, k);
    AcceptsOnlyWhole(b, t.buf, k);
    var f := Closed(c, t);
    FeedConcat(c, r, s[..k], s[k..]);
    assert s[..k] + s[k..] == s;
    DeliveryBound(c, f.0, s[k..]);
    var packs := FeedAll(c, r, s).1;
    assert packs == FeedAll(c, f.0, s[k..]).1;
    if |packs| == 1 {
      assert |packs[0].body| != |c.dec(b)|;
    }
  }

  lemma NotDelivered(c: Cipher, r: Rcv, b: seq<bv8>)
    requires Ready(r) && InPlace(c) && !Deliverable(b)
    ensures FeedAll(c, r, Frame(b)).1 != [Pack(TYPE, c.dec(b))]
  {
    hide Frame, FeedAll, Accepts, EomAt, NoMark;
    var s := Frame(b);
    var packs := FeedAll(c, r, s).1;
    DeliveryBound(c, r, s);
    if packs == [Pack(TYPE, c.dec(b))] {
      assert |packs[0].body| == |b|;
      QuietExactly(b);
      var k := FirstEom(s);
      LostAt(c, r, b, k);
    }
  }

  /** From a reset receiver a frame delivers its body and nothing else if and only if the body is deliverable. */
  lemma DeliversExactly(c: Cipher, r: Rcv, b: seq<bv8>)
    requires Ready(r) && InPlace(c)
    ensures FeedAll(c, r, Frame(b)).1 == [Pack(TYPE, c.dec(b))] <==> Deliverable(b)
  {
    if Deliverable(b) {
      Delivers(c, r, b);
    } else {
      NotDelivered(c, r, b);
    }
  }

  // ----- streams of frames -----

  function Frames(bs: seq<seq<bv8>>): seq<bv8> {
    if bs == [] then [] else Frames(bs[..|bs| - 1]) + Frame(bs[|bs| - 1])
  }

  function Packs(c: Cipher, bs: seq<seq<bv8>>): seq<Pack> {
    seq(|bs|, i requires 0 <= i < |bs| => Pack(TYPE, c.dec(bs[i])))
  }

  lemma StreamStep(c: Cipher, r: Rcv, s: seq<bv8>, b: seq<bv8>)
    requires Ready(r) && InPlace(c) && Deliverable(b) && Ready(FeedAll(c, r, s).0)
    ensures var f := FeedAll(c, r, s + Frame(b));
            Ready(f.0) && f.1 == FeedAll(c, r, s).1 + [Pack(TYPE, c.dec(b))]
  {
    FeedConcat(c, r, s, Frame(b));
    Delivers(c, FeedAll(c, r, s).0, b);
  }

  lemma PacksSnoc(c: Cipher, bs: seq<seq<bv8>>, m: nat)
    requires |bs| == m + 1
    ensures Packs(c, bs) == Packs(c, bs[..m]) + [Pack(TYPE, c.dec(bs[m]))]
  {
  }

  /** Any number of deliverable bodies, framed back to back, arrive in order. */
  lemma {:induction false} StreamDelivers(c: Cipher, r: Rcv, bs: seq<seq<bv8>>)
    requires Ready(r) && InPlace(c) && forall i :: 0 <= i < |bs| ==> Deliverable(bs[i])
    ensures var f := FeedAll(c, r, Frames(bs)); Ready(f.0) && f.1 == Packs(c, bs)
  {
    hide Frame, Deliverable, InPlace, Feed;
    if bs != [] {
      var m := |bs| - 1;
      StreamDelivers(c, r, bs[..m]);
      StreamStep(c, r, Frames(bs[..m]), bs[m]);
      PacksSnoc(c, bs, m);
    }
  }

  // ----- losing and finding the start -----

  lemma DeafStep(c: Cipher, r: Rcv, b: bv8)
    requires r.head && 2 <= r.pos < 4 && r.buf[..2] != PRE[..2]
    ensures var g := Feed(c, r, b); g.1 == [] && g.0.head && 2 <= g.0.pos < 4 && g.0.buf[..2] == r.buf[..2]
  {
    hide Closed;
    var t := Stored(r, b);
    assert t.buf[..2] == r.buf[..2];
    assert t.buf[..4][..2] == t.buf[..2];
  }

  /** After two first bytes that are not the start of the preamble the receiver never syncs again. */
  lemma {:induction false} Deaf(c: Cipher, r: Rcv, s: seq<bv8>)
    requires r.head && 2 <= r.pos < 4 && r.buf[..2] != PRE[..2]
    ensures var f := FeedAll(c, r, s); f.1 == [] && f.0.head && 2 <= f.0.pos < 4 && f.0.buf[..2] == r.buf[..2]
  {
    if s != [] {
      Deaf(c, r, s[..|s| - 1]);
      hide FeedAll;
      DeafStep(c, FeedAll(c, r, s[..|s| - 1]).0, s[|s| - 1]);
    }
  }

  lemma PrefixRetained(c: Cipher, r: Rcv, z: Rcv, s: seq<bv8>)
    requires r.head && r.pos == 2 && z == Rcv(r.buf, 0, true) && |s| >= 2 && r.buf[..2] == s[..2]
    ensures FeedAll(c, z, s[..2]) == (r, [])
  {
    assert r.buf[0] == r.buf[..2][0] == s[0] && r.buf[1] == r.buf[..2][1] == s[1];
    assert r.buf[0 := s[0]] == r.buf && r.buf[1 := s[1]] == r.buf;
    var one := Rcv(r.buf, 1, true);
    assert Feed(c, z, s[0]) == (one, []) && Feed(c, one, s[1]) == (r, []);
    hide Feed;
    assert s[..0] == [];
    FeedNext(c, z, s, 0);
    var none: seq<Pack> := [];
    assert none + none == none;
    assert FeedAll(c, z, s[..0]) == (z, none);
    assert FeedAll(c, z, s[..0 + 1]) == (one, none);
    FeedNext(c, z, s, 1);
  }

  /** Two retained bytes of the preamble stand for the first two of the next frame. */
  lemma RetainedDelivers(c: Cipher, r: Rcv, b: seq<bv8>)
    requires r.head && r.pos == 2 && r.buf[..2] == PRE[..2] && InPlace(c) && Deliverable(b)
    ensures var f := FeedAll(c, r, Frame(b)[2..]); Ready(f.0) && f.1 == [Pack(TYPE, c.dec(b))]
  {
    hide InPlace, Deliverable;
    var z := Rcv(r.buf, 0, true);
    var s := Frame(b);
    FrameParts(b);
    Delivers(c, z, b);
    hide Frame;
    assert s[..2] == s[..4][..2] == PRE[..2];
    PrefixRetained(c, r, z, s);
    hide FeedAll;
    assert s == s[..2] + s[2..];
    FeedConcat(c, z, s[..2], s[2..]);
    assert [] + FeedAll(c, r, s[2..]).1 == FeedAll(c, r, s[2..]).1;
  }
}

/** The sender and the receiver, with their buffers updated in place. */
module BjdcLink {
  import opened Bytes
  import opened BjdcFrame
  import Crc16
  import CrcCcitt

  /** `RT_ALIGN(n, 16)`. */
  function Align16(n: nat): (a: nat)
    ensures n <= a < n + 16 && a % 16 == 0
  {
    (n + 15) / 16 * 16
  }

  /** The text as it lies in the cleared buffer. */
  function Padded(xml: seq<bv8>): (t: seq<bv8>)
    ensures |t| == Align16(|xml|)
  {
    xml + Zeros(Align16(|xml|) - |xml|)
  }

  lemma ZerosPart(n: nat, from: nat, m: nat)
    requires from + m <= n
    ensures Zeros(n)[from..][..m] == Zeros(m)
  {
  }

  /** `strcpy` into the cleared space behind the head. */
  method PutText(buf: array<bv8>, n: nat, xml: seq<bv8>)
    requires n == Align16(|xml|) && buf.Length == n + 18 && buf[12..] == Zeros(n + 6)
    modifies buf
    ensures buf[..12] == old(buf[..12]) && buf[12..12 + n] == Padded(xml)
  {
    hide Zeros;
    ghost var was := buf[..];
    Copy(buf, 12, xml);
    ghost var t, m := 12 + |xml|, n - |xml|;
    assert buf[t..] == was[t..] == was[12..][|xml|..];
    assert buf[t..t + m] == buf[t..][..m];
    ZerosPart(n + 6, |xml|, m);
    assert buf[12..12 + n] == buf[12..t] + buf[t..t + m];
  }

  /** The space is enciphered where it stands. */
  method Encipher(c: Cipher, buf: array<bv8>, n: nat)
    requires buf.Length == n + 18 && InPlace(c)
    modifies buf
    ensures buf[..12] == old(buf[..12]) && buf[12..12 + n] == c.enc(old(buf[12..12 + n]))
  {
    var body := c.enc(buf[12..12 + n]);
    assert |body| == n;
    Copy(buf, 12, body);
  }

  /** The check over the type word and the body, and the end mark. */
  method PutCheck(buf: array<bv8>, n: nat, body: seq<bv8>)
    requires buf.Length == n + 18 && |body| == n
    requires buf[..12] == PRE + LenBytes(4 + n) + TYPE && buf[12..12 + n] == body
    modifies buf
    ensures buf[..] == Frame(body)
  {
    hide LenBytes, CheckBytes, Check, CrcCcitt.Crc;
    assert buf[8..12 + n] == TYPE + body by { assert buf[8..12 + n] == buf[..12][8..] + buf[12..12 + n]; }
    var crc := CrcCcitt.GetCrc16(buf[8..8 + (4 + n)]);
    CheckIs(body);
    assert buf[..12 + n] == buf[..12] + buf[12..12 + n];
    Copy(buf, 12 + n, CheckBytes(crc) + EOM);
    assert buf[..] == buf[..12 + n] + buf[12 + n..12 + n + 6];
  }

  /** `cc_bjdc_send_xmlpack`: the frame handed to the socket. */
  method SendXmlPack(c: Cipher, xml: seq<bv8>) returns (buf: array<bv8>)
    requires 0 !in xml && InPlace(c)
    ensures fresh(buf) && buf[..] == Frame(c.enc(Padded(xml)))
  {
    hide Frame, Padded, LenBytes, Check;
    var n := Align16(|xml|);
    buf := new bv8[4 + n + 14](_ => 0);
    Copy(buf, 0, PRE + LenBytes(4 + n) + TYPE);
    PutText(buf, n, xml);
    Encipher(c, buf, n);
    PutCheck(buf, n, c.enc(Padded(xml)));
  }

  lemma Overwritten(was: Buffer, now: Buffer, pos: nat, body: seq<bv8>)
    requires 18 <= pos <= BUF_SIZE && |body| == pos - 18
    requires now[..12] == was[..12] && now[12..pos - 5] == body + [0] && now[pos - 5..] == was[pos - 5..]
    ensures now == was[..12] + body + [0] + was[pos - 5..]
  {
    assert now == now[..12] + now[12..pos - 5] + now[pos - 5..];
  }

  lemma LenFits(buf: Buffer)
    ensures LenField(buf) < TWO32
  {
  }

  class Receiver {
    const buffer: array<bv8>
    var nPos: nat
    var head: bool           // CC_BJDC_R_S_HEAD or CC_BJDC_R_S_EOM
    var packs: seq<Pack>     // what the parser has been given, in order
    const aes: Cipher

    ghost predicate Valid()
      reads this
    {
      buffer.Length == BUF_SIZE && nPos < BUF_SIZE && InPlace(aes)
    }

    ghost function View(): Rcv
      requires Valid()
      reads this, buffer
    {
      Rcv(buffer[..], nPos, head)
    }

    constructor (c: Cipher)
      requires InPlace(c)
      ensures Valid() && fresh(buffer) && aes == c && nPos == 0 && head && packs == []
    {
      buffer := new bv8[BUF_SIZE](_ => 0);
      nPos, head, packs, aes := 0, true, [], c;
    }

    /** `AES_Decrypt` over the body, the closing NUL, and the call of the parser. */
    method Open(len: nat)
      requires Valid() && nPos >= 18 && len == nPos - 14
      modifies this`packs, buffer
      ensures Valid() && buffer[..] == Opened(aes, old(buffer[..]), nPos)
      ensures packs == old(packs) + [Pack(old(buffer[8..12]), aes.dec(old(buffer[12..nPos - 6])))]
    {
      ghost var was := buffer[..];
      var kind, body := buffer[8..12], aes.dec(buffer[12..8 + len]);
      assert buffer[12..8 + len] == was[12..nPos - 6] && kind == was[8..12];
      Copy(buffer, 12, body + [0]);
      packs := packs + [Pack(kind, body)];
      Overwritten(was, buffer[..], nPos, body);
    }

    /** A complete frame: tested, deciphered in place, handed on; then the receiver is reset. */
    method Close()
      requires Valid() && nPos >= 18
      modifies this, buffer
      ensures Valid()
      ensures var g := Closed(aes, old(View())); View() == g.0 && packs == old(packs) + g.1
    {
      hide LenField, CheckWord, CrcCcitt.Crc, Opened;
      var len := LenField(buffer[..]);
      LenFits(buffer[..]);
      LengthTest(len, nPos);
      if U32(len + 14) == nPos {
        var crc := CrcCcitt.GetCrc16(buffer[8..8 + len]);
        assert buffer[8..8 + len] == buffer[..][8..nPos - 6];
        if crc == CheckWord(buffer[nPos - 6], buffer[nPos - 5]) {
          Open(len);
        }
      }
      head := true;
      nPos := 0;
    }

    /** The state tests that follow the store. */
    method Turn()
      requires Valid()
      modifies this, buffer
      ensures Valid()
      ensures var g := Judge(aes, old(View())); View() == g.0 && packs == old(packs) + g.1
    {
      hide Closed;
      if head {
        if nPos == 4 {
          if buffer[..4] == PRE {
            head := false;
          } else {
            nPos := 2;
          }
        }
      } else if nPos >= 8 {
        assert buffer[..][nPos - 4..nPos] == buffer[nPos - 4..nPos];
        if buffer[nPos - 4..nPos] == EOM && nPos >= 18 {
          Close();
        }
      }
    }

    /** One turn of the loop of `CC_BJDC_PutBytes`. */
    method PutByte(b: bv8)
      requires Valid()
      modifies this, buffer
      ensures Valid()
      ensures var g := Feed(aes, old(View()), b); View() == g.0 && packs == old(packs) + g.1
    {
      ghost var r := View();
      buffer[nPos] := b;
      nPos := nPos + 1;
      if nPos >= BUF_SIZE {
        nPos := 0;
      }
      assert View() == Stored(r, b);
      hide Stored, Judge;
      Turn();
    }

    method PutBytes(bytes: seq<bv8>)
      requires Valid()
      modifies this, buffer
      ensures Valid()
      ensures var f := FeedAll(aes, old(View()), bytes); View() == f.0 && packs == old(packs) + f.1
    {
      hide Feed;
      ghost var r := View();
      assert bytes[..0] == [];
      for n := 0 to |bytes|
        invariant Valid()
        invariant var f := FeedAll(aes, r, bytes[..n]); View() == f.0 && packs == old(packs) + f.1
      {
        FeedNext(aes, r, bytes, n);
        ghost var f := FeedAll(aes, r, bytes[..n]);
        PutByte(bytes[n]);
        assert old(packs) + f.1 + Feed(aes, f.0, bytes[n]).1 == old(packs) + (f.1 + Feed(aes, f.0, bytes[n]).1);
      }
      assert bytes[..|bytes|] == bytes;
    }
  }

  /** Frames back to back, cut anywhere into chunks: every body arrives deciphered, in order, and nothing else. */
  method ReceiveChunks(c: Cipher, bs: seq<seq<bv8>>, chunks: seq<seq<bv8>>) returns (rcv: Receiver)
    requires InPlace(c) && Flatten(chunks) == Frames(bs) && forall i :: 0 <= i < |bs| ==> Deliverable(bs[i])
    ensures rcv.packs == Packs(c, bs) && rcv.head && rcv.nPos == 0
  {
    hide Feed, Frame;
    rcv := new Receiver(c);
    ghost var r := rcv.View();
    assert chunks[..0] == [];
    for i := 0 to |chunks|
      invariant rcv.Valid() && rcv.aes == c && fresh(rcv) && fresh(rcv.buffer)
      invariant var f := FeedAll(c, r, Flatten(chunks[..i])); rcv.View() == f.0 && rcv.packs == f.1
    {
      assert chunks[..i + 1][..i] == chunks[..i];
      FeedConcat(c, r, Flatten(chunks[..i]), chunks[i]);
      rcv.PutBytes(chunks[i]);
    }
    assert chunks[..|chunks|] == chunks;
    StreamDelivers(c, r, bs);
  }

  /** The parser reads the sent text back as the C string it is given. */
  lemma TextArrives(c: Cipher, r: Rcv, xml: seq<bv8>)
    requires Ready(r) && InPlace(c) && Inverse(c) && 0 !in xml && Deliverable(c.enc(Padded(xml)))
    ensures var f := FeedAll(c, r, Frame(c.enc(Padded(xml))));
            Ready(f.0) && |f.1| == 1 && f.1[0].kind == TYPE && CString(f.1[0].body + [0]) == xml
  {
    hide Deliverable, Frame, FeedAll;
    var b := c.enc(Padded(xml));
    Delivers(c, r, b);
    assert c.dec(b) == Padded(xml);
    var z := Zeros(Align16(|xml|) - |xml|) + [0];
    assert Padded(xml) + [0] == xml + z;
    CStringConcat(xml, z);
    assert CString(z) == [] && xml + [] == xml;
  }
}
