/** The meter link of DL/T 645-2007 as software/das/sdccp/dlt645.c writes and reads it. */
module Dlt645 {
  import opened Bytes
  import Hex

  const PRE: bv8 := 0x68
  const MID: bv8 := 0x68
  const EOM: bv8 := 0x16
  const PACKET_SIZE := 64

  // ----- the checksum -----

  function Value(b: bv8): nat {
    b as nat
  }

  /** `sum += b` on a byte. */
  function Plus(a: bv8, b: bv8): bv8 {
    ByteOf(Value(a) + Value(b))
  }

  /** The running byte sum. */
  function Sum(data: seq<bv8>): bv8 {
    if data == [] then 0 else Plus(Sum(data[..|data| - 1]), data[|data| - 1])
  }

  /** The arithmetic sum of the bytes. */
  function Total(data: seq<bv8>): nat {
    if data == [] then 0 else Total(data[..|data| - 1]) + Value(data[|data| - 1])
  }

  lemma PlusValue(a: bv8, b: bv8)
    ensures Value(Plus(a, b)) == (Value(a) + Value(b)) % 256
  {
    ByteValue((Value(a) + Value(b)) % 256);
  }

  lemma ModAdd(x: nat, y: nat)
    ensures (x % 256 + y) % 256 == (x + y) % 256
  {
  }

  lemma ZeroValue()
    ensures Value(0) == 0
  {
  }

  lemma {:induction false} SumIsModular(data: seq<bv8>)
    ensures Value(Sum(data)) == Total(data) % 256
  {
    hide Plus, Value;
    if data != [] {
      SumIsModular(data[..|data| - 1]);
      PlusValue(Sum(data[..|data| - 1]), data[|data| - 1]);
      ModAdd(Total(data[..|data| - 1]), Value(data[|data| - 1]));
    } else {
      assert Value(0) == 0 by { ZeroValue(); }
    }
  }

  /** `CheckSum`. */
  method CheckSum(buf: seq<bv8>) returns (sum: bv8)
    ensures sum == Sum(buf)
  {
    hide Plus;
    sum := 0;
    for i := 0 to |buf|
      invariant sum == Sum(buf[..i])
    {
      assert buf[..i + 1][..i] == buf[..i];
      sum := Plus(sum, buf[i]);
    }
    assert buf[..|buf|] == buf;
  }

  lemma Distinct(a: bv8, b: bv8)
    ensures Value(a) < 256 && Value(b) < 256 && (Value(a) == Value(b) <==> a == b)
  {
  }

  lemma PlusCancels(a: bv8, b: bv8, c: bv8)
    ensures Plus(a, c) == Plus(b, c) <==> a == b
    ensures Plus(c, a) == Plus(c, b) <==> a == b
  {
    PlusValue(a, c);
    PlusValue(b, c);
    PlusValue(c, a);
    PlusValue(c, b);
    Distinct(a, b);
    hide Plus, Value;
  }

  lemma AddMod(x: nat, y: nat, z: nat)
    ensures ((x + y) % 256 + z) % 256 == (x + (y + z) % 256) % 256
  {
  }

  lemma PlusAssociates(a: bv8, b: bv8, c: bv8)
    ensures Plus(Plus(a, b), c) == Plus(a, Plus(b, c))
  {
    hide Plus, Value;
    PlusValue(a, b);
    PlusValue(b, c);
    PlusValue(Plus(a, b), c);
    PlusValue(a, Plus(b, c));
    AddMod(Value(a), Value(b), Value(c));
    Distinct(Plus(Plus(a, b), c), Plus(a, Plus(b, c)));
  }

  lemma PlusZero(a: bv8)
    ensures Plus(a, 0) == a && Plus(0, a) == a
  {
    hide Plus, Value;
    PlusValue(a, 0);
    PlusValue(0, a);
    ZeroValue();
    Distinct(Plus(a, 0), a);
    Distinct(Plus(0, a), a);
  }

  lemma {:induction false} SumConcat(a: seq<bv8>, b: seq<bv8>)
    ensures Sum(a + b) == Plus(Sum(a), Sum(b))
  {
    hide Plus;
    if b == [] {
      assert a + b == a;
      PlusZero(Sum(a));
    } else {
      var m := |b| - 1;
      assert (a + b)[..|a + b| - 1] == a + b[..m];
      SumConcat(a, b[..m]);
      PlusAssociates(Sum(a), Sum(b[..m]), b[m]);
    }
  }

  /** A sum sees every change of a single byte. */
  lemma {:induction false} SumSeesChange(data: seq<bv8>, i: nat, b: bv8)
    requires i < |data| && data[i] != b
    ensures Sum(data[i := b]) != Sum(data)
  {
    hide Plus;
    var m := |data| - 1;
    var d := data[i := b];
    PlusCancels(Sum(data[..m]), Sum(d[..m]), data[m]);
    if i == m {
      assert d[..m] == data[..m];
      PlusCancels(data[m], b, Sum(data[..m]));
    } else {
      assert d[..m] == data[..m][i := b];
      SumSeesChange(data[..m], i, b);
    }
  }

  // ----- the frame -----

  /** What `vCreatePaket` copies; a null pointer leaves the length field and no data. */
  function Carried(p: Maybe<seq<bv8>>, len: nat): seq<bv8>
    requires p.Present? ==> len <= |p.value|
  {
    if p.Present? then p.value[..len] else []
  }

  function Head(addr: seq<bv8>, ctrl: bv8, len: nat): seq<bv8> {
    [PRE] + addr + [MID, ctrl, ByteOf(len)]
  }

  function Frame(addr: seq<bv8>, ctrl: bv8, len: nat, data: seq<bv8>): seq<bv8> {
    var front := Head(addr, ctrl, len) + data;
    front + [Sum(front), EOM]
  }

  /** The frame, place by place. */
  lemma FrameAt(addr: seq<bv8>, ctrl: bv8, data: seq<bv8>)
    requires |addr| == 6 && |data| < 256
    ensures var f, n := Frame(addr, ctrl, |data|, data), |data|;
            && |f| == n + 12 && f[0] == 0x68 && f[1..7] == addr && f[7] == 0x68 && f[8] == ctrl && f[9] as int == n
            && f[10..10 + n] == data && f[n + 11] == 0x16
            && Value(f[n + 10]) == Total(f[..n + 10]) % 256
  {
    SumIsModular(Head(addr, ctrl, |data|) + data);
    ByteValue(|data|);
    hide Sum, Total, Value;
    assert Frame(addr, ctrl, |data|, data)[..|data| + 10] == Head(addr, ctrl, |data|) + data;
  }

  /** The packet buffer is one static array, reused by every call. */
  class Packets {
    const buf: array<bv8>

    constructor ()
      ensures fresh(buf) && buf.Length == PACKET_SIZE
    {
      buf := new bv8[PACKET_SIZE](_ => 0);
    }

    method Put(index: nat, text: seq<bv8>) returns (next: nat)
      requires index + |text| <= buf.Length
      modifies buf
      ensures next == index + |text| && buf[..next] == old(buf[..index]) + text
    {
      next := index;
      for i := 0 to |text|
        invariant next == index + i && buf[..next] == old(buf[..index]) + text[..i]
      {
        buf[next] := text[i];
        next := next + 1;
      }
    }

    /** `vCreatePaket`. */
    method CreatePaket(addr: seq<bv8>, ctrl: bv8, p: Maybe<seq<bv8>>, len: nat) returns (n: nat)
      requires buf.Length == PACKET_SIZE && |addr| == 6 && len < 256 && (p.Present? ==> len <= |p.value|)
      requires 12 + |Carried(p, len)| <= PACKET_SIZE
      modifies buf
      ensures n == 12 + |Carried(p, len)| && buf[..n] == Frame(addr, ctrl, len, Carried(p, len))
    {
      hide Sum, ByteOf;
      n := Put(0, [PRE]);
      n := Put(n, addr);
      n := Put(n, [MID]);
      n := Put(n, [ctrl]);
      n := Put(n, [ByteOf(len)]);
      assert buf[..n] == Head(addr, ctrl, len);
      if len > 0 && p.Present? {
        n := Put(n, p.value[..len]);
      }
      assert buf[..n] == Head(addr, ctrl, len) + Carried(p, len);
      var check := CheckSum(buf[..n]);
      n := Put(n, [check]);
      n := Put(n, [EOM]);
    }
  }

  // ----- the receiver -----

  /** What the parser is given: the head fields and the bytes from the data on, to the end of the message. */
  datatype Pack = Pack(addr: seq<bv8>, ctrl: bv8, len: nat, rest: seq<bv8>)

  /** Outside: the code reads behind the message. */
  datatype Outcome = Rejected | Outside | Parsed(pack: Pack)

  /** The first 68H, or the length. */
  function Start(bytes: seq<bv8>): (i: nat)
    ensures i <= |bytes| && (i < |bytes| ==> bytes[i] == PRE) && PRE !in bytes[..i]
  {
    if bytes == [] || bytes[0] == PRE then 0 else 1 + Start(bytes[1..])
  }

  /** What `Dlt645_PutBytes` makes of the message from its first 68H on. */
  function Judge(s: seq<bv8>): Outcome
    requires s != [] ==> s[0] == PRE
  {
    if |s| < 8 then Outside
    else if s[7] != MID || s[|s| - 1] != EOM then Rejected
    else if Sum(s[..|s| - 2]) != s[|s| - 2] then Rejected
    else if |s| < 10 then Outside
    else Parsed(Pack(s[1..7], s[8], Value(s[9]), s[10..]))
  }

  function Receive(bytes: seq<bv8>): Outcome {
    Judge(bytes[Start(bytes)..])
  }

  lemma {:induction false} StartIs(bytes: seq<bv8>, i: nat)
    requires i <= |bytes| && PRE !in bytes[..i] && (i < |bytes| ==> bytes[i] == PRE)
    ensures Start(bytes) == i
  {
    if i > 0 {
      assert bytes[0] == bytes[..i][0];
      assert bytes[1..][..i - 1] == bytes[..i][1..];
      StartIs(bytes[1..], i - 1);
    }
  }

  /** `Dlt645_PutBytes`, up to the call of the parser. */
  method PutBytes(bytes: seq<bv8>) returns (o: Outcome)
    requires |bytes| < 0x1_0000
    ensures o == Receive(bytes)
  {
    hide Sum;
    var i := 0;
    while i < |bytes|
      invariant i <= |bytes| && PRE !in bytes[..i]
    {
      if bytes[i] == PRE {
        break;
      }
      i := i + 1;
    }
    StartIs(bytes, i);
    var s := bytes[i..];
    if |s| < 8 {
      return Outside;
    }
    if s[0] != PRE || s[7] != MID || s[|s| - 1] != EOM {
      return Rejected;
    }
    var check := CheckSum(s[..|s| - 2]);
    if check != s[|s| - 2] {
      return Rejected;
    }
    if |s| < 10 {
      return Outside;
    }
    o := Parsed(Pack(s[1..7], s[8], Value(s[9]), s[10..]));
  }

  // ----- round trip -----

  lemma FrameBytes(addr: seq<bv8>, ctrl: bv8, len: nat, data: seq<bv8>)
    requires |addr| == 6
    ensures var f, n := Frame(addr, ctrl, len, data), |data|;
            && |f| == n + 12 && f[0] == PRE && f[1..7] == addr && f[7] == MID && f[8] == ctrl && f[9] == ByteOf(len)
            && f[10..10 + n] == data && f[..n + 10] == Head(addr, ctrl, len) + data
            && f[n + 10] == Sum(f[..n + 10]) && f[n + 11] == EOM
  {
    hide Sum, ByteOf;
    var f, n := Frame(addr, ctrl, len, data), |data|;
    assert f[..n + 10] == Head(addr, ctrl, len) + data;
  }

  /** All that the parser reads: the head fields and as many bytes as the length announces. */
  predicate Reads(o: Outcome, addr: seq<bv8>, ctrl: bv8, data: seq<bv8>) {
    && o.Parsed? && o.pack.addr == addr && o.pack.ctrl == ctrl && o.pack.len == |data|
    && |data| <= |o.pack.rest| && o.pack.rest[..|data|] == data
  }

  /** What is left of the noise when its bytes before the first 68H are skipped. */
  function Kept(noise: seq<bv8>): seq<bv8> {
    noise[Start(noise)..]
  }

  lemma {:induction false} StartAhead(noise: seq<bv8>, f: seq<bv8>)
    requires f != [] && f[0] == PRE
    ensures Start(noise + f) == Start(noise)
  {
    var s, i := noise + f, Start(noise);
    assert s[..i] == noise[..i];
    StartIs(s, i);
  }

  lemma EndsAhead(kept: seq<bv8>, f: seq<bv8>)
    requires |f| >= 2
    ensures var t := kept + f;
            && t[..|t| - 2] == kept + f[..|f| - 2] && t[|t| - 2] == f[|f| - 2] && t[|t| - 1] == f[|f| - 1]
  {
  }

  /** Kept noise before a frame changes its sum by the sum of that noise. */
  lemma SumAhead(kept: seq<bv8>, addr: seq<bv8>, ctrl: bv8, data: seq<bv8>)
    requires |addr| == 6 && |data| < 256
    ensures var t := kept + Frame(addr, ctrl, |data|, data);
            && |t| == |kept| + |data| + 12
            && t[|t| - 1] == EOM && (Sum(t[..|t| - 2]) == t[|t| - 2] <==> Sum(kept) == 0)
  {
    hide *;
    FrameBytes(addr, ctrl, |data|, data);
    var f := Frame(addr, ctrl, |data|, data);
    EndsAhead(kept, f);
    var front := f[..|f| - 2];
    SumConcat(kept, front);
    PlusZero(Sum(front));
    PlusCancels(Sum(kept), 0, Sum(front));
  }

  /** The fields of a message, in which only the low byte of the length is kept. */
  predicate Fields(t: seq<bv8>, addr: seq<bv8>, ctrl: bv8, data: seq<bv8>)
    requires |t| >= |data| + 12
  {
    t[1..7] == addr && t[7] == MID && t[8] == ctrl && Value(t[9]) == |data| && t[10..][..|data|] == data
  }

  lemma ByteOfValue(n: nat)
    requires n < 256
    ensures Value(ByteOf(n)) == n
  {
    ByteValue(n);
    assert n % 256 == n;
  }

  lemma FieldsPrefix(t: seq<bv8>, addr: seq<bv8>, ctrl: bv8, data: seq<bv8>)
    requires |addr| == 6 && |data| < 256 && |t| >= |data| + 12 && t[0] == PRE
    ensures Fields(t, addr, ctrl, data) <==> Head(addr, ctrl, |data|) + data <= t
  {
    var n, h, p := |data|, Head(addr, ctrl, |data|), Head(addr, ctrl, |data|) + data;
    ByteOfValue(n);
    Distinct(t[9], ByteOf(n));
    assert h[1..7] == addr && h[7] == MID && h[8] == ctrl && h[9] == ByteOf(n) && h[0] == PRE && |h| == 10;
    hide ByteOf, Head, Value;
    if p <= t {
      assert t[..|p|] == p;
      assert t[1..7] == p[1..7] == h[1..7];
      assert t[10..][..n] == p[10..] == data;
    }
    if Fields(t, addr, ctrl, data) {
      forall k | 0 <= k < |p|
        ensures p[k] == t[k]
      {
        if 1 <= k < 7 {
          assert p[k] == h[1..7][k - 1] == t[1..7][k - 1];
        } else if k >= 10 {
          assert p[k] == data[k - 10] == t[10..][..n][k - 10];
        }
      }
    }
  }

  /** A message that starts with the fields and the data is read as them, and no other one. */
  lemma ReadsPrefix(t: seq<bv8>, addr: seq<bv8>, ctrl: bv8, data: seq<bv8>)
    requires |addr| == 6 && |data| < 256 && |t| >= |data| + 12 && t[0] == PRE && t[|t| - 1] == EOM
    ensures Reads(Judge(t), addr, ctrl, data)
       <==> Sum(t[..|t| - 2]) == t[|t| - 2] && Head(addr, ctrl, |data|) + data <= t
  {
    hide Sum, Head, Value;
    FieldsPrefix(t, addr, ctrl, data);
  }

  /** Behind noise a frame is read with its own address, control, length and data if and only if the noise, from its
      first 68H on, sums to zero and is, with the frame behind it, again a start of the frame. */
  lemma RoundTripExactly(noise: seq<bv8>, addr: seq<bv8>, ctrl: bv8, data: seq<bv8>)
    requires |addr| == 6 && |data| < 256
    ensures var f := Frame(addr, ctrl, |data|, data);
            Reads(Receive(noise + f), addr, ctrl, data)
            <==> Sum(Kept(noise)) == 0 && Head(addr, ctrl, |data|) + data <= Kept(noise) + f
  {
    hide Frame, Sum, Head, Reads, Judge;
    var f, kept := Frame(addr, ctrl, |data|, data), Kept(noise);
    SumAhead(kept, addr, ctrl, data);
    assert |f| > 0 && f[0] == PRE by { FrameBytes(addr, ctrl, |data|, data); }
    assert (kept + f)[0] == PRE;
    StartAhead(noise, f);
    assert (noise + f)[Start(noise)..] == kept + f;
    ReadsPrefix(kept + f, addr, ctrl, data);
  }

  /** So it is behind any noise without a 68H. */
  lemma RoundTrip(noise: seq<bv8>, addr: seq<bv8>, ctrl: bv8, data: seq<bv8>)
    requires PRE !in noise && |addr| == 6 && |data| < 256
    ensures Reads(Receive(noise + Frame(addr, ctrl, |data|, data)), addr, ctrl, data)
  {
    RoundTripExactly(noise, addr, ctrl, data);
    FrameBytes(addr, ctrl, |data|, data);
    hide Frame, Head, Reads, Receive;
    StartIs(noise, |noise|);
    var f := Frame(addr, ctrl, |data|, data);
    assert [] + f == f;
  }

  function Complement(a: bv8): bv8 {
    ByteOf(256 - Value(a))
  }

  lemma ByteOfMod(n: nat)
    ensures Value(ByteOf(n)) == n % 256
  {
    ByteValue(n % 256);
  }

  lemma ComplementSum(a: bv8)
    ensures Plus(a, Complement(a)) == 0
  {
    hide Plus, Value, ByteOf;
    PlusValue(a, Complement(a));
    ZeroValue();
    Distinct(a, a);
    ByteOfMod(256 - Value(a));
    Distinct(Plus(a, Complement(a)), 0);
  }

  lemma SumNext(s: seq<bv8>, b: bv8)
    ensures Sum(s + [b]) == Plus(Sum(s), b)
  {
    hide Plus;
    assert (s + [b])[..|s|] == s;
  }

  /** And behind a copy of its own fields and data with a byte that brings the sum to zero, which starts with a 68H. */
  lemma CopyAhead(addr: seq<bv8>, ctrl: bv8, data: seq<bv8>) returns (noise: seq<bv8>)
    requires |addr| == 6 && |data| < 256
    ensures |noise| == |data| + 11 && noise[0] == PRE
    ensures Reads(Receive(noise + Frame(addr, ctrl, |data|, data)), addr, ctrl, data)
  {
    hide Frame, Reads, Receive, Sum, Plus, Complement, ByteOf;
    var front := Head(addr, ctrl, |data|) + data;
    noise := front + [Complement(Sum(front))];
    assert |front| == |data| + 10 && noise[0] == PRE;
    hide Head;
    StartIs(noise, 0);
    assert noise[0..] == noise;
    SumNext(front, Complement(Sum(front)));
    ComplementSum(Sum(front));
    RoundTripExactly(noise, addr, ctrl, data);
  }

  /** Nothing is skipped before a 68H. */
  lemma FromStart(s: seq<bv8>)
    requires s != [] && s[0] == PRE
    ensures Receive(s) == Judge(s)
  {
    hide Judge;
    StartIs(s, 0);
    assert s[0..] == s;
  }

  /** Any change of one byte behind the first makes the frame unacceptable. */
  lemma SingleByteError(addr: seq<bv8>, ctrl: bv8, data: seq<bv8>, i: nat, b: bv8)
    requires |addr| == 6 && |data| < 256 && 1 <= i < |data| + 12
    requires |Frame(addr, ctrl, |data|, data)| == |data| + 12 && Frame(addr, ctrl, |data|, data)[i] != b
    ensures Receive(Frame(addr, ctrl, |data|, data)[i := b]) == Rejected
  {
    hide Frame, Sum, Head, Receive, ByteOf;
    FrameBytes(addr, ctrl, |data|, data);
    var f, n := Frame(addr, ctrl, |data|, data), |data|;
    var g := f[i := b];
    FromStart(g);
    if i < n + 10 {
      assert g[..n + 10] == f[..n + 10][i := b];
      SumSeesChange(f[..n + 10], i, b);
    } else {
      assert g[..n + 10] == f[..n + 10];
    }
  }

  /** The length field is not compared with the message: a frame is accepted with any, and what it announces is data of
      the message if and only if there are as many. */
  lemma LengthUnchecked(addr: seq<bv8>, ctrl: bv8, len: nat, data: seq<bv8>)
    requires |addr| == 6 && len < 256
    ensures var o := Receive(Frame(addr, ctrl, len, data));
            && o.Parsed? && o.pack.addr == addr && o.pack.ctrl == ctrl && o.pack.len == len
            && |o.pack.rest| == |data| + 2 && o.pack.rest[..|data|] == data
            && ((len <= |o.pack.rest| && o.pack.rest[..len] <= data) <==> len <= |data|)
  {
    hide Frame, Sum, Head, Receive;
    FrameBytes(addr, ctrl, len, data);
    ByteValue(len);
    var f := Frame(addr, ctrl, len, data);
    FromStart(f);
    assert f[10..][..|data|] == f[10..10 + |data|];
    if len <= |data| {
      assert f[10..][..len] == data[..len];
    }
  }

  // ----- the +33H rule -----

  const BIAS: bv32 := 0x3333_3333

  function Biased(marker: bv32): bv32 {
    marker + BIAS
  }

  function Unbiased(marker: bv32): bv32 {
    marker - BIAS
  }

  /** One byte as the standard transmits it. */
  function Bias(b: bv8): bv8 {
    b + 0x33
  }

  function BiasBytes(s: seq<bv8>): (t: seq<bv8>)
    ensures |t| == |s| && forall i :: 0 <= i < |s| ==> t[i] == Bias(s[i])
  {
    seq(|s|, i requires 0 <= i < |s| => Bias(s[i]))
  }

  lemma MarkerRoundTrip(marker: bv32)
    ensures Unbiased(Biased(marker)) == marker && Biased(Unbiased(marker)) == marker
  {
  }

  lemma CarryFree(marker: bv32)
    ensures var b, w := LeBytes(marker), LeBytes(Biased(marker));
            (w[0] == Bias(b[0]) && w[1] == Bias(b[1]) && w[2] == Bias(b[2]) && w[3] == Bias(b[3]))
            <==> b[0] <= 0xCC && b[1] <= 0xCC && b[2] <= 0xCC
  {
  }

  /** The addition of one word is the addition byte by byte if and only if no carry leaves one of the three low
      bytes. */
  lemma MarkerPerByte(marker: bv32)
    ensures var b := LeBytes(marker);
            LeBytes(Biased(marker)) == BiasBytes(b) <==> b[0] <= 0xCC && b[1] <= 0xCC && b[2] <= 0xCC
  {
    var b, w := LeBytes(marker), LeBytes(Biased(marker));
    CarryFree(marker);
    hide LeBytes, Biased, Bias;
    if w[0] == Bias(b[0]) && w[1] == Bias(b[1]) && w[2] == Bias(b[2]) && w[3] == Bias(b[3]) {
      assert w == BiasBytes(b);
    }
  }

  const SLAVE_READ_DATA: bv8 := 0x91

  /** A normal reply of a slave to a read of data. */
  predicate ReadDataReply(ctrl: bv8) {
    ctrl & 0xC0 == 0x80 && ctrl & 0x1F == 0x11
  }

  /** The read-data branch of the parser: the marker and the bytes behind it. */
  function ReadData(p: Pack): Maybe<(bv32, seq<bv8>)>
    requires 4 <= p.len ==> p.len <= |p.rest|
  {
    if !ReadDataReply(p.ctrl) || p.len < 4 then Absent
    else Present((Unbiased(LeWord(p.rest[0], p.rest[1], p.rest[2], p.rest[3])), p.rest[4..p.len]))
  }

  /** The marker the parser sees when a meter biases it byte by byte. */
  function MarkerSeen(marker: bv32): bv32 {
    var b := BiasBytes(LeBytes(marker));
    Unbiased(LeWord(b[0], b[1], b[2], b[3]))
  }

  /** It is the marker that was sent if and only if no low byte is over 0xCC. */
  lemma MarkerSeenExactly(marker: bv32)
    ensures var b := LeBytes(marker); MarkerSeen(marker) == marker <==> b[0] <= 0xCC && b[1] <= 0xCC && b[2] <= 0xCC
  {
    hide LeBytes, LeWord, Biased, Unbiased, Bias;
    var c := BiasBytes(LeBytes(marker));
    var w := LeWord(c[0], c[1], c[2], c[3]);
    MarkerPerByte(marker);
    ByteRoundTrip(c[0], c[1], c[2], c[3]);
    WordRoundTrip(Biased(marker));
    MarkerRoundTrip(marker);
    MarkerRoundTrip(w);
    assert [c[0], c[1], c[2], c[3]] == c;
    assert MarkerSeen(marker) == marker ==> w == Biased(marker);
  }

  lemma BiasConcat(a: seq<bv8>, b: seq<bv8>)
    ensures BiasBytes(a + b) == BiasBytes(a) + BiasBytes(b)
  {
    hide Bias;
  }

  lemma PackRead(p: Pack, marker: bv32, value: seq<bv8>)
    requires p.ctrl == SLAVE_READ_DATA && p.len == |value| + 4 <= |p.rest|
    requires p.rest[..p.len] == BiasBytes(LeBytes(marker)) + BiasBytes(value)
    ensures ReadData(p) == Present((MarkerSeen(marker), BiasBytes(value)))
  {
    assert ReadDataReply(SLAVE_READ_DATA);
    hide LeBytes, LeWord, Unbiased, BiasBytes, ReadDataReply;
    var b, head := BiasBytes(LeBytes(marker)), p.rest[..p.len];
    assert |b| == 4 && |BiasBytes(value)| == |value|;
    assert p.rest[4..p.len] == head[4..] == BiasBytes(value);
    assert p.rest[0] == head[0] && p.rest[1] == head[1] && p.rest[2] == head[2] && p.rest[3] == head[3];
  }

  /** A reply as section 5.2 of the standard builds it, every byte biased, is taken with the marker the parser sees and
      with its value bytes as sent. */
  lemma ReplyTaken(noise: seq<bv8>, addr: seq<bv8>, marker: bv32, value: seq<bv8>)
    requires PRE !in noise && |addr| == 6 && |value| < 252
    ensures var data := BiasBytes(LeBytes(marker) + value);
            var o := Receive(noise + Frame(addr, SLAVE_READ_DATA, |data|, data));
            && o.Parsed? && o.pack.addr == addr && o.pack.len <= |o.pack.rest|
            && ReadData(o.pack) == Present((MarkerSeen(marker), BiasBytes(value)))
  {
    hide Frame, Receive, LeBytes, ReadData, MarkerSeen, BiasBytes;
    var data := BiasBytes(LeBytes(marker) + value);
    assert |data| == |value| + 4;
    RoundTrip(noise, addr, SLAVE_READ_DATA, data);
    BiasConcat(LeBytes(marker), value);
    PackRead(Receive(noise + Frame(addr, SLAVE_READ_DATA, |data|, data)).pack, marker, value);
  }

  /** It is understood, marker and value, if and only if none of the three low bytes of the marker is over 0xCC. */
  lemma ReplyUnderstood(noise: seq<bv8>, addr: seq<bv8>, marker: bv32, value: seq<bv8>)
    requires PRE !in noise && |addr| == 6 && |value| < 252
    ensures var data, b := BiasBytes(LeBytes(marker) + value), LeBytes(marker);
            var o := Receive(noise + Frame(addr, SLAVE_READ_DATA, |data|, data));
            && o.Parsed? && o.pack.addr == addr && o.pack.len <= |o.pack.rest|
            && (ReadData(o.pack) == Present((marker, BiasBytes(value)))
                <==> b[0] <= 0xCC && b[1] <= 0xCC && b[2] <= 0xCC)
  {
    ReplyTaken(noise, addr, marker, value);
    MarkerSeenExactly(marker);
    hide *;
  }

  const VOLTAGE_BLOCK: bv32 := 0x0201FF00

  /** The voltage block is one of the markers that come back as another. */
  lemma VoltageBlockLost()
    ensures MarkerSeen(VOLTAGE_BLOCK) == 0x0200FF00
  {
    hide BiasBytes;
    var b := LeBytes(VOLTAGE_BLOCK);
    assert b == [0x00, 0xFF, 0x01, 0x02];
    assert BiasBytes(b) == [Bias(0x00), Bias(0xFF), Bias(0x01), Bias(0x02)];
    assert Bias(0x00) == 0x33 && Bias(0xFF) == 0x32 && Bias(0x01) == 0x34 && Bias(0x02) == 0x35;
    assert LeWord(0x33, 0x32, 0x34, 0x35) == 0x35343233;
  }

  // ----- packed decimal values -----

  function Unbias(b: bv8): bv8 {
    b - 0x33
  }

  lemma BiasUndone(a: bv8)
    ensures Bias(Unbias(a)) == a && Unbias(Bias(a)) == a
  {
  }

  /** `pData[i] = pData[i] - 0x33` over the data. */
  method UnbiasInPlace(data: array<bv8>)
    modifies data
    ensures BiasBytes(data[..]) == old(data[..])
  {
    for i := 0 to data.Length
      invariant forall k :: 0 <= k < i ==> Bias(data[k]) == old(data[k])
      invariant forall k :: i <= k < data.Length ==> data[k] == old(data[k])
    {
      BiasUndone(data[i]);
      data[i] := Unbias(data[i]);
    }
  }

  lemma BiasInjective(s: seq<bv8>, t: seq<bv8>)
    requires BiasBytes(s) == BiasBytes(t)
    ensures s == t
  {
    hide Bias, Unbias;
    assert |s| == |t|;
    forall i | 0 <= i < |s|
      ensures s[i] == t[i]
    {
      assert BiasBytes(s)[i] == Bias(s[i]) && BiasBytes(t)[i] == Bias(t[i]);
      BiasUndone(s[i]);
      BiasUndone(t[i]);
    }
  }

  function UpperDigitOf(b: bv8): bv8 {
    Hex.LowerDigit(b >> 4)
  }

  function LowerDigitOf(b: bv8): bv8 {
    Hex.LowerDigit(b & 0xF)
  }

  /** "%02x". */
  function TwoDigits(b: bv8): seq<bv8> {
    [UpperDigitOf(b), LowerDigitOf(b)]
  }

  /** The bytes printed from the last to the first. */
  function Printed(d: seq<bv8>): seq<bv8> {
    if d == [] then [] else Printed(d[1..]) + TwoDigits(d[0])
  }

  /** The text `DataToDouble` gives to atof. */
  function DataText(d: seq<bv8>): seq<bv8> {
    if |d| == 8 then Printed(d[5..]) else if 1 <= |d| <= 4 then Printed(d) else []
  }

  lemma PrintedOne(d: seq<bv8>)
    requires |d| == 1
    ensures Printed(d) == TwoDigits(d[0])
  {
    hide TwoDigits;
    assert Printed(d[1..]) == [];
  }

  lemma PrintedTwo(d: seq<bv8>)
    requires |d| == 2
    ensures Printed(d) == TwoDigits(d[1]) + TwoDigits(d[0])
  {
    hide TwoDigits;
    PrintedOne(d[1..]);
  }

  lemma PrintedThree(d: seq<bv8>)
    requires |d| == 3
    ensures Printed(d) == TwoDigits(d[2]) + TwoDigits(d[1]) + TwoDigits(d[0])
  {
    hide TwoDigits;
    PrintedTwo(d[1..]);
  }

  method DataToText(data: array<bv8>) returns (text: seq<bv8>)
    modifies data
    ensures BiasBytes(data[..]) == old(data[..]) && text == DataText(data[..])
  {
    UnbiasInPlace(data);
    hide TwoDigits;
    var n, d := data.Length, data[..];
    text := [];
    if n == 8 {
      text := TwoDigits(data[7]) + TwoDigits(data[6]) + TwoDigits(data[5]);
      PrintedThree(d[5..]);
    } else if n == 4 {
      text := TwoDigits(data[3]) + TwoDigits(data[2]) + TwoDigits(data[1]) + TwoDigits(data[0]);
      PrintedThree(d[1..]);
    } else if n == 3 {
      text := TwoDigits(data[2]) + TwoDigits(data[1]) + TwoDigits(data[0]);
      PrintedThree(d);
    } else if n == 2 {
      text := TwoDigits(data[1]) + TwoDigits(data[0]);
      PrintedTwo(d);
    } else if n == 1 {
      text := TwoDigits(data[0]);
      PrintedOne(d);
    }
  }

  function DigitNumber(c: bv8): nat {
    if 0x30 <= Value(c) <= 0x39 then Value(c) - 0x30 else 0
  }

  /** The number a text of decimal digits stands for. */
  function Decimal(text: seq<bv8>): nat {
    if text == [] then 0 else 10 * Decimal(text[..|text| - 1]) + DigitNumber(text[|text| - 1])
  }

  function Bcd(d: nat): bv8
    requires d < 100
  {
    ByteOf(d / 10 * 16 + d % 10)
  }

  /** A number as k bytes of packed decimal, low-order pair first. */
  function BcdBytes(n: nat, k: nat): (s: seq<bv8>)
    ensures |s| == k
  {
    if k == 0 then [] else [Bcd(n % 100)] + BcdBytes(n / 100, k - 1)
  }

  function Hundreds(k: nat): (h: nat)
    ensures h >= 1
  {
    if k == 0 then 1 else 100 * Hundreds(k - 1)
  }

  lemma BcdValue(d: nat)
    requires d < 100
    ensures Value(Bcd(d)) == d / 10 * 16 + d % 10
  {
    ByteOfValue(d / 10 * 16 + d % 10);
    hide Value, ByteOf;
  }

  lemma PackedNibbles(b: bv8, h: nat, l: nat)
    requires Value(b) == h * 16 + l && h < 10 && l < 10
    ensures Value(UpperDigitOf(b)) == 0x30 + h && Value(LowerDigitOf(b)) == 0x30 + l
  {
  }

  lemma BcdDigits(d: nat)
    requires d < 100
    ensures TwoDigits(Bcd(d)) == [ByteOf(0x30 + d / 10), ByteOf(0x30 + d % 10)]
  {
    hide Value, ByteOf, Bcd, UpperDigitOf, LowerDigitOf;
    var b, h, l := Bcd(d), d / 10, d % 10;
    BcdValue(d);
    PackedNibbles(b, h, l);
    ByteOfValue(0x30 + h);
    ByteOfValue(0x30 + l);
    Distinct(UpperDigitOf(b), ByteOf(0x30 + h));
    Distinct(LowerDigitOf(b), ByteOf(0x30 + l));
  }

  lemma DigitRead(d: nat)
    requires d < 10
    ensures DigitNumber(ByteOf(0x30 + d)) == d
  {
    ByteOfValue(0x30 + d);
    hide Value, ByteOf;
  }

  lemma DecimalNext(text: seq<bv8>, c: bv8)
    ensures Decimal(text + [c]) == 10 * Decimal(text) + DigitNumber(c)
  {
    hide DigitNumber;
    assert (text + [c])[..|text|] == text;
  }

  lemma DecimalTwo(text: seq<bv8>, d: nat)
    requires d < 100
    ensures Decimal(text + [ByteOf(0x30 + d / 10), ByteOf(0x30 + d % 10)]) == 100 * Decimal(text) + d
  {
    DigitRead(d / 10);
    DigitRead(d % 10);
    hide ByteOf, DigitNumber;
    var h, l := ByteOf(0x30 + d / 10), ByteOf(0x30 + d % 10);
    DecimalNext(text, h);
    DecimalNext(text + [h], l);
    assert text + [h, l] == text + [h] + [l];
  }

  lemma {:induction false} PrintedBcd(n: nat, k: nat)
    requires n < Hundreds(k)
    ensures Decimal(Printed(BcdBytes(n, k))) == n
  {
    hide TwoDigits, Bcd;
    if k > 0 {
      var d, rest := n % 100, Printed(BcdBytes(n / 100, k - 1));
      assert n / 100 < Hundreds(k - 1);
      PrintedBcd(n / 100, k - 1);
      assert BcdBytes(n, k)[1..] == BcdBytes(n / 100, k - 1);
      BcdDigits(d);
      DecimalTwo(rest, d);
    }
  }

  /** A meter's packed decimal value of one to four bytes, biased as the standard asks, is printed as the number
      it is. */
  method ValueRead(n: nat, data: array<bv8>) returns (text: seq<bv8>)
    requires 1 <= data.Length <= 4 && n < Hundreds(data.Length) && data[..] == BiasBytes(BcdBytes(n, data.Length))
    modifies data
    ensures Decimal(text) == n
  {
    hide Printed, BcdBytes, Bias;
    text := DataToText(data);
    BiasInjective(data[..], BcdBytes(n, data.Length));
    PrintedBcd(n, data.Length);
  }

  /** Of the eight bytes of a maximum demand, whose first five are its time, the last three are printed as the number
      they are. */
  method DemandRead(n: nat, data: array<bv8>) returns (text: seq<bv8>)
    requires data.Length == 8 && n < Hundreds(3) && data[5..] == BiasBytes(BcdBytes(n, 3))
    modifies data
    ensures Decimal(text) == n
  {
    hide Printed, BcdBytes, Bias;
    ghost var was := data[..];
    text := DataToText(data);
    assert BiasBytes(data[..][5..]) == was[5..];
    BiasInjective(data[..][5..], BcdBytes(n, 3));
    PrintedBcd(n, 3);
  }
}
