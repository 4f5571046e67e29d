/** The frames the transparent gateway lets through, software/das/board/xfer_net.c. */
module ModbusGateway {
  import opened Bytes
  import opened Hex
  import Crc16

  const MB_RTU_PDU_SIZE_MIN := 4
  const MB_ASCII_PDU_SIZE_MIN := 7

  function Plus(x: bv8, y: bv8): bv8 {
    x + y
  }

  function Minus(x: bv8): bv8 {
    -x
  }

  /** The sum, modulo 256, of the first n character pairs after the colon. */
  function PairSum(frame: seq<bv8>, n: nat): bv8
    requires 2 * n < |frame| || n == 0
  {
    if n == 0 then 0 else Plus(PairSum(frame, n - 1), Pair(frame[2 * n - 1], frame[2 * n]))
  }

  /** The pairs the loop bound `i <= usLen - 3` admits. */
  function PairCount(len: nat): nat {
    if len < 4 then 0 else (len - 2) / 2
  }

  /** `ucMBAsciiLRC`. */
  method AsciiLrc(frame: seq<bv8>, usLen: nat) returns (lrc: bv8)
    requires usLen <= |frame|
    ensures lrc == Minus(PairSum(frame, PairCount(usLen)))
  {
    hide Pair, Plus, Minus;
    lrc := 0;
    var i := 1;
    ghost var n := 0;
    while i <= usLen - 3
      invariant i == 2 * n + 1 && n <= PairCount(usLen)
      invariant lrc == PairSum(frame, n)
    {
      var byte0, byte1 := frame[i], frame[i + 1];
      lrc := Plus(lrc, Pair(byte0, byte1));
      i, n := i + 2, n + 1;
    }
    lrc := Minus(lrc);
  }

  /** `ucMBAsciiAddr`. */
  function AsciiAddr(frame: seq<bv8>): bv8
    requires |frame| >= 3
  {
    Pair(frame[1], frame[2])
  }

  datatype Proto = Rtu | Ascii
  datatype Verdict = Drop | Send(address: bv8)

  /** The length argument of `ucMBAsciiLRC` has sixteen bits. */
  function Short(len: nat): (l: nat)
    ensures l < 0x1_0000 && l <= len && (len - l) % 0x1_0000 == 0 && (len < 0x1_0000 ==> l == len)
  {
    len % 0x1_0000
  }

  lemma MinusZero(x: bv8)
    ensures Minus(x) == 0 <==> x == 0
  {
  }

  /** Section 6.2.2 of MODBUS over Serial Line V1.02: the check of the rest, low byte first. */
  predicate EndsInCheck(frame: seq<bv8>)
    requires |frame| >= 2
  {
    var n := |frame| - 2;
    var c := Crc16.Crc(frame[..n]);
    frame[n..] == [Crc16.Lo(c), Crc16.Hi(c)]
  }

  /** The acceptance tests of `__xfer_rcv_frame` in gateway mode. */
  method Receive(proto: Proto, frame: seq<bv8>) returns (v: Verdict)
    ensures proto.Rtu? ==>
      v == if |frame| >= MB_RTU_PDU_SIZE_MIN && EndsInCheck(frame) then Send(frame[0]) else Drop
    ensures proto.Ascii? ==>
      v == if |frame| >= MB_ASCII_PDU_SIZE_MIN && PairSum(frame, PairCount(Short(|frame|))) == 0
           then Send(AsciiAddr(frame)) else Drop
  {
    hide Short, PairSum, Minus;
    v := Drop;
    match proto
    case Rtu =>
      if |frame| >= MB_RTU_PDU_SIZE_MIN {
        var crc := Crc16.DasCrc16(frame);
        Crc16.FrameCheck(frame);
        if crc == 0 {
          v := Send(frame[0]);
        }
      }
    case Ascii =>
      if |frame| >= MB_ASCII_PDU_SIZE_MIN {
        var lrc := AsciiLrc(frame, Short(|frame|));
        MinusZero(PairSum(frame, PairCount(Short(|frame|))));
        if lrc == 0 {
          v := Send(AsciiAddr(frame));
        }
      }
  }

  // ----- well-formed ASCII frames -----

  function HexAll(data: seq<bv8>): (s: seq<bv8>)
    ensures |s| == 2 * |data|
  {
    if data == [] then [] else HexAll(data[..|data| - 1]) + HexByte(data[|data| - 1])
  }

  /** A colon, two upper-case digits a byte, CR LF. */
  function AsciiFrame(data: seq<bv8>): (f: seq<bv8>)
    ensures |f| == 2 * |data| + 3
  {
    [0x3A] + HexAll(data) + [0x0D, 0x0A]
  }

  function Sum(data: seq<bv8>): bv8 {
    if data == [] then 0 else Plus(Sum(data[..|data| - 1]), data[|data| - 1])
  }

  lemma {:induction false} HexAllAt(data: seq<bv8>, i: nat)
    requires i < |data|
    ensures HexAll(data)[2 * i..2 * i + 2] == HexByte(data[i])
  {
    var m := |data| - 1;
    if i < m {
      HexAllAt(data[..m], i);
    }
  }

  lemma PairAt(data: seq<bv8>, n: nat)
    requires 1 <= n <= |data|
    ensures var f := AsciiFrame(data); Pair(f[2 * n - 1], f[2 * n]) == data[n - 1]
  {
    hide HexByte, Pair;
    var f := AsciiFrame(data);
    HexAllAt(data, n - 1);
    hide HexAll;
    var two := HexByte(data[n - 1]);
    assert f[2 * n - 1..2 * n + 1] == HexAll(data)[2 * n - 2..2 * n] == two;
    assert f[2 * n - 1] == two[0] && f[2 * n] == two[1];
    HexByteRoundTrip(data[n - 1]);
  }

  lemma {:induction false} PairSumOfFrame(data: seq<bv8>, n: nat)
    requires n <= |data|
    ensures PairSum(AsciiFrame(data), n) == Sum(data[..n])
  {
    hide AsciiFrame, Pair, Plus;
    if n > 0 {
      PairAt(data, n);
      PairSumOfFrame(data, n - 1);
      assert data[..n][..n - 1] == data[..n - 1];
    }
  }

  /** The address of a well-formed frame is its first byte. */
  lemma AsciiAddress(data: seq<bv8>)
    requires |data| >= 1
    ensures AsciiAddr(AsciiFrame(data)) == data[0]
  {
    hide HexByte, Pair;
    var f := AsciiFrame(data);
    HexAllAt(data, 0);
    assert f[1..3] == HexAll(data)[0..2];
    HexByteRoundTrip(data[0]);
  }

  lemma Cancel(x: bv8, y: bv8)
    ensures Plus(x, y) == 0 <==> y == Minus(x)
  {
  }

  /** Section 6.2.1 of the same standard: accepted exactly when the last byte is minus the sum of the others. */
  lemma AsciiAccepts(data: seq<bv8>)
    requires 1 <= |data| && 2 * |data| + 3 < 0x1_0000
    ensures var f := AsciiFrame(data); var m := |data| - 1;
            PairSum(f, PairCount(Short(|f|))) == 0 <==> data[m] == Minus(Sum(data[..m]))
  {
    var f, m := AsciiFrame(data), |data| - 1;
    assert PairCount(|f|) == |data|;
    PairSumOfFrame(data, |data|);
    assert data[..|data|] == data;
    hide HexByte, Pair, PairSum, Plus, Minus, Short;
    Cancel(Sum(data[..m]), data[m]);
  }
}
