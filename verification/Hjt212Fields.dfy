/** The fields of an HJ 212 payload: how software/das/sdccp/hjt212.c writes them and finds them again. */
module Hjt212Fields {
  import opened Bytes
  import opened Hex
  import opened Hjt212Frame
  import Crc16

  /** A C string without its terminator. */
  type CText = s: seq<bv8> | 0 !in s

  /** The arguments of `Hjt212Encode`; a null pointer is Absent. */
  datatype Fields = Fields(qn: Maybe<CText>, st: Maybe<CText>, cn: Maybe<CText>, pw: Maybe<CText>,
                           mn: Maybe<CText>, flag: Maybe<CText>, cp: Maybe<CText>)

  const EQ: bv8 := 0x3D
  const SEMI: bv8 := 0x3B
  const AMP: bv8 := 0x26

  const QN_KEY: seq<bv8> := [0x51, 0x4E, EQ]
  const ST_KEY: seq<bv8> := [0x53, 0x54, EQ]
  const CN_KEY: seq<bv8> := [0x43, 0x4E, EQ]
  const PW_KEY: seq<bv8> := [0x50, 0x57, EQ]
  const MN_KEY: seq<bv8> := [0x4D, 0x4E, EQ]
  const FLAG_KEY: seq<bv8> := [0x46, 0x6C, 0x61, 0x67, EQ]
  const CP_KEY: seq<bv8> := [0x43, 0x50, EQ, AMP, AMP]

  const QN_LEN := 20
  const ST_LEN := 5
  const CN_LEN := 7
  const PW_LEN := 9
  const MN_LEN := 27
  const FLAG_LEN := 8
  const CP_WIDTH := 1024

  function Cut(v: seq<bv8>, limit: nat): (c: seq<bv8>)
    ensures |c| <= limit && c <= v
  {
    if |v| <= limit then v else v[..limit]
  }

  // ----- writing -----

  function FieldText(key: seq<bv8>, v: Maybe<CText>, limit: nat): seq<bv8> {
    if v.Absent? then [] else key + Cut(v.value, limit) + [SEMI]
  }

  /** One character of the flag; of an empty flag, its terminator. */
  function FlagText(v: Maybe<CText>): seq<bv8> {
    if v.Absent? then [] else FLAG_KEY + [if v.value == [] then 0 else v.value[0]] + [SEMI]
  }

  function CpText(v: Maybe<CText>): seq<bv8> {
    if v.Absent? then [] else CP_KEY + v.value + [AMP, AMP]
  }

  function Payload(f: Fields): seq<bv8> {
    FieldText(QN_KEY, f.qn, QN_LEN) + FieldText(ST_KEY, f.st, ST_LEN) + FieldText(CN_KEY, f.cn, CN_LEN)
    + FieldText(PW_KEY, f.pw, PW_LEN) + FieldText(MN_KEY, f.mn, MN_LEN) + FlagText(f.flag) + CpText(f.cp)
  }

  /** The keys, character by character. */
  lemma KeysSpelt()
    ensures QN_KEY == ['Q' as bv8, 'N' as bv8, '=' as bv8] && ST_KEY == ['S' as bv8, 'T' as bv8, '=' as bv8]
    ensures CN_KEY == ['C' as bv8, 'N' as bv8, '=' as bv8] && PW_KEY == ['P' as bv8, 'W' as bv8, '=' as bv8]
  {
  }

  lemma MoreKeysSpelt()
    ensures MN_KEY == ['M' as bv8, 'N' as bv8, '=' as bv8]
    ensures FLAG_KEY == ['F' as bv8, 'l' as bv8, 'a' as bv8, 'g' as bv8, '=' as bv8]
    ensures CP_KEY == ['C' as bv8, 'P' as bv8, '=' as bv8, '&' as bv8, '&' as bv8] && SEMI == ';' as bv8
  {
  }

  /** The whole text, when every argument is given and the flag is not empty. */
  lemma PayloadSpelt(f: Fields)
    requires f.qn.Present? && f.st.Present? && f.cn.Present? && f.pw.Present? && f.mn.Present?
    requires f.flag.Present? && f.flag.value != [] && f.cp.Present?
    ensures Payload(f) ==
      QN_KEY + Cut(f.qn.value, 20) + [SEMI] + ST_KEY + Cut(f.st.value, 5) + [SEMI] + CN_KEY + Cut(f.cn.value, 7)
      + [SEMI] + PW_KEY + Cut(f.pw.value, 9) + [SEMI] + MN_KEY + Cut(f.mn.value, 27) + [SEMI]
      + FLAG_KEY + f.flag.value[..1] + [SEMI] + CP_KEY + f.cp.value + [AMP, AMP]
  {
    hide Cut, QN_KEY, ST_KEY, CN_KEY, PW_KEY, MN_KEY, FLAG_KEY, CP_KEY;
  }

  /** `sBuf[index++] = text[i]` for a run of bytes. */
  method Append(sBuf: array<bv8>, index: nat, text: seq<bv8>) returns (next: nat)
    requires index + |text| <= sBuf.Length
    modifies sBuf
    ensures next == index + |text| && sBuf[..next] == old(sBuf[..index]) + text
  {
    next := index;
    for i := 0 to |text|
      invariant next == index + i && sBuf[..next] == old(sBuf[..index]) + text[..i]
    {
      sBuf[next] := text[i];
      next := next + 1;
    }
  }

  /** Character after character, up to the limit or the terminator. */
  method AppendCut(sBuf: array<bv8>, index: nat, text: CText, limit: nat) returns (next: nat)
    requires index + |Cut(text, limit)| <= sBuf.Length
    modifies sBuf
    ensures next == index + |Cut(text, limit)| && sBuf[..next] == old(sBuf[..index]) + Cut(text, limit)
  {
    next := index;
    for i := 0 to limit
      invariant i <= |text| && next == index + i && sBuf[..next] == old(sBuf[..index]) + text[..i]
    {
      if i == |text| {
        break;
      }
      sBuf[next] := text[i];
      next := next + 1;
    }
    assert Cut(text, limit) == text[..next - index];
  }

  /** One of the five blocks of the encoder that copy a field up to its limit or its terminator. */
  method PutField(sBuf: array<bv8>, index: nat, key: seq<bv8>, v: Maybe<CText>, limit: nat) returns (next: nat)
    requires index + |FieldText(key, v, limit)| <= sBuf.Length
    modifies sBuf
    ensures next == index + |FieldText(key, v, limit)|
    ensures sBuf[..next] == old(sBuf[..index]) + FieldText(key, v, limit)
  {
    hide Cut;
    next := index;
    if v.Present? {
      next := Append(sBuf, next, key);
      next := AppendCut(sBuf, next, v.value, limit);
      next := Append(sBuf, next, [SEMI]);
    }
  }

  function Upper(c: bv8): bv8 {
    if 0x61 <= c <= 0x7A then c - 0x20 else c
  }

  /** `Hex2Str`: two lower-case digits from sprintf, then upper-cased where they are letters. */
  function Hex2Str(hex: bv8): (s: seq<bv8>)
    ensures |s| == 2
  {
    [Upper(LowerDigit(hex >> 4)), Upper(LowerDigit(hex & 0xF))]
  }

  lemma Hex2StrIsHex(hex: bv8)
    ensures Hex2Str(hex) == HexByte(hex)
  {
  }

  method PutFlag(sBuf: array<bv8>, index: nat, v: Maybe<CText>) returns (next: nat)
    requires index + |FlagText(v)| <= sBuf.Length
    modifies sBuf
    ensures next == index + |FlagText(v)| && sBuf[..next] == old(sBuf[..index]) + FlagText(v)
  {
    next := index;
    if v.Present? {
      var c := if v.value == [] then 0 else v.value[0];
      next := Append(sBuf, next, FLAG_KEY);
      next := Append(sBuf, next, [c]);
      next := Append(sBuf, next, [SEMI]);
    }
  }

  method PutCp(sBuf: array<bv8>, index: nat, v: Maybe<CText>) returns (next: nat)
    requires index + |CpText(v)| <= sBuf.Length
    modifies sBuf
    ensures next == index + |CpText(v)| && sBuf[..next] == old(sBuf[..index]) + CpText(v)
  {
    next := index;
    if v.Present? {
      next := Append(sBuf, next, CP_KEY);
      next := Append(sBuf, next, v.value);
      next := Append(sBuf, next, [AMP, AMP]);
    }
  }

  /** The text blocks of `Hjt212Encode`, from offset 6. */
  method PutPayload(f: Fields, sBuf: array<bv8>) returns (index: nat)
    requires 6 + |Payload(f)| <= sBuf.Length
    modifies sBuf
    ensures index == 6 + |Payload(f)| && sBuf[6..index] == Payload(f)
  {
    hide FieldText, FlagText, CpText;
    index := PutField(sBuf, 6, QN_KEY, f.qn, QN_LEN);
    index := PutField(sBuf, index, ST_KEY, f.st, ST_LEN);
    index := PutField(sBuf, index, CN_KEY, f.cn, CN_LEN);
    index := PutField(sBuf, index, PW_KEY, f.pw, PW_LEN);
    index := PutField(sBuf, index, MN_KEY, f.mn, MN_LEN);
    index := PutFlag(sBuf, index, f.flag);
    index := PutCp(sBuf, index, f.cp);
    assert sBuf[..index] == old(sBuf[..6]) + Payload(f);
    assert sBuf[6..index] == sBuf[..index][6..];
  }

  method PutTail(sBuf: array<bv8>, index: nat, crc: bv16)
    requires index + 6 <= sBuf.Length
    modifies sBuf
    ensures sBuf[..index + 6] == old(sBuf[..index]) + HexText(crc) + [CR, LF]
  {
    hide HexByte, Hex2Str;
    var high, low := Crc16.Hi(crc), Crc16.Lo(crc);
    Hex2StrIsHex(high);
    Hex2StrIsHex(low);
    var next := Append(sBuf, index, Hex2Str(high));
    next := Append(sBuf, next, Hex2Str(low));
    next := Append(sBuf, next, [CR, LF]);
  }

  function DropDigits(n: nat, i: nat): nat {
    if i == 0 then n else DropDigits(n, i - 1) / 10
  }

  lemma DropThree(n: nat)
    ensures DropDigits(n, 1) == n / 10 && DropDigits(n, 2) == n / 100 && DropDigits(n, 3) == n / 1000
  {
    assert DropDigits(n, 1) == DropDigits(n, 0) / 10;
    assert n / 10 / 10 == n / 100 && n / 100 / 10 == n / 1000;
  }

  method PutDigits(sBuf: array<bv8>, n: nat)
    requires 6 <= sBuf.Length
    modifies sBuf
    ensures sBuf[..2] == old(sBuf[..2]) && sBuf[2..6] == Digits4(n) && sBuf[6..] == old(sBuf[6..])
  {
    hide DecimalDigit;
    var length := n;
    for i := 0 to 4
      invariant length == DropDigits(n, i)
      invariant forall j :: 0 <= j < i ==> sBuf[5 - j] == DecimalDigit(DropDigits(n, j))
      invariant sBuf[..2] == old(sBuf[..2]) && sBuf[6..] == old(sBuf[6..])
    {
      sBuf[5 - i] := DecimalDigit(length);
      length := length / 10;
    }
    DropThree(n);
    assert sBuf[5 - 0] == DecimalDigit(n) && sBuf[5 - 1] == DecimalDigit(n / 10);
    assert sBuf[5 - 2] == DecimalDigit(n / 100) && sBuf[5 - 3] == DecimalDigit(n / 1000);
  }

  lemma ThreeParts(s: seq<bv8>, n: nat)
    requires 6 <= n <= |s|
    ensures s[..n] == s[..2] + s[2..6] + s[6..n]
  {
  }

  /** The head, the length digits written from the last one back, the check and the end mark. */
  method PutEnvelope(sBuf: array<bv8>, index: nat)
    requires 6 <= index && index + 6 <= sBuf.Length
    modifies sBuf
    ensures sBuf[..index + 6] == Frame(old(sBuf[6..index]))
  {
    hide HexText, Check, Digits4;
    ghost var p := sBuf[6..index];
    sBuf[0], sBuf[1] := HASH, HASH;
    assert sBuf[..2] == [HASH, HASH];
    PutDigits(sBuf, index - 6);
    assert sBuf[6..index] == sBuf[6..][..index - 6] == p;
    ThreeParts(sBuf[..], index);
    var crc := GetCrc16(sBuf[6..index]);
    PutTail(sBuf, index, crc);
  }

  lemma CheckRead(s: seq<bv8>, p: seq<bv8>)
    requires |p| + 12 <= |s| && s[..|p| + 12] == Frame(p)
    ensures Number(s[|p| + 6..|p| + 10]) == Check(p) as bv32
  {
    HexTextReads(Check(p));
    FrameParts(p);
    hide Frame, HexText, Check, Number;
    assert s[|p| + 6..|p| + 10] == s[..|p| + 12][|p| + 6..|p| + 10];
  }

  method Encode(f: Fields, sBuf: array<bv8>) returns (n: nat)
    requires |Payload(f)| + 12 <= sBuf.Length
    modifies sBuf
    ensures n == |Payload(f)| + 12 && sBuf[..n] == Frame(Payload(f))
    ensures Number(sBuf[n - 6..n - 2]) == Check(Payload(f)) as bv32
  {
    hide Payload, Frame, Check, Number;
    var index := PutPayload(f, sBuf);
    PutEnvelope(sBuf, index);
    n := index + 6;
    CheckRead(sBuf[..], Payload(f));
  }
}
