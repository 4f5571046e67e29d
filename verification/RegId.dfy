/** The registration id of software/das/reg/rtu_reg.c: forty hexadecimal characters under three ciphers. */
module RegId {
  import opened Bytes
  import opened Hex
  import Des
  import DesCipher

  type Uuid = u: seq<bv32> | |u| == 4 witness seq(4, _ => 0)

  const KEY1: seq<bv8> := [0x5F, 0x2D, 0x25, 0x34, 0xAD, 0x58, 0xEB, 0xA0]
  const KEY2: seq<bv8> := [0x3F, 0x57, 0x35, 0xCC, 0x08, 0x58, 0x1B, 0x99]
  const KEY3: seq<bv8> := [0x5F, 0x6B, 0x29, 0x2D, 0x25, 0x6C, 0x26, 0x68]

  function Inverted(w: bv32): bv32 {
    !w
  }

  /** Byte i of the code, then word i of the identity with every bit inverted. */
  function Part(code: bv32, uuid: Uuid, i: nat): (s: seq<bv8>)
    requires i < 4
    ensures |s| == 10
  {
    HexByte(LeBytes(code)[i]) + HexWord(Inverted(uuid[i]))
  }

  function Layout(code: bv32, uuid: Uuid): (s: seq<bv8>)
    ensures |s| == 40
  {
    Part(code, uuid, 0) + Part(code, uuid, 1) + Part(code, uuid, 2) + Part(code, uuid, 3)
  }

  lemma PartsAt(code: bv32, uuid: Uuid, i: nat)
    requires i < 4
    ensures Layout(code, uuid)[10 * i..10 * i + 10] == Part(code, uuid, i)
  {
    hide Part;
    assert i == 0 || i == 1 || i == 2 || i == 3;
  }

  /** Byte i of a 32-bit value, the least significant first. */
  function ByteAt(w: bv32, i: nat): bv32
    requires i < 4
  {
    if i == 0 then w & 0xFF else if i == 1 then (w >> 8) & 0xFF else if i == 2 then (w >> 16) & 0xFF
    else (w >> 24) & 0xFF
  }

  lemma LeBytesAt(w: bv32, i: nat)
    requires i < 4
    ensures LeBytes(w)[i] as bv32 == ByteAt(w, i)
  {
    assert i == 0 || i == 1 || i == 2 || i == 3;
  }

  lemma InvertedSum(w: bv32)
    ensures Inverted(w) + w == 0xFFFF_FFFF
  {
  }

  /** The text decoded: the first two digits of part i are byte i of the code, and the other eight and word i of the
      identity add up to 2^32 - 1. */
  lemma LayoutReads(code: bv32, uuid: Uuid, i: nat)
    requires i < 4
    ensures var t := Layout(code, uuid);
            && Number(t[10 * i..10 * i + 2]) == ByteAt(code, i)
            && Number(t[10 * i + 2..10 * i + 10]) + uuid[i] == 0xFFFF_FFFF
  {
    PartsAt(code, uuid, i);
    LeBytesAt(code, i);
    NumberOfByte(LeBytes(code)[i]);
    NumberOfWord(Inverted(uuid[i]));
    InvertedSum(uuid[i]);
    hide Layout, LeBytes, HexByte, HexWord, Inverted, Number, ByteAt;
    var t, p := Layout(code, uuid), Part(code, uuid, i);
    assert t[10 * i..10 * i + 2] == p[..2] == HexByte(LeBytes(code)[i]);
    assert t[10 * i + 2..10 * i + 10] == p[2..] == HexWord(Inverted(uuid[i]));
  }

  /** Encrypt, decrypt, encrypt, each under its own key. */
  function Id(code: bv32, uuid: Uuid): (s: seq<bv8>)
    ensures |s| == 40
  {
    Des.Enc(KEY3, Des.Dec(KEY2, Des.Enc(KEY1, Layout(code, uuid))))
  }

  method RegetId(code: bv32, uuid: Uuid, id: array<bv8>) returns (len: int)
    requires id.Length == 40
    modifies id
    ensures id[..] == Id(code, uuid) && len == 40
  {
    hide Layout, DesCipher.CryptAll, Des.Schedule, DesCipher.Reversed;
    var text := Layout(code, uuid);
    var buf := new bv8[41](i requires 0 <= i < 41 => if i < 40 then text[i] else 0);
    assert buf[..40] == text;
    var des := new bv8[40];
    var rest := Des.Encrypt(des, buf, 40, KEY1);
    assert des[..40] == Des.Enc(KEY1, text);
    rest := Des.Decrypt(des, des, 40, KEY2);
    assert des[..40] == Des.Dec(KEY2, Des.Enc(KEY1, text));
    rest := Des.Encrypt(id, des, 40, KEY3);
    assert id[..] == id[..40];
    len := 40;
  }

  /** The three passes can be taken back. */
  lemma Recover(code: bv32, uuid: Uuid)
    ensures Des.Dec(KEY1, Des.Enc(KEY2, Des.Dec(KEY3, Id(code, uuid)))) == Layout(code, uuid)
  {
    hide Des.Enc, Des.Dec, Layout;
    var a := Des.Enc(KEY1, Layout(code, uuid));
    Des.EncryptDecrypt(KEY3, Des.Dec(KEY2, a));
    Des.EncryptDecrypt(KEY2, a);
    Des.EncryptDecrypt(KEY1, Layout(code, uuid));
  }

  lemma InvertedTwice(x: bv32)
    ensures Inverted(Inverted(x)) == x
  {
  }

  lemma PartInjective(c: bv32, u: Uuid, d: bv32, v: Uuid, i: nat)
    requires i < 4 && Part(c, u, i) == Part(d, v, i)
    ensures LeBytes(c)[i] == LeBytes(d)[i] && u[i] == v[i]
  {
    hide HexByte, HexWord, LeBytes, Inverted;
    assert Part(c, u, i)[..2] == HexByte(LeBytes(c)[i]) && Part(d, v, i)[..2] == HexByte(LeBytes(d)[i]);
    assert Part(c, u, i)[2..] == HexWord(Inverted(u[i])) && Part(d, v, i)[2..] == HexWord(Inverted(v[i]));
    HexByteInjective(LeBytes(c)[i], LeBytes(d)[i]);
    HexWordInjective(Inverted(u[i]), Inverted(v[i]));
    InvertedTwice(u[i]);
    InvertedTwice(v[i]);
  }

  lemma LayoutInjective(c: bv32, u: Uuid, d: bv32, v: Uuid)
    requires Layout(c, u) == Layout(d, v)
    ensures c == d && u == v
  {
    hide HexByte, HexWord, LeBytes, Inverted;
    forall i | 0 <= i < 4
      ensures LeBytes(c)[i] == LeBytes(d)[i] && u[i] == v[i]
    {
      PartsAt(c, u, i);
      PartsAt(d, v, i);
      PartInjective(c, u, d, v, i);
    }
    assert LeBytes(c) == LeBytes(d);
    WordRoundTrip(c);
    WordRoundTrip(d);
  }

  /** The id determines the code and the hardware identity it was made from. */
  lemma IdInjective(c: bv32, u: Uuid, d: bv32, v: Uuid)
    requires Id(c, u) == Id(d, v)
    ensures c == d && u == v
  {
    Recover(c, u);
    Recover(d, v);
    hide Layout, Id, Des.Enc, Des.Dec;
    LayoutInjective(c, u, d, v);
  }
}
