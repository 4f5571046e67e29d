/** Finding the fields again: `__HJT212_ParsePack` of software/das/sdccp/hjt212.c. */
module Hjt212Parse {
  import opened Bytes
  import opened Hex
  import opened Hjt212Frame
  import Crc16
  import opened Hjt212Fields

  /** `strstr`: the first occurrence, or -1. */
  function Find(text: seq<bv8>, key: seq<bv8>): (i: int)
    ensures -1 <= i && i + |key| <= |text| + |key| && (i >= 0 ==> i + |key| <= |text|)
  {
    if |text| < |key| then -1
    else if text[..|key|] == key then 0
    else if text == [] then -1
    else var r := Find(text[1..], key); if r < 0 then -1 else r + 1
  }

  /** `sscanf` with "%<width>[^<stop>]": the longest prefix that fits and avoids the stop character. */
  function ScanSet(text: seq<bv8>, width: nat, stop: bv8): seq<bv8> {
    if text == [] || width == 0 || text[0] == stop then [] else [text[0]] + ScanSet(text[1..], width - 1, stop)
  }

  function FieldIn(text: seq<bv8>, key: seq<bv8>, width: nat): seq<bv8> {
    var i := Find(text, key);
    if i < 0 then [] else ScanSet(text[i + |key|..], width, SEMI)
  }

  /** One field: searched from the start of the memory, up to its first NUL. Not found leaves the zeroed member. */
  function ParseField(mem: seq<bv8>, key: seq<bv8>, width: nat): seq<bv8> {
    FieldIn(CString(mem), key, width)
  }

  /** The command part; `strlen(p) - 13 > 0` is an unsigned comparison. */
  function ParseCp(mem: seq<bv8>): Maybe<seq<bv8>> {
    var t := CString(mem);
    var i := Find(t, CP_KEY);
    if i < 0 || |t| - i == 13 then Absent else Present(ScanSet(t[i + |CP_KEY|..], CP_WIDTH, AMP))
  }

  datatype Parsed = Parsed(qn: seq<bv8>, cn: seq<bv8>, st: seq<bv8>, pw: seq<bv8>, mn: seq<bv8>,
                           flag: seq<bv8>, cp: Maybe<seq<bv8>>)

  function ParsePack(mem: seq<bv8>): Parsed {
    Parsed(ParseField(mem, QN_KEY, QN_LEN), ParseField(mem, CN_KEY, CN_LEN), ParseField(mem, ST_KEY, ST_LEN),
           ParseField(mem, PW_KEY, PW_LEN), ParseField(mem, MN_KEY, MN_LEN), ParseField(mem, FLAG_KEY, FLAG_LEN),
           ParseCp(mem))
  }

  // ----- library functions on known texts -----

  predicate OccursAt(text: seq<bv8>, key: seq<bv8>, j: nat) {
    j + |key| <= |text| && text[j..j + |key|] == key
  }

  lemma OccursLater(text: seq<bv8>, key: seq<bv8>, j: nat)
    requires text != []
    ensures OccursAt(text[1..], key, j) <==> OccursAt(text, key, j + 1)
  {
    if j + 1 + |key| <= |text| {
      assert text[1..][j..j + |key|] == text[j + 1..j + 1 + |key|];
    }
  }

  lemma {:induction false} FindFirst(text: seq<bv8>, key: seq<bv8>, i: nat)
    requires key != [] && OccursAt(text, key, i)
    requires forall j :: 0 <= j < i ==> !OccursAt(text, key, j)
    ensures Find(text, key) == i
  {
    if i > 0 {
      assert !OccursAt(text, key, 0);
      OccursLater(text, key, i - 1);
      forall j | 0 <= j < i - 1
        ensures !OccursAt(text[1..], key, j)
      {
        OccursLater(text, key, j);
      }
      FindFirst(text[1..], key, i - 1);
    }
  }

  lemma {:induction false} ScanExact(v: seq<bv8>, rest: seq<bv8>, width: nat, stop: bv8)
    requires stop !in v && |v| <= width && (|v| == width || rest == [] || rest[0] == stop)
    ensures ScanSet(v + rest, width, stop) == v
  {
    if v == [] {
      assert v + rest == rest;
    } else {
      assert (v + rest)[1..] == v[1..] + rest;
      ScanExact(v[1..], rest, width - 1, stop);
    }
  }

  // ----- regrouping -----

  lemma Assoc(a: seq<bv8>, b: seq<bv8>, c: seq<bv8>)
    ensures a + b + c == a + (b + c)
  {
  }

  lemma Splice(t: seq<bv8>, k: seq<bv8>, v: seq<bv8>, e: seq<bv8>)
    ensures t + (k + v + e) == t + k + v + e
  {
    Assoc(t, k + v, e);
    Assoc(t, k, v);
  }

  lemma Regrouped(t: seq<bv8>, k: seq<bv8>, v: seq<bv8>, e: seq<bv8>, r: seq<bv8>)
    ensures var text := t + k + v + e + r;
            text == t + k + (v + (e + r)) && text[|t| + |k|..] == v + (e + r)
  {
    Assoc(t + k + v, e, r);
    Assoc(t + k, v, e + r);
  }

  // ----- where '=' can stand -----

  type Pair = (bv8, bv8)

  /** The two letters before the '=' of a key. */
  function Tail(key: seq<bv8>): Pair
    requires |key| >= 3
  {
    (key[|key| - 3], key[|key| - 2])
  }

  predicate IsKey(key: seq<bv8>) {
    key in [QN_KEY, ST_KEY, CN_KEY, PW_KEY, MN_KEY, FLAG_KEY]
  }

  /** Every '=' of the text follows the last two letters of one of the given keys; no NUL, no ampersand. */
  predicate Header(t: seq<bv8>, keys: set<Pair>) {
    && 0 !in t && AMP !in t
    && forall e :: 0 <= e < |t| && t[e] == EQ ==> e >= 2 && (t[e - 2], t[e - 1]) in keys
  }

  lemma HeaderConcat(s: seq<bv8>, t: seq<bv8>, keys: set<Pair>)
    requires Header(s, keys) && Header(t, keys)
    ensures Header(s + t, keys)
  {
    var u := s + t;
    forall e | 0 <= e < |u| && u[e] == EQ
      ensures e >= 2 && (u[e - 2], u[e - 1]) in keys
    {
      if e >= |s| {
        assert t[e - |s|] == EQ;
      }
    }
  }

  /** A value the header can carry: no separator and no NUL. */
  predicate Clean(v: seq<bv8>) {
    SEMI !in v && EQ !in v && AMP !in v && 0 !in v
  }

  lemma KeyShape(key: seq<bv8>)
    requires IsKey(key)
    ensures |key| >= 3 && 0 !in key && AMP !in key
    ensures key[|key| - 1] == EQ && forall k :: 0 <= k < |key| - 1 ==> key[k] != EQ
  {
  }

  lemma OccursBytes(u: seq<bv8>, key: seq<bv8>, j: nat, k: nat)
    requires OccursAt(u, key, j) && k < |key|
    ensures u[j + k] == key[k]
  {
    assert u[j..j + |key|][k] == u[j + k];
  }

  /** The first place a key occurs is where it was written, if the text before it uses other keys only. */
  lemma KeyFound(t: seq<bv8>, keys: set<Pair>, key: seq<bv8>, rest: seq<bv8>)
    requires Header(t, keys) && IsKey(key) && Tail(key) !in keys
    ensures Find(t + key + rest, key) == |t|
  {
    var u := t + key + rest;
    KeyShape(key);
    forall j | 0 <= j < |t|
      ensures !OccursAt(u, key, j)
    {
      var m := |key| - 1;
      if OccursAt(u, key, j) {
        OccursBytes(u, key, j, m);
        OccursBytes(u, key, j, m - 1);
        OccursBytes(u, key, j, m - 2);
      }
    }
    assert u[|t|..|t| + |key|] == key;
    FindFirst(u, key, |t|);
  }

  lemma CleanSemi(v: seq<bv8>)
    requires Clean(v)
    ensures SEMI !in v
  {
  }

  lemma NoNul(t: seq<bv8>, keys: set<Pair>, key: seq<bv8>, v: seq<bv8>)
    requires Header(t, keys) && IsKey(key) && Clean(v)
    ensures 0 !in t + key + v + [SEMI]
  {
    KeyShape(key);
    hide IsKey;
  }

  lemma ParseAt(mem: seq<bv8>, key: seq<bv8>, width: nat, i: nat, tail: seq<bv8>)
    requires Find(CString(mem), key) == i && CString(mem)[i + |key|..] == tail
    ensures ParseField(mem, key, width) == ScanSet(tail, width, SEMI)
  {
  }

  /** A field written after such a text is read back whole. */
  lemma FieldFound(t: seq<bv8>, keys: set<Pair>, key: seq<bv8>, v: seq<bv8>, rest: seq<bv8>, width: nat)
    requires Header(t, keys) && IsKey(key) && Tail(key) !in keys && Clean(v) && |v| <= width
    ensures ParseField(t + key + v + [SEMI] + rest, key, width) == v
  {
    hide ParseField, Header, Clean, Find, ScanSet, CString;
    NoNul(t, keys, key, v);
    CStringConcat(t + key + v + [SEMI], rest);
    Regrouped(t, key, v, [SEMI], CString(rest));
    var end := [SEMI] + CString(rest);
    KeyFound(t, keys, key, v + end);
    assert SEMI !in v by { CleanSemi(v); }
    ScanExact(v, end, width, SEMI);
    ParseAt(t + key + v + [SEMI] + rest, key, width, |t|, v + end);
  }

  // ----- the header as a list of entries -----

  datatype Entry = Entry(key: seq<bv8>, v: seq<bv8>)

  function Text(e: Entry): seq<bv8> {
    e.key + e.v + [SEMI]
  }

  function Texts(es: seq<Entry>): seq<bv8> {
    if es == [] then [] else Texts(es[..|es| - 1]) + Text(es[|es| - 1])
  }

  function One(key: seq<bv8>, v: Maybe<CText>, limit: nat): seq<Entry> {
    if v.Absent? then [] else [Entry(key, Cut(v.value, limit))]
  }

  /** The five length-limited fields that are present, in the order they are written. */
  function Entries(f: Fields): seq<Entry> {
    One(QN_KEY, f.qn, QN_LEN) + One(ST_KEY, f.st, ST_LEN) + One(CN_KEY, f.cn, CN_LEN)
    + One(PW_KEY, f.pw, PW_LEN) + One(MN_KEY, f.mn, MN_LEN)
  }

  predicate CleanMaybe(v: Maybe<CText>) {
    v.Present? ==> Clean(v.value)
  }

  predicate CleanFields(f: Fields) {
    && CleanMaybe(f.qn) && CleanMaybe(f.st) && CleanMaybe(f.cn)
    && CleanMaybe(f.pw) && CleanMaybe(f.mn) && CleanMaybe(f.flag)
  }

  /** Clean entries under different keys. */
  predicate GoodEntries(es: seq<Entry>) {
    && (forall i :: 0 <= i < |es| ==> IsKey(es[i].key) && es[i].key != FLAG_KEY && Clean(es[i].v))
    && (forall i, j :: 0 <= i < j < |es| ==> es[i].key != es[j].key)
  }

  /** The tails of the keys of a list. */
  function Tails(es: seq<Entry>): (ks: set<Pair>) {
    set i | 0 <= i < |es| && |es[i].key| >= 3 :: Tail(es[i].key)
  }

  lemma TailsDiffer(a: seq<bv8>, b: seq<bv8>)
    requires IsKey(a) && IsKey(b) && a != b
    ensures |a| >= 3 && |b| >= 3 && Tail(a) != Tail(b)
  {
  }

  lemma {:induction false} TextsConcat(a: seq<Entry>, b: seq<Entry>)
    ensures Texts(a + b) == Texts(a) + Texts(b)
  {
    if b == [] {
      assert a + b == a;
    } else {
      var m := |b| - 1;
      assert (a + b)[..|a + b| - 1] == a + b[..m];
      TextsConcat(a, b[..m]);
      hide Text;
      Assoc(Texts(a), Texts(b[..m]), Text(b[m]));
    }
  }

  lemma TextHeader(e: Entry, keys: set<Pair>)
    requires IsKey(e.key) && Clean(e.v) && Tail(e.key) in keys
    ensures Header(Text(e), keys)
  {
    KeyShape(e.key);
    assert Header(e.key, keys) && Header(e.v, keys) && Header([SEMI], keys);
    hide Header;
    HeaderConcat(e.key, e.v, keys);
    HeaderConcat(e.key + e.v, [SEMI], keys);
  }

  lemma {:induction false} TextsHeader(es: seq<Entry>, keys: set<Pair>)
    requires forall i :: 0 <= i < |es| ==> IsKey(es[i].key) && Clean(es[i].v) && Tail(es[i].key) in keys
    ensures Header(Texts(es), keys)
  {
    if es != [] {
      var m := |es| - 1;
      TextsHeader(es[..m], keys);
      TextHeader(es[m], keys);
      HeaderConcat(Texts(es[..m]), Text(es[m]), keys);
    }
  }

  lemma TextsBefore(es: seq<Entry>, i: nat)
    requires GoodEntries(es) && i < |es|
    ensures |es[i].key| >= 3 && Tail(es[i].key) !in Tails(es[..i])
    ensures Header(Texts(es[..i]), Tails(es[..i]))
  {
    hide Header, Clean;
    var before, e := es[..i], es[i];
    KeyShape(e.key);
    forall j | 0 <= j < i
      ensures IsKey(before[j].key) && Clean(before[j].v) && Tail(before[j].key) in Tails(before)
      ensures Tail(before[j].key) != Tail(e.key)
    {
      TailsDiffer(es[j].key, e.key);
    }
    TextsHeader(before, Tails(before));
  }

  lemma TextsOne(e: Entry)
    ensures Texts([e]) == Text(e)
  {
    assert [e][..0] == [];
  }

  lemma TextsThree(a: seq<Entry>, e: Entry, b: seq<Entry>)
    ensures Texts(a + ([e] + b)) == Texts(a) + (Text(e) + Texts(b))
  {
    hide Texts, Text;
    TextsConcat(a, [e] + b);
    TextsConcat([e], b);
    TextsOne(e);
  }

  lemma TextsSplit(es: seq<Entry>, i: nat)
    requires i < |es|
    ensures Texts(es) == Texts(es[..i]) + (Text(es[i]) + Texts(es[i + 1..]))
  {
    hide *;
    TextsThree(es[..i], es[i], es[i + 1..]);
    assert es == es[..i] + ([es[i]] + es[i + 1..]);
  }

  lemma Regroup(p: seq<bv8>, k: seq<bv8>, v: seq<bv8>, s: seq<bv8>, a: seq<bv8>, rest: seq<bv8>)
    ensures p + (k + v + s + a) + rest == p + k + v + s + (a + rest)
  {
    calc {
      p + (k + v + s + a) + rest;
      { Assoc(p, k + v + s + a, rest); Assoc(k + v + s, a, rest); }
      p + (k + v + s + (a + rest));
      { Assoc(p, k + v + s, a + rest); Assoc(p, k + v, s); Assoc(p, k, v); }
      p + k + v + s + (a + rest);
    }
  }

  lemma TextsAround(es: seq<Entry>, i: nat, rest: seq<bv8>)
    requires i < |es|
    ensures Texts(es) + rest == Texts(es[..i]) + es[i].key + es[i].v + [SEMI] + (Texts(es[i + 1..]) + rest)
  {
    hide Texts;
    var after := es[i + 1..];
    TextsSplit(es, i);
    Regroup(Texts(es[..i]), es[i].key, es[i].v, [SEMI], Texts(after), rest);
  }

  /** Every entry of a good list is read back, whatever follows the list. */
  lemma EntryFound(es: seq<Entry>, i: nat, rest: seq<bv8>, width: nat)
    requires GoodEntries(es) && i < |es| && |es[i].v| <= width
    ensures ParseField(Texts(es) + rest, es[i].key, width) == es[i].v
  {
    TextsBefore(es, i);
    TextsAround(es, i, rest);
    hide Header, Clean, Texts, Tails, ParseField;
    FieldFound(Texts(es[..i]), Tails(es[..i]), es[i].key, es[i].v, Texts(es[i + 1..]) + rest, width);
  }

  lemma OneText(key: seq<bv8>, v: Maybe<CText>, limit: nat)
    ensures Texts(One(key, v, limit)) == FieldText(key, v, limit)
  {
    if v.Present? {
      assert One(key, v, limit)[..0] == [];
    }
  }

  lemma EntriesText(f: Fields)
    ensures Payload(f) == Texts(Entries(f)) + FlagText(f.flag) + CpText(f.cp)
  {
    hide FieldText, FlagText, CpText, Texts, One;
    var a, b, c, d, e := One(QN_KEY, f.qn, QN_LEN), One(ST_KEY, f.st, ST_LEN), One(CN_KEY, f.cn, CN_LEN),
                         One(PW_KEY, f.pw, PW_LEN), One(MN_KEY, f.mn, MN_LEN);
    TextsConcat(a, b);
    TextsConcat(a + b, c);
    TextsConcat(a + b + c, d);
    TextsConcat(a + b + c + d, e);
    OneText(QN_KEY, f.qn, QN_LEN);
    OneText(ST_KEY, f.st, ST_LEN);
    OneText(CN_KEY, f.cn, CN_LEN);
    OneText(PW_KEY, f.pw, PW_LEN);
    OneText(MN_KEY, f.mn, MN_LEN);
  }

  lemma GoodAppend(es: seq<Entry>, seen: set<seq<bv8>>, key: seq<bv8>, v: Maybe<CText>, limit: nat)
    requires GoodEntries(es) && (forall e :: e in es ==> e.key in seen)
    requires IsKey(key) && key != FLAG_KEY && key !in seen && CleanMaybe(v)
    ensures var r := es + One(key, v, limit); GoodEntries(r) && forall e :: e in r ==> e.key in seen + {key}
  {
    if v.Present? {
      var c := Cut(v.value, limit);
      assert Clean(c);
      hide Clean;
      assert forall i :: 0 <= i < |es| ==> es[i] in es;
    }
  }

  lemma NoEntries()
    ensures GoodEntries([])
  {
  }

  lemma EntriesGood(f: Fields)
    requires CleanFields(f)
    ensures GoodEntries(Entries(f))
  {
    hide GoodEntries, One, CleanMaybe;
    var a, b := One(QN_KEY, f.qn, QN_LEN), One(ST_KEY, f.st, ST_LEN);
    var c, d := One(CN_KEY, f.cn, CN_LEN), One(PW_KEY, f.pw, PW_LEN);
    assert GoodEntries([]) by { NoEntries(); }
    GoodAppend([], {}, QN_KEY, f.qn, QN_LEN);
    assert [] + a == a;
    GoodAppend(a, {QN_KEY}, ST_KEY, f.st, ST_LEN);
    GoodAppend(a + b, {QN_KEY, ST_KEY}, CN_KEY, f.cn, CN_LEN);
    GoodAppend(a + b + c, {QN_KEY, ST_KEY, CN_KEY}, PW_KEY, f.pw, PW_LEN);
    GoodAppend(a + b + c + d, {QN_KEY, ST_KEY, CN_KEY, PW_KEY}, MN_KEY, f.mn, MN_LEN);
  }

  lemma MemberFound(es: seq<Entry>, e: Entry, rest: seq<bv8>, width: nat)
    requires GoodEntries(es) && e in es && |e.v| <= width
    ensures ParseField(Texts(es) + rest, e.key, width) == e.v
  {
    var i :| 0 <= i < |es| && es[i] == e;
    EntryFound(es, i, rest, width);
  }

  lemma Members(f: Fields)
    ensures f.qn.Present? ==> Entry(QN_KEY, Cut(f.qn.value, QN_LEN)) in Entries(f)
    ensures f.st.Present? ==> Entry(ST_KEY, Cut(f.st.value, ST_LEN)) in Entries(f)
    ensures f.cn.Present? ==> Entry(CN_KEY, Cut(f.cn.value, CN_LEN)) in Entries(f)
    ensures f.pw.Present? ==> Entry(PW_KEY, Cut(f.pw.value, PW_LEN)) in Entries(f)
    ensures f.mn.Present? ==> Entry(MN_KEY, Cut(f.mn.value, MN_LEN)) in Entries(f)
  {
    hide Cut;
  }

  /** Every present field comes back as the encoder cut it, whatever the command part and the memory after it hold. */
  lemma FieldsRecovered(f: Fields, rest: seq<bv8>)
    requires CleanFields(f)
    ensures var q := ParsePack(Payload(f) + rest);
            && (f.qn.Present? ==> q.qn == Cut(f.qn.value, QN_LEN))
            && (f.st.Present? ==> q.st == Cut(f.st.value, ST_LEN))
            && (f.cn.Present? ==> q.cn == Cut(f.cn.value, CN_LEN))
            && (f.pw.Present? ==> q.pw == Cut(f.pw.value, PW_LEN))
            && (f.mn.Present? ==> q.mn == Cut(f.mn.value, MN_LEN))
  {
    EntriesText(f);
    EntriesGood(f);
    Members(f);
    hide Payload, ParseField, ParseCp, Texts, FlagText, CpText, GoodEntries, Entries, CleanFields, Cut;
    var es, tail := Entries(f), FlagText(f.flag) + CpText(f.cp) + rest;
    Assoc(Texts(es), FlagText(f.flag), CpText(f.cp));
    Assoc(Texts(es), FlagText(f.flag) + CpText(f.cp), rest);
    if f.qn.Present? {
      MemberFound(es, Entry(QN_KEY, Cut(f.qn.value, QN_LEN)), tail, QN_LEN);
    }
    if f.st.Present? {
      MemberFound(es, Entry(ST_KEY, Cut(f.st.value, ST_LEN)), tail, ST_LEN);
    }
    if f.cn.Present? {
      MemberFound(es, Entry(CN_KEY, Cut(f.cn.value, CN_LEN)), tail, CN_LEN);
    }
    if f.pw.Present? {
      MemberFound(es, Entry(PW_KEY, Cut(f.pw.value, PW_LEN)), tail, PW_LEN);
    }
    if f.mn.Present? {
      MemberFound(es, Entry(MN_KEY, Cut(f.mn.value, MN_LEN)), tail, MN_LEN);
    }
  }

  /** The five fields use no other keys than their own. */
  lemma EntriesHeader(f: Fields)
    requires CleanFields(f)
    ensures Header(Texts(Entries(f)), Tails(Entries(f))) && Tail(FLAG_KEY) !in Tails(Entries(f))
  {
    EntriesGood(f);
    hide Entries, Clean, CleanFields, Header;
    var es := Entries(f);
    forall i | 0 <= i < |es|
      ensures IsKey(es[i].key) && Clean(es[i].v) && Tail(es[i].key) in Tails(es) && Tail(es[i].key) != Tail(FLAG_KEY)
    {
      KeyShape(es[i].key);
      TailsDiffer(es[i].key, FLAG_KEY);
    }
    TextsHeader(es, Tails(es));
  }

  lemma FlagMember(mem: seq<bv8>)
    ensures ParsePack(mem).flag == ParseField(mem, FLAG_KEY, FLAG_LEN)
  {
    hide ParseField, ParseCp;
  }

  lemma EmptyFlag(t: seq<bv8>, keys: set<Pair>, tail: seq<bv8>)
    requires Header(t, keys) && Tail(FLAG_KEY) !in keys && |tail| > 0 && tail[0] == 0
    ensures ParseField((t + FLAG_KEY) + tail, FLAG_KEY, FLAG_LEN) == []
  {
    KeyShape(FLAG_KEY);
    CStringConcat(t + FLAG_KEY, tail);
    assert (t + FLAG_KEY) + CString(tail) == t + FLAG_KEY + [];
    KeyFound(t, keys, FLAG_KEY, []);
  }

  lemma FlagParsed(t: seq<bv8>, keys: set<Pair>, v: CText, tail: seq<bv8>)
    requires Header(t, keys) && Tail(FLAG_KEY) !in keys && (SEMI !in v && EQ !in v && AMP !in v)
    ensures ParseField(t + FlagText(Present(v)) + tail, FLAG_KEY, FLAG_LEN) == Cut(v, 1)
  {
    var c := if v == [] then 0 else v[0];
    Splice(t, FLAG_KEY, [c], [SEMI]);
    if v == [] {
      hide Header, ParseField;
      Assoc(t + FLAG_KEY, [0], [SEMI]);
      Assoc(t + FLAG_KEY, [0] + [SEMI], tail);
      EmptyFlag(t, keys, [0] + [SEMI] + tail);
    } else {
      assert Clean([c]);
      hide Header, Clean, ParseField;
      FieldFound(t, keys, FLAG_KEY, [c], tail, FLAG_LEN);
      assert Cut(v, 1) == [c];
    }
  }

  /** The flag comes back as its first character, or as nothing when it was empty. */
  lemma FlagRecovered(f: Fields, rest: seq<bv8>)
    requires CleanFields(f) && f.flag.Present?
    ensures ParsePack(Payload(f) + rest).flag == Cut(f.flag.value, 1)
  {
    EntriesText(f);
    EntriesHeader(f);
    hide *;
    var t, keys, v := Texts(Entries(f)), Tails(Entries(f)), f.flag.value;
    var tail := CpText(f.cp) + rest;
    Assoc(t + FlagText(f.flag), CpText(f.cp), rest);
    FlagParsed(t, keys, v, tail);
    FlagMember(Payload(f) + rest);
  }

  /** A pointer to an empty string. */
  predicate IsEmpty(v: Maybe<CText>) {
    v.Present? && v.value == []
  }

  // ----- fields that were not written -----

  /** `strstr` finds a key if and only if it occurs. */
  lemma {:induction false} FindExactly(text: seq<bv8>, key: seq<bv8>)
    requires key != []
    ensures Find(text, key) >= 0 <==> exists j :: OccursAt(text, key, j)
  {
    if |text| >= |key| && text[..|key|] != key {
      FindExactly(text[1..], key);
      assert !OccursAt(text, key, 0);
      hide OccursAt;
      if j: nat :| OccursAt(text, key, j) {
        OccursLater(text, key, j - 1);
      }
      if j: nat :| OccursAt(text[1..], key, j) {
        OccursLater(text, key, j);
      }
    } else if |text| >= |key| {
      assert OccursAt(text, key, 0);
    }
  }

  /** A text in which no occurrence begins is passed over. */
  lemma {:induction false} FindSkips(t: seq<bv8>, rest: seq<bv8>, key: seq<bv8>)
    requires key != [] && forall j :: 0 <= j < |t| ==> !OccursAt(t + rest, key, j)
    ensures Find(t + rest, key) == if Find(rest, key) < 0 then -1 else |t| + Find(rest, key)
  {
    if t == [] {
      assert t + rest == rest;
    } else {
      var u := t + rest;
      assert u[1..] == t[1..] + rest;
      forall j | 0 <= j < |t| - 1
        ensures !OccursAt(u[1..], key, j)
      {
        OccursLater(u, key, j);
      }
      FindSkips(t[1..], rest, key);
      assert !OccursAt(u, key, 0);
    }
  }

  lemma KeyNoSemi(key: seq<bv8>)
    requires IsKey(key)
    ensures SEMI !in key
  {
  }

  /** So is a header that uses other keys only, up to its last semicolon. */
  lemma KeySkipped(t: seq<bv8>, keys: set<Pair>, key: seq<bv8>, rest: seq<bv8>)
    requires Header(t, keys) && IsKey(key) && Tail(key) !in keys
    requires t == [] || rest == [] || t[|t| - 1] == SEMI
    ensures Find(t + rest, key) == if Find(rest, key) < 0 then -1 else |t| + Find(rest, key)
  {
    KeyShape(key);
    KeyNoSemi(key);
    hide IsKey, Find;
    var u, m := t + rest, |key| - 1;
    forall j | 0 <= j < |t|
      ensures !OccursAt(u, key, j)
    {
      if OccursAt(u, key, j) {
        OccursBytes(u, key, j, m);
        OccursBytes(u, key, j, m - 1);
        OccursBytes(u, key, j, m - 2);
        if j + m >= |t| {
          OccursBytes(u, key, j, |t| - 1 - j);
        }
      }
    }
    FindSkips(t, rest, key);
  }

  lemma EmptyText(rest: seq<bv8>)
    ensures rest == [] ==> CString(rest) == []
  {
  }

  lemma SameAnswer(t: seq<bv8>, text: seq<bv8>, key: seq<bv8>, width: nat)
    requires Find(t + text, key) == if Find(text, key) < 0 then -1 else |t| + Find(text, key)
    ensures FieldIn(t + text, key, width) == FieldIn(text, key, width)
  {
    hide Find, ScanSet;
    var i := Find(text, key);
    if i >= 0 {
      assert (t + text)[|t| + i + |key|..] == text[i + |key|..];
    }
  }

  lemma FieldSkipped(t: seq<bv8>, keys: set<Pair>, key: seq<bv8>, rest: seq<bv8>, width: nat)
    requires Header(t, keys) && IsKey(key) && Tail(key) !in keys
    requires t == [] || rest == [] || t[|t| - 1] == SEMI
    ensures ParseField(t + rest, key, width) == ParseField(rest, key, width)
  {
    assert 0 !in t;
    hide Header, IsKey, CString, FieldIn, Find;
    CStringConcat(t, rest);
    EmptyText(rest);
    KeySkipped(t, keys, key, CString(rest));
    SameAnswer(t, CString(rest), key, width);
  }

  /** What the search for a field that was not written gets to read: the command part and the memory behind it, or
      nothing behind a flag that is an empty string. */
  function Behind(f: Fields, rest: seq<bv8>): seq<bv8> {
    if IsEmpty(f.flag) then [] else CpText(f.cp) + rest
  }

  /** The field was not written under this key. */
  predicate NotWritten(f: Fields, key: seq<bv8>) {
    (forall e :: e in Entries(f) ==> e.key != key) && (key == FLAG_KEY ==> f.flag.Absent?)
  }

  lemma NotWrittenTail(es: seq<Entry>, key: seq<bv8>)
    requires GoodEntries(es) && IsKey(key) && forall e :: e in es ==> e.key != key
    ensures |key| >= 3 && Tail(key) !in Tails(es)
  {
    hide Clean;
    KeyShape(key);
    forall i | 0 <= i < |es|
      ensures |es[i].key| >= 3 && Tail(es[i].key) != Tail(key)
    {
      assert es[i] in es;
      TailsDiffer(es[i].key, key);
    }
  }

  lemma {:induction false} TextsEnd(es: seq<Entry>)
    ensures Texts(es) == [] || Texts(es)[|Texts(es)| - 1] == SEMI
  {
  }

  lemma HeaderMore(t: seq<bv8>, keys: set<Pair>, more: set<Pair>)
    requires Header(t, keys) && keys <= more
    ensures Header(t, more)
  {
  }

  /** The flag, when there is one and it is not empty, is one more entry. */
  lemma FlagHeader(t: seq<bv8>, keys: set<Pair>, flag: Maybe<CText>)
    requires Header(t, keys) && CleanMaybe(flag) && !IsEmpty(flag)
    requires t == [] || t[|t| - 1] == SEMI
    ensures var h := t + FlagText(flag);
            Header(h, keys + if flag.Present? then {Tail(FLAG_KEY)} else {}) && (h == [] || h[|h| - 1] == SEMI)
  {
    if flag.Present? {
      var c := flag.value[0];
      assert Clean([c]) by { assert c in flag.value; }
      var more := keys + {Tail(FLAG_KEY)};
      TextHeader(Entry(FLAG_KEY, [c]), more);
      hide Header;
      HeaderMore(t, keys, more);
      HeaderConcat(t, FlagText(flag), more);
    } else {
      assert t + [] == t;
      assert keys + {} == keys;
    }
  }

  lemma BehindIs(f: Fields, rest: seq<bv8>)
    ensures Behind(f, rest) == if IsEmpty(f.flag) then [] else CpText(f.cp) + rest
  {
  }

  lemma NotFlagTail(f: Fields, key: seq<bv8>)
    requires IsKey(key) && NotWritten(f, key) && f.flag.Present?
    ensures |key| >= 3 && Tail(key) != Tail(FLAG_KEY)
  {
    hide Entries;
    TailsDiffer(key, FLAG_KEY);
  }

  lemma {:induction false} CStringEnds(h: seq<bv8>, tail: seq<bv8>)
    requires tail != [] && tail[0] == 0
    ensures CString(h + tail) == CString(h)
  {
    if h == [] {
      assert h + tail == tail;
    } else {
      assert (h + tail)[1..] == h[1..] + tail;
      CStringEnds(h[1..], tail);
    }
  }

  lemma TextEnds(h: seq<bv8>, tail: seq<bv8>, key: seq<bv8>, width: nat)
    requires tail != [] && tail[0] == 0
    ensures ParseField(h + tail, key, width) == ParseField(h, key, width)
  {
    hide Find, ScanSet;
    CStringEnds(h, tail);
  }

  /** Behind the key of an empty flag the text ends. */
  lemma EmptyFlagRead(f: Fields, t: seq<bv8>, keys: set<Pair>, key: seq<bv8>, width: nat, rest: seq<bv8>)
    requires IsEmpty(f.flag) && NotWritten(f, key) && IsKey(key) && Header(t, keys)
    requires |key| >= 3 && Tail(key) !in keys
    ensures ParseField(t + FlagText(f.flag) + CpText(f.cp) + rest, key, width)
         == ParseField(Behind(f, rest), key, width)
  {
    NotFlagTail(f, key);
    BehindIs(f, rest);
    KeyShape(FLAG_KEY);
    var more, h := keys + {Tail(FLAG_KEY)}, t + FLAG_KEY;
    assert Header(FLAG_KEY, more);
    var tail := [0] + [SEMI] + CpText(f.cp) + rest;
    assert FlagText(f.flag) == FLAG_KEY + [0] + [SEMI];
    hide Header, CpText, FlagText, ParseField, IsKey, NotWritten, IsEmpty, Behind;
    HeaderMore(t, keys, more);
    HeaderConcat(t, FLAG_KEY, more);
    assert t + FlagText(f.flag) + CpText(f.cp) + rest == h + tail;
    TextEnds(h, tail, key, width);
    assert h + [] == h;
    FieldSkipped(h, more, key, [], width);
  }

  /** A field that was not written is read as if the search began behind the header. */
  lemma AbsentRead(f: Fields, key: seq<bv8>, width: nat, rest: seq<bv8>)
    requires CleanFields(f) && IsKey(key) && NotWritten(f, key)
    ensures ParseField(Payload(f) + rest, key, width) == ParseField(Behind(f, rest), key, width)
  {
    var es, t := Entries(f), Texts(Entries(f));
    EntriesText(f);
    EntriesGood(f);
    EntriesHeader(f);
    NotWrittenTail(es, key);
    TextsEnd(es);
    assert CleanMaybe(f.flag);
    if key != FLAG_KEY {
      TailsDiffer(key, FLAG_KEY);
    }
    hide *;
    if IsEmpty(f.flag) {
      EmptyFlagRead(f, t, Tails(es), key, width, rest);
    } else {
      var more := if f.flag.Present? then {Tail(FLAG_KEY)} else {};
      FlagHeader(t, Tails(es), f.flag);
      if f.flag.Present? {
        NotFlagTail(f, key);
      }
      FieldSkipped(t + FlagText(f.flag), Tails(es) + more, key, CpText(f.cp) + rest, width);
      Assoc(t + FlagText(f.flag), CpText(f.cp), rest);
      BehindIs(f, rest);
    }
  }

  lemma EntryFrom(f: Fields, e: Entry)
    requires e in Entries(f)
    ensures || (e.key == QN_KEY && f.qn.Present?) || (e.key == ST_KEY && f.st.Present?)
            || (e.key == CN_KEY && f.cn.Present?) || (e.key == PW_KEY && f.pw.Present?)
            || (e.key == MN_KEY && f.mn.Present?)
  {
    hide Cut;
  }

  lemma KeysDiffer()
    ensures QN_KEY != ST_KEY && QN_KEY != CN_KEY && QN_KEY != PW_KEY && QN_KEY != MN_KEY && QN_KEY != FLAG_KEY
    ensures ST_KEY != CN_KEY && ST_KEY != PW_KEY && ST_KEY != MN_KEY && ST_KEY != FLAG_KEY
    ensures CN_KEY != PW_KEY && CN_KEY != MN_KEY && CN_KEY != FLAG_KEY
    ensures PW_KEY != MN_KEY && PW_KEY != FLAG_KEY && MN_KEY != FLAG_KEY
  {
    assert QN_KEY[0] == 0x51 && ST_KEY[0] == 0x53 && CN_KEY[0] == 0x43 && PW_KEY[0] == 0x50;
    assert MN_KEY[0] == 0x4D && FLAG_KEY[0] == 0x46;
  }

  lemma AbsentKeys(f: Fields)
    ensures (f.qn.Absent? ==> NotWritten(f, QN_KEY)) && (f.st.Absent? ==> NotWritten(f, ST_KEY))
    ensures (f.cn.Absent? ==> NotWritten(f, CN_KEY)) && (f.pw.Absent? ==> NotWritten(f, PW_KEY))
    ensures (f.mn.Absent? ==> NotWritten(f, MN_KEY)) && (f.flag.Absent? ==> NotWritten(f, FLAG_KEY))
  {
    KeysDiffer();
    hide Entries, QN_KEY, ST_KEY, CN_KEY, PW_KEY, MN_KEY, FLAG_KEY;
    forall e | e in Entries(f)
      ensures || (e.key == QN_KEY && f.qn.Present?) || (e.key == ST_KEY && f.st.Present?)
              || (e.key == CN_KEY && f.cn.Present?) || (e.key == PW_KEY && f.pw.Present?)
              || (e.key == MN_KEY && f.mn.Present?)
    {
      EntryFrom(f, e);
    }
  }

  /** Every field that was not written is read from the command part and the memory behind it: its member stays empty
      if its key does not occur there. */
  lemma AbsentFields(f: Fields, rest: seq<bv8>)
    requires CleanFields(f)
    ensures var q, b := ParsePack(Payload(f) + rest), Behind(f, rest);
            && (f.qn.Absent? ==> q.qn == ParseField(b, QN_KEY, QN_LEN))
            && (f.st.Absent? ==> q.st == ParseField(b, ST_KEY, ST_LEN))
            && (f.cn.Absent? ==> q.cn == ParseField(b, CN_KEY, CN_LEN))
            && (f.pw.Absent? ==> q.pw == ParseField(b, PW_KEY, PW_LEN))
            && (f.mn.Absent? ==> q.mn == ParseField(b, MN_KEY, MN_LEN))
            && (f.flag.Absent? ==> q.flag == ParseField(b, FLAG_KEY, FLAG_LEN))
  {
    AbsentKeys(f);
    hide ParseField, ParseCp, Payload, Behind, CleanFields, NotWritten, Entries;
    if f.qn.Absent? {
      AbsentRead(f, QN_KEY, QN_LEN, rest);
    }
    if f.st.Absent? {
      AbsentRead(f, ST_KEY, ST_LEN, rest);
    }
    if f.cn.Absent? {
      AbsentRead(f, CN_KEY, CN_LEN, rest);
    }
    if f.pw.Absent? {
      AbsentRead(f, PW_KEY, PW_LEN, rest);
    }
    if f.mn.Absent? {
      AbsentRead(f, MN_KEY, MN_LEN, rest);
    }
    if f.flag.Absent? {
      AbsentRead(f, FLAG_KEY, FLAG_LEN, rest);
    }
  }

  /** A field is read as empty if and only if its key does not occur, or a semicolon or the end of the text follows its
      first occurrence. */
  lemma EmptyExactly(mem: seq<bv8>, key: seq<bv8>, width: nat)
    requires key != [] && width > 0
    ensures var t := CString(mem);
            var i := Find(t, key);
            ParseField(mem, key, width) == []
            <==> (forall j :: !OccursAt(t, key, j)) || (i >= 0 && (i + |key| == |t| || t[i + |key|] == SEMI))
  {
    hide CString, Find;
    FindExactly(CString(mem), key);
  }

  /** The texts before the command part hold no ampersand and no NUL, unless the flag is an empty string. */
  lemma BeforeCp(f: Fields)
    requires CleanFields(f) && !IsEmpty(f.flag)
    ensures var t := Texts(Entries(f)) + FlagText(f.flag); AMP !in t && 0 !in t
  {
    EntriesHeader(f);
    TextsEnd(Entries(f));
    hide Texts, Entries, Tails, FlagText, IsEmpty, CleanMaybe;
    FlagHeader(Texts(Entries(f)), Tails(Entries(f)), f.flag);
  }

  lemma CpFound(t: seq<bv8>, rest: seq<bv8>)
    requires AMP !in t
    ensures Find(t + CP_KEY + rest, CP_KEY) == |t|
  {
    var u := t + CP_KEY + rest;
    forall j | 0 <= j < |t|
      ensures !OccursAt(u, CP_KEY, j)
    {
      if OccursAt(u, CP_KEY, j) {
        OccursBytes(u, CP_KEY, j, 3);
      }
    }
    assert u[|t|..|t| + |CP_KEY|] == CP_KEY;
    FindFirst(u, CP_KEY, |t|);
  }

  lemma CpScan(v: seq<bv8>, rest: seq<bv8>)
    requires AMP !in v && rest != [] && rest[0] == AMP
    ensures ScanSet(v + rest, CP_WIDTH, AMP) == Cut(v, CP_WIDTH)
  {
    if |v| <= CP_WIDTH {
      ScanExact(v, rest, CP_WIDTH, AMP);
    } else {
      assert v + rest == v[..CP_WIDTH] + (v[CP_WIDTH..] + rest);
      ScanExact(v[..CP_WIDTH], v[CP_WIDTH..] + rest, CP_WIDTH, AMP);
    }
  }

  lemma CpRead(t: seq<bv8>, v: seq<bv8>, rest: seq<bv8>)
    requires AMP !in t && 0 !in t && AMP !in v && 0 !in v && v != [] && |CString(rest)| >= 6
    ensures ParseCp(t + CP_KEY + v + [AMP, AMP] + rest) == Present(Cut(v, CP_WIDTH))
  {
    hide Cut, ScanSet, Find, CString;
    var front := t + CP_KEY + v + [AMP, AMP];
    assert 0 !in CP_KEY;
    CStringConcat(front, rest);
    var end := [AMP, AMP] + CString(rest);
    Regrouped(t, CP_KEY, v, [AMP, AMP], CString(rest));
    CpFound(t, v + end);
    CpScan(v, end);
  }

  /** A command part without ampersands comes back too, up to the width of the conversion. */
  lemma CpRecovered(f: Fields, rest: seq<bv8>)
    requires CleanFields(f) && !IsEmpty(f.flag)
    requires f.cp.Present? && f.cp.value != [] && AMP !in f.cp.value && |CString(rest)| >= 6
    ensures ParsePack(Payload(f) + rest).cp == Present(Cut(f.cp.value, CP_WIDTH))
  {
    EntriesText(f);
    BeforeCp(f);
    hide Payload, ParseField, ParseCp, Texts, FlagText, Entries, CleanFields, Cut, CString;
    var t, v := Texts(Entries(f)) + FlagText(f.flag), f.cp.value;
    Splice(t, CP_KEY, v, [AMP, AMP]);
    CpRead(t, v, rest);
  }

  lemma BehindPayload(buf: Buffer, f: seq<bv8>, n: nat, check: seq<bv8>)
    requires n + 12 < BUF_SIZE && |f| == n + 12 && buf[..n + 12] == f && |check| == 4 && 0 !in check
    requires f[6 + n..10 + n] == check && f[10 + n] == CR && f[11 + n] == LF
    ensures |CString(buf[6 + n..])| >= 6
  {
    hide CString;
    var s := buf[6 + n..12 + n];
    assert s == f[6 + n..12 + n] == check + [CR, LF];
    CStringConcat(s, buf[12 + n..]);
    assert buf[6 + n..] == s + buf[12 + n..];
  }

  lemma CheckTextNotNul(p: seq<bv8>)
    ensures 0 !in CheckText(p)
  {
    hide HexByte;
    var h, l := Crc16.Hi(Check(p)), Crc16.Lo(Check(p));
    HexByteRoundTrip(h);
    HexByteRoundTrip(l);
    forall i | 0 <= i < 4
      ensures CheckText(p)[i] != 0
    {
      assert CheckText(p)[i] == if i < 2 then HexByte(h)[i] else HexByte(l)[i - 2];
    }
  }

  /** The memory behind a received payload starts with the check and the end mark, none of them NUL. */
  lemma MemoryOf(p: seq<bv8>, buf: Buffer)
    requires |p| + 12 < BUF_SIZE && buf[..|p| + 12] == Frame(p)
    ensures buf[6..][..|p|] == p && |CString(buf[6 + |p|..])| >= 6
  {
    hide CheckText, Frame;
    var n := |p|;
    FrameParts(p);
    var f := Frame(p);
    assert buf[6..][..n] == buf[..n + 12][6..6 + n];
    CheckTextNotNul(p);
    BehindPayload(buf, f, n, CheckText(p));
  }

  /** From the encoder through any reset receiver to the parser. */
  lemma EndToEnd(r: Rcv, f: Fields) returns (q: Parsed)
    requires r.head && r.pos == 0 && CleanFields(f) && Deliverable(Payload(f))
    ensures var packs := FeedAll(r, Frame(Payload(f))).1; |packs| == 1 && q == ParsePack(packs[0].mem)
    ensures (f.qn.Present? ==> q.qn == Cut(f.qn.value, QN_LEN)) && (f.st.Present? ==> q.st == Cut(f.st.value, ST_LEN))
    ensures (f.cn.Present? ==> q.cn == Cut(f.cn.value, CN_LEN)) && (f.pw.Present? ==> q.pw == Cut(f.pw.value, PW_LEN))
    ensures (f.mn.Present? ==> q.mn == Cut(f.mn.value, MN_LEN)) && (f.flag.Present? ==> q.flag == Cut(f.flag.value, 1))
    ensures !IsEmpty(f.flag) && f.cp.Present? && f.cp.value != [] && AMP !in f.cp.value ==>
      q.cp == Present(Cut(f.cp.value, CP_WIDTH))
  {
    var p := Payload(f);
    Delivers(r, p);
    var g := FeedAll(r, Frame(p));
    var mem := g.1[0].mem;
    var rest := mem[|p|..];
    MemoryOf(p, g.0.buf);
    assert mem == p + rest;
    q := ParsePack(mem);
    hide Payload, ParsePack, Deliverable, CleanFields, Cut, CString, Frame, FeedAll;
    FieldsRecovered(f, rest);
    if f.flag.Present? {
      FlagRecovered(f, rest);
    }
    if !IsEmpty(f.flag) && f.cp.Present? && f.cp.value != [] && AMP !in f.cp.value {
      CpRecovered(f, rest);
    }
  }
}
