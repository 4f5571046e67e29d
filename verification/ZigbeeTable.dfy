/** The node table of software/das/board/zgb_std.c as a sequence of records in insertion order. */
module ZigbeeTable {
  import opened Bytes
  import opened Sequences

  /** A list of addresses of one kind (0 is MODBUS RTU, 1 MODBUS ASCII). */
  datatype Sub = Sub(kind: nat, addrs: seq<bv8>)

  datatype Node = Node(workmode: nat, mac: seq<bv8>, netid: nat, online: bool, rssi: nat,
                       uptime: Word, lasttime: Word, offtime: Word, subs: seq<Sub>)

  /** A scan reply. */
  datatype Scan = Scan(workmode: nat, netid: nat, mac: seq<bv8>, rssi: nat, kind: nat, data: seq<bv8>)

  // ----- the lists of one node -----

  function FindKind(subs: seq<Sub>, kind: nat): (i: nat)
    ensures i <= |subs|
  {
    if subs == [] || subs[0].kind == kind then 0 else 1 + FindKind(subs[1..], kind)
  }

  lemma {:induction false} FindKindIs(subs: seq<Sub>, kind: nat, i: nat)
    requires i <= |subs| && forall k :: 0 <= k < i ==> subs[k].kind != kind
    requires i < |subs| ==> subs[i].kind == kind
    ensures FindKind(subs, kind) == i
  {
    if i > 0 {
      FindKindIs(subs[1..], kind, i - 1);
    }
  }

  lemma {:induction false} FindKindStops(subs: seq<Sub>, kind: nat)
    ensures var i := FindKind(subs, kind);
            (forall k :: 0 <= k < i ==> subs[k].kind != kind) && (i < |subs| ==> subs[i].kind == kind)
  {
    if subs != [] && subs[0].kind != kind {
      FindKindStops(subs[1..], kind);
      assert forall k :: 1 <= k < |subs| ==> subs[k] == subs[1..][k - 1];
    }
  }

  /** `_snode_rm_one`: the first list of the kind. */
  function RmOne(subs: seq<Sub>, kind: nat): seq<Sub> {
    var i := FindKind(subs, kind);
    if i < |subs| then Without(subs, i) else subs
  }

  /** Only the two MODBUS kinds copy their addresses; others keep the cleared list. */
  function Addrs(kind: nat, data: seq<bv8>): seq<bv8> {
    if kind <= 1 then data else Zeros(|data|)
  }

  /** `_snode_insert`. */
  function InsertSub(subs: seq<Sub>, kind: nat, data: seq<bv8>): seq<Sub> {
    RmOne(subs, kind) + [Sub(kind, Addrs(kind, data))]
  }

  predicate AddrIn(addrs: seq<bv8>, addr: int) {
    exists i :: 0 <= i < |addrs| && addrs[i] as int == addr
  }

  const MODBUS_RTU: nat := 0
  const MODBUS_ASCII: nat := 1

  /** What a scan makes addresses of its kind: its data for the two MODBUS kinds, zero for as many of any other. */
  predicate Announced(kind: nat, data: seq<bv8>, addr: int) {
    if kind == MODBUS_RTU || kind == MODBUS_ASCII then AddrIn(data, addr) else data != [] && addr == 0
  }

  lemma AddrsAnnounced(kind: nat, data: seq<bv8>, addr: int)
    ensures AddrIn(Addrs(kind, data), addr) <==> Announced(kind, data, addr)
  {
    if kind > 1 && data != [] {
      assert Zeros(|data|)[0] as int == 0;
    }
  }

  predicate HasAddr(subs: seq<Sub>, kind: nat, addr: int) {
    exists k :: 0 <= k < |subs| && subs[k].kind == kind && AddrIn(subs[k].addrs, addr)
  }

  predicate OneKind(subs: seq<Sub>) {
    forall i, j :: 0 <= i < j < |subs| ==> subs[i].kind != subs[j].kind
  }

  lemma RmOneAll(subs: seq<Sub>, kind: nat)
    requires OneKind(subs)
    ensures var r := RmOne(subs, kind);
            && OneKind(r) && (forall k :: 0 <= k < |r| ==> r[k].kind != kind && r[k] in subs)
            && (forall k :: 0 <= k < |subs| && subs[k].kind != kind ==> subs[k] in r)
  {
    FindKindStops(subs, kind);
    var i, r := FindKind(subs, kind), RmOne(subs, kind);
    if i < |subs| {
      assert forall k :: 0 <= k < |r| ==> r[k] == subs[if k < i then k else k + 1];
      forall k | 0 <= k < |subs| && k != i
        ensures subs[k] in r
      {
        assert r[if k < i then k else k - 1] == subs[k];
      }
    }
  }

  lemma OneKindSnoc(q: seq<Sub>, s: Sub)
    requires OneKind(q) && forall k :: 0 <= k < |q| ==> q[k].kind != s.kind
    ensures OneKind(q + [s])
  {
  }

  lemma HasAddrSnoc(q: seq<Sub>, s: Sub, kind: nat, addr: int)
    ensures HasAddr(q + [s], kind, addr) <==> HasAddr(q, kind, addr) || (s.kind == kind && AddrIn(s.addrs, addr))
  {
    hide AddrIn;
    var r := q + [s];
    assert r[|q|] == s && forall k :: 0 <= k < |q| ==> r[k] == q[k];
  }

  lemma NoneOfKind(q: seq<Sub>, kind: nat, addr: int)
    requires forall k :: 0 <= k < |q| ==> q[k].kind != kind
    ensures !HasAddr(q, kind, addr)
  {
    hide AddrIn;
  }

  lemma SameAddrs(subs: seq<Sub>, q: seq<Sub>, kind: nat, other: nat, addr: int)
    requires other != kind && (forall k :: 0 <= k < |q| ==> q[k] in subs)
    requires forall k :: 0 <= k < |subs| && subs[k].kind != kind ==> subs[k] in q
    ensures HasAddr(q, other, addr) <==> HasAddr(subs, other, addr)
  {
    hide AddrIn;
    if HasAddr(subs, other, addr) {
      var k :| 0 <= k < |subs| && subs[k].kind == other && AddrIn(subs[k].addrs, addr);
      var l :| 0 <= l < |q| && q[l] == subs[k];
    }
    if HasAddr(q, other, addr) {
      var k :| 0 <= k < |q| && q[k].kind == other && AddrIn(q[k].addrs, addr);
      var l :| 0 <= l < |subs| && subs[l] == q[k];
    }
  }

  /** A scan replaces the addresses of its kind and leaves the other kinds alone. */
  lemma InsertReplaces(subs: seq<Sub>, kind: nat, data: seq<bv8>, other: nat, addr: int)
    requires OneKind(subs)
    ensures var r := InsertSub(subs, kind, data);
            && OneKind(r)
            && (HasAddr(r, other, addr) <==>
                  if other == kind then Announced(kind, data, addr) else HasAddr(subs, other, addr))
  {
    RmOneAll(subs, kind);
    AddrsAnnounced(kind, data, addr);
    hide AddrIn, Addrs, Announced, RmOne, HasAddr;
    var q, a := RmOne(subs, kind), Addrs(kind, data);
    HasAddrSnoc(q, Sub(kind, a), other, addr);
    if other == kind {
      NoneOfKind(q, kind, addr);
    } else {
      SameAddrs(subs, q, kind, other, addr);
    }
    OneKindSnoc(q, Sub(kind, a));
  }

  // ----- lookups -----

  function FindNet(v: seq<Node>, netid: nat): (i: nat)
    ensures i <= |v|
  {
    if v == [] || v[0].netid == netid then 0 else 1 + FindNet(v[1..], netid)
  }

  lemma {:induction false} FindNetIs(v: seq<Node>, netid: nat, i: nat)
    requires i <= |v| && forall k :: 0 <= k < i ==> v[k].netid != netid
    requires i < |v| ==> v[i].netid == netid
    ensures FindNet(v, netid) == i
  {
    if i > 0 {
      FindNetIs(v[1..], netid, i - 1);
    }
  }

  lemma {:induction false} FindNetStops(v: seq<Node>, netid: nat)
    ensures var i := FindNet(v, netid);
            (forall k :: 0 <= k < i ==> v[k].netid != netid) && (i < |v| ==> v[i].netid == netid)
  {
    if v != [] && v[0].netid != netid {
      FindNetStops(v[1..], netid);
      assert forall k :: 1 <= k < |v| ==> v[k] == v[1..][k - 1];
    }
  }

  /** The first node, in insertion order, with the address among those of the kind. */
  function FindAddr(v: seq<Node>, kind: nat, addr: int): (i: nat)
    ensures i <= |v|
  {
    if v == [] || HasAddr(v[0].subs, kind, addr) then 0 else 1 + FindAddr(v[1..], kind, addr)
  }

  lemma {:induction false} FindAddrIs(v: seq<Node>, kind: nat, addr: int, i: nat)
    requires i <= |v| && forall k :: 0 <= k < i ==> !HasAddr(v[k].subs, kind, addr)
    requires i < |v| ==> HasAddr(v[i].subs, kind, addr)
    ensures FindAddr(v, kind, addr) == i
  {
    hide HasAddr;
    if i > 0 {
      FindAddrIs(v[1..], kind, addr, i - 1);
    }
  }

  predicate Listed(v: seq<Node>, netid: nat) {
    FindNet(v, netid) < |v|
  }

  // ----- the operations -----

  function NewNode(info: Scan, now: Word): Node {
    Node(info.workmode, info.mac, info.netid, true, info.rssi, now, now, 0, InsertSub([], info.kind, info.data))
  }

  /** A node scanned again: the mac is kept, and an offline node comes back online. */
  function Rescanned(n: Node, info: Scan, now: Word): Node {
    Node(info.workmode, n.mac, info.netid, true, info.rssi, if n.online then n.uptime else now, now,
         if n.online then n.offtime else 0, InsertSub(n.subs, info.kind, info.data))
  }

  /** `zgb_mnode_insert`. */
  function Insert(v: seq<Node>, info: Scan, now: Word): seq<Node> {
    var i := FindNet(v, info.netid);
    if i == |v| then v + [NewNode(info, now)] else v[i := Rescanned(v[i], info, now)]
  }

  /** `zgb_mnode_rm_with_id`. */
  function Remove(v: seq<Node>, netid: nat): seq<Node> {
    var i := FindNet(v, netid);
    if i < |v| then Without(v, i) else v
  }

  datatype Fate = Kept(node: Node) | Dropped

  /** The body of the loop of `zgb_check_online`, on 32-bit unsigned times. */
  function Judge(n: Node, now: Word, step: nat): Fate {
    if n.online then
      if n.lasttime > now || now - n.lasttime >= U32(step * 4) then
        Kept(n.(online := false, offtime := U32(now + TWO32 - U32(step * 3))))
      else Kept(n)
    else if U32(now + TWO32 - n.offtime) >= U32(step * 10) then Dropped
    else Kept(n)
  }

  function Survivor(n: Node, now: Word, step: nat): seq<Node> {
    if Judge(n, now, step).Kept? then [Judge(n, now, step).node] else []
  }

  /** `zgb_check_online`. */
  function Pass(v: seq<Node>, now: Word, step: nat): (w: seq<Node>)
    ensures |w| <= |v|
  {
    if v == [] then [] else Pass(v[..|v| - 1], now, step) + Survivor(v[|v| - 1], now, step)
  }

  lemma PassNext(v: seq<Node>, m: nat, now: Word, step: nat)
    requires m < |v|
    ensures Pass(v[..m + 1], now, step) == Pass(v[..m], now, step) + Survivor(v[m], now, step)
  {
    hide Judge;
    assert v[..m + 1][..m] == v[..m];
  }

  lemma SurvivorSize(n: Node, now: Word, step: nat)
    ensures |Survivor(n, now, step)| == if Judge(n, now, step).Kept? then 1 else 0
  {
    hide Judge;
  }

  // ----- what every operation keeps -----

  predicate OneNet(v: seq<Node>) {
    forall i, j :: 0 <= i < j < |v| ==> v[i].netid != v[j].netid
  }

  /** No netid twice, and no kind twice on a node. */
  predicate Unique(v: seq<Node>) {
    OneNet(v) && forall i :: 0 <= i < |v| ==> OneKind(v[i].subs)
  }

  lemma InsertUnique(v: seq<Node>, info: Scan, now: Word)
    requires Unique(v)
    ensures Unique(Insert(v, info, now))
  {
    FindNetStops(v, info.netid);
    var i := FindNet(v, info.netid);
    InsertReplaces([], info.kind, info.data, 0, 0);
    if i < |v| {
      InsertReplaces(v[i].subs, info.kind, info.data, 0, 0);
    }
    hide OneKind, InsertSub, HasAddr;
  }

  /** After a scan its netid is found where it was, or at the end; every other lookup is as before. */
  lemma LookupAfterInsert(v: seq<Node>, info: Scan, now: Word, id: nat)
    requires Unique(v)
    ensures var w, i := Insert(v, info, now), FindNet(v, id);
            && FindNet(w, id) == (if i < |v| || id == info.netid then i else |w|)
            && (id == info.netid ==> w[i] == if i < |v| then Rescanned(v[i], info, now) else NewNode(info, now))
            && (id != info.netid && i < |v| ==> w[i] == v[i])
  {
    hide InsertSub;
    var w, i := Insert(v, info, now), FindNet(v, id);
    FindNetStops(v, id);
    FindNetStops(v, info.netid);
    FindNetIs(w, id, if i < |v| || id == info.netid then i else |w|);
  }

  lemma RemoveUnique(v: seq<Node>, netid: nat)
    requires Unique(v)
    ensures Unique(Remove(v, netid)) && !Listed(Remove(v, netid), netid)
    ensures forall k :: 0 <= k < |v| && v[k].netid != netid ==> v[k] in Remove(v, netid)
  {
    hide OneKind;
    FindNetStops(v, netid);
    var i, w := FindNet(v, netid), Remove(v, netid);
    if i < |v| {
      assert forall k :: 0 <= k < |w| ==> w[k] == v[if k < i then k else k + 1];
      forall k | 0 <= k < |v| && k != i
        ensures v[k] in w
      {
        assert w[if k < i then k else k - 1] == v[k];
      }
    }
    FindNetIs(w, netid, |w|);
  }

  lemma JudgeKeeps(n: Node, now: Word, step: nat)
    requires Judge(n, now, step).Kept?
    ensures var m := Judge(n, now, step).node; m.netid == n.netid && m.subs == n.subs && m.lasttime == n.lasttime
  {
  }

  /** What a pass leaves are the kept nodes, in order. */
  lemma {:induction false} PassFrom(v: seq<Node>, now: Word, step: nat, w: Node)
    requires w in Pass(v, now, step)
    ensures exists i :: 0 <= i < |v| && Judge(v[i], now, step) == Kept(w)
  {
    hide Judge;
    var m := |v| - 1;
    if w in Pass(v[..m], now, step) {
      PassFrom(v[..m], now, step, w);
      var i :| 0 <= i < m && Judge(v[..m][i], now, step) == Kept(w);
      assert v[i] == v[..m][i];
    }
  }

  lemma {:induction false} PassTo(v: seq<Node>, now: Word, step: nat, i: nat)
    requires i < |v| && Judge(v[i], now, step).Kept?
    ensures Judge(v[i], now, step).node in Pass(v, now, step)
  {
    hide Judge;
    var m := |v| - 1;
    if i < m {
      PassTo(v[..m], now, step, i);
    }
  }

  lemma {:induction false} PassUnique(v: seq<Node>, now: Word, step: nat)
    requires Unique(v)
    ensures Unique(Pass(v, now, step))
  {
    hide Judge, OneKind;
    if v != [] {
      var m := |v| - 1;
      assert Unique(v[..m]);
      PassUnique(v[..m], now, step);
      var q := Pass(v[..m], now, step);
      if Judge(v[m], now, step).Kept? {
        JudgeKeeps(v[m], now, step);
        forall k | 0 <= k < |q|
          ensures q[k].netid != v[m].netid
        {
          PassFrom(v[..m], now, step, q[k]);
          var i :| 0 <= i < m && Judge(v[..m][i], now, step) == Kept(q[k]);
          JudgeKeeps(v[i], now, step);
        }
      }
    }
  }

  /** A listed node stays listed in a pass if and only if its own test keeps it; an online node always stays. */
  lemma PassExactly(v: seq<Node>, now: Word, step: nat, id: nat)
    requires Unique(v) && Listed(v, id)
    ensures var n := v[FindNet(v, id)];
            && (Listed(Pass(v, now, step), id) <==> Judge(n, now, step).Kept?)
            && (n.online ==> Listed(Pass(v, now, step), id))
  {
    var i, w := FindNet(v, id), Pass(v, now, step);
    FindNetStops(v, id);
    FindNetStops(w, id);
    assert v[i].online ==> Judge(v[i], now, step).Kept?;
    hide Judge, Pass;
    if Judge(v[i], now, step).Kept? {
      PassTo(v, now, step, i);
      JudgeKeeps(v[i], now, step);
    }
    if Listed(w, id) {
      var k := FindNet(w, id);
      PassFrom(v, now, step, w[k]);
      var j :| 0 <= j < |v| && Judge(v[j], now, step) == Kept(w[k]);
      JudgeKeeps(v[j], now, step);
      assert j == i;
    }
  }

  // ----- runs -----

  datatype Step = Scanned(info: Scan, now: Word) | Checked(now: Word) | Removed(netid: nat) | Cleared

  function Next(v: seq<Node>, s: Step, step: nat): seq<Node> {
    match s
    case Scanned(info, now) => Insert(v, info, now)
    case Checked(now) => Pass(v, now, step)
    case Removed(netid) => Remove(v, netid)
    case Cleared => []
  }

  function After(steps: seq<Step>, step: nat): seq<Node> {
    if steps == [] then [] else Next(After(steps[..|steps| - 1], step), steps[|steps| - 1], step)
  }

  /** The time last read from the clock. */
  function Clock(steps: seq<Step>): Word {
    if steps == [] then 0
    else match steps[|steps| - 1]
      case Scanned(_, now) => now
      case Checked(now) => now
      case _ => Clock(steps[..|steps| - 1])
  }

  predicate Monotone(steps: seq<Step>) {
    steps == [] || (Monotone(steps[..|steps| - 1]) && Clock(steps[..|steps| - 1]) <= Clock(steps))
  }

  /** When a netid was last scanned; -1 for never. */
  function LastSeen(steps: seq<Step>, netid: nat): int {
    if steps == [] then -1
    else
      var s := steps[|steps| - 1];
      if s.Scanned? && s.info.netid == netid then s.now else LastSeen(steps[..|steps| - 1], netid)
  }

  /** Setting a time back three steps and waiting one more does not overflow. */
  predicate Steady(step: nat) {
    U32(3 * step) + step < TWO32
  }

  /** An offline node was marked at a pass at least one step after its last scan, as its time is set back. */
  predicate NodeOk(n: Node, clock: Word, step: nat) {
    n.lasttime <= clock && (!n.online ==> n.offtime >= n.lasttime + step && n.offtime + U32(3 * step) <= clock)
  }

  lemma SmallU32(x: nat)
    requires x < TWO32
    ensures U32(x) == x
  {
  }

  lemma BackdatedU32(now: Word, back: nat)
    requires back <= now
    ensures U32(now + TWO32 - back) == now - back
  {
  }

  /** The three products of the code, four steps in terms of three. */
  lemma StepProducts(step: nat)
    ensures U32(step * 3) == U32(3 * step) && U32(step * 10) == U32(10 * step)
    ensures U32(step * 4) == U32(U32(3 * step) + step)
  {
    U32Add(3 * step, step);
    assert step * 4 == 3 * step + step && step * 3 == 3 * step && step * 10 == 10 * step;
  }

  /** For a steady step the pass compares true times. */
  lemma JudgeExactly(n: Node, clock: Word, now: Word, step: nat)
    requires NodeOk(n, clock, step) && clock <= now && Steady(step)
    ensures var three := U32(3 * step);
            Judge(n, now, step) ==
              if n.online then
                Kept(if now >= n.lasttime + three + step then n.(online := false, offtime := now - three) else n)
              else if now >= n.offtime + U32(10 * step) then Dropped else Kept(n)
    ensures Judge(n, now, step).Kept? ==> NodeOk(Judge(n, now, step).node, now, step)
  {
    var three := U32(3 * step);
    StepProducts(step);
    SmallU32(three + step);
    if now >= three {
      BackdatedU32(now, three);
    }
    if n.offtime <= now {
      BackdatedU32(now, n.offtime);
    }
    hide U32;
  }

  lemma OkLater(n: Node, clock: Word, now: Word, step: nat)
    requires NodeOk(n, clock, step) && clock <= now
    ensures NodeOk(n, now, step)
  {
  }

  /** Every record has the time of its last scan. */
  predicate SeenOk(v: seq<Node>, steps: seq<Step>) {
    forall i :: 0 <= i < |v| ==> v[i].lasttime == LastSeen(steps, v[i].netid)
  }

  predicate TimesOk(v: seq<Node>, clock: Word, step: nat) {
    forall i :: 0 <= i < |v| ==> NodeOk(v[i], clock, step)
  }

  lemma ScanSeen(v: seq<Node>, steps: seq<Step>, info: Scan, now: Word)
    requires Unique(v) && SeenOk(v, steps)
    ensures SeenOk(Insert(v, info, now), steps + [Scanned(info, now)])
  {
    var t := steps + [Scanned(info, now)];
    assert t[..|t| - 1] == steps;
    FindNetStops(v, info.netid);
    hide InsertSub, OneKind;
  }

  lemma CheckSeen(v: seq<Node>, steps: seq<Step>, now: Word, step: nat)
    requires SeenOk(v, steps)
    ensures SeenOk(Pass(v, now, step), steps + [Checked(now)])
  {
    var t, w := steps + [Checked(now)], Pass(v, now, step);
    assert t[..|t| - 1] == steps;
    forall i | 0 <= i < |w|
      ensures w[i].lasttime == LastSeen(t, w[i].netid)
    {
      PassFrom(v, now, step, w[i]);
      var j :| 0 <= j < |v| && Judge(v[j], now, step) == Kept(w[i]);
      JudgeKeeps(v[j], now, step);
      hide Judge, Pass;
    }
  }

  lemma RemoveSeen(v: seq<Node>, steps: seq<Step>, netid: nat)
    requires SeenOk(v, steps)
    ensures SeenOk(Remove(v, netid), steps + [Removed(netid)])
  {
    var t, w, k := steps + [Removed(netid)], Remove(v, netid), FindNet(v, netid);
    assert t[..|t| - 1] == steps;
    assert k < |v| ==> forall i :: 0 <= i < |w| ==> w[i] == v[if i < k then i else i + 1];
  }

  lemma NoNodes(steps: seq<Step>, clock: Word, step: nat)
    ensures Unique([]) && SeenOk([], steps) && TimesOk([], clock, step)
  {
  }

  lemma OkStep(v: seq<Node>, steps: seq<Step>, s: Step, step: nat)
    requires Unique(v) && SeenOk(v, steps)
    ensures Unique(Next(v, s, step)) && SeenOk(Next(v, s, step), steps + [s])
  {
    hide Unique, Pass, SeenOk;
    match s
    case Scanned(info, now) =>
      InsertUnique(v, info, now);
      ScanSeen(v, steps, info, now);
    case Checked(now) =>
      PassUnique(v, now, step);
      CheckSeen(v, steps, now, step);
    case Removed(netid) =>
      RemoveUnique(v, netid);
      RemoveSeen(v, steps, netid);
    case Cleared =>
      NoNodes(steps + [s], 0, step);
  }

  /** Every run of scans, passes and removals keeps the table unique and each record with the time of its last scan,
      whatever the clock and the step. */
  lemma {:induction false} RunOk(steps: seq<Step>, step: nat)
    ensures Unique(After(steps, step)) && SeenOk(After(steps, step), steps)
  {
    hide Unique, SeenOk, Next;
    if steps == [] {
      NoNodes(steps, 0, step);
    } else {
      var m := |steps| - 1;
      RunOk(steps[..m], step);
      assert steps == steps[..m] + [steps[m]];
      OkStep(After(steps[..m], step), steps[..m], steps[m], step);
    }
  }

  lemma ScanOk(v: seq<Node>, info: Scan, now: Word, step: nat)
    ensures NodeOk(NewNode(info, now), now, step)
    ensures forall n: Node :: NodeOk(Rescanned(n, info, now), now, step)
  {
  }

  lemma ScanStep(v: seq<Node>, clock: Word, info: Scan, now: Word, step: nat)
    requires TimesOk(v, clock, step) && clock <= now
    ensures TimesOk(Insert(v, info, now), now, step)
  {
    var w := Insert(v, info, now);
    ScanOk(v, info, now, step);
    hide InsertSub, NodeOk;
    forall i | 0 <= i < |w|
      ensures NodeOk(w[i], now, step)
    {
      if i < |v| {
        OkLater(v[i], clock, now, step);
      }
    }
  }

  lemma CheckStep(v: seq<Node>, clock: Word, now: Word, step: nat)
    requires TimesOk(v, clock, step) && clock <= now && Steady(step)
    ensures TimesOk(Pass(v, now, step), now, step)
  {
    var w := Pass(v, now, step);
    forall i | 0 <= i < |w|
      ensures NodeOk(w[i], now, step)
    {
      PassFrom(v, now, step, w[i]);
      var j :| 0 <= j < |v| && Judge(v[j], now, step) == Kept(w[i]);
      JudgeExactly(v[j], clock, now, step);
      hide Judge, NodeOk, Pass;
    }
  }

  lemma RemoveStep(v: seq<Node>, clock: Word, netid: nat, step: nat)
    requires TimesOk(v, clock, step)
    ensures TimesOk(Remove(v, netid), clock, step)
  {
    hide NodeOk;
    var w, k := Remove(v, netid), FindNet(v, netid);
    assert k < |v| ==> forall i :: 0 <= i < |w| ==> w[i] == v[if i < k then i else i + 1];
  }

  /** Under a monotone clock and with a steady step, every run keeps the times true. */
  lemma {:induction false} RunTimes(steps: seq<Step>, step: nat)
    requires Monotone(steps) && Steady(step)
    ensures TimesOk(After(steps, step), Clock(steps), step)
  {
    if steps != [] {
      var m := |steps| - 1;
      var v, clock := After(steps[..m], step), Clock(steps[..m]);
      RunTimes(steps[..m], step);
      hide TimesOk, Steady, Pass, Insert, Remove;
      match steps[m]
      case Scanned(info, now) => ScanStep(v, clock, info, now, step);
      case Checked(now) => CheckStep(v, clock, now, step);
      case Removed(netid) => RemoveStep(v, clock, netid, step);
      case Cleared => NoNodes(steps, clock, step);
    }
  }

  // ----- how late a node is dropped -----

  /** The pass at `now` drops the node. */
  predicate Drops(steps: seq<Step>, now: Word, step: nat, id: nat) {
    Listed(After(steps, step), id) && !Listed(After(steps + [Checked(now)], step), id)
  }

  /** Every pass of every run under a monotone clock drops only nodes last scanned eleven steps before. */
  ghost predicate AlwaysLate(step: nat) {
    forall steps: seq<Step>, now: Word, id: nat ::
      Monotone(steps) && Clock(steps) <= now && Drops(steps, now, step, id) ==> now >= LastSeen(steps, id) + 11 * step
  }

  /** In any run, a node that a pass drops was offline when it began. */
  lemma DroppedOffline(steps: seq<Step>, now: Word, step: nat, id: nat)
    requires Drops(steps, now, step, id)
    ensures var v := After(steps, step); !v[FindNet(v, id)].online
  {
    var v, t := After(steps, step), steps + [Checked(now)];
    assert t[..|t| - 1] == steps;
    RunOk(steps, step);
    PassExactly(v, now, step, id);
    hide Pass, Judge;
  }

  /** With a steady step it was last scanned one step and the ten of the code's product before. */
  lemma DroppedAfter(steps: seq<Step>, now: Word, step: nat, id: nat)
    requires Monotone(steps) && Clock(steps) <= now && Steady(step) && Drops(steps, now, step, id)
    ensures now >= LastSeen(steps, id) + step + U32(10 * step)
  {
    var v, t := After(steps, step), steps + [Checked(now)];
    assert t[..|t| - 1] == steps;
    RunOk(steps, step);
    RunTimes(steps, step);
    var i := FindNet(v, id);
    PassExactly(v, now, step, id);
    FindNetStops(v, id);
    JudgeExactly(v[i], Clock(steps), now, step);
    hide Pass, Judge, Unique;
  }

  lemma LastSeenNat(steps: seq<Step>, now: Word, step: nat, id: nat)
    requires Drops(steps, now, step, id)
    ensures LastSeen(steps, id) >= 0
  {
    RunOk(steps, step);
    FindNetStops(After(steps, step), id);
  }

  /** The steps whose products do not overflow, and those for which the time a node can be offline never reaches ten. */
  predicate Late(step: nat) {
    10 * step < TWO32 || (Steady(step) && U32(10 * step) + step >= TWO32)
  }

  lemma LateSteps(step: Word)
    requires Late(step)
    ensures AlwaysLate(step)
  {
    if 10 * step < TWO32 {
      SmallU32(10 * step);
      SmallU32(3 * step);
    }
    hide U32;
    forall steps: seq<Step>, now: Word, id: nat
      | Monotone(steps) && Clock(steps) <= now && Drops(steps, now, step, id)
      ensures now >= LastSeen(steps, id) + 11 * step
    {
      DroppedAfter(steps, now, step, id);
      LastSeenNat(steps, now, step, id);
    }
  }

  const ANY_SCAN := Scan(0, 0, [], 0, 0, [])

  /** One node scanned at time 0, marked at `marked`. */
  function MarkedRun(marked: Word): seq<Step> {
    [Scanned(ANY_SCAN, 0), Checked(marked)]
  }

  lemma MarkedRunTimes(marked: Word)
    ensures Monotone(MarkedRun(marked)) && Clock(MarkedRun(marked)) == marked && LastSeen(MarkedRun(marked), 0) == 0
  {
    var run, one := MarkedRun(marked), [Scanned(ANY_SCAN, 0)];
    assert run[..1] == one && one[..0] == [];
    assert Monotone([]) && Monotone(one) && Clock(one) == 0 && LastSeen(one, 0) == 0;
  }

  function MarkedNode(marked: Word, step: nat): Node {
    NewNode(ANY_SCAN, 0).(online := false, offtime := U32(marked + TWO32 - U32(step * 3)))
  }

  lemma PassOne(n: Node, now: Word, step: nat)
    ensures Pass([n], now, step) == Survivor(n, now, step)
  {
    hide Judge, Survivor;
    assert [n][..0] == [] && Pass([], now, step) == [];
  }

  lemma MarkedRunIs(marked: Word, step: nat)
    requires marked >= U32(step * 4)
    ensures After(MarkedRun(marked), step) == [MarkedNode(marked, step)]
  {
    var run, one, n := MarkedRun(marked), [Scanned(ANY_SCAN, 0)], NewNode(ANY_SCAN, 0);
    assert run[..1] == one && one[..0] == [];
    assert After(one, step) == Insert([], ANY_SCAN, 0) == [n];
    assert Judge(n, marked, step) == Kept(MarkedNode(marked, step));
    hide U32, InsertSub, Judge, NewNode, MarkedNode;
    PassOne(n, marked, step);
    assert run[1] == Checked(marked);
  }

  lemma MarkedNetid(marked: Word, step: nat)
    ensures MarkedNode(marked, step).netid == 0
  {
  }

  lemma AfterChecked(run: seq<Step>, now: Word, step: nat)
    ensures After(run + [Checked(now)], step) == Pass(After(run, step), now, step)
  {
    hide Pass;
    assert (run + [Checked(now)])[..|run|] == run;
  }

  lemma NetidFirst(n: Node)
    ensures Listed([n], n.netid) && !Listed([], n.netid)
  {
  }

  lemma MarkedGone(marked: Word, now: Word, step: nat)
    requires U32(now + TWO32 - U32(marked + TWO32 - U32(step * 3))) >= U32(step * 10)
    ensures Pass([MarkedNode(marked, step)], now, step) == []
  {
    var n := MarkedNode(marked, step);
    assert Judge(n, now, step) == Dropped;
    hide U32, MarkedNode, Judge;
    PassOne(n, now, step);
  }

  /** It is dropped at `now` if the pass finds the wait long enough. */
  lemma MarkedDrops(marked: Word, now: Word, step: nat)
    requires marked >= U32(step * 4)
    requires U32(now + TWO32 - U32(marked + TWO32 - U32(step * 3))) >= U32(step * 10)
    ensures Drops(MarkedRun(marked), now, step, 0)
  {
    hide U32, MarkedRun, MarkedNode, After, Listed, Pass;
    MarkedRunIs(marked, step);
    MarkedNetid(marked, step);
    MarkedGone(marked, now, step);
    AfterChecked(MarkedRun(marked), now, step);
    NetidFirst(MarkedNode(marked, step));
  }

  lemma EarlyWait(marked: Word, now: Word, three: Word)
    requires marked <= now && now - marked + three < TWO32
    ensures U32(now + TWO32 - U32(marked + TWO32 - three)) == now - marked + three
  {
    if marked >= three {
      BackdatedU32(marked, three);
      BackdatedU32(now, marked - three);
    } else {
      SmallU32(marked + TWO32 - three);
      SmallU32(now - marked + three);
    }
    hide U32;
  }

  /** For any other step there are two passes, the first of which marks the node and the second drops it too early. */
  lemma EarlyTimes(step: Word) returns (marked: Word, now: Word)
    requires !Late(step)
    ensures U32(step * 4) <= marked <= now
    ensures U32(now + TWO32 - U32(marked + TWO32 - U32(step * 3))) >= U32(step * 10)
  {
    var three := U32(3 * step);
    StepProducts(step);
    U32Split(three + step, if Steady(step) then 0 else 1, if Steady(step) then three + step else three + step - TWO32);
    marked := U32(step * 4);
    now := if Steady(step) then TWO32 - 1 else marked + (TWO32 - 1 - three);
    EarlyWait(marked, now, three);
    hide U32;
  }

  /** Every drop comes at least eleven steps after the last scan if and only if ten steps do not overflow, or overflow
      to more than the time that is left behind a mark, so that nothing is ever dropped. */
  lemma AlwaysLateExactly(step: Word)
    ensures AlwaysLate(step) <==> Late(step)
  {
    if Late(step) {
      LateSteps(step);
    } else {
      var marked, now := EarlyTimes(step);
      MarkedDrops(marked, now, step);
      MarkedRunTimes(marked);
      hide Monotone, Clock, Drops, LastSeen, MarkedRun;
      assert now < LastSeen(MarkedRun(marked), 0) + 11 * step;
    }
  }

  /** In the second case no pass of any run under a monotone clock drops a node. */
  lemma NeverDropped(steps: seq<Step>, now: Word, step: nat, id: nat)
    requires Monotone(steps) && Clock(steps) <= now && Steady(step) && U32(10 * step) + step >= TWO32
    ensures !Drops(steps, now, step, id)
  {
    hide U32, Drops;
    if Drops(steps, now, step, id) {
      DroppedAfter(steps, now, step, id);
      LastSeenNat(steps, now, step, id);
    }
  }
}
