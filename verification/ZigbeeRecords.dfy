/** What the records of the node table say about the run behind them, for any run of scans, checks and removals, any
    clock and any learn step. */
module ZigbeeRecords {
  import opened Bytes
  import opened Sequences
  import opened ZigbeeTable

  predicate Online(v: seq<Node>, id: nat) {
    Listed(v, id) && v[FindNet(v, id)].online
  }

  // ----- the run, read backwards -----

  predicate IsScanOf(s: Step, id: nat) {
    s.Scanned? && s.info.netid == id
  }

  /** The last scan of a netid. */
  function LastScan(steps: seq<Step>, id: nat): Scan {
    if steps == [] then ANY_SCAN
    else
      var m := |steps| - 1;
      if IsScanOf(steps[m], id) then steps[m].info else LastScan(steps[..m], id)
  }

  /** The place of the step that listed it. */
  function ListedBy(steps: seq<Step>, step: nat, id: nat): nat {
    if steps == [] then 0
    else
      var m := |steps| - 1;
      if Listed(After(steps, step), id) && !Listed(After(steps[..m], step), id) then m
      else ListedBy(steps[..m], step, id)
  }

  /** And the scan made there. */
  function ListingScan(steps: seq<Step>, step: nat, id: nat): Scan {
    var k := ListedBy(steps, step, id);
    if k < |steps| && steps[k].Scanned? then steps[k].info else ANY_SCAN
  }

  /** The time at which it was first scanned since it was listed or last marked offline. */
  function UpSince(steps: seq<Step>, step: nat, id: nat): Word {
    if steps == [] then 0
    else
      var m := |steps| - 1;
      if Online(After(steps, step), id) && !Online(After(steps[..m], step), id) then Clock(steps)
      else UpSince(steps[..m], step, id)
  }

  /** The time of the check that last marked it offline. */
  function MarkedSince(steps: seq<Step>, step: nat, id: nat): Word {
    if steps == [] then 0
    else
      var m := |steps| - 1;
      if !Online(After(steps, step), id) && Online(After(steps[..m], step), id) then Clock(steps)
      else MarkedSince(steps[..m], step, id)
  }

  /** The last scan of one kind since it was listed. */
  function KindScan(steps: seq<Step>, step: nat, id: nat, kind: nat): Maybe<Scan> {
    if steps == [] || !Listed(After(steps, step), id) then Absent
    else
      var m := |steps| - 1;
      if IsScanOf(steps[m], id) && steps[m].info.kind == kind then Present(steps[m].info)
      else KindScan(steps[..m], step, id, kind)
  }

  // ----- what a record has to say -----

  /** Workmode and signal of the last scan, the mac of the scan that listed the node. */
  predicate ScansTold(n: Node, steps: seq<Step>, step: nat) {
    && n.workmode == LastScan(steps, n.netid).workmode && n.rssi == LastScan(steps, n.netid).rssi
    && n.mac == ListingScan(steps, step, n.netid).mac
  }

  /** When it came online, and when it was marked, set back by three steps. */
  predicate TimesTold(n: Node, steps: seq<Step>, step: nat) {
    && n.uptime == UpSince(steps, step, n.netid)
    && n.offtime == if n.online then 0 else U32(MarkedSince(steps, step, n.netid) + TWO32 - U32(step * 3))
  }

  /** Of every kind the addresses of the last scan of that kind since the node was listed. */
  ghost predicate AddrsTold(n: Node, steps: seq<Step>, step: nat) {
    forall kind: nat, addr: int ::
      HasAddr(n.subs, kind, addr) <==>
        var k := KindScan(steps, step, n.netid, kind); k.Present? && Announced(kind, k.value.data, addr)
  }

  ghost predicate Told(n: Node, steps: seq<Step>, step: nat) {
    ScansTold(n, steps, step) && TimesTold(n, steps, step) && AddrsTold(n, steps, step)
  }

  ghost predicate AllTold(v: seq<Node>, steps: seq<Step>, step: nat) {
    forall i :: 0 <= i < |v| ==> Told(v[i], steps, step)
  }

  // ----- one step -----

  lemma OneMore(steps: seq<Step>, s: Step, step: nat)
    ensures var t := steps + [s];
            t != [] && t[|t| - 1] == s && t[..|t| - 1] == steps && After(t, step) == Next(After(steps, step), s, step)
  {
    hide Next;
    assert (steps + [s])[..|steps|] == steps;
  }

  lemma RecordAt(v: seq<Node>, i: nat)
    requires Unique(v) && i < |v|
    ensures FindNet(v, v[i].netid) == i && Listed(v, v[i].netid) && (Online(v, v[i].netid) <==> v[i].online)
  {
    hide OneKind;
    FindNetIs(v, v[i].netid, i);
  }

  lemma {:induction false} ListedByBefore(steps: seq<Step>, step: nat, id: nat)
    ensures ListedBy(steps, step, id) <= |steps| && (steps != [] ==> ListedBy(steps, step, id) < |steps|)
  {
    hide After, Listed;
    if steps != [] {
      ListedByBefore(steps[..|steps| - 1], step, id);
    }
  }

  lemma NothingListed(step: nat, id: nat)
    ensures After([], step) == [] && !Listed([], id)
  {
  }

  /** While a node stays listed, and is not scanned, the scans told of it are the same. */
  lemma ScansCarry(steps: seq<Step>, s: Step, step: nat, id: nat)
    requires Listed(After(steps, step), id) && Listed(After(steps + [s], step), id)
    ensures !IsScanOf(s, id) ==> LastScan(steps + [s], id) == LastScan(steps, id)
    ensures ListedBy(steps + [s], step, id) == ListedBy(steps, step, id)
    ensures ListingScan(steps + [s], step, id) == ListingScan(steps, step, id)
    ensures forall kind :: !(IsScanOf(s, id) && s.info.kind == kind) ==>
      KindScan(steps + [s], step, id, kind) == KindScan(steps, step, id, kind)
  {
    OneMore(steps, s, step);
    ListedByBefore(steps, step, id);
    var t, k := steps + [s], ListedBy(steps, step, id);
    hide After, Listed;
    if steps != [] {
      assert t[k] == steps[k];
    } else {
      assert After([], step) == [] by { NothingListed(step, id); }
      NothingListed(step, id);
    }
  }

  lemma TimesCarry(steps: seq<Step>, s: Step, step: nat, id: nat)
    ensures Online(After(steps, step), id) || !Online(After(steps + [s], step), id) ==>
      UpSince(steps + [s], step, id) == UpSince(steps, step, id)
    ensures !Online(After(steps, step), id) || Online(After(steps + [s], step), id) ==>
      MarkedSince(steps + [s], step, id) == MarkedSince(steps, step, id)
  {
    OneMore(steps, s, step);
    hide After, Online;
  }

  lemma AddrsCarry(n: Node, steps: seq<Step>, s: Step, step: nat)
    requires AddrsTold(n, steps, step) && !IsScanOf(s, n.netid)
    requires Listed(After(steps, step), n.netid) && Listed(After(steps + [s], step), n.netid)
    ensures AddrsTold(n, steps + [s], step)
  {
    ScansCarry(steps, s, step, n.netid);
    hide After, Listed, KindScan, AddrIn, HasAddr, Announced;
  }

  /** A record that a step leaves alone goes on telling the truth. */
  lemma RecordCarries(n: Node, steps: seq<Step>, s: Step, step: nat)
    requires Told(n, steps, step) && !IsScanOf(s, n.netid)
    requires Listed(After(steps, step), n.netid) && Listed(After(steps + [s], step), n.netid)
    requires Online(After(steps, step), n.netid) == n.online == Online(After(steps + [s], step), n.netid)
    ensures Told(n, steps + [s], step)
  {
    hide After, Listed, Online, LastScan, ListingScan, UpSince, MarkedSince, KindScan, AddrsTold, U32;
    AddrsCarry(n, steps, s, step);
    ScansCarry(steps, s, step, n.netid);
    TimesCarry(steps, s, step, n.netid);
  }

  /** The last step, seen from the node it scanned. */
  lemma ScanIsLast(steps: seq<Step>, info: Scan, now: Word, step: nat)
    ensures var t, id := steps + [Scanned(info, now)], info.netid;
            && LastScan(t, id) == info && Clock(t) == now
            && (Listed(After(t, step), id) ==> KindScan(t, step, id, info.kind) == Present(info))
            && (Online(After(t, step), id) && !Online(After(steps, step), id) ==> UpSince(t, step, id) == now)
            && (Listed(After(t, step), id) && !Listed(After(steps, step), id) ==>
                  ListingScan(t, step, id) == info
                  && forall kind :: kind != info.kind ==> KindScan(t, step, id, kind) == Absent)
  {
    OneMore(steps, Scanned(info, now), step);
    hide After, Listed, Online;
  }

  /** Addresses behind a scan, in terms of those before. */
  lemma AddrsAfter(subs: seq<Sub>, info: Scan, kind: nat, addr: int)
    requires OneKind(subs)
    ensures HasAddr(InsertSub(subs, info.kind, info.data), kind, addr) <==>
              if kind == info.kind then Announced(kind, info.data, addr) else HasAddr(subs, kind, addr)
  {
    InsertReplaces(subs, info.kind, info.data, kind, addr);
    hide HasAddr, InsertSub, Announced;
  }

  lemma OldAddrsTold(n: Node, steps: seq<Step>, info: Scan, now: Word, step: nat)
    requires AddrsTold(n, steps, step) && n.netid == info.netid && OneKind(n.subs)
    requires Listed(After(steps, step), n.netid) && Listed(After(steps + [Scanned(info, now)], step), n.netid)
    ensures AddrsTold(Rescanned(n, info, now), steps + [Scanned(info, now)], step)
  {
    var t, r := steps + [Scanned(info, now)], Rescanned(n, info, now);
    ScanIsLast(steps, info, now, step);
    ScansCarry(steps, Scanned(info, now), step, n.netid);
    assert r.subs == InsertSub(n.subs, info.kind, info.data) && r.netid == n.netid;
    hide After, Listed, Online, LastScan, ListingScan, ListedBy, UpSince, KindScan, Announced, HasAddr, InsertSub;
    hide OneKind, Rescanned;
    forall kind: nat, addr: int
      ensures HasAddr(r.subs, kind, addr) <==>
                var k := KindScan(t, step, r.netid, kind); k.Present? && Announced(kind, k.value.data, addr)
    {
      AddrsAfter(n.subs, info, kind, addr);
    }
  }

  lemma OldTold(n: Node, steps: seq<Step>, info: Scan, now: Word, step: nat)
    requires Told(n, steps, step) && n.netid == info.netid && OneKind(n.subs)
    requires Listed(After(steps, step), n.netid) && Online(After(steps, step), n.netid) == n.online
    requires Online(After(steps + [Scanned(info, now)], step), n.netid)
    ensures Told(Rescanned(n, info, now), steps + [Scanned(info, now)], step)
  {
    OldAddrsTold(n, steps, info, now, step);
    ScanIsLast(steps, info, now, step);
    ScansCarry(steps, Scanned(info, now), step, n.netid);
    TimesCarry(steps, Scanned(info, now), step, n.netid);
    hide After, Listed, LastScan, ListingScan, ListedBy, UpSince, MarkedSince, AddrsTold, InsertSub, OneKind, U32;
  }

  lemma NewAddrsTold(steps: seq<Step>, info: Scan, now: Word, step: nat)
    requires !Listed(After(steps, step), info.netid) && Listed(After(steps + [Scanned(info, now)], step), info.netid)
    ensures AddrsTold(NewNode(info, now), steps + [Scanned(info, now)], step)
  {
    var t, r := steps + [Scanned(info, now)], NewNode(info, now);
    ScanIsLast(steps, info, now, step);
    assert r.subs == InsertSub([], info.kind, info.data) && r.netid == info.netid;
    assert OneKind([]) && forall kind, addr :: !HasAddr([], kind, addr);
    hide After, Listed, Online, LastScan, ListingScan, ListedBy, UpSince, KindScan, Announced, HasAddr, InsertSub;
    hide OneKind, NewNode;
    forall kind: nat, addr: int
      ensures HasAddr(r.subs, kind, addr) <==>
                var k := KindScan(t, step, r.netid, kind); k.Present? && Announced(kind, k.value.data, addr)
    {
      AddrsAfter([], info, kind, addr);
    }
  }

  lemma NewTold(steps: seq<Step>, info: Scan, now: Word, step: nat)
    requires !Listed(After(steps, step), info.netid) && Online(After(steps + [Scanned(info, now)], step), info.netid)
    ensures Told(NewNode(info, now), steps + [Scanned(info, now)], step)
  {
    NewAddrsTold(steps, info, now, step);
    ScanIsLast(steps, info, now, step);
    hide After, Listed, LastScan, ListingScan, ListedBy, UpSince, MarkedSince, AddrsTold, InsertSub, U32;
  }

  lemma InsertedOnline(v: seq<Node>, info: Scan, now: Word)
    ensures var w, i := Insert(v, info, now), FindNet(v, info.netid); w[i].online && w[i].netid == info.netid
  {
    hide InsertSub;
  }

  lemma ScanTold(steps: seq<Step>, info: Scan, now: Word, step: nat)
    requires Unique(After(steps, step)) && AllTold(After(steps, step), steps, step)
    ensures AllTold(Insert(After(steps, step), info, now), steps + [Scanned(info, now)], step)
  {
    var s, v := Scanned(info, now), After(steps, step);
    var w, i := Insert(v, info, now), FindNet(v, info.netid);
    OneMore(steps, s, step);
    InsertUnique(v, info, now);
    FindNetStops(v, info.netid);
    assert w[i].online && w[i].netid == info.netid by { InsertedOnline(v, info, now); }
    RecordAt(w, i);
    forall k | 0 <= k < |w|
      ensures Told(w[k], steps + [s], step)
    {
      RecordAt(w, k);
      if k < |v| {
        RecordAt(v, k);
      }
      if k != i {
        assert w[k] == v[k] && v[k].netid != info.netid;
        hide After, Told, Unique, Listed, Online, Insert, FindNet;
        RecordCarries(v[k], steps, s, step);
      } else if i < |v| {
        assert OneKind(v[i].subs);
        hide After, Told, Unique, Listed, Online, FindNet, Rescanned, OneKind;
        OldTold(v[i], steps, info, now, step);
      } else {
        hide After, Told, Unique, Online, NewNode, OneKind;
        NewTold(steps, info, now, step);
      }
    }
  }

  /** What a check can change of a record: nothing, or the mark. */
  lemma JudgeMarks(n: Node, now: Word, step: nat)
    requires Judge(n, now, step).Kept?
    ensures var m := Judge(n, now, step).node;
            m == n || (n.online && m == n.(online := false, offtime := U32(now + TWO32 - U32(step * 3))))
  {
  }

  lemma MarkedNow(steps: seq<Step>, now: Word, step: nat, id: nat)
    requires Online(After(steps, step), id) && !Online(After(steps + [Checked(now)], step), id)
    ensures MarkedSince(steps + [Checked(now)], step, id) == now
  {
    OneMore(steps, Checked(now), step);
    hide After, Online;
  }

  /** A marked record tells the time of the check. */
  lemma MarkTold(n: Node, steps: seq<Step>, now: Word, step: nat)
    requires Told(n, steps, step) && n.online
    requires Listed(After(steps, step), n.netid) && Listed(After(steps + [Checked(now)], step), n.netid)
    requires Online(After(steps, step), n.netid) && !Online(After(steps + [Checked(now)], step), n.netid)
    ensures Told(n.(online := false, offtime := U32(now + TWO32 - U32(step * 3))), steps + [Checked(now)], step)
  {
    hide After, Listed, Online, LastScan, ListingScan, ListedBy, UpSince, MarkedSince, KindScan, HasAddr, U32;
    hide AddrIn, Announced;
    ScansCarry(steps, Checked(now), step, n.netid);
    TimesCarry(steps, Checked(now), step, n.netid);
    MarkedNow(steps, now, step, n.netid);
  }

  lemma CheckTold(steps: seq<Step>, now: Word, step: nat)
    requires Unique(After(steps, step)) && AllTold(After(steps, step), steps, step)
    ensures AllTold(Pass(After(steps, step), now, step), steps + [Checked(now)], step)
  {
    var s, v := Checked(now), After(steps, step);
    var w := Pass(v, now, step);
    OneMore(steps, s, step);
    PassUnique(v, now, step);
    forall k | 0 <= k < |w|
      ensures Told(w[k], steps + [s], step)
    {
      RecordAt(w, k);
      PassFrom(v, now, step, w[k]);
      var j :| 0 <= j < |v| && Judge(v[j], now, step) == Kept(w[k]);
      RecordAt(v, j);
      JudgeMarks(v[j], now, step);
      hide After, Told, Unique, Listed, Online, Judge, Pass, U32;
      if w[k] == v[j] {
        RecordCarries(v[j], steps, s, step);
      } else {
        MarkTold(v[j], steps, now, step);
      }
    }
  }

  lemma RemoveTold(steps: seq<Step>, netid: nat, step: nat)
    requires Unique(After(steps, step)) && AllTold(After(steps, step), steps, step)
    ensures AllTold(Remove(After(steps, step), netid), steps + [Removed(netid)], step)
  {
    var s, v := Removed(netid), After(steps, step);
    var w, i := Remove(v, netid), FindNet(v, netid);
    OneMore(steps, s, step);
    RemoveUnique(v, netid);
    forall k | 0 <= k < |w|
      ensures Told(w[k], steps + [s], step)
    {
      var j := if i < |v| && k >= i then k + 1 else k;
      assert w[k] == v[j];
      RecordAt(w, k);
      RecordAt(v, j);
      hide After, Told, Unique, Listed, Online, Remove, FindNet;
      RecordCarries(v[j], steps, s, step);
    }
  }

  lemma NobodyTells(steps: seq<Step>, step: nat)
    ensures AllTold([], steps, step)
  {
  }

  lemma StepTold(steps: seq<Step>, s: Step, step: nat)
    requires Unique(After(steps, step)) && AllTold(After(steps, step), steps, step)
    ensures AllTold(After(steps + [s], step), steps + [s], step)
  {
    OneMore(steps, s, step);
    hide After, Unique, AllTold, Insert, Pass, Remove;
    match s
    case Scanned(info, now) => ScanTold(steps, info, now, step);
    case Checked(now) => CheckTold(steps, now, step);
    case Removed(netid) => RemoveTold(steps, netid, step);
    case Cleared => assert AllTold([], steps + [s], step) by { NobodyTells(steps + [s], step); }
  }

  /** In every run every record has the workmode and the signal of the last scan of its netid, the mac of the scan that
      listed it, as uptime the time of its first scan since it was listed or last marked offline, as offtime zero or the
      time of the check that marked it, set back, and of every kind the addresses of the last scan of that kind. */
  lemma {:induction false} RunTold(steps: seq<Step>, step: nat)
    ensures AllTold(After(steps, step), steps, step)
  {
    hide AllTold, Unique, SeenOk, Next;
    if steps == [] {
      NobodyTells(steps, step);
    } else {
      var m := |steps| - 1;
      RunTold(steps[..m], step);
      RunOk(steps[..m], step);
      assert steps == steps[..m] + [steps[m]];
      StepTold(steps[..m], steps[m], step);
    }
  }

  // ----- the order of the table -----

  /** The nodes stand in the order in which they were listed. */
  predicate InOrder(v: seq<Node>, steps: seq<Step>, step: nat) {
    forall i, j :: 0 <= i < j < |v| ==> ListedBy(steps, step, v[i].netid) < ListedBy(steps, step, v[j].netid)
  }

  /** Nodes that were listed before a step keep their order in any selection of them. */
  lemma OrderCarries(steps: seq<Step>, s: Step, step: nat, a: nat, b: nat)
    requires Listed(After(steps, step), a) && Listed(After(steps + [s], step), a)
    requires Listed(After(steps + [s], step), b)
    requires Listed(After(steps, step), b) ==> ListedBy(steps, step, a) < ListedBy(steps, step, b)
    ensures ListedBy(steps + [s], step, a) < ListedBy(steps + [s], step, b)
  {
    ScansCarry(steps, s, step, a);
    ListedByBefore(steps, step, a);
    OneMore(steps, s, step);
    if Listed(After(steps, step), b) {
      ScansCarry(steps, s, step, b);
    }
    if steps == [] {
      NothingListed(step, a);
    }
    hide After, Listed;
  }

  /** A check leaves the nodes in the order they were in. */
  lemma {:induction false} PassInOrder(v: seq<Node>, now: Word, steps: seq<Step>, step: nat)
    requires InOrder(v, steps, step)
    ensures InOrder(Pass(v, now, step), steps, step)
  {
    hide ListedBy, Judge;
    if v != [] {
      var m := |v| - 1;
      PassInOrder(v[..m], now, steps, step);
      var q, w := Pass(v[..m], now, step), Pass(v, now, step);
      forall i, j | 0 <= i < j < |w|
        ensures ListedBy(steps, step, w[i].netid) < ListedBy(steps, step, w[j].netid)
      {
        if j >= |q| {
          PassFrom(v[..m], now, step, q[i]);
          var k :| 0 <= k < m && Judge(v[..m][k], now, step) == Kept(q[i]);
          JudgeKeeps(v[k], now, step);
          JudgeKeeps(v[m], now, step);
        }
      }
    }
  }

  /** Of the nodes of w, those of v are in their order and come first. */
  predicate Stays(v: seq<Node>, w: seq<Node>, steps: seq<Step>, step: nat) {
    forall i, j :: 0 <= i < j < |w| ==>
      && Listed(v, w[i].netid)
      && (Listed(v, w[j].netid) ==> ListedBy(steps, step, w[i].netid) < ListedBy(steps, step, w[j].netid))
  }

  lemma AllListed(v: seq<Node>)
    requires Unique(v)
    ensures forall i :: 0 <= i < |v| ==> Listed(v, v[i].netid)
  {
    hide Unique, Listed;
    forall i | 0 <= i < |v|
      ensures Listed(v, v[i].netid)
    {
      RecordAt(v, i);
    }
  }

  lemma ScanStays(v: seq<Node>, info: Scan, now: Word, steps: seq<Step>, step: nat)
    requires Unique(v) && InOrder(v, steps, step)
    ensures Stays(v, Insert(v, info, now), steps, step)
  {
    AllListed(v);
    FindNetStops(v, info.netid);
    InsertedOnline(v, info, now);
    hide ListedBy, InsertSub, OneKind, Listed;
  }

  lemma CheckStays(v: seq<Node>, now: Word, steps: seq<Step>, step: nat)
    requires Unique(v) && InOrder(v, steps, step)
    ensures Stays(v, Pass(v, now, step), steps, step)
  {
    AllListed(v);
    PassInOrder(v, now, steps, step);
    hide ListedBy, Listed, Unique, Judge, Pass;
    var w := Pass(v, now, step);
    forall i | 0 <= i < |w|
      ensures Listed(v, w[i].netid)
    {
      PassFrom(v, now, step, w[i]);
      var j :| 0 <= j < |v| && Judge(v[j], now, step) == Kept(w[i]);
      JudgeKeeps(v[j], now, step);
    }
  }

  lemma RemoveStays(v: seq<Node>, netid: nat, steps: seq<Step>, step: nat)
    requires Unique(v) && InOrder(v, steps, step)
    ensures Stays(v, Remove(v, netid), steps, step)
  {
    AllListed(v);
    hide ListedBy, Listed, Unique, FindNet;
    var w, k := Remove(v, netid), FindNet(v, netid);
    forall i | 0 <= i < |w|
      ensures w[i] == v[if k < |v| && i >= k then i + 1 else i]
    {
    }
  }

  lemma StaysInOrder(steps: seq<Step>, s: Step, step: nat)
    requires Unique(After(steps, step)) && InOrder(After(steps, step), steps, step)
    ensures Stays(After(steps, step), Next(After(steps, step), s, step), steps, step)
  {
    var v := After(steps, step);
    hide After, InOrder, Unique, Insert, Pass, Remove, Listed, ListedBy;
    match s
    case Scanned(info, now) => ScanStays(v, info, now, steps, step);
    case Checked(now) => CheckStays(v, now, steps, step);
    case Removed(netid) => RemoveStays(v, netid, steps, step);
    case Cleared =>
  }

  /** In every run the table is in the order of listing. */
  lemma {:induction false} RunInOrder(steps: seq<Step>, step: nat)
    ensures InOrder(After(steps, step), steps, step)
  {
    if steps != [] {
      var m := |steps| - 1;
      var p, s := steps[..m], steps[m];
      RunInOrder(p, step);
      RunOk(p, step);
      RunOk(steps, step);
      StaysInOrder(p, s, step);
      assert steps == p + [s];
      var w := After(steps, step);
      hide After, Unique, Next, Listed, ListedBy;
      forall i, j | 0 <= i < j < |w|
        ensures ListedBy(steps, step, w[i].netid) < ListedBy(steps, step, w[j].netid)
      {
        RecordAt(w, i);
        RecordAt(w, j);
        OrderCarries(p, s, step, w[i].netid, w[j].netid);
      }
    }
  }

  // ----- listed and online -----

  lemma LifeScan(v: seq<Node>, info: Scan, now: Word, id: nat)
    requires Unique(v)
    ensures var w := Insert(v, info, now);
            && (Listed(w, id) <==> Listed(v, id) || id == info.netid)
            && (Online(w, id) <==> Online(v, id) || id == info.netid)
  {
    LookupAfterInsert(v, info, now, id);
    InsertedOnline(v, info, now);
    hide Rescanned, NewNode;
  }

  lemma LifeCheck(v: seq<Node>, now: Word, step: nat, id: nat)
    requires Unique(v)
    ensures var w, i := Pass(v, now, step), FindNet(v, id);
            && (Listed(w, id) <==> Listed(v, id) && Judge(v[i], now, step).Kept?)
            && (Online(w, id) <==> Listed(v, id) && Judge(v[i], now, step).Kept? && Judge(v[i], now, step).node.online)
  {
    var w, i := Pass(v, now, step), FindNet(v, id);
    FindNetStops(v, id);
    FindNetStops(w, id);
    if Listed(v, id) {
      PassExactly(v, now, step, id);
    }
    hide Judge, Pass, OneKind;
    if Listed(w, id) {
      var k := FindNet(w, id);
      PassFrom(v, now, step, w[k]);
      var j :| 0 <= j < |v| && Judge(v[j], now, step) == Kept(w[k]);
      JudgeKeeps(v[j], now, step);
      assert j == i;
    }
  }

  lemma LifeRemove(v: seq<Node>, netid: nat, id: nat)
    requires Unique(v)
    ensures var w := Remove(v, netid);
            && (Listed(w, id) <==> Listed(v, id) && id != netid) && (Online(w, id) <==> Online(v, id) && id != netid)
  {
    var w, i, k := Remove(v, netid), FindNet(v, id), FindNet(v, netid);
    RemoveUnique(v, netid);
    FindNetStops(v, id);
    FindNetStops(v, netid);
    hide OneKind;
    if id != netid {
      FindNetIs(w, id, if k < |v| && i > k then i - 1 else i);
    }
  }

  lemma LifeChecked(steps: seq<Step>, now: Word, step: nat, id: nat)
    ensures var v, w := After(steps, step), Pass(After(steps, step), now, step);
            var last, marked := LastSeen(steps, id), MarkedSince(steps, step, id);
            var offtime := U32(marked + TWO32 - U32(step * 3));
            && (Online(w, id) <==> Online(v, id) && !(last > now || now - last >= U32(step * 4)))
            && (Listed(w, id) <==> Listed(v, id) && (Online(v, id) || U32(now + TWO32 - offtime) < U32(step * 10)))
  {
    hide After, Pass;
    RunOk(steps, step);
    RunTold(steps, step);
    var v := After(steps, step);
    LifeCheck(v, now, step, id);
    FindNetStops(v, id);
    hide Unique;
    if Listed(v, id) {
      assert Told(v[FindNet(v, id)], steps, step);
      assert TimesTold(v[FindNet(v, id)], steps, step);
    }
    hide AllTold, Told, ScansTold, AddrsTold, MarkedSince, LastSeen, U32;
  }

  /** When a netid is listed after a step, and when it is online: a scan lists it and brings it online, a check takes an
      online one offline when its last scan is four steps back, and drops an offline one when its mark is ten back. */
  lemma LifeExactly(steps: seq<Step>, s: Step, step: nat, id: nat)
    ensures var v, w := After(steps, step), After(steps + [s], step);
            match s
            case Scanned(info, now) =>
              && (Listed(w, id) <==> Listed(v, id) || id == info.netid)
              && (Online(w, id) <==> Online(v, id) || id == info.netid)
            case Checked(now) =>
              var last, marked := LastSeen(steps, id), MarkedSince(steps, step, id);
              var offtime := U32(marked + TWO32 - U32(step * 3));
              && (Online(w, id) <==> Online(v, id) && !(last > now || now - last >= U32(step * 4)))
              && (Listed(w, id) <==>
                    Listed(v, id) && (Online(v, id) || U32(now + TWO32 - offtime) < U32(step * 10)))
            case Removed(netid) =>
              && (Listed(w, id) <==> Listed(v, id) && id != netid)
              && (Online(w, id) <==> Online(v, id) && id != netid)
            case Cleared => !Listed(w, id)
  {
    RunOk(steps, step);
    OneMore(steps, s, step);
    var v := After(steps, step);
    hide After, Insert, Pass, Remove, Unique, MarkedSince, LastSeen, U32;
    match s
    case Scanned(info, now) => LifeScan(v, info, now, id);
    case Checked(now) => LifeChecked(steps, now, step, id);
    case Removed(netid) => LifeRemove(v, netid, id);
    case Cleared =>
  }
}
