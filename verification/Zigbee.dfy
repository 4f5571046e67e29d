/** The node table of software/das/board/zgb_std.c as it lies in memory: a doubly linked list of nodes,
    each with a doubly linked list of address lists. */
module Zigbee {
  import opened Bytes
  import opened Sequences
  import T = ZigbeeTable

  class SNode {
    var kind: nat
    var addrs: seq<bv8>      // cnt entries of lst
    var next: SNode?
    var prev: SNode?

    constructor (k: nat, a: seq<bv8>)
      ensures kind == k && addrs == a && next == null && prev == null
    {
      kind, addrs, next, prev := k, a, null, null;
    }
  }

  ghost function SubAt(subs: seq<SNode>, k: int): SNode? {
    if 0 <= k < |subs| then subs[k] else null
  }

  /** The k-th list points to its neighbours. */
  ghost predicate SubLink(subs: seq<SNode>, k: nat)
    reads subs
  {
    k < |subs| ==> subs[k].next == SubAt(subs, k + 1) && subs[k].prev == SubAt(subs, k - 1)
  }

  ghost predicate SubsLinked(first: SNode?, subs: seq<SNode>)
    reads subs
  {
    && first == SubAt(subs, 0)
    && (forall k: nat :: SubLink(subs, k))
    && (forall k, l :: 0 <= k < l < |subs| ==> subs[k] != subs[l])
  }

  ghost function SubView(subs: seq<SNode>): (v: seq<T.Sub>)
    reads subs
    ensures |v| == |subs|
  {
    seq(|subs|, k requires 0 <= k < |subs| reads subs => T.Sub(subs[k].kind, subs[k].addrs))
  }

  /** Lists whose contents were not written look the same. */
  twostate lemma SubViewSame(subs: seq<SNode>)
    requires forall k :: 0 <= k < |subs| ==> subs[k].kind == old(subs[k].kind) && subs[k].addrs == old(subs[k].addrs)
    ensures SubView(subs) == old(SubView(subs))
  {
  }

  lemma SubViewWithout(subs: seq<SNode>, k: nat)
    requires k < |subs|
    ensures SubView(Without(subs, k)) == Without(SubView(subs), k)
  {
  }

  /** The k-th list is about to be taken out: its neighbours point past it. */
  ghost predicate SubBridge(subs: seq<SNode>, k: nat, i: nat)
    reads subs
  {
    i < |subs| ==>
      && subs[i].next == SubAt(subs, if i == k - 1 then i + 2 else i + 1)
      && subs[i].prev == SubAt(subs, if i == k + 1 then i - 2 else i - 1)
  }

  lemma LinkedWithout(subs: seq<SNode>, k: nat)
    requires k < |subs| && forall i, j :: 0 <= i < j < |subs| ==> subs[i] != subs[j]
    requires forall i: nat :: SubBridge(subs, k, i)
    ensures SubsLinked(if k == 0 then SubAt(subs, 1) else SubAt(subs, 0), Without(subs, k))
  {
    var w := Without(subs, k);
    forall i: nat
      ensures SubLink(w, i)
    {
      assert SubBridge(subs, k, if i < k then i else i + 1);
    }
  }

  /** The inner loop of the search: the addresses of one list. */
  method InList(addrs: seq<bv8>, addr: int) returns (found: bool)
    ensures found <==> T.AddrIn(addrs, addr)
  {
    found := false;
    for i := 0 to |addrs|
      invariant forall k :: 0 <= k < i ==> addrs[k] as int != addr
    {
      if addrs[i] as int == addr {
        return true;
      }
    }
  }

  class MNode {
    var workmode: nat
    var mac: seq<bv8>
    var netid: nat
    var online: bool
    var rssi: nat
    var uptime: Word
    var lasttime: Word
    var offtime: Word
    var snode: SNode?
    var next: MNode?
    var prev: MNode?
    ghost var subs: seq<SNode>

    ghost predicate Linked()
      reads this, subs
    {
      SubsLinked(snode, subs)
    }

    ghost function View(): T.Node
      reads this, subs
    {
      T.Node(workmode, mac, netid, online, rssi, uptime, lasttime, offtime, SubView(subs))
    }

    /** Nothing but the links to the neighbours has changed. */
    twostate predicate SameData()
      reads this
    {
      && workmode == old(workmode) && mac == old(mac) && netid == old(netid)
      && online == old(online) && rssi == old(rssi)
      && uptime == old(uptime) && lasttime == old(lasttime) && offtime == old(offtime)
      && snode == old(snode) && subs == old(subs)
    }

    /** A node from a scan, still without its list. */
    constructor (info: T.Scan, now: Word)
      ensures Linked() && subs == [] && next == null && prev == null
      ensures View() == T.Node(info.workmode, info.mac, info.netid, true, info.rssi, now, now, 0, [])
    {
      workmode, mac, netid, online, rssi := info.workmode, info.mac, info.netid, true, info.rssi;
      uptime, lasttime, offtime, snode, next, prev, subs := now, now, 0, null, null, null, [];
    }

    /** The scalar fields of a node scanned again; the mac stays. */
    method Rescan(info: T.Scan, now: Word)
      requires Linked()
      modifies this`workmode, this`netid, this`online, this`rssi, this`uptime, this`lasttime, this`offtime
      ensures Linked() && View() == T.Rescanned(old(View()), info, now).(subs := old(View()).subs)
    {
      hide T.InsertSub, SubView, SubsLinked;
      workmode := info.workmode;
      netid := info.netid;
      rssi := info.rssi;
      lasttime := now;
      if !online {
        online := true;
        uptime := lasttime;
        offtime := 0;
      }
    }

    /** `_snode_find_with_addr`. */
    method FindAddr(kind: nat, addr: int) returns (found: bool)
      requires Linked()
      ensures found <==> T.HasAddr(SubView(subs), kind, addr)
    {
      found := false;
      var node := snode;
      ghost var k := 0;
      hide T.AddrIn;
      while node != null
        invariant k <= |subs| && node == SubAt(subs, k)
        invariant forall i :: 0 <= i < k ==> !(subs[i].kind == kind && T.AddrIn(subs[i].addrs, addr))
        decreases |subs| - k
      {
        if node.kind == kind {
          var hit := InList(node.addrs, addr);
          if hit {
            assert SubView(subs)[k].kind == kind;
            return true;
          }
        }
        assert SubLink(subs, k);
        node := node.next;
        k := k + 1;
      }
    }

    /** The neighbours of a list are linked to each other. */
    method BridgeSub(node: SNode, ghost k: nat)
      requires Linked() && k < |subs| && node == subs[k]
      modifies this`snode, subs
      ensures snode == if k == 0 then SubAt(subs, 1) else SubAt(subs, 0)
      ensures forall i: nat :: SubBridge(subs, k, i)
      ensures forall i :: 0 <= i < |subs| ==> subs[i].kind == old(subs[i].kind) && subs[i].addrs == old(subs[i].addrs)
    {
      assert SubLink(subs, k);
      var p, n := node.prev, node.next;
      if p != null {
        p.next := n;
      } else {
        snode := n;
      }
      if n != null {
        n.prev := p;
      }
      forall i: nat
        ensures SubBridge(subs, k, i)
      {
        assert old(SubLink(subs, i));
      }
    }

    method UnlinkSub(node: SNode, ghost k: nat)
      requires Linked() && k < |subs| && node == subs[k]
      modifies this`snode, this`subs, subs
      ensures Linked() && subs == Without(old(subs), k) && SubView(subs) == Without(old(SubView(subs)), k)
    {
      BridgeSub(node, k);
      ghost var was := subs;
      SubViewSame(was);
      subs := Without(subs, k);
      hide SubView, Without;
      LinkedWithout(was, k);
      assert SubView(subs) == Without(SubView(was), k) by { SubViewWithout(was, k); }
    }

    /** `_snode_rm_one`. */
    method RmOne(kind: nat)
      requires Linked()
      modifies this`snode, this`subs, subs
      ensures Linked() && SubView(subs) == T.RmOne(old(SubView(subs)), kind)
      ensures forall s :: s in subs ==> s in old(subs)
    {
      var node := snode;
      ghost var k := 0;
      while node != null
        invariant k <= |subs| && node == SubAt(subs, k)
        invariant forall i :: 0 <= i < k ==> subs[i].kind != kind
        decreases |subs| - k
      {
        if node.kind == kind {
          break;
        }
        assert SubLink(subs, k);
        node := node.next;
        k := k + 1;
      }
      T.FindKindIs(SubView(subs), kind, k);
      if node != null {
        UnlinkSub(node, k);
      }
    }

    /** The walk to the last list. */
    method LastSub() returns (last: SNode?)
      requires Linked()
      ensures last == SubAt(subs, |subs| - 1)
    {
      last := snode;
      ghost var k := 0;
      while last != null && last.next != null
        invariant k <= |subs| && last == SubAt(subs, k) && (k > 0 ==> k < |subs|)
        invariant SubLink(subs, k)
        decreases |subs| - k
      {
        last := last.next;
        k := k + 1;
        assert SubLink(subs, k);
      }
    }

    /** The end of `_snode_insert`: behind the last list. */
    method AppendSub(s: SNode)
      requires Linked() && s !in subs && s.next == null && s.prev == null
      modifies this`snode, this`subs, subs, s
      ensures Linked() && subs == old(subs) + [s]
      ensures SubView(subs) == old(SubView(subs)) + [old(T.Sub(s.kind, s.addrs))]
    {
      var last := LastSub();
      if last != null {
        last.next := s;
        s.prev := last;
      } else {
        snode := s;
      }
      ghost var was := subs;
      SubViewSame(was);
      subs := subs + [s];
      hide SubView;
      forall i: nat
        ensures SubLink(subs, i)
      {
        if i < |was| {
          assert was[i] != s && old(SubLink(was, i));
        }
      }
    }

    /** `_snode_insert`. */
    method InsertSub(kind: nat, data: seq<bv8>)
      requires Linked()
      modifies this`snode, this`subs, subs
      ensures Linked() && SubView(subs) == T.InsertSub(old(SubView(subs)), kind, data)
      ensures forall s :: s in subs ==> s in old(subs) || fresh(s)
    {
      RmOne(kind);
      var node := new SNode(kind, T.Addrs(kind, data));
      hide SubView, SubsLinked, T.RmOne;
      assert node !in subs && forall s: SNode :: s in subs ==> s in old(subs);
      assert forall k :: 0 <= k < |subs| ==> subs[k] in old(subs);
      AppendSub(node);
    }
  }

  ghost function NodeAt(spine: seq<MNode>, k: int): MNode? {
    if 0 <= k < |spine| then spine[k] else null
  }

  ghost predicate NodeLink(spine: seq<MNode>, k: nat)
    reads spine
  {
    k < |spine| ==> spine[k].next == NodeAt(spine, k + 1) && spine[k].prev == NodeAt(spine, k - 1)
  }

  /** The nodes are doubly linked in order. */
  ghost predicate NodesLinked(first: MNode?, spine: seq<MNode>)
    reads spine
  {
    && first == NodeAt(spine, 0)
    && (forall k: nat :: NodeLink(spine, k))
    && (forall k, l :: 0 <= k < l < |spine| ==> spine[k] != spine[l])
  }

  ghost predicate NodeBridge(spine: seq<MNode>, k: nat, i: nat)
    reads spine
  {
    i < |spine| ==>
      && spine[i].next == NodeAt(spine, if i == k - 1 then i + 2 else i + 1)
      && spine[i].prev == NodeAt(spine, if i == k + 1 then i - 2 else i - 1)
  }

  lemma NodesWithout(spine: seq<MNode>, k: nat)
    requires k < |spine| && forall i, j :: 0 <= i < j < |spine| ==> spine[i] != spine[j]
    requires forall i: nat :: NodeBridge(spine, k, i)
    ensures NodesLinked(if k == 0 then NodeAt(spine, 1) else NodeAt(spine, 0), Without(spine, k))
  {
    var w := Without(spine, k);
    forall i: nat
      ensures NodeLink(w, i)
    {
      assert NodeBridge(spine, k, if i < k then i else i + 1);
    }
  }

  /** The node and its lists are in the footprint, and the lists are linked. */
  ghost predicate Owned(m: MNode, repr: set<object>)
    reads m, m.subs
  {
    m in repr && (forall s :: s in m.subs ==> s in repr) && m.Linked()
  }

  ghost predicate Disjoint(a: seq<SNode>, b: seq<SNode>) {
    forall i, j :: 0 <= i < |a| && 0 <= j < |b| ==> a[i] != b[j]
  }

  /** No list belongs to two nodes. */
  ghost predicate Apart(spine: seq<MNode>)
    reads spine
  {
    forall k, l :: 0 <= k < |spine| && 0 <= l < |spine| && k != l ==> Disjoint(spine[k].subs, spine[l].subs)
  }

  lemma AtEnd(spine: seq<MNode>, m: nat)
    requires m <= |spine|
    ensures NodeAt(spine, m) == null <==> m == |spine|
    ensures m < |spine| ==> NodeAt(spine, m) == spine[m]
  {
  }

  lemma TurnStart<A>(a: seq<A>, j: nat, v: seq<A>, m: nat)
    requires j <= |a| && m < |v| && a[j..] == v[m..]
    ensures j < |a| && a[j] == v[m] && (j + 1 < |a| <==> m + 1 < |v|) && (j + 1 < |a| ==> a[j + 1] == v[m + 1])
  {
    assert a[j..][0] == v[m..][0];
    assert m + 1 < |v| ==> a[j..][1] == v[m..][1];
  }

  /** Where the parts of a sequence stand when one element has been replaced by none or one. */
  lemma Turn<A>(a: seq<A>, j: nat, v: seq<A>, m: nat, x: seq<A>, b: seq<A>)
    requires j < |a| && m < |v| && a[j..] == v[m..] && b == a[..j] + x + a[j + 1..]
    ensures j + |x| <= |b| && b[..j + |x|] == a[..j] + x && b[j + |x|..] == v[m + 1..]
  {
    assert a[j..][1..] == a[j + 1..] && v[m..][1..] == v[m + 1..];
  }

  /** The node reads the same as before. */
  twostate predicate Kept(m: MNode)
    reads m, m.subs
  {
    m.View() == old(m.View()) && m.subs == old(m.subs) && m.Linked() == old(m.Linked())
  }

  twostate predicate Same(m: MNode)
    reads m, m.subs
  {
    unchanged(m) && unchanged(m.subs)
  }

  lemma OtherNodes(spine: seq<MNode>, first: MNode?, k: nat)
    requires NodesLinked(first, spine) && k < |spine|
    ensures forall i :: 0 <= i < |spine| && i != k ==> spine[i] != spine[k]
  {
  }

  twostate lemma Untouched(m: MNode)
    requires m.SameData() && unchanged(m.subs)
    ensures m.View() == old(m.View()) && m.Linked() == old(m.Linked())
  {
  }

  class Registry {
    var head: MNode?         // s_zgb_mnode
    ghost var spine: seq<MNode>
    ghost var repr: set<object>

    ghost predicate Valid()
      reads this, repr
    {
      && this !in repr
      && (forall k :: 0 <= k < |spine| ==> spine[k] in repr && (forall s :: s in spine[k].subs ==> s in repr))
      && (forall k :: 0 <= k < |spine| ==> Owned(spine[k], repr))
      && NodesLinked(head, spine) && Apart(spine)
    }

    ghost function View(): (v: seq<T.Node>)
      requires Valid()
      reads this, repr
      ensures |v| == |spine|
    {
      seq(|spine|, k requires 0 <= k < |spine| && Valid() reads this, repr => spine[k].View())
    }

    constructor ()
      ensures Valid() && View() == [] && fresh(repr)
    {
      head, spine, repr := null, [], {};
    }

    /** `zgb_mnode_find_with_netid`. */
    method FindNet(netid: nat) returns (p: MNode?)
      requires Valid()
      ensures p == NodeAt(spine, T.FindNet(View(), netid))
    {
      p := head;
      ghost var k := 0;
      while p != null
        invariant k <= |spine| && p == NodeAt(spine, k)
        invariant forall i :: 0 <= i < k ==> spine[i].netid != netid
        decreases |spine| - k
      {
        if p.netid == netid {
          break;
        }
        assert NodeLink(spine, k);
        p := p.next;
        k := k + 1;
      }
      T.FindNetIs(View(), netid, k);
    }

    /** `zgb_mnode_find_with_addr`. */
    method FindAddr(kind: nat, addr: int) returns (p: MNode?)
      requires Valid()
      ensures p == NodeAt(spine, T.FindAddr(View(), kind, addr))
    {
      hide T.HasAddr, SubView, SubsLinked, Disjoint;
      p := head;
      ghost var k := 0;
      while p != null
        invariant k <= |spine| && p == NodeAt(spine, k)
        invariant forall i :: 0 <= i < k ==> !T.HasAddr(View()[i].subs, kind, addr)
        decreases |spine| - k
      {
        assert p.View().subs == SubView(p.subs);
        var hit := p.FindAddr(kind, addr);
        if hit {
          break;
        }
        assert NodeLink(spine, k);
        p := p.next;
        k := k + 1;
      }
      T.FindAddrIs(View(), kind, addr, k);
    }

    /** `zgb_mnode_num`. */
    method Num() returns (num: nat)
      requires Valid()
      ensures num == |View()|
    {
      num := 0;
      var p := head;
      while p != null
        invariant num <= |spine| && p == NodeAt(spine, num)
        decreases |spine| - num
      {
        assert NodeLink(spine, num);
        p := p.next;
        num := num + 1;
      }
    }

    // ----- taking a node out -----

    /** The neighbours of a node are linked to each other. */
    method Bridge(node: MNode, ghost k: nat)
      requires NodesLinked(head, spine) && k < |spine| && node == spine[k]
      modifies this`head, spine
      ensures head == if k == 0 then NodeAt(spine, 1) else NodeAt(spine, 0)
      ensures forall i: nat :: NodeBridge(spine, k, i)
      ensures forall i :: 0 <= i < |spine| ==> spine[i].SameData()
    {
      assert NodeLink(spine, k);
      var p, n := node.prev, node.next;
      if p != null {
        p.next := n;
      } else {
        head := n;
      }
      if n != null {
        n.prev := p;
      }
      forall i: nat
        ensures NodeBridge(spine, k, i)
      {
        assert old(NodeLink(spine, i));
      }
    }

    method Detach(node: MNode, ghost k: nat)
      requires NodesLinked(head, spine) && k < |spine| && node == spine[k]
      modifies this, spine
      ensures NodesLinked(head, spine) && spine == Without(old(spine), k) && repr == old(repr)
      ensures forall i :: 0 <= i < |old(spine)| ==> Kept(old(spine)[i])
    {
      Bridge(node, k);
      ghost var was := spine;
      forall i | 0 <= i < |was|
        ensures Kept(was[i])
      {
        assert was[i].SameData();
        Untouched(was[i]);
      }
      NodesWithout(spine, k);
      spine := Without(spine, k);
    }

    /** One node less among kept ones. */
    twostate lemma Taken(k: nat)
      requires old(Valid()) && repr == old(repr) && k < |old(spine)| && spine == Without(old(spine), k)
      requires NodesLinked(head, spine) && forall i :: 0 <= i < |old(spine)| ==> Kept(old(spine)[i])
      ensures Valid() && View() == Without(old(View()), k)
    {
      var was := old(spine);
      hide NodesLinked, SubView, SubsLinked, Disjoint, MNode.View, MNode.Linked;
      forall i | 0 <= i < |spine|
        ensures Owned(spine[i], repr) && spine[i].View() == old(was[if i < k then i else i + 1].View())
        ensures spine[i].subs == old(was[if i < k then i else i + 1].subs)
      {
        var j := if i < k then i else i + 1;
        assert spine[i] == was[j] && old(Owned(was[j], repr)) && Kept(was[j]);
      }
    }

    lemma Footprint()
      requires Valid()
      ensures this !in repr && NodesLinked(head, spine) && forall k :: 0 <= k < |spine| ==> spine[k] in repr
    {
    }

    /** The node is out of the list, and everything else is as before. */
    method Unlink(node: MNode, ghost k: nat)
      requires Valid() && k < |spine| && node == spine[k]
      modifies this, spine
      ensures Valid() && repr == old(repr) && spine == Without(old(spine), k) && View() == Without(old(View()), k)
    {
      Footprint();
      hide Valid, View, NodesLinked, Without;
      Detach(node, k);
      Taken(k);
    }

    /** `zgb_mnode_rm_with_id`. */
    method RmWithId(netid: nat)
      requires Valid()
      modifies this, spine
      ensures Valid() && repr == old(repr) && View() == T.Remove(old(View()), netid)
    {
      var node := FindNet(netid);
      if node != null {
        Unlink(node, T.FindNet(View(), netid));
      }
    }

    /** `zgb_mnode_rm_all`. */
    method RmAll()
      requires Valid()
      modifies this
      ensures Valid() && View() == []
    {
      head, spine := null, [];
    }

    // ----- a scan -----

    method Last() returns (last: MNode?)
      requires NodesLinked(head, spine)
      ensures last == NodeAt(spine, |spine| - 1)
    {
      last := head;
      ghost var k := 0;
      while last != null && last.next != null
        invariant k <= |spine| && last == NodeAt(spine, k) && (k > 0 ==> k < |spine|)
        invariant NodeLink(spine, k)
        decreases |spine| - k
      {
        last := last.next;
        k := k + 1;
        assert NodeLink(spine, k);
      }
    }

    /** The node goes behind the last one. */
    method Hook(node: MNode)
      requires NodesLinked(head, spine) && node !in spine && node.next == null && node.prev == null
      modifies this`head, this`spine, spine, node
      ensures NodesLinked(head, spine) && spine == old(spine) + [node] && node.SameData()
      ensures forall i :: 0 <= i < |old(spine)| ==> old(spine)[i].SameData()
    {
      var last := Last();
      if last != null {
        last.next := node;
        node.prev := last;
      } else {
        head := node;
      }
      ghost var was := spine;
      spine := spine + [node];
      forall i: nat
        ensures NodeLink(spine, i)
      {
        if i < |was| {
          assert was[i] != node && old(NodeLink(was, i));
        }
      }
    }

    method Attach(node: MNode)
      requires NodesLinked(head, spine) && node !in spine && node.next == null && node.prev == null
      modifies this`head, this`spine, spine, node
      ensures NodesLinked(head, spine) && spine == old(spine) + [node] && Kept(node)
      ensures forall i :: 0 <= i < |old(spine)| ==> Kept(old(spine)[i])
    {
      ghost var was := spine;
      Hook(node);
      hide NodesLinked, SubView, SubsLinked;
      Untouched(node);
      forall i | 0 <= i < |was|
        ensures Kept(was[i])
      {
        assert was[i].SameData();
        Untouched(was[i]);
      }
    }

    /** A node behind kept ones. */
    twostate lemma Appended(new node: MNode)
      requires old(Valid()) && this !in repr && repr == old(repr) + {node} && spine == old(spine) + [node]
      requires NodesLinked(head, spine) && node.Linked() && node.subs == []
      requires forall i :: 0 <= i < |old(spine)| ==> Kept(old(spine)[i])
      ensures Valid() && View() == old(View()) + [node.View()]
    {
      var was := old(spine);
      hide NodesLinked, SubView, SubsLinked, MNode.View, MNode.Linked;
      forall i | 0 <= i < |was|
        ensures Owned(spine[i], repr) && spine[i].subs == old(was[i].subs) && spine[i].View() == old(was[i].View())
      {
        assert spine[i] == was[i] && old(Owned(was[i], repr)) && Kept(was[i]);
      }
      assert spine[|was|] == node;
    }

    method Append(node: MNode)
      requires Valid() && node !in repr && node.next == null && node.prev == null && node.Linked() && node.subs == []
      modifies this, spine, node
      ensures Valid() && repr == old(repr) + {node} && spine == old(spine) + [node]
      ensures View() == old(View()) + [old(node.View())] && node.subs == []
    {
      Attach(node);
      repr := repr + {node};
      hide Valid, View, NodesLinked, SubView, SubsLinked, MNode.View, MNode.Linked;
      assert node.Linked() && node.View() == old(node.View());
      Appended(node);
    }

    /** Data of one node has changed, links have not. */
    twostate lemma DataOnly(k: nat)
      requires old(Valid()) && spine == old(spine) && head == old(head) && old(repr) <= repr && this !in repr
      requires k < |spine| && Owned(spine[k], repr)
      requires forall i :: 0 <= i < |spine| ==>
        spine[i].next == old(spine[i].next) && spine[i].prev == old(spine[i].prev)
      requires forall i :: 0 <= i < |spine| && i != k ==> Same(spine[i]) && Disjoint(spine[k].subs, spine[i].subs)
      ensures Valid() && View() == old(View())[k := spine[k].View()]
    {
      hide SubView, SubsLinked;
      forall i: nat
        ensures NodeLink(spine, i)
      {
        assert old(NodeLink(spine, i));
      }
      forall i | 0 <= i < |spine| && i != k
        ensures Owned(spine[i], repr) && spine[i].View() == old(spine[i].View()) && spine[i].subs == old(spine[i].subs)
      {
        assert old(Owned(spine[i], repr));
      }
    }

    lemma ViewAt(k: nat)
      requires Valid() && k < |spine|
      ensures View()[k] == spine[k].View()
    {
    }

    lemma ValidParts(k: nat)
      requires Valid() && k < |spine|
      ensures this !in repr && spine[k] in repr && Owned(spine[k], repr) && NodesLinked(head, spine)
      ensures forall i :: 0 <= i < |spine| && i != k ==>
        Disjoint(spine[k].subs, spine[i].subs) && Owned(spine[i], repr) && spine[i] != spine[k]
    {
      OtherNodes(spine, head, k);
    }

    /** The scalar fields of a node already listed; the mac stays. */
    method Refresh(node: MNode, ghost k: nat, info: T.Scan, now: Word)
      requires Valid() && k < |spine| && node == spine[k] && info.netid == node.netid
      modifies node
      ensures Valid() && repr == old(repr) && spine == old(spine)
      ensures View() == old(View())[k := T.Rescanned(old(View())[k], info, now).(subs := old(View())[k].subs)]
      ensures node.subs == old(node.subs)
    {
      OtherNodes(spine, head, k);
      ValidParts(k);
      hide Valid, T.Rescanned, T.InsertSub, SubView, SubsLinked, NodesLinked, Disjoint;
      node.Rescan(info, now);
      DataOnly(k);
    }

    /** `_snode_insert` on one node touches no other. */
    method InsertApart(node: MNode, ghost k: nat, kind: nat, data: seq<bv8>)
      requires k < |spine| && node == spine[k] && Owned(node, repr) && this !in repr
      requires forall i :: 0 <= i < |spine| && i != k ==> Disjoint(node.subs, spine[i].subs) && spine[i] != node
      modifies this`repr, node`snode, node`subs, node.subs
      ensures Owned(node, repr) && old(repr) <= repr && fresh(repr - old(repr)) && this !in repr
      ensures forall i :: 0 <= i < |spine| ==>
        spine[i].next == old(spine[i].next) && spine[i].prev == old(spine[i].prev)
      ensures node.View() == old(node.View()).(subs := T.InsertSub(old(node.View()).subs, kind, data))
      ensures forall i :: 0 <= i < |spine| && i != k ==> Same(spine[i]) && Disjoint(node.subs, spine[i].subs)
    {
      hide T.InsertSub, SubView, SubsLinked;
      node.InsertSub(kind, data);
      forall i | 0 <= i < |spine| && i != k
        ensures Same(spine[i]) && Disjoint(node.subs, spine[i].subs)
      {
        assert old(Disjoint(node.subs, spine[i].subs)) && spine[i].subs == old(spine[i].subs);
        ghost var mine, theirs := node.subs, spine[i].subs;
        forall a, b | 0 <= a < |mine| && 0 <= b < |theirs|
          ensures mine[a] != theirs[b]
        {
          assert mine[a] in mine;
        }
      }
      repr := repr + set s | s in node.subs;
    }

    /** The addresses of the scan replace those of its kind. */
    method AddSub(node: MNode, ghost k: nat, kind: nat, data: seq<bv8>)
      requires Valid() && k < |spine| && node == spine[k]
      modifies this`repr, node, node.subs
      ensures Valid() && fresh(repr - old(repr)) && spine == old(spine)
      ensures View() == old(View())[k := old(View())[k].(subs := T.InsertSub(old(View())[k].subs, kind, data))]
    {
      ValidParts(k);
      ViewAt(k);
      hide Valid, View, T.InsertSub, SubView, SubsLinked, NodesLinked, Disjoint, Owned, MNode.View, Same;
      InsertApart(node, k, kind, data);
      DataOnly(k);
    }

    /** A node behind the last one, still without its list. */
    method AddNode(info: T.Scan, now: Word) returns (node: MNode)
      requires Valid()
      modifies this, spine
      ensures Valid() && fresh(repr - old(repr)) && fresh(node) && spine == old(spine) + [node] && node.subs == []
      ensures View() == old(View()) + [T.NewNode(info, now).(subs := [])]
    {
      Footprint();
      hide Valid, SubView, SubsLinked, NodesLinked, View, MNode.View;
      node := new MNode(info, now);
      Append(node);
    }

    method InsertNew(info: T.Scan, now: Word) returns (node: MNode)
      requires Valid()
      modifies this, spine
      ensures Valid() && fresh(repr - old(repr)) && View() == old(View()) + [T.NewNode(info, now)]
      ensures spine == old(spine) + [node]
    {
      hide Valid, T.InsertSub, SubView, SubsLinked, NodesLinked, View, MNode.View;
      node := AddNode(info, now);
      AddSub(node, |spine| - 1, info.kind, info.data);
    }

    method InsertOld(node: MNode, ghost k: nat, info: T.Scan, now: Word)
      requires Valid() && k < |spine| && node == spine[k] && info.netid == node.netid
      modifies this`repr, node, node.subs
      ensures Valid() && fresh(repr - old(repr)) && spine == old(spine)
      ensures View() == old(View())[k := T.Rescanned(old(View())[k], info, now)]
    {
      hide Valid, T.InsertSub, SubView, SubsLinked, NodesLinked;
      ghost var n := View()[k];
      Refresh(node, k, info, now);
      assert View()[k].subs == n.subs;
      AddSub(node, k, info.kind, info.data);
    }

    /** `zgb_mnode_insert`. */
    method Insert(info: T.Scan, now: Word) returns (node: MNode)
      requires Valid()
      modifies this, repr
      ensures Valid() && fresh(repr - old(repr)) && View() == T.Insert(old(View()), info, now)
      ensures NodeAt(spine, T.FindNet(old(View()), info.netid)) == node
    {
      ghost var k := T.FindNet(View(), info.netid);
      T.FindNetStops(View(), info.netid);
      Footprint();
      var found := FindNet(info.netid);
      if found == null {
        hide Valid, T.NewNode, T.Rescanned, SubView, SubsLinked, NodesLinked;
        node := InsertNew(info, now);
      } else {
        ValidParts(k);
        node := found;
        hide Valid, T.NewNode, T.Rescanned, SubView, SubsLinked, NodesLinked;
        InsertOld(node, k, info, now);
      }
    }

    // ----- the online check -----

    method MarkOffline(node: MNode, ghost k: nat, offtime: Word)
      requires Valid() && k < |spine| && node == spine[k]
      modifies node
      ensures Valid() && View() == old(View())[k := old(View())[k].(online := false, offtime := offtime)]
      ensures spine == old(spine)
    {
      OtherNodes(spine, head, k);
      ValidParts(k);
      hide Valid, SubView, SubsLinked, NodesLinked, Disjoint;
      node.online := false;
      node.offtime := offtime;
      DataOnly(k);
    }

    /** One turn of the loop of `zgb_check_online`. */
    method CheckNode(node: MNode, ghost k: nat, now: Word, step: nat)
      requires Valid() && k < |spine| && node == spine[k]
      modifies this, spine
      ensures Valid() && repr == old(repr)
      ensures View() == old(View())[..k] + T.Survivor(old(View())[k], now, step) + old(View())[k + 1..]
      ensures spine == old(spine)[..k] + (if T.Judge(old(View())[k], now, step).Kept? then [node] else [])
                       + old(spine)[k + 1..]
    {
      hide U32, NodesLinked, Owned, Apart, SubView, SubsLinked;
      if node.online {
        if node.lasttime > now || now - node.lasttime >= U32(step * 4) {
          MarkOffline(node, k, U32(now + TWO32 - U32(step * 3)));
        }
      } else if U32(now + TWO32 - node.offtime) >= U32(step * 10) {
        Unlink(node, k);
      }
    }

    /** The saved `node->next`. */
    method NextNode(node: MNode, ghost k: nat) returns (next: MNode?)
      requires Valid() && k < |spine| && node == spine[k]
      ensures next == NodeAt(spine, k + 1)
    {
      assert NodeLink(spine, k);
      next := node.next;
    }

    /** The pass has dealt with the first m nodes, of which j are left. */
    ghost predicate Midway(was: seq<MNode>, v: seq<T.Node>, m: nat, j: nat, now: Word, step: nat)
      requires Valid()
      reads this, repr
    {
      && m <= |v| == |was| && j <= |spine| && spine[j..] == was[m..]
      && View()[j..] == v[m..] && View()[..j] == T.Pass(v[..m], now, step)
    }

    lemma MidwayStart(now: Word, step: nat)
      requires Valid()
      ensures Midway(spine, View(), 0, 0, now, step) && head == NodeAt(spine, 0)
    {
      hide T.Judge, SubView, SubsLinked;
      assert View()[..0] == [];
    }

    lemma MidwayEnd(was: seq<MNode>, v: seq<T.Node>, j: nat, now: Word, step: nat)
      requires Valid() && Midway(was, v, |v|, j, now, step)
      ensures View() == T.Pass(v, now, step)
    {
      hide T.Pass, Valid, View;
      assert v[..|v|] == v && View()[..j] == View();
    }

    method CheckTurn(node: MNode, ghost was: seq<MNode>, ghost v: seq<T.Node>, ghost m: nat, ghost j: nat,
                     now: Word, step: nat)
      returns (next: MNode?, ghost i: nat)
      requires Valid() && Midway(was, v, m, j, now, step) && m < |v| && node == was[m]
      modifies this, spine
      ensures Valid() && repr == old(repr) && Midway(was, v, m + 1, i, now, step) && next == NodeAt(was, m + 1)
    {
      hide T.Judge, T.Pass, T.Survivor, Valid, View, SubView, SubsLinked, NodesLinked;
      ghost var a, b := View(), spine;
      TurnStart(a, j, v, m);
      TurnStart(b, j, was, m);
      next := NextNode(node, j);
      CheckNode(node, j, now, step);
      T.PassNext(v, m, now, step);
      T.SurvivorSize(v[m], now, step);
      Turn(a, j, v, m, T.Survivor(v[m], now, step), View());
      Turn(b, j, was, m, if T.Judge(v[m], now, step).Kept? then [node] else [], spine);
      i := j + |T.Survivor(v[m], now, step)|;
    }

    /** `zgb_check_online`. */
    method CheckOnline(now: Word, step: nat)
      requires Valid() && step < TWO32
      modifies this, repr
      ensures Valid() && repr == old(repr) && View() == T.Pass(old(View()), now, step)
    {
      ghost var v, was := View(), spine;
      var node := head;
      ghost var m: nat, j: nat := 0, 0;
      MidwayStart(now, step);
      hide *;
      while node != null
        invariant Valid() && repr == old(repr) && m <= |v| == |was|
        invariant Midway(was, v, m, j, now, step) && node == NodeAt(was, m)
        decreases |v| - m
      {
        Footprint();
        assert m < |was| by { AtEnd(was, m); }
        node, j := CheckTurn(node, was, v, m, j, now, step);
        m := m + 1;
      }
      AtEnd(was, m);
      MidwayEnd(was, v, j, now, step);
    }
  }
}
