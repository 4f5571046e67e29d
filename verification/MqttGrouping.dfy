/** Grouping the reported variables by meter: software/das/sdccp/sdccp_mqtt.c. */
module MeterGroups {
  import opened Sequences

  /** `nid` names the meter, `fid` the function; `value` stands for the averages. */
  datatype Var = Var(nid: string, fid: string, value: int)

  predicate Named(s: seq<Var>, nid: string) {
    exists k :: 0 <= k < |s| && s[k].nid == nid
  }

  /** The first variable of every meter, in the order of first occurrence. */
  function Firsts(s: seq<Var>): (r: seq<Var>)
    ensures |r| <= |s|
  {
    if s == [] then []
    else
      var m := |s| - 1;
      if Named(s[..m], s[m].nid) then Firsts(s[..m]) else Firsts(s[..m]) + [s[m]]
  }

  predicate Distinct(s: seq<Var>) {
    forall i, j :: 0 <= i < j < |s| ==> s[i].nid != s[j].nid
  }

  lemma NamedSnoc(s: seq<Var>, v: Var, nid: string)
    ensures Named(s + [v], nid) <==> Named(s, nid) || v.nid == nid
  {
    var t := s + [v];
    assert t[|s|] == v;
    if Named(s, nid) {
      var k :| 0 <= k < |s| && s[k].nid == nid;
      assert t[k].nid == nid;
    }
  }

  lemma {:induction false} FirstsNames(s: seq<Var>, nid: string)
    ensures Named(Firsts(s), nid) <==> Named(s, nid)
  {
    if s != [] {
      var m := |s| - 1;
      FirstsNames(s[..m], nid);
      NamedSnoc(s[..m], s[m], nid);
      NamedSnoc(Firsts(s[..m]), s[m], nid);
      assert s == s[..m] + [s[m]];
      hide Named;
    }
  }

  /** No two of the firsts are of one meter, and every meter has one. */
  lemma {:induction false} FirstsDistinct(s: seq<Var>)
    ensures Distinct(Firsts(s))
  {
    if s != [] {
      var m := |s| - 1;
      FirstsDistinct(s[..m]);
      FirstsNames(s[..m], s[m].nid);
      hide Firsts;
    }
  }

  lemma {:induction false} DistinctIsFirsts(s: seq<Var>)
    requires Distinct(s)
    ensures Firsts(s) == s
  {
    if s != [] {
      DistinctIsFirsts(s[..|s| - 1]);
      assert s == s[..|s| - 1] + [s[|s| - 1]];
    }
  }

  lemma SameNames(s: seq<Var>, i: nat, j: nat, nid: string)
    requires i < j < |s| && s[i].nid == s[j].nid
    ensures Named(Without(s, j), nid) <==> Named(s, nid)
  {
    var w := Without(s, j);
    assert w[i] == s[i];
    if Named(s, nid) {
      var k :| 0 <= k < |s| && s[k].nid == nid;
      assert k < j ==> w[k] == s[k];
      assert k > j ==> w[k - 1] == s[k];
    }
  }

  /** A later variable of a meter can be dropped. */
  lemma {:induction false} DropLater(s: seq<Var>, i: nat, j: nat)
    requires i < j < |s| && s[i].nid == s[j].nid
    ensures Firsts(Without(s, j)) == Firsts(s)
  {
    var m := |s| - 1;
    if j == m {
      assert Without(s, j) == s[..m];
      assert s[..m][i].nid == s[m].nid;
    } else {
      var w := Without(s, j);
      assert w[..|w| - 1] == Without(s[..m], j);
      DropLater(s[..m], i, j);
      assert w[|w| - 1] == s[m];
      SameNames(s[..m], i, j, s[m].nid);
    }
  }

  // ----- the groups -----

  /** Where the variables of a meter stand. */
  function Places(s: seq<Var>, nid: string): (p: seq<nat>)
    ensures |p| <= |s|
  {
    if s == [] then []
    else Places(s[..|s| - 1], nid) + if s[|s| - 1].nid == nid then [|s| - 1] else []
  }

  predicate OfMeter(s: seq<Var>, nid: string, i: nat) {
    i < |s| && s[i].nid == nid
  }

  /** They are all of them. */
  lemma {:induction false} PlacesAll(s: seq<Var>, nid: string)
    ensures forall i :: i in Places(s, nid) <==> OfMeter(s, nid, i)
  {
    if s != [] {
      var m := |s| - 1;
      PlacesAll(s[..m], nid);
      forall i: nat
        ensures i in Places(s, nid) <==> OfMeter(s, nid, i)
      {
        assert i in Places(s, nid) <==> i in Places(s[..m], nid) || (i == m && s[m].nid == nid);
      }
    }
  }

  predicate Ascending(p: seq<nat>) {
    forall k, l :: 0 <= k < l < |p| ==> p[k] < p[l]
  }

  /** In ascending order. */
  lemma {:induction false} PlacesAscend(s: seq<Var>, nid: string)
    ensures Ascending(Places(s, nid))
  {
    if s != [] {
      var m := |s| - 1;
      PlacesAscend(s[..m], nid);
      PlacesAll(s[..m], nid);
      var q := Places(s[..m], nid);
      forall k | 0 <= k < |q|
        ensures q[k] < m
      {
        assert q[k] in q;
      }
    }
  }

  /** The variables of a meter, in their order. */
  function Group(s: seq<Var>, nid: string): (g: seq<Var>)
    ensures |g| <= |s|
  {
    if s == [] then []
    else Group(s[..|s| - 1], nid) + if s[|s| - 1].nid == nid then [s[|s| - 1]] else []
  }

  lemma {:induction false} GroupIsPlaces(s: seq<Var>, nid: string)
    ensures |Group(s, nid)| == |Places(s, nid)|
    ensures forall k :: 0 <= k < |Group(s, nid)| ==> Places(s, nid)[k] < |s| && Group(s, nid)[k] == s[Places(s, nid)[k]]
  {
    if s != [] {
      var m := |s| - 1;
      GroupIsPlaces(s[..m], nid);
    }
  }

  /** How many variables the groups of a list of meters hold together. */
  function Sizes(s: seq<Var>, heads: seq<Var>): nat {
    if heads == [] then 0 else Sizes(s, heads[..|heads| - 1]) + |Group(s, heads[|heads| - 1].nid)|
  }

  /** One more variable enlarges the group of its meter by one, and no other. */
  lemma {:induction false} SizesSnoc(s: seq<Var>, v: Var, heads: seq<Var>)
    requires Distinct(heads)
    ensures Sizes(s + [v], heads) == Sizes(s, heads) + if Named(heads, v.nid) then 1 else 0
  {
    if heads != [] {
      var m := |heads| - 1;
      SizesSnoc(s, v, heads[..m]);
      assert (s + [v])[..|s|] == s;
      NamedSnoc(heads[..m], heads[m], v.nid);
      assert heads == heads[..m] + [heads[m]];
      assert Named(heads[..m], v.nid) ==> heads[m].nid != v.nid;
      hide Named;
    }
  }

  lemma {:induction false} EmptySizes(heads: seq<Var>)
    ensures Sizes([], heads) == 0
  {
    if heads != [] {
      EmptySizes(heads[..|heads| - 1]);
    }
  }

  /** If every variable's meter heads a group, no variable is lost and none is doubled. */
  lemma {:induction false} SizesSum(s: seq<Var>, heads: seq<Var>)
    requires Distinct(heads) && forall i :: 0 <= i < |s| ==> Named(heads, s[i].nid)
    ensures Sizes(s, heads) == |s|
  {
    if s == [] {
      EmptySizes(heads);
    } else {
      var m := |s| - 1;
      SizesSum(s[..m], heads);
      SizesSnoc(s[..m], s[m], heads);
      assert s == s[..m] + [s[m]];
    }
  }

  predicate InGroup(s: seq<Var>, h: seq<Var>, i: nat, j: nat) {
    j < |h| && i in Places(s, h[j].nid)
  }

  predicate Grouped(s: seq<Var>, h: seq<Var>, i: nat) {
    exists j :: 0 <= j < |h| && InGroup(s, h, i, j)
  }

  lemma NamedAt(s: seq<Var>, i: nat)
    requires i < |s|
    ensures Named(s, s[i].nid)
  {
  }

  lemma HeadOf(h: seq<Var>, nid: string) returns (j: nat)
    requires Named(h, nid)
    ensures j < |h| && h[j].nid == nid
  {
    j :| 0 <= j < |h| && h[j].nid == nid;
  }

  /** The groups headed by the firsts are a partition of the variables: each stands in exactly one. */
  lemma StablePartition(s: seq<Var>)
    ensures var h := Firsts(s);
            && Sizes(s, h) == |s|
            && (forall i :: 0 <= i < |s| ==> Grouped(s, h, i))
            && (forall i: nat, j: nat, k: nat :: InGroup(s, h, i, j) && InGroup(s, h, i, k) ==> j == k)
  {
    hide Firsts, Places, Sizes, Named;
    var h := Firsts(s);
    FirstsDistinct(s);
    forall i | 0 <= i < |s|
      ensures Named(h, s[i].nid) && Grouped(s, h, i)
    {
      FirstsNames(s, s[i].nid);
      NamedAt(s, i);
      var j := HeadOf(h, s[i].nid);
      PlacesAll(s, h[j].nid);
      assert OfMeter(s, h[j].nid, i);
      assert InGroup(s, h, i, j);
    }
    SizesSum(s, h);
    forall i: nat, j: nat, k: nat | InGroup(s, h, i, j) && InGroup(s, h, i, k)
      ensures j == k
    {
      PlacesAll(s, h[j].nid);
      PlacesAll(s, h[k].nid);
    }
  }
}

/** The static arrays and the loops over them. */
module MqttGrouping {
  import opened MeterGroups
  import opened Sequences

  const VAR_MAX := 128
  const NID_NUMS := 32

  /** `del_struct`: everything behind k moves one place down. */
  method DelStruct(pvars: array<Var>, len: nat, k: nat) returns (n: nat)
    requires k < len < pvars.Length
    modifies pvars
    ensures n == len - 1 && pvars[..n] == Without(old(pvars[..len]), k)
  {
    for i := k to len
      invariant forall p :: 0 <= p < k ==> pvars[p] == old(pvars[p])
      invariant forall p :: k <= p < i ==> pvars[p] == old(pvars[p + 1])
      invariant forall p :: i <= p < pvars.Length ==> pvars[p] == old(pvars[p])
    {
      pvars[i] := pvars[i + 1];
    }
    n := len - 1;
    ghost var w := Without(old(pvars[..len]), k);
    forall p | 0 <= p < n
      ensures pvars[p] == w[p]
    {
      if p >= k {
        assert w[p] == old(pvars[..len])[p + 1];
      }
    }
  }

  /** One pass of the inner loop; the variable that moves into a deleted place is skipped in this pass. */
  method DropEqual(pvars: array<Var>, len: nat, i: nat) returns (n: nat)
    requires i < len < pvars.Length
    modifies pvars
    ensures i < n <= len && Firsts(pvars[..n]) == Firsts(old(pvars[..len]))
    ensures n == len ==> pvars[..] == old(pvars[..]) && forall q :: i < q < len ==> pvars[i].nid != pvars[q].nid
  {
    hide Firsts;
    n := len;
    var j := i + 1;
    while j < n
      invariant i < j && i < n <= len && Firsts(pvars[..n]) == Firsts(old(pvars[..len]))
      invariant n == len ==>
        j <= n && pvars[..] == old(pvars[..]) && forall q :: i < q < j ==> pvars[i].nid != pvars[q].nid
    {
      if pvars[j].nid == pvars[i].nid {
        DropLater(pvars[..n], i, j);
        n := DelStruct(pvars, n, j);
      }
      j := j + 1;
    }
  }

  /** `find_key`: later variables of a meter are deleted; after a deletion the search starts again. */
  method FindKey(pvars: array<Var>, len: nat) returns (n: nat)
    requires len < pvars.Length
    modifies pvars
    ensures n <= len && pvars[..n] == Firsts(old(pvars[..len]))
  {
    hide Firsts, Without;
    n := len;
    var i := 0;
    while i < n
      invariant i <= n <= len && Firsts(pvars[..n]) == Firsts(old(pvars[..len]))
      invariant forall p, q :: 0 <= p < i && p < q < n ==> pvars[p].nid != pvars[q].nid
      decreases n, n - i
    {
      var m := DropEqual(pvars, n, i);
      if m < n {
        n := m;
        i := 0;
      } else {
        i := i + 1;
      }
    }
    DistinctIsFirsts(pvars[..n]);
  }

  /** `s_nid` and `var_index`: a name, a count and a row of variables for each meter. */
  class Table {
    const nids: array<string>
    const counts: array<nat>
    const rows: array2<Var>

    ghost predicate Valid()
      reads this, counts
    {
      && nids.Length == NID_NUMS && counts.Length == NID_NUMS && rows.Length0 == NID_NUMS && rows.Length1 == VAR_MAX
      && forall j :: 0 <= j < NID_NUMS ==> counts[j] <= VAR_MAX
    }

    ghost function Row(j: nat): seq<Var>
      requires Valid() && j < NID_NUMS
      reads this, counts, rows
    {
      seq(counts[j], k requires 0 <= k < counts[j] reads this, rows, counts =>
        if k < rows.Length1 && j < rows.Length0 then rows[j, k] else Var("", "", 0))
    }

    constructor ()
      ensures Valid() && fresh(nids) && fresh(counts) && fresh(rows)
      ensures forall j :: 0 <= j < NID_NUMS ==> Row(j) == [] && nids[j] == ""
    {
      nids := new string[NID_NUMS](_ => "");
      counts := new nat[NID_NUMS](_ => 0);
      rows := new Var[NID_NUMS, VAR_MAX]((_, _) => Var("", "", 0));
    }

    /** `s_nid[j].pvar[var_index[j]++] = v`. */
    method Add(j: nat, v: Var)
      requires Valid() && j < NID_NUMS && counts[j] < VAR_MAX
      modifies nids, counts, rows
      ensures Valid() && nids[j] == v.nid && Row(j) == old(Row(j)) + [v]
      ensures forall k :: 0 <= k < NID_NUMS && k != j ==> Row(k) == old(Row(k)) && nids[k] == old(nids[k])
    {
      nids[j] := v.nid;
      rows[j, counts[j]] := v;
      counts[j] := counts[j] + 1;
    }

    /** One meter's pass over the variables. */
    method Fill(vars: array<Var>, varNums: nat, j: nat, nid: string)
      requires Valid() && j < NID_NUMS && varNums < VAR_MAX == vars.Length && Row(j) == []
      modifies nids, counts, rows
      ensures Valid() && Row(j) == Group(vars[..varNums], nid) && (Row(j) != [] ==> nids[j] == nid)
      ensures forall k :: 0 <= k < NID_NUMS && k != j ==> Row(k) == old(Row(k)) && nids[k] == old(nids[k])
    {
      for i := 0 to varNums
        invariant Valid() && Row(j) == Group(vars[..i], nid) && (Row(j) != [] ==> nids[j] == nid)
        invariant forall k :: 0 <= k < NID_NUMS && k != j ==> Row(k) == old(Row(k)) && nids[k] == old(nids[k])
      {
        assert vars[..i + 1][..i] == vars[..i];
        if vars[i].nid == nid {
          Add(j, vars[i]);
        }
      }
    }
  }

  /** A first has a group. */
  lemma GroupNotEmpty(s: seq<Var>, j: nat)
    requires j < |Firsts(s)|
    ensures Group(s, Firsts(s)[j].nid) != []
  {
    var nid := Firsts(s)[j].nid;
    NamedAt(Firsts(s), j);
    FirstsNames(s, nid);
    hide Firsts, Named;
    var i := HeadOf(s, nid);
    PlacesAll(s, nid);
    GroupIsPlaces(s, nid);
    assert OfMeter(s, nid, i);
  }

  /** The grouping of one report. */
  method GroupVars(vars: array<Var>, varNums: nat) returns (t: Table, n: nat)
    requires varNums < VAR_MAX == vars.Length && |Firsts(vars[..varNums])| <= NID_NUMS
    ensures vars[..] == old(vars[..]) && fresh(t) && t.Valid() && n == |Firsts(vars[..varNums])|
    ensures forall j :: 0 <= j < n ==>
      var nid := Firsts(vars[..varNums])[j].nid; t.nids[j] == nid && t.Row(j) == Group(vars[..varNums], nid)
  {
    hide Firsts, Group;
    ghost var s := vars[..varNums];
    var varsDel := new Var[VAR_MAX](i requires 0 <= i < VAR_MAX reads vars =>
      if i < vars.Length then vars[i] else Var("", "", 0));
    assert varsDel[..varNums] == s;
    n := FindKey(varsDel, varNums);
    ghost var heads := varsDel[..n];
    t := new Table();
    for j := 0 to n
      invariant t.Valid() && fresh(t) && fresh(t.nids) && fresh(t.counts) && fresh(t.rows)
      invariant varsDel[..n] == heads && vars[..varNums] == s
      invariant forall k :: 0 <= k < j ==> t.nids[k] == heads[k].nid && t.Row(k) == Group(s, heads[k].nid)
      invariant forall k :: j <= k < NID_NUMS ==> t.Row(k) == []
    {
      assert varsDel[j] == heads[j];
      t.Fill(vars, varNums, j, varsDel[j].nid);
      GroupNotEmpty(s, j);
    }
  }
}
