/** The connection state list of software/das/board/net_helper.c, as a sequence of cells. */
module StateCells {
  /** `s` is the socket or -1; `info` stands for the other fields, zero when cleared. */
  datatype Cell = Cell(s: int, info: int)

  const TOMB: Cell := Cell(-1, 0)

  /** The walk of the list: the first cell with this socket, or any cleared cell if `tomb`; else the length. */
  function Seek(v: seq<Cell>, s: int, tomb: bool): (i: nat)
    ensures i <= |v|
  {
    if v == [] || v[0].s == s || (tomb && v[0].s == -1) then 0 else 1 + Seek(v[1..], s, tomb)
  }

  lemma {:induction false} SeekStops(v: seq<Cell>, s: int, tomb: bool)
    ensures var i := Seek(v, s, tomb);
            && (forall k :: 0 <= k < i ==> v[k].s != s && !(tomb && v[k].s == -1))
            && (i < |v| ==> v[i].s == s || (tomb && v[i].s == -1))
  {
    if v != [] && v[0].s != s && !(tomb && v[0].s == -1) {
      SeekStops(v[1..], s, tomb);
      assert forall k :: 1 <= k < |v| ==> v[k] == v[1..][k - 1];
    }
  }

  lemma SeekIs(v: seq<Cell>, s: int, tomb: bool, i: nat)
    requires i <= |v| && forall k :: 0 <= k < i ==> v[k].s != s && !(tomb && v[k].s == -1)
    requires i < |v| ==> v[i].s == s || (tomb && v[i].s == -1)
    ensures Seek(v, s, tomb) == i
  {
    SeekStops(v, s, tomb);
  }

  /** `net_tcpip_state_open` of a socket. */
  function Open(v: seq<Cell>, s: nat): seq<Cell> {
    var i := Seek(v, s, true);
    if i == |v| then v + [Cell(s, 0)] else if v[i].s == -1 then v[i := v[i].(s := s)] else v
  }

  /** `net_tcpip_state_close`. */
  function Close(v: seq<Cell>, s: nat): seq<Cell> {
    var i := Seek(v, s, false);
    if i < |v| then v[i := TOMB] else v
  }

  /** A caller writing through the pointer that `net_tcpip_state_get` gave it. */
  function Touch(v: seq<Cell>, s: nat, info: int): seq<Cell> {
    var i := Seek(v, s, false);
    if i < |v| then v[i := v[i].(info := info)] else v
  }

  /** At most one cell a socket; cleared cells are all zero. */
  predicate Tidy(v: seq<Cell>) {
    && (forall i, j :: 0 <= i < j < |v| && v[i].s == v[j].s ==> v[i].s == -1)
    && (forall i :: 0 <= i < |v| ==> v[i].s >= -1 && (v[i].s == -1 ==> v[i] == TOMB))
  }

  predicate Live(v: seq<Cell>, s: nat) {
    Seek(v, s, false) < |v|
  }

  /** The socket has a cell, and a cleared cell stands before it. */
  predicate Shadowed(v: seq<Cell>, s: nat) {
    Live(v, s) && Seek(v, s, true) < Seek(v, s, false)
  }

  lemma LiveAt(v: seq<Cell>, s: nat, i: nat)
    requires i < |v| && v[i].s == s
    ensures Live(v, s) && Seek(v, s, false) <= i
  {
    SeekStops(v, s, false);
  }

  /** Opening keeps one cell a socket if and only if the socket is not open behind a cleared cell. */
  lemma OpenTidyExactly(v: seq<Cell>, s: nat)
    requires Tidy(v)
    ensures Tidy(Open(v, s)) <==> !Shadowed(v, s)
  {
    SeekStops(v, s, true);
    SeekStops(v, s, false);
    var i, j, w := Seek(v, s, true), Seek(v, s, false), Open(v, s);
    if Shadowed(v, s) {
      assert w[i].s == w[j].s == s;
    } else if i < |v| && v[i].s == -1 {
      assert forall k :: 0 <= k < |v| && k != i ==> w[k] == v[k] && v[k].s != s;
    }
  }

  /** A second open with nothing in between changes nothing and finds the same cell. */
  lemma ReopenSame(v: seq<Cell>, s: nat)
    ensures Open(Open(v, s), s) == Open(v, s) && Seek(Open(v, s), s, true) == Seek(v, s, true)
  {
    SeekStops(v, s, true);
    var i, w := Seek(v, s, true), Open(v, s);
    assert w[i].s == s;
    SeekIs(w, s, true, i);
  }

  /** A shadowed socket opened again stays in the list when it is closed. */
  lemma ShadowSurvives(v: seq<Cell>, s: nat)
    requires Tidy(v) && Shadowed(v, s)
    ensures Live(Close(Open(v, s), s), s)
  {
    SeekStops(v, s, true);
    SeekStops(v, s, false);
    var i, j, w := Seek(v, s, true), Seek(v, s, false), Open(v, s);
    SeekIs(w, s, false, i);
    LiveAt(Close(w, s), s, j);
  }

  lemma CloseTidy(v: seq<Cell>, s: nat)
    requires Tidy(v)
    ensures Tidy(Close(v, s)) && !Live(Close(v, s), s)
  {
    SeekStops(v, s, false);
    var i, w := Seek(v, s, false), Close(v, s);
    if i < |v| {
      forall k | 0 <= k < |v|
        ensures w[k].s != s
      {
        if k < i {
          assert w[k] == v[k];
        }
      }
    }
    SeekIs(w, s, false, |w|);
  }

  // ----- counting -----

  /** The number of cells in use. */
  function InUse(v: seq<Cell>): (n: nat)
    ensures n <= |v|
  {
    if v == [] then 0 else InUse(v[..|v| - 1]) + (if v[|v| - 1].s == -1 then 0 else 1)
  }

  lemma {:induction false} InUseUpdate(v: seq<Cell>, i: nat, c: Cell)
    requires i < |v|
    ensures InUse(v[i := c]) == InUse(v) + (if c.s == -1 then 0 else 1) - (if v[i].s == -1 then 0 else 1)
  {
    var m, w := |v| - 1, v[i := c];
    if i == m {
      assert w[..m] == v[..m];
    } else {
      assert w[..m] == v[..m][i := c];
      InUseUpdate(v[..m], i, c);
    }
  }

  lemma {:induction false} InUseFull(v: seq<Cell>)
    ensures InUse(v) == |v| <==> forall k :: 0 <= k < |v| ==> v[k].s != -1
  {
    if v != [] {
      InUseFull(v[..|v| - 1]);
    }
  }

  // ----- runs -----

  datatype Step = Opens(s: nat) | Closes(s: nat) | Touches(s: nat, info: int)

  /** A map from open sockets to their fields, and the largest size it has had. */
  datatype Book = Book(live: map<nat, int>, peak: nat)

  function Next(v: seq<Cell>, t: Step): seq<Cell> {
    match t
    case Opens(s) => Open(v, s)
    case Closes(s) => Close(v, s)
    case Touches(s, info) => Touch(v, s, info)
  }

  function Kept(b: Book, t: Step): Book {
    match t
    case Opens(s) =>
      if s in b.live then b
      else var m := b.live[s := 0]; Book(m, if |m| > b.peak then |m| else b.peak)
    case Closes(s) => b.(live := b.live - {s})
    case Touches(s, info) => if s in b.live then b.(live := b.live[s := info]) else b
  }

  predicate HasCell(v: seq<Cell>, s: nat) {
    exists k :: 0 <= k < |v| && v[k].s == s
  }

  lemma LiveHasCell(v: seq<Cell>, s: nat)
    ensures Live(v, s) <==> HasCell(v, s)
  {
    SeekStops(v, s, false);
  }

  predicate Same(v: seq<Cell>, m: map<nat, int>) {
    && (forall i :: 0 <= i < |v| && v[i].s >= 0 ==> v[i].s in m && m[v[i].s] == v[i].info)
    && (forall s :: s in m ==> HasCell(v, s))
  }

  /** The list is the book: one cell an open socket, with its fields, and as many cells as were ever needed at once. */
  predicate Stands(v: seq<Cell>, b: Book) {
    Tidy(v) && Same(v, b.live) && InUse(v) == |b.live| && |v| == b.peak
  }

  lemma MapPut(m: map<nat, int>, s: nat, x: int)
    ensures |m[s := x]| == |m| + if s in m then 0 else 1
  {
    assert m[s := x].Keys == m.Keys + {s};
    assert |m[s := x].Keys| == |m[s := x]| && |m.Keys| == |m|;
  }

  lemma MapDrop(m: map<nat, int>, s: nat)
    ensures |m - {s}| == |m| - if s in m then 1 else 0
    ensures s !in m ==> m - {s} == m
  {
    assert (m - {s}).Keys == m.Keys - {s};
    assert |(m - {s}).Keys| == |m - {s}| && |m.Keys| == |m|;
  }

  lemma InBook(v: seq<Cell>, m: map<nat, int>, s: nat)
    requires Same(v, m)
    ensures s in m <==> HasCell(v, s)
  {
  }

  lemma FoundHasCell(v: seq<Cell>, s: nat, i: nat)
    requires i < |v| && v[i].s == s
    ensures HasCell(v, s)
  {
  }

  /** Every cell but one is a cell of the list before. */
  predicate OtherwiseSame(v: seq<Cell>, w: seq<Cell>, i: nat) {
    forall k :: 0 <= k < |w| && k != i ==> k < |v| && w[k] == v[k]
  }

  /** A cell that carries no socket of the book is given to a new one. */
  lemma SameAdded(v: seq<Cell>, m: map<nat, int>, w: seq<Cell>, i: nat, s: nat)
    requires Same(v, m) && s !in m && i < |w| && w[i] == Cell(s, 0) && |w| >= |v|
    requires OtherwiseSame(v, w, i)
    requires i < |v| ==> v[i].s == -1
    ensures Same(w, m[s := 0])
  {
    forall t: nat | t in m
      ensures HasCell(w, t)
    {
      var k :| 0 <= k < |v| && v[k].s == t;
      assert w[k].s == t;
    }
    assert w[i].s == s;
  }

  lemma SameRemoved(v: seq<Cell>, m: map<nat, int>, i: nat, s: nat)
    requires Same(v, m) && i < |v| && v[i].s == s && forall k :: 0 <= k < |v| && k != i ==> v[k].s != s
    ensures Same(v[i := TOMB], m - {s})
  {
    var w := v[i := TOMB];
    forall t: nat | t in m && t != s
      ensures HasCell(w, t)
    {
      var k :| 0 <= k < |v| && v[k].s == t;
      assert w[k].s == t;
    }
  }

  lemma SameWritten(v: seq<Cell>, m: map<nat, int>, i: nat, s: nat, info: int)
    requires Same(v, m) && i < |v| && v[i].s == s && forall k :: 0 <= k < |v| && k != i ==> v[k].s != s
    ensures Same(v[i := v[i].(info := info)], m[s := info])
  {
    var w := v[i := v[i].(info := info)];
    forall t: nat | t in m
      ensures HasCell(w, t)
    {
      var k :| 0 <= k < |v| && v[k].s == t;
      assert w[k].s == t;
    }
    assert w[i].s == s;
  }

  /** In a tidy list the found cell is the only one of its socket. */
  lemma OnlyCell(v: seq<Cell>, s: nat)
    requires Tidy(v)
    ensures var i := Seek(v, s, false);
            if i < |v| then v[i].s == s && forall k :: 0 <= k < |v| && k != i ==> v[k].s != s else !HasCell(v, s)
  {
    SeekStops(v, s, false);
  }

  lemma Cleared(v: seq<Cell>, i: nat)
    requires Tidy(v) && i < |v| && v[i].s == -1
    ensures v[i] == TOMB
  {
  }

  /** A socket without a cell takes the first cleared cell, or a new one behind the full list. */
  lemma OpenAdds(v: seq<Cell>, s: nat)
    requires Tidy(v) && !HasCell(v, s)
    ensures var i, w := Seek(v, s, true), Open(v, s);
            && i < |w| && w[i] == Cell(s, 0) && (i < |v| ==> v[i].s == -1)
            && OtherwiseSame(v, w, i)
            && InUse(w) == InUse(v) + 1 && |w| == if InUse(v) < |v| then |v| else |v| + 1
  {
    SeekStops(v, s, true);
    InUseFull(v);
    var i, w := Seek(v, s, true), Open(v, s);
    if i < |v| {
      assert v[i].s != s;
      Cleared(v, i);
      InUseUpdate(v, i, Cell(s, 0));
    } else {
      assert w[..|v|] == v;
    }
  }

  lemma OpenNew(v: seq<Cell>, b: Book, s: nat)
    requires Stands(v, b) && Tidy(Open(v, s)) && s !in b.live
    ensures Stands(Open(v, s), Kept(b, Opens(s)))
  {
    hide Tidy, HasCell, InUse, Open, Seek, Same, OtherwiseSame;
    MapPut(b.live, s, 0);
    InBook(v, b.live, s);
    OpenAdds(v, s);
    SameAdded(v, b.live, Open(v, s), Seek(v, s, true), s);
  }

  lemma OpenLive(v: seq<Cell>, s: nat)
    requires HasCell(v, s) && !Shadowed(v, s)
    ensures Open(v, s) == v
  {
    LiveHasCell(v, s);
    SeekStops(v, s, true);
    SeekStops(v, s, false);
  }

  lemma OpenStep(v: seq<Cell>, b: Book, s: nat)
    requires Stands(v, b) && !Shadowed(v, s)
    ensures Stands(Open(v, s), Kept(b, Opens(s)))
  {
    OpenTidyExactly(v, s);
    InBook(v, b.live, s);
    hide Tidy, HasCell, InUse, Open, Same, Shadowed, Stands;
    if s in b.live {
      OpenLive(v, s);
    } else {
      OpenNew(v, b, s);
    }
  }

  lemma CloseStep(v: seq<Cell>, b: Book, s: nat)
    requires Stands(v, b)
    ensures Stands(Close(v, s), Kept(b, Closes(s)))
  {
    hide Tidy, InUse, Same, HasCell;
    CloseTidy(v, s);
    OnlyCell(v, s);
    MapDrop(b.live, s);
    InBook(v, b.live, s);
    var i := Seek(v, s, false);
    if i < |v| {
      FoundHasCell(v, s, i);
      InUseUpdate(v, i, TOMB);
      SameRemoved(v, b.live, i, s);
    }
  }

  lemma TouchTidy(v: seq<Cell>, s: nat, info: int)
    requires Tidy(v)
    ensures Tidy(Touch(v, s, info)) && |Touch(v, s, info)| == |v| && InUse(Touch(v, s, info)) == InUse(v)
  {
    SeekStops(v, s, false);
    var i := Seek(v, s, false);
    if i < |v| {
      InUseUpdate(v, i, v[i].(info := info));
    }
    hide InUse;
  }

  lemma TouchStep(v: seq<Cell>, b: Book, s: nat, info: int)
    requires Stands(v, b)
    ensures Stands(Touch(v, s, info), Kept(b, Touches(s, info)))
  {
    TouchTidy(v, s, info);
    OnlyCell(v, s);
    MapPut(b.live, s, info);
    InBook(v, b.live, s);
    hide Tidy, InUse, Same, HasCell;
    var i := Seek(v, s, false);
    if i < |v| {
      FoundHasCell(v, s, i);
      SameWritten(v, b.live, i, s, info);
    }
  }

  /** Every open of the run is of a socket that is not open, or of one with no cleared cell before it. */
  predicate Careful(v: seq<Cell>, steps: seq<Step>)
    decreases |steps|
  {
    steps == [] || ((steps[0].Opens? ==> !Shadowed(v, steps[0].s)) && Careful(Next(v, steps[0]), steps[1..]))
  }

  function Run(v: seq<Cell>, steps: seq<Step>): seq<Cell>
    decreases |steps|
  {
    if steps == [] then v else Run(Next(v, steps[0]), steps[1..])
  }

  function Books(b: Book, steps: seq<Step>): Book
    decreases |steps|
  {
    if steps == [] then b else Books(Kept(b, steps[0]), steps[1..])
  }

  lemma {:induction false} RunStands(v: seq<Cell>, b: Book, steps: seq<Step>)
    requires Stands(v, b) && Careful(v, steps)
    ensures Stands(Run(v, steps), Books(b, steps))
    decreases |steps|
  {
    if steps != [] {
      match steps[0] {
        case Opens(s) => OpenStep(v, b, s);
        case Closes(s) => CloseStep(v, b, s);
        case Touches(s, info) => TouchStep(v, b, s, info);
      }
      hide Stands, Shadowed, Open, Close, Touch;
      RunStands(Next(v, steps[0]), Kept(b, steps[0]), steps[1..]);
    }
  }

  /** From the empty list, careful runs find exactly the open sockets, each with its own fields,
      and the list is as long as the largest number of sockets open at once. */
  lemma ListIsBook(steps: seq<Step>, s: nat)
    requires Careful([], steps)
    ensures var v, b := Run([], steps), Books(Book(map[], 0), steps);
            && |v| == b.peak && (Live(v, s) <==> s in b.live)
            && (s in b.live ==> v[Seek(v, s, false)] == Cell(s, b.live[s]))
  {
    RunStands([], Book(map[], 0), steps);
    var v := Run([], steps);
    LiveHasCell(v, s);
    OnlyCell(v, s);
  }

  /** Opens of sockets that are not open, and of the socket opened last with only writes in between, as the
      TCP client does before and after its connect; -1 stands for no such socket. */
  predicate ClientLike(v: seq<Cell>, steps: seq<Step>, current: int)
    decreases |steps|
  {
    steps == [] ||
      ((steps[0].Opens? ==> steps[0].s == current || !Live(v, steps[0].s)) &&
       ClientLike(Next(v, steps[0]), steps[1..],
                  if steps[0].Opens? then steps[0].s else if steps[0].Touches? then current else -1))
  }

  lemma TouchShadows(v: seq<Cell>, s: nat, info: int, t: nat)
    ensures Shadowed(Touch(v, s, info), t) <==> Shadowed(v, t)
  {
    SeekStops(v, s, false);
    SeekStops(v, t, false);
    SeekStops(v, t, true);
    var w := Touch(v, s, info);
    SeekIs(w, t, false, Seek(v, t, false));
    SeekIs(w, t, true, Seek(v, t, true));
  }

  /** A socket just opened is found before any cleared cell. */
  lemma FoundFirst(v: seq<Cell>, s: nat)
    ensures !Shadowed(Open(v, s), s)
  {
    SeekStops(v, s, true);
    var i, w := Seek(v, s, true), Open(v, s);
    SeekIs(w, s, true, i);
    LiveAt(w, s, i);
  }

  lemma {:induction false} ClientIsCareful(v: seq<Cell>, steps: seq<Step>, current: int)
    requires ClientLike(v, steps, current) && (current >= 0 ==> !Shadowed(v, current))
    ensures Careful(v, steps)
    decreases |steps|
  {
    if steps != [] {
      var w := Next(v, steps[0]);
      match steps[0] {
        case Opens(s) =>
          FoundFirst(v, s);
          assert !Shadowed(v, s);
          hide Open, Live, Shadowed;
          ClientIsCareful(w, steps[1..], s);
        case Touches(s, info) =>
          if current >= 0 {
            TouchShadows(v, s, info, current);
          }
          hide Touch, Live, Shadowed;
          ClientIsCareful(w, steps[1..], current);
        case Closes(s) =>
          hide Close, Live, Shadowed;
          ClientIsCareful(w, steps[1..], -1);
      }
    }
  }
}

/** The list itself: nodes linked in place. */
module NetStates {
  import opened StateCells

  class State {
    var s: int
    var info: int
    var next: State?

    constructor (fd: int)
      ensures s == fd && info == 0 && next == null
    {
      s, info, next := fd, 0, null;
    }
  }

  class States {
    var head: State?          // g_tcpip_states[n]
    ghost var spine: seq<State>

    ghost function At(k: nat): State?
      reads this
    {
      if k < |spine| then spine[k] else null
    }

    /** A node points to its successor. */
    ghost predicate Link(k: nat)
      requires k < |spine|
      reads this, spine
    {
      spine[k].next == At(k + 1)
    }

    ghost predicate Valid()
      reads this, spine
    {
      && head == At(0)
      && (forall k :: 0 <= k < |spine| ==> Link(k))
      && (forall k, l :: 0 <= k < l < |spine| ==> spine[k] != spine[l])
    }

    ghost function View(): (v: seq<Cell>)
      reads this, spine
      ensures |v| == |spine| && forall k :: 0 <= k < |spine| ==> v[k] == Cell(spine[k].s, spine[k].info)
    {
      seq(|spine|, k requires 0 <= k < |spine| reads this, spine => Cell(spine[k].s, spine[k].info))
    }

    constructor ()
      ensures Valid() && spine == [] && View() == []
    {
      head, spine := null, [];
    }

    /** `net_tcpip_state_get`. */
    method Get(s: int) returns (p: State?)
      requires Valid()
      ensures p == if s >= 0 then At(Seek(View(), s, false)) else null
    {
      if s < 0 {
        return null;
      }
      p := head;
      ghost var k := 0;
      while p != null
        invariant k <= |spine| && p == At(k)
        invariant forall i :: 0 <= i < k ==> View()[i].s != s
        decreases |spine| - k
      {
        if p.s == s {
          break;
        }
        assert Link(k);
        p := p.next;
        k := k + 1;
      }
      SeekIs(View(), s, false, k);
    }

    method SetSocket(ghost k: nat, p: State, fd: int)
      requires Valid() && k < |spine| && p == spine[k]
      modifies p
      ensures Valid() && View() == old(View())[k := old(View())[k].(s := fd)]
    {
      p.s := fd;
      forall i | 0 <= i < |spine|
        ensures Link(i)
      {
        assert old(Link(i));
      }
    }

    /** A new node behind the last one. */
    method Append(last: State?, fd: int) returns (p: State)
      requires Valid() && last == if spine == [] then null else spine[|spine| - 1]
      modifies this, spine
      ensures Valid() && fresh(p) && spine == old(spine) + [p] && View() == old(View()) + [Cell(fd, 0)]
    {
      p := new State(fd);
      if last != null {
        last.next := p;
      } else {
        head := p;
      }
      ghost var was := spine;
      spine := spine + [p];
      assert forall k :: 0 <= k < |was| ==> spine[k] == was[k] && was[k] != p;
      forall i | 0 <= i < |spine|
        ensures Link(i)
      {
        assert i < |was| ==> old(Link(i));
      }
    }

    /** `net_tcpip_state_open`, when the allocation succeeds. */
    method OpenState(s: int) returns (p: State?)
      requires Valid()
      modifies this, spine
      ensures Valid() && View() == if s >= 0 then Open(old(View()), s) else old(View())
      ensures p == if s >= 0 then At(Seek(old(View()), s, true)) else null
      ensures |spine| >= |old(spine)| && spine[..|old(spine)|] == old(spine)
      ensures forall x :: x in spine && x !in old(spine) ==> fresh(x)
    {
      if s < 0 {
        return null;
      }
      p := head;
      var last := p;
      ghost var k := 0;
      while p != null
        invariant k <= |spine| && p == At(k) && last == At(if k == 0 then 0 else k - 1)
        invariant forall i :: 0 <= i < k ==> View()[i].s != s && View()[i].s != -1
        decreases |spine| - k
      {
        if p.s == s || p.s == -1 {
          break;
        }
        assert Link(k);
        last := p;
        p := p.next;
        k := k + 1;
      }
      SeekIs(View(), s, true, k);
      if p == null {
        p := Append(last, s);
      } else if p.s == -1 {
        SetSocket(k, p, s);
      }
    }

    method Clear(ghost k: nat, p: State)
      requires Valid() && k < |spine| && p == spine[k]
      modifies p
      ensures Valid() && View() == old(View())[k := TOMB]
    {
      p.s, p.info := -1, 0;
      forall i | 0 <= i < |spine|
        ensures Link(i)
      {
        assert old(Link(i));
      }
    }

    /** `net_tcpip_state_close`. */
    method CloseState(s: int)
      requires Valid()
      modifies this, spine
      ensures Valid() && spine == old(spine) && View() == if s >= 0 then Close(old(View()), s) else old(View())
    {
      if s < 0 {
        return;
      }
      var p := head;
      ghost var k := 0;
      while p != null
        invariant Valid() && spine == old(spine) && View() == old(View())
        invariant k <= |spine| && p == At(k)
        invariant forall i :: 0 <= i < k ==> View()[i].s != s
        decreases |spine| - k
      {
        if p.s == s {
          break;
        }
        assert Link(k);
        p := p.next;
        k := k + 1;
      }
      SeekIs(View(), s, false, k);
      if p != null {
        Clear(k, p);
      }
    }
  }
}
