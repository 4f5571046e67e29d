/** The byte queue of software/das/sdccp/bfifo.c: two free-running 32-bit counters over a ring of bytes.
    A section that holds the lock is one step; a wait gives the lock away between two sections. */
module ByteRing {
  import opened Bytes
  import opened Modular

  /** `in` is a reserved word here, so the counters are named for what they count. */
  datatype Ring = Ring(pushed: Word, pulled: Word, size: nat, buf: seq<bv8>)

  predicate Shape(r: Ring) {
    0 < r.size < 0x8000_0000 && |r.buf| == r.size
  }

  /** `f->in - f->out`. */
  function Count(r: Ring): nat {
    U32(r.pushed + TWO32 - r.pulled)
  }

  predicate Valid(r: Ring) {
    Shape(r) && Count(r) <= r.size
  }

  /** `f->size - f->in + f->out`. */
  function Room(r: Ring): nat
    requires Shape(r)
  {
    U32(r.size + TWO32 - r.pushed + r.pulled)
  }

  lemma RoomIs(r: Ring)
    requires Valid(r)
    ensures Room(r) == r.size - Count(r)
  {
  }

  // ----- the two-segment copies -----

  function Put(buf: seq<bv8>, at: nat, text: seq<bv8>): (b: seq<bv8>)
    requires at + |text| <= |buf|
    ensures |b| == |buf|
  {
    buf[..at] + text + buf[at + |text|..]
  }

  function Written(buf: seq<bv8>, pos: nat, d: seq<bv8>): (b: seq<bv8>)
    requires pos < |buf| && |d| <= |buf|
    ensures |b| == |buf|
  {
    var l := Min(|d|, |buf| - pos);
    Put(Put(buf, pos, d[..l]), 0, d[l..])
  }

  function Read(buf: seq<bv8>, pos: nat, n: nat): (d: seq<bv8>)
    requires pos < |buf| && n <= |buf|
    ensures |d| == n
  {
    var l := Min(n, |buf| - pos);
    buf[pos..pos + l] + buf[..n - l]
  }

  lemma ReadAt(buf: seq<bv8>, pos: nat, n: nat, i: nat)
    requires pos < |buf| && i < n <= |buf|
    ensures Read(buf, pos, n)[i] == buf[Wrap(pos + i, |buf|)]
  {
  }

  lemma PutAt(buf: seq<bv8>, at: nat, text: seq<bv8>, j: nat)
    requires at + |text| <= |buf| && j < |buf|
    ensures Put(buf, at, text)[j] == if at <= j < at + |text| then text[j - at] else buf[j]
  {
  }

  lemma WrittenAt(buf: seq<bv8>, pos: nat, d: seq<bv8>, i: nat)
    requires pos < |buf| && |d| <= |buf| && i < |buf|
    ensures Written(buf, pos, d)[Wrap(pos + i, |buf|)] == if i < |d| then d[i] else buf[Wrap(pos + i, |buf|)]
  {
    hide Put;
    var l, j := Min(|d|, |buf| - pos), Wrap(pos + i, |buf|);
    PutAt(buf, pos, d[..l], j);
    PutAt(Put(buf, pos, d[..l]), 0, d[l..], j);
  }

  /** Writing behind what is stored appends to what is read. */
  lemma ReadAfterWrite(buf: seq<bv8>, pos: nat, n: nat, d: seq<bv8>)
    requires pos < |buf| && n + |d| <= |buf|
    ensures Wrap(pos + n, |buf|) < |buf|
    ensures Read(Written(buf, Wrap(pos + n, |buf|), d), pos, n + |d|) == Read(buf, pos, n) + d
  {
    hide Read, Written;
    var size, at := |buf|, Wrap(pos + n, |buf|);
    var w := Written(buf, at, d);
    forall i | 0 <= i < n + |d|
      ensures Read(w, pos, n + |d|)[i] == (Read(buf, pos, n) + d)[i]
    {
      ReadAt(w, pos, n + |d|, i);
      if i >= n {
        WrittenAt(buf, at, d, i - n);
      } else {
        ReadAt(buf, pos, n, i);
        WrittenAt(buf, at, d, i + size - n);
      }
    }
  }

  lemma ReadPrefix(buf: seq<bv8>, pos: nat, n: nat, c: nat)
    requires pos < |buf| && n <= c <= |buf|
    ensures Read(buf, pos, n) == Read(buf, pos, c)[..n]
  {
  }

  lemma ReadSuffix(buf: seq<bv8>, pos: nat, n: nat, c: nat)
    requires pos < |buf| && n <= c <= |buf|
    ensures Wrap(pos + n, |buf|) < |buf| && Read(buf, Wrap(pos + n, |buf|), c - n) == Read(buf, pos, c)[n..]
  {
    hide Read;
    var at := Wrap(pos + n, |buf|);
    forall i | 0 <= i < c - n
      ensures Read(buf, at, c - n)[i] == Read(buf, pos, c)[n..][i]
    {
      ReadAt(buf, at, c - n, i);
      ReadAt(buf, pos, c, n + i);
    }
  }

  // ----- one section -----

  datatype Step =
    | Push(data: seq<bv8>)   // the copying section of a push, reached with the flag set
    | Pull(len: nat)         // likewise of a pull
    | Reset
    | Idle                   // a section that only tests, counts or gives up

  function Next(r: Ring, s: Step): (Ring, seq<bv8>)
    requires Valid(r)
  {
    RoomIs(r);
    match s
    case Push(d) =>
      var n := Min(|d|, Room(r));
      (Ring(U32(r.pushed + n), r.pulled, r.size, Written(r.buf, r.pushed % r.size, d[..n])), [])
    case Pull(len) =>
      var n := Min(len, Count(r));
      (r.(pulled := U32(r.pulled + n)), Read(r.buf, r.pulled % r.size, n))
    case Reset => (r.(pushed := 0, pulled := 0), [])
    case Idle => (r, [])
  }

  lemma PushCount(p: Word, o: Word, n: nat)
    requires U32(p + TWO32 - o) + n < TWO32
    ensures U32(U32(p + n) + TWO32 - o) == U32(p + TWO32 - o) + n
  {
  }

  lemma PullCount(p: Word, o: Word, n: nat)
    requires n <= U32(p + TWO32 - o)
    ensures U32(p + TWO32 - U32(o + n)) == U32(p + TWO32 - o) - n
  {
  }

  lemma NoBytes()
    ensures U32(TWO32) == 0
  {
  }

  lemma NextPush(r: Ring, d: seq<bv8>)
    requires Valid(r)
    ensures var n := Next(r, Push(d)).0;
            Valid(n) && n.size == r.size && Count(n) == Count(r) + Min(|d|, r.size - Count(r))
  {
    hide Written, Read, U32, Room;
    RoomIs(r);
    PushCount(r.pushed, r.pulled, Min(|d|, Room(r)));
  }

  lemma NextPull(r: Ring, len: nat)
    requires Valid(r)
    ensures var n := Next(r, Pull(len)).0;
            Valid(n) && n.size == r.size && Count(n) == Count(r) - Min(len, Count(r))
  {
    hide Written, Read, U32, Room;
    PullCount(r.pushed, r.pulled, Min(len, Count(r)));
  }

  lemma NextValid(r: Ring, s: Step)
    requires Valid(r)
    ensures Valid(Next(r, s).0) && Next(r, s).0.size == r.size
    ensures Count(Next(r, s).0) == match s
            case Push(d) => Count(r) + Min(|d|, r.size - Count(r))
            case Pull(n) => Count(r) - Min(n, Count(r))
            case Reset => 0
            case Idle => Count(r)
  {
    hide Written, Read, U32, Room;
    match s
    case Push(d) => NextPush(r, d); hide Next, Count;
    case Pull(n) => NextPull(r, n); hide Next, Count;
    case Reset => assert U32(TWO32) == 0 by { NoBytes(); }
    case Idle =>
  }

  lemma NothingAdded(x: Word)
    ensures U32(x + 0) == x
  {
  }

  lemma WrittenNothing(buf: seq<bv8>, pos: nat)
    requires pos < |buf|
    ensures Written(buf, pos, []) == buf
  {
  }

  /** Waking with nothing to take, or with no room, changes nothing. */
  lemma EmptyWakeup(r: Ring, d: seq<bv8>, len: nat)
    requires Valid(r)
    ensures Count(r) == 0 ==> Next(r, Pull(len)) == (r, [])
    ensures Count(r) == r.size ==> Next(r, Push(d)) == (r, [])
  {
    RoomIs(r);
    NothingAdded(r.pushed);
    NothingAdded(r.pulled);
    hide U32, Written;
    if Count(r) == r.size {
      WrittenNothing(r.buf, r.pushed % r.size);
      assert d[..0] == [];
    }
  }

  // ----- what the queue is for -----

  /** A bounded queue, and how many bytes it has taken since the last reset. */
  datatype Queue = Queue(bytes: seq<bv8>, total: nat)

  function Ideal(size: nat, q: Queue, s: Step): (Queue, seq<bv8>)
    requires |q.bytes| <= size
  {
    match s
    case Push(d) => var n := Min(|d|, size - |q.bytes|); (Queue(q.bytes + d[..n], q.total + n), [])
    case Pull(len) => var n := Min(len, |q.bytes|); (q.(bytes := q.bytes[n..]), q.bytes[..n])
    case Reset => (Queue([], 0), [])
    case Idle => (q, [])
  }

  lemma IdealBounded(size: nat, q: Queue, s: Step)
    requires |q.bytes| <= size
    ensures |Ideal(size, q, s).0.bytes| <= size
  {
  }

  /** What is stored, in the order a pull takes it. */
  function Contents(r: Ring): (c: seq<bv8>)
    requires Valid(r)
    ensures |c| == Count(r)
  {
    Read(r.buf, r.pulled % r.size, Count(r))
  }

  /** The next byte goes where the stored ones end. */
  predicate Aligned(r: Ring)
    requires Valid(r)
  {
    r.pushed % r.size == Wrap(r.pulled % r.size + Count(r), r.size)
  }

  /** The ring stands for the queue; the counter has not wrapped, or wrapping does no harm. */
  predicate Stands(r: Ring, q: Queue)
    requires Valid(r)
  {
    && Aligned(r) && Contents(r) == q.bytes
    && (TWO32 % r.size == 0 || (r.pushed == q.total < TWO32 && r.pulled + |q.bytes| == q.total))
  }

  lemma ModWrap(x: nat, size: nat)
    requires size > 0 && TWO32 % size == 0 && TWO32 <= x < 2 * TWO32
    ensures (x - TWO32) % size == x % size
  {
    var y, k := x - TWO32, TWO32 / size;
    assert TWO32 == k * size;
    assert y == (y / size) * size + y % size;
    assert (y / size + k) * size == (y / size) * size + k * size;
    ModUnique(x, y / size + k, y % size, size);
  }

  /** A counter moved on by n addresses n places further, where it does not wrap or wraps harmlessly. */
  lemma Advance(x: nat, n: nat, size: nat)
    requires 0 < size < TWO32 && x < TWO32 && n <= size && (TWO32 % size == 0 || x + n < TWO32)
    ensures U32(x + n) % size == Wrap(x % size + n, size)
  {
    ModStep(x, n, size);
    if x + n >= TWO32 {
      ModWrap(x + n, size);
    }
  }

  lemma NotWrapped(x: nat)
    requires x < TWO32
    ensures U32(x) == x
  {
  }

  lemma PlaceAfter(pos: nat, c: nat, n: nat, size: nat)
    requires pos < size && c + n <= size
    ensures Wrap(pos + c, size) < size && Wrap(Wrap(pos + c, size) + n, size) == Wrap(pos + (c + n), size)
  {
  }

  /** One section of the ring is one step of the queue, with the same bytes handed out. */
  predicate NextOk(r: Ring, q: Queue, s: Step)
    requires Valid(r) && Stands(r, q)
  {
    var a, b := Next(r, s), Ideal(r.size, q, s);
    Valid(a.0) && Stands(a.0, b.0) && a.1 == b.1
  }

  lemma PushStep(r: Ring, q: Queue, d: seq<bv8>)
    requires Valid(r) && Stands(r, q)
    requires TWO32 % r.size == 0 || q.total + Min(|d|, r.size - |q.bytes|) < TWO32
    ensures NextOk(r, q, Push(d))
  {
    hide Read, Written, U32, Wrap;
    var n := Min(|d|, r.size - Count(r));
    RoomIs(r);
    NextValid(r, Push(d));
    Advance(r.pushed, n, r.size);
    PlaceAfter(r.pulled % r.size, Count(r), n, r.size);
    ReadAfterWrite(r.buf, r.pulled % r.size, Count(r), d[..n]);
    if TWO32 % r.size != 0 {
      NotWrapped(r.pushed + n);
    }
  }

  lemma PullStep(r: Ring, q: Queue, len: nat)
    requires Valid(r) && Stands(r, q)
    ensures NextOk(r, q, Pull(len))
  {
    hide Read, Written;
    var n := Min(len, Count(r));
    NextValid(r, Pull(len));
    Advance(r.pulled, n, r.size);
    ReadPrefix(r.buf, r.pulled % r.size, n, Count(r));
    ReadSuffix(r.buf, r.pulled % r.size, n, Count(r));
  }

  lemma StepRefines(r: Ring, q: Queue, s: Step)
    requires Valid(r) && Stands(r, q)
    requires TWO32 % r.size == 0 || Ideal(r.size, q, s).0.total < TWO32
    ensures NextOk(r, q, s)
  {
    match s
    case Push(d) => PushStep(r, q, d);
    case Pull(len) => PullStep(r, q, len);
    case Reset => assert 0 % r.size == 0;
    case Idle =>
  }

  // ----- whole runs -----

  function Run(r: Ring, steps: seq<Step>): (res: (Ring, seq<seq<bv8>>))
    requires Valid(r)
    ensures Valid(res.0) && res.0.size == r.size
    decreases |steps|
  {
    if steps == [] then (r, [])
    else
      NextValid(r, steps[0]);
      var a := Next(r, steps[0]);
      var b := Run(a.0, steps[1..]);
      (b.0, [a.1] + b.1)
  }

  function IdealRun(size: nat, q: Queue, steps: seq<Step>): (Queue, seq<seq<bv8>>)
    requires |q.bytes| <= size
    decreases |steps|
  {
    if steps == [] then (q, [])
    else
      IdealBounded(size, q, steps[0]);
      var a := Ideal(size, q, steps[0]);
      var b := IdealRun(size, a.0, steps[1..]);
      (b.0, [a.1] + b.1)
  }

  /** The bytes taken since a reset stay below 2^32 throughout. */
  predicate Below(size: nat, q: Queue, steps: seq<Step>)
    requires |q.bytes| <= size
    decreases |steps|
  {
    steps == [] || (Ideal(size, q, steps[0]).0.total < TWO32 && Below(size, Ideal(size, q, steps[0]).0, steps[1..]))
  }

  lemma {:induction false} RunRefines(r: Ring, q: Queue, steps: seq<Step>)
    requires Valid(r) && Stands(r, q) && (TWO32 % r.size == 0 || Below(r.size, q, steps))
    ensures var a, b := Run(r, steps), IdealRun(r.size, q, steps); Stands(a.0, b.0) && a.1 == b.1
    decreases |steps|
  {
    if steps != [] {
      hide Next, Ideal, Stands;
      StepRefines(r, q, steps[0]);
      NextValid(r, steps[0]);
      IdealBounded(r.size, q, steps[0]);
      RunRefines(Next(r, steps[0]).0, Ideal(r.size, q, steps[0]).0, steps[1..]);
    }
  }

  function Fresh(size: nat, buf: seq<bv8>): Ring {
    Ring(0, 0, size, buf)
  }

  /** Every run of this size hands out what the ideal queue hands out. */
  ghost predicate AlwaysRefines(size: nat)
    requires 0 < size < 0x8000_0000
  {
    forall buf: seq<bv8>, steps: seq<Step> | |buf| == size ::
      Run(Fresh(size, buf), steps).1 == IdealRun(size, Queue([], 0), steps).1
  }

  lemma FreshStands(size: nat, buf: seq<bv8>)
    requires 0 < size < 0x8000_0000 && |buf| == size
    ensures Valid(Fresh(size, buf)) && Stands(Fresh(size, buf), Queue([], 0))
  {
    assert 0 % size == 0;
  }

  // ----- exactly the sizes that survive the wrap -----

  lemma {:induction false} RunConcat(r: Ring, s: seq<Step>, t: seq<Step>)
    requires Valid(r)
    ensures var a := Run(r, s); Run(r, s + t) == (Run(a.0, t).0, a.1 + Run(a.0, t).1) && |a.1| == |s|
    decreases |s|
  {
    hide Next;
    if s == [] {
      assert s + t == t && [] + Run(r, t).1 == Run(r, t).1;
    } else {
      NextValid(r, s[0]);
      var a := Next(r, s[0]);
      assert (s + t)[0] == s[0] && (s + t)[1..] == s[1..] + t;
      RunConcat(a.0, s[1..], t);
      var b := Run(a.0, s[1..]);
      assert [a.1] + (b.1 + Run(b.0, t).1) == ([a.1] + b.1) + Run(b.0, t).1;
    }
  }

  lemma {:induction false} IdealConcat(size: nat, q: Queue, s: seq<Step>, t: seq<Step>)
    requires |q.bytes| <= size
    ensures |IdealRun(size, q, s).0.bytes| <= size
    ensures var a := IdealRun(size, q, s); var b := IdealRun(size, a.0, t);
            IdealRun(size, q, s + t) == (b.0, a.1 + b.1) && |a.1| == |s|
    decreases |s|
  {
    hide Ideal;
    if s == [] {
      assert s + t == t && [] + IdealRun(size, q, t).1 == IdealRun(size, q, t).1;
    } else {
      IdealBounded(size, q, s[0]);
      var a := Ideal(size, q, s[0]);
      assert (s + t)[0] == s[0] && (s + t)[1..] == s[1..] + t;
      IdealConcat(size, a.0, s[1..], t);
      var b := IdealRun(size, a.0, s[1..]);
      assert [a.1] + (b.1 + IdealRun(size, b.0, t).1) == ([a.1] + b.1) + IdealRun(size, b.0, t).1;
    }
  }

  const BEAT: seq<Step> := [Push([0]), Pull(1)]

  /** n times one byte in and out. */
  function Beats(n: nat): seq<Step> {
    if n == 0 then [] else Beats(n - 1) + BEAT
  }

  lemma BeatIn(r: Ring)
    requires Valid(r) && r.pushed == r.pulled && r.pushed + 1 < TWO32
    ensures var a := Next(r, Push([0])).0; a.pushed == r.pushed + 1 && a.pulled == r.pulled && a.size == r.size
  {
    hide Written;
    RoomIs(r);
  }

  lemma BeatOut(a: Ring)
    requires Valid(a) && a.pushed == a.pulled + 1
    ensures var b := Next(a, Pull(1)).0; b.pushed == b.pulled == a.pushed && b.size == a.size
  {
    hide Read;
  }

  lemma RunTwo(r: Ring, a: Ring, b: Ring, s0: Step, s1: Step)
    requires Valid(r) && Next(r, s0).0 == a && Valid(a) && Next(a, s1).0 == b && Valid(b)
    ensures Run(r, [s0, s1]).0 == b
  {
    hide Next;
    assert [s0, s1][1..] == [s1] && [s1][1..] == [];
    assert Run(a, [s1]).0 == b;
  }

  lemma BeatOnRing(r: Ring)
    requires Valid(r) && r.pushed == r.pulled && r.pushed + 1 < TWO32
    ensures var a := Run(r, BEAT).0; a.pushed == a.pulled == r.pushed + 1
  {
    var a := Next(r, Push([0])).0;
    BeatIn(r);
    NextValid(r, Push([0]));
    var b := Next(a, Pull(1)).0;
    BeatOut(a);
    NextValid(a, Pull(1));
    hide Next, Run;
    RunTwo(r, a, b, Push([0]), Pull(1));
  }

  lemma BeatOnQueue(size: nat, q: Queue)
    requires size > 0 && q.bytes == []
    ensures IdealRun(size, q, BEAT).0 == Queue([], q.total + 1)
  {
    var a := Ideal(size, q, BEAT[0]).0;
    assert a == Queue([0], q.total + 1);
    assert Ideal(size, a, BEAT[1]).0 == Queue([], q.total + 1);
    hide Ideal;
    assert BEAT[1..] == [BEAT[1]] && BEAT[1..][1..] == [];
    assert IdealRun(size, a, [BEAT[1]]).0 == Queue([], q.total + 1);
  }

  lemma {:induction false} RingBeats(r: Ring, n: nat)
    requires Valid(r) && r.pushed == r.pulled == 0 && n < TWO32
    ensures var z := Run(r, Beats(n)).0; z.pushed == z.pulled == n
  {
    hide Valid, Next;
    if n > 0 {
      RingBeats(r, n - 1);
      RunConcat(r, Beats(n - 1), BEAT);
      hide Run;
      BeatOnRing(Run(r, Beats(n - 1)).0);
    }
  }

  lemma {:induction false} QueueBeats(size: nat, n: nat)
    requires size > 0
    ensures IdealRun(size, Queue([], 0), Beats(n)).0 == Queue([], n)
  {
    hide Ideal;
    if n > 0 {
      QueueBeats(size, n - 1);
      IdealConcat(size, Queue([], 0), Beats(n - 1), BEAT);
      hide IdealRun;
      BeatOnQueue(size, IdealRun(size, Queue([], 0), Beats(n - 1)).0);
    }
  }

  lemma FirstPush(z: Ring, x: bv8)
    requires Shape(z) && z.pushed == z.pulled == TWO32 - 1 && z.size >= 2
    ensures Valid(z) && Next(z, Push([x])).0 == Ring(0, TWO32 - 1, z.size, Written(z.buf, (TWO32 - 1) % z.size, [x]))
  {
    hide Written;
    RoomIs(z);
    assert [x][..1] == [x];
  }

  lemma SecondPush(a: Ring, y: bv8)
    requires Shape(a) && a.pushed == 0 && a.pulled == TWO32 - 1 && a.size >= 2
    ensures Valid(a) && Next(a, Push([y])).0 == Ring(1, TWO32 - 1, a.size, Written(a.buf, 0, [y]))
  {
    hide Written;
    RoomIs(a);
    assert [y][..1] == [y];
    assert 0 % a.size == 0;
  }

  lemma TwoRead(b: Ring, p: nat, y: bv8)
    requires Shape(b) && b.pushed == 1 && b.pulled == TWO32 - 1 && p == (TWO32 - 1) % b.size && p + 1 < b.size
    ensures Valid(b) && Next(b, Pull(2)).1 == [b.buf[p], b.buf[p + 1]]
  {
  }

  lemma StaleByte(buf: seq<bv8>, p: nat, x: bv8, y: bv8)
    requires p + 1 < |buf|
    ensures Written(Written(buf, p, [x]), 0, [y])[p + 1] == buf[p + 1]
  {
    WrittenAt(buf, p, [x], 1);
    WrittenAt(Written(buf, p, [x]), 0, [y], p + 1);
    hide Written;
  }

  lemma RunFirst(r: Ring, s: seq<Step>)
    requires Valid(r) && s != []
    ensures Valid(Next(r, s[0]).0)
    ensures Run(r, s).1 == [Next(r, s[0]).1] + Run(Next(r, s[0]).0, s[1..]).1
    ensures |s| == 1 ==> |Run(r, s).1| == 1
  {
    hide Next;
    NextValid(r, s[0]);
  }

  lemma RunThree(r: Ring, a: Ring, b: Ring, s0: Step, s1: Step, s2: Step)
    requires Valid(r) && Next(r, s0).0 == a && Valid(a) && Next(a, s1).0 == b && Valid(b)
    ensures |Run(r, [s0, s1, s2]).1| == 3 && Run(r, [s0, s1, s2]).1[2] == Next(b, s2).1
  {
    hide Next;
    NextValid(b, s2);
    RunFirst(b, [s2]);
    RunFirst(a, [s1, s2]);
    RunFirst(r, [s0, s1, s2]);
    hide Run;
    assert [s0, s1, s2][1..] == [s1, s2] && [s1, s2][1..] == [s2];
  }

  lemma AcrossWrap(z: Ring, x: bv8, y: bv8, p: nat)
    requires Shape(z) && z.pushed == z.pulled == TWO32 - 1 && p == (TWO32 - 1) % z.size && p + 1 < z.size
    ensures Valid(z)
    ensures var out := Run(z, [Push([x]), Push([y]), Pull(2)]).1;
            |out| == 3 && |out[2]| == 2 && out[2][1] == z.buf[p + 1]
  {
    var a := Ring(0, TWO32 - 1, z.size, Written(z.buf, p, [x]));
    var b := Ring(1, TWO32 - 1, z.size, Written(a.buf, 0, [y]));
    FirstPush(z, x);
    SecondPush(a, y);
    StaleByte(z.buf, p, x, y);
    hide Written, Run, Next;
    RunThree(z, a, b, Push([x]), Push([y]), Pull(2));
    TwoRead(b, p, y);
  }

  /** Where the counter starts again, the next byte goes to the front of the buffer, and a pull does not. */
  lemma WrapBreaks(z: Ring, x: bv8, y: bv8)
    requires Shape(z) && z.pushed == z.pulled == TWO32 - 1 && TWO32 % z.size != 0
    ensures (TWO32 - 1) % z.size + 1 < z.size && Valid(z)
    ensures y != z.buf[(TWO32 - 1) % z.size + 1] ==> Run(z, [Push([x]), Push([y]), Pull(2)]).1 != [[], [], [x, y]]
  {
    var p := (TWO32 - 1) % z.size;
    ModStep(TWO32 - 1, 1, z.size);
    AcrossWrap(z, x, y, p);
    hide Run, Next;
  }

  lemma IdealTwo(size: nat, q: Queue, x: bv8, y: bv8)
    requires size >= 2 && q.bytes == []
    ensures IdealRun(size, q, [Push([x]), Push([y]), Pull(2)]).1 == [[], [], [x, y]]
  {
    var steps := [Push([x]), Push([y]), Pull(2)];
    var a := Ideal(size, q, steps[0]).0;
    assert a == Queue([x], q.total + 1);
    var b := Ideal(size, a, steps[1]).0;
    assert b == Queue([x, y], q.total + 2);
    assert steps[1..] == [steps[1], steps[2]] && steps[1..][1..] == [steps[2]];
    assert Ideal(size, b, steps[2]).1 == [x, y];
    hide Ideal;
    assert IdealRun(size, b, [steps[2]]).1 == [[x, y]];
    assert IdealRun(size, a, [steps[1], steps[2]]).1 == [[], [x, y]];
  }

  lemma Broken(size: nat, buf: seq<bv8>)
    requires 0 < size < 0x8000_0000 && |buf| == size && TWO32 % size != 0
    ensures !AlwaysRefines(size)
  {
    FreshStands(size, buf);
    var r, q, n := Fresh(size, buf), Queue([], 0), TWO32 - 1;
    RingBeats(r, n);
    QueueBeats(size, n);
    var z := Run(r, Beats(n)).0;
    var y: bv8 := if z.buf[n % size + 1 - (if n % size + 1 == size then 1 else 0)] == 0 then 1 else 0;
    WrapBreaks(z, 0, y);
    var last := [Push([0]), Push([y]), Pull(2)];
    RunConcat(r, Beats(n), last);
    IdealConcat(size, q, Beats(n), last);
    IdealTwo(size, Queue([], n), 0, y);
    hide Run, IdealRun, Beats;
    var steps := Beats(n) + last;
    assert Run(r, steps).1[|Beats(n)|..] == Run(z, last).1;
    assert IdealRun(size, q, steps).1[|Beats(n)|..] == IdealRun(size, Queue([], n), last).1;
    assert Run(r, steps).1 != IdealRun(size, q, steps).1;
  }

  /** The ring is the bounded queue in every run if and only if its size divides 2^32. */
  lemma RefinesExactly(size: nat)
    requires 0 < size < 0x8000_0000
    ensures AlwaysRefines(size) <==> TWO32 % size == 0
  {
    hide Run, IdealRun;
    if TWO32 % size == 0 {
      forall buf: seq<bv8>, steps: seq<Step> | |buf| == size
        ensures Valid(Fresh(size, buf))
        ensures Run(Fresh(size, buf), steps).1 == IdealRun(size, Queue([], 0), steps).1
      {
        FreshStands(size, buf);
        RunRefines(Fresh(size, buf), Queue([], 0), steps);
      }
    } else {
      Broken(size, seq(size, _ => 0));
    }
  }
}

/** The queue with its buffer and counters updated in place. */
module ByteFifo {
  import opened Bytes
  import opened ByteRing

  /** What the section before a possible wait decides. */
  datatype Entry = Proceed | GiveUp | Wait

  lemma CountZero(p: Word, o: Word)
    ensures U32(p + TWO32 - o) == 0 <==> p == o
  {
  }

  lemma Pieces(b: seq<bv8>, i: nat, j: nat)
    requires i <= j <= |b|
    ensures b == b[..i] + b[i..j] + b[j..]
  {
  }

  class Fifo {
    var pushed: Word     // in
    var pulled: Word     // out
    const size: nat
    const buffer: array<bv8>

    ghost function View(): Ring
      reads this, buffer
    {
      Ring(pushed, pulled, size, buffer[..])
    }

    ghost predicate Valid()
      reads this, buffer
    {
      ByteRing.Valid(View())
    }

    /** `bfifo_init`; the size is what the caller allocated. */
    constructor (n: nat)
      requires 0 < n < 0x8000_0000
      ensures Valid() && fresh(buffer) && size == n && View() == Fresh(n, buffer[..])
    {
      pushed, pulled, size, buffer := 0, 0, n, new bv8[n](_ => 0);
      new;
      FreshStands(n, buffer[..]);
    }

    method Reset()
      requires Valid()
      modifies this
      ensures Valid() && View() == Next(old(View()), Step.Reset).0 && Contents(View()) == []
    {
      pushed, pulled := 0, 0;
      NextValid(old(View()), Step.Reset);
    }

    /** The test at the top of a push; a wait follows only from Wait. */
    method PushEnter(timeout: int) returns (e: Entry)
      requires Valid()
      ensures e.Proceed? <==> |Contents(View())| < size
      ensures e.GiveUp? <==> |Contents(View())| == size && timeout == 0
    {
      hide Read, U32;
      e := if size == U32(pushed + TWO32 - pulled) then if timeout == 0 then GiveUp else Wait else Proceed;
    }

    /** A copy that is left out when there is nothing to copy. */
    method CopyAt(pos: nat, text: seq<bv8>)
      requires pos + |text| <= buffer.Length
      modifies buffer
      ensures buffer[..] == Put(old(buffer[..]), pos, text)
    {
      if |text| > 0 {
        Copy(buffer, pos, text);
      }
      Pieces(buffer[..], pos, pos + |text|);
    }

    /** The two copies of a push. */
    method CopyIn(pos: nat, d: seq<bv8>)
      requires buffer.Length == size && pos < size && |d| <= size
      modifies buffer
      ensures buffer[..] == Written(old(buffer[..]), pos, d)
    {
      hide Put;
      var l := Min(|d|, size - pos);
      CopyAt(pos, d[..l]);
      CopyAt(0, d[l..]);
    }

    /** The rest of a push, with the flag the wait left; other sections may have run in between. */
    method PushFinish(flag: bool, data: seq<bv8>) returns (len: nat)
      requires Valid() && |data| < TWO32
      modifies this`pushed, buffer
      ensures Valid() && View() == Next(old(View()), if flag then Push(data) else Idle).0
      ensures len == if flag then Min(|data|, size - old(|Contents(View())|)) else 0
    {
      hide Written, Read, Contents, U32, ByteRing.Count;
      ghost var r := View();
      len := 0;
      if flag {
        NextValid(r, Push(data));
        RoomIs(r);
        var pos := pushed % size;
        len := Min(|data|, U32(size + TWO32 - pushed + pulled));
        assert len == Min(|data|, Room(r));
        CopyIn(pos, data[..len]);
        pushed := U32(pushed + len);
      }
    }

    method PullEnter(timeout: int) returns (e: Entry)
      requires Valid()
      ensures e.Proceed? <==> Contents(View()) != []
      ensures e.GiveUp? <==> Contents(View()) == [] && timeout == 0
    {
      hide Read, U32;
      CountZero(pushed, pulled);
      e := if pushed == pulled then if timeout == 0 then GiveUp else Wait else Proceed;
    }

    /** The two copies of a pull or a peek. */
    method CopyOut(pos: nat, n: nat) returns (d: seq<bv8>)
      requires buffer.Length == size && pos < size && n <= size
      ensures d == Read(buffer[..], pos, n)
    {
      var l := Min(n, size - pos);
      d := buffer[pos..pos + l];
      if n > l {
        d := d + buffer[..n - l];
      }
      assert buffer[..][pos..pos + l] == buffer[pos..pos + l] && buffer[..][..n - l] == buffer[..n - l];
    }

    method PullFinish(flag: bool, len: nat) returns (data: seq<bv8>)
      requires Valid() && len < TWO32
      modifies this`pulled
      ensures Valid() && (View(), data) == Next(old(View()), if flag then Pull(len) else Idle)
    {
      hide Read, U32;
      ghost var r := View();
      data := [];
      if flag {
        NextValid(r, Pull(len));
        var n := Min(len, U32(pushed + TWO32 - pulled));
        data := CopyOut(pulled % size, n);
        pulled := U32(pulled + n);
      }
    }

    /** `bfifo_peek` of a queue that is not empty. */
    method Peek(len: nat) returns (data: seq<bv8>)
      requires Valid() && len < TWO32 && Contents(View()) != []
      ensures |data| == Min(len, |Contents(View())|) && data == Contents(View())[..|data|]
    {
      hide Read;
      var n := Min(len, U32(pushed + TWO32 - pulled));
      data := CopyOut(pulled % size, n);
      ReadPrefix(buffer[..], pulled % size, n, ByteRing.Count(View()));
    }

    method Count() returns (n: nat)
      requires Valid()
      ensures n == |Contents(View())|
    {
      hide Read, U32;
      n := U32(pushed + TWO32 - pulled);
    }
  }
}
