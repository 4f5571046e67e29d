/** The message queue of software/das/block_msg_queue.c: a ring with one slot kept free. */
module MsgRing {
  import opened Bytes
  import opened Modular

  /** `slots` is max_msgs of the C code: one more than was asked for. */
  datatype Mq = Mq(msgSize: nat, slots: nat, head: nat, tail: nat, pool: seq<seq<bv8>>)

  datatype Err = Ok | Other | Timeout | Full | Size

  predicate Valid(m: Mq) {
    && m.slots >= 2 && m.head < m.slots && m.tail < m.slots && |m.pool| == m.slots
    && forall i :: 0 <= i < m.slots ==> |m.pool[i]| == m.msgSize
  }

  /** What `b_mq_msgs` computes. */
  function Msgs(m: Mq): nat
    requires Valid(m)
  {
    (m.tail - m.head + m.slots) % m.slots
  }

  lemma RingMod(x: nat, size: nat)
    requires size > 0 && x < 2 * size
    ensures x % size == Wrap(x, size)
  {
    ModUnique(x, if x < size then 0 else 1, Wrap(x, size), size);
  }

  lemma MsgsIs(m: Mq)
    requires Valid(m)
    ensures Msgs(m) == Wrap(m.tail - m.head + m.slots, m.slots) < m.slots
  {
    RingMod(m.tail - m.head + m.slots, m.slots);
  }

  function Padded(msg: seq<bv8>, size: nat): (p: seq<bv8>)
    requires |msg| <= size
    ensures |p| == size && msg <= p
  {
    msg + Zeros(size - |msg|)
  }

  /** The locked section of `b_mq_send`. */
  function Send(m: Mq, msg: seq<bv8>): (Mq, Err)
    requires Valid(m)
  {
    if |msg| > m.msgSize then (m, Size)
    else if (m.tail + 1) % m.slots == m.head then (m, Full)
    else (m.(pool := m.pool[m.tail := Padded(msg, m.msgSize)], tail := (m.tail + 1) % m.slots), Ok)
  }

  /** The copying part of `b_mq_recv`, which does not look whether there is a message. */
  function Take(m: Mq, size: nat): (Mq, seq<bv8>)
    requires Valid(m) && size <= m.msgSize
  {
    (m.(head := (m.head + 1) % m.slots), m.pool[m.head][..size])
  }

  /** The slot i places behind the head. */
  function Slot(m: Mq, i: nat): (msg: seq<bv8>)
    requires Valid(m) && i < m.slots
    ensures |msg| == m.msgSize
  {
    m.pool[Wrap(m.head + i, m.slots)]
  }

  /** The stored messages, oldest first. */
  function Contents(m: Mq): (c: seq<seq<bv8>>)
    requires Valid(m)
    ensures |c| == Msgs(m) && forall k :: 0 <= k < |c| ==> |c[k]| == m.msgSize
  {
    MsgsIs(m);
    seq(Msgs(m), i requires 0 <= i < Msgs(m) => Slot(m, i))
  }

  lemma SendShape(m: Mq, msg: seq<bv8>)
    requires Valid(m)
    ensures Valid(Send(m, msg).0) && Send(m, msg).0.slots == m.slots && Send(m, msg).0.msgSize == m.msgSize
  {
    RingMod(m.tail + 1, m.slots);
    hide Padded;
  }

  /** A send appends the padded message, unless the queue holds as many as were asked for. */
  lemma SendAppends(m: Mq, msg: seq<bv8>)
    requires Valid(m)
    ensures Valid(Send(m, msg).0)
    ensures Send(m, msg).1 == if |msg| > m.msgSize then Size else if Msgs(m) == m.slots - 1 then Full else Ok
    ensures Contents(Send(m, msg).0) == Contents(m) + if Send(m, msg).1 == Ok then [Padded(msg, m.msgSize)] else []
  {
    SendShape(m, msg);
    RingMod(m.tail + 1, m.slots);
    var t := Send(m, msg).0;
    MsgsIs(m);
    MsgsIs(t);
    hide Padded;
    if Send(m, msg).1 == Ok {
      var c := Contents(m) + [Padded(msg, m.msgSize)];
      assert Msgs(t) == Msgs(m) + 1;
      forall i | 0 <= i < Msgs(t)
        ensures Contents(t)[i] == c[i]
      {
        assert Contents(t)[i] == Slot(t, i);
        assert i < Msgs(m) ==> Wrap(m.head + i, m.slots) != m.tail;
      }
    }
  }

  lemma TakeShape(m: Mq, size: nat)
    requires Valid(m) && size <= m.msgSize
    ensures var t := Take(m, size); Valid(t.0) && t.0.slots == m.slots && t.0.msgSize == m.msgSize && |t.1| == size
  {
    RingMod(m.head + 1, m.slots);
  }

  /** From a queue with messages the oldest is taken. */
  lemma TakeFirst(m: Mq, size: nat)
    requires Valid(m) && size <= m.msgSize && Contents(m) != []
    ensures var t := Take(m, size); Valid(t.0) && Contents(t.0) == Contents(m)[1..] && t.1 == Contents(m)[0][..size]
  {
    var t := Take(m, size).0;
    TakeShape(m, size);
    RingMod(m.head + 1, m.slots);
    MsgsIs(m);
    MsgsIs(t);
    assert Msgs(t) == Msgs(m) - 1;
    assert Contents(m)[0] == Slot(m, 0);
    forall i | 0 <= i < Msgs(t)
      ensures Contents(t)[i] == Contents(m)[1..][i]
    {
      assert Contents(m)[1 + i] == Slot(m, 1 + i) == Slot(t, i);
    }
  }

  /** From an empty queue an old slot is taken, and the head runs past the tail: the queue then reads as full. */
  lemma EmptyTake(m: Mq, size: nat)
    requires Valid(m) && size <= m.msgSize && Contents(m) == []
    ensures var t := Take(m, size); Valid(t.0) && Msgs(t.0) == m.slots - 1
    ensures forall msg :: |msg| <= m.msgSize ==> Send(Take(m, size).0, msg).1 == Full
  {
    var t := Take(m, size).0;
    TakeShape(m, size);
    RingMod(m.head + 1, m.slots);
    MsgsIs(m);
    MsgsIs(t);
    forall msg: seq<bv8> | |msg| <= m.msgSize
      ensures Send(t, msg).1 == Full
    {
      SendAppends(t, msg);
    }
  }

  lemma ResetEmpty(m: Mq)
    requires Valid(m)
    ensures Valid(m.(head := 0, tail := 0)) && Contents(m.(head := 0, tail := 0)) == []
  {
    MsgsIs(m.(head := 0, tail := 0));
  }
}

/** The queue with its indices and slots updated in place; a wait splits a receive into two locked sections. */
module BlockMsgQueue {
  import opened Bytes
  import opened MsgRing

  /** What the first section of a receive leads to. */
  datatype Entered = Failed(err: Err) | Taken(bytes: seq<bv8>) | MustWait

  /** `memset` then `memcpy`. */
  method FillSlot(slot: array<bv8>, msg: seq<bv8>)
    requires |msg| <= slot.Length
    modifies slot
    ensures slot[..] == Padded(msg, slot.Length)
  {
    for i := 0 to slot.Length
      invariant forall k :: 0 <= k < i ==> slot[k] == 0
    {
      slot[i] := 0;
    }
    ghost var cleared := slot[|msg|..];
    assert cleared == Zeros(slot.Length - |msg|);
    Copy(slot, 0, msg);
    assert slot[..] == slot[0..0 + |msg|] + slot[0 + |msg|..] == msg + cleared;
  }

  class MsgQueue {
    const msgSize: nat
    const slots: nat
    var head: nat
    var tail: nat
    const pool: array<array<bv8>>

    ghost predicate Valid()
      reads this, pool, pool[..]
    {
      && slots >= 2 && head < slots && tail < slots && pool.Length == slots
      && (forall i :: 0 <= i < slots ==> pool[i].Length == msgSize && pool[i] as object != pool)
      && (forall i, j :: 0 <= i < slots && 0 <= j < slots && i != j ==> pool[i] != pool[j])
    }

    ghost function Slots(): (s: seq<seq<bv8>>)
      reads this, pool, pool[..]
      ensures |s| == pool.Length && forall i :: 0 <= i < pool.Length ==> s[i] == pool[i][..]
    {
      seq(pool.Length, i requires 0 <= i < pool.Length reads this, pool, pool[..] => pool[i][..])
    }

    ghost function View(): (m: Mq)
      requires Valid()
      reads this, pool, pool[..]
      ensures MsgRing.Valid(m)
    {
      Mq(msgSize, slots, head, tail, Slots())
    }

    /** `b_mq_create` of a positive number of messages. */
    constructor (size: nat, maxMsgs: nat)
      requires maxMsgs > 0
      ensures Valid() && fresh(pool) && fresh(set i | 0 <= i < pool.Length :: pool[i])
      ensures msgSize == size && slots == maxMsgs + 1 && Contents(View()) == []
    {
      var n := maxMsgs + 1;
      var dummy := new bv8[size](_ => 0);
      var p := new array<bv8>[n](_ => dummy);
      for i := 0 to n
        invariant fresh(p) && p.Length == n
        invariant forall k :: 0 <= k < i ==> fresh(p[k]) && p[k].Length == size && p[k] as object != p
        invariant forall k, l :: 0 <= k < l < i ==> p[k] != p[l]
      {
        var slot := new bv8[size](_ => 0);
        p[i] := slot;
      }
      msgSize, slots, head, tail, pool := size, n, 0, 0, p;
      new;
      ResetEmpty(View());
    }

    method Reset()
      requires Valid()
      modifies this
      ensures Valid() && View() == old(View()).(head := 0, tail := 0) && Contents(View()) == []
    {
      head, tail := 0, 0;
      assert Slots() == old(Slots());
      ResetEmpty(old(View()));
    }

    method Messages() returns (n: nat)
      requires Valid()
      ensures n == |Contents(View())|
    {
      n := (tail - head + slots) % slots;
    }

    method Remain() returns (n: nat)
      requires Valid()
      ensures n + |Contents(View())| == slots - 1
    {
      MsgsIs(View());
      n := slots - 1 - (tail - head + slots) % slots;
    }

    method FillTail(msg: seq<bv8>)
      requires Valid() && |msg| <= msgSize
      modifies pool[tail]
      ensures Valid() && Slots() == old(Slots())[tail := Padded(msg, msgSize)]
    {
      hide Padded;
      ghost var was := Slots();
      assert forall i :: 0 <= i < slots && i != tail ==> pool[i] != pool[tail];
      FillSlot(pool[tail], msg);
      forall i | 0 <= i < slots && i != tail
        ensures Slots()[i] == was[i]
      {
        assert pool[i] != pool[tail];
      }
    }

    method Send(msg: seq<bv8>) returns (err: Err)
      requires Valid()
      modifies this`tail, if tail < pool.Length then {pool[tail]} else {}
      ensures Valid() && (View(), err) == MsgRing.Send(old(View()), msg)
    {
      ghost var m := View();
      SendShape(m, msg);
      if |msg| <= msgSize {
        if (tail + 1) % slots == head {
          err := Full;
        } else {
          FillTail(msg);
          tail := (tail + 1) % slots;
          assert Slots() == m.pool[m.tail := Padded(msg, msgSize)];
          err := Ok;
        }
      } else {
        err := Size;
      }
    }

    method Copied(size: nat) returns (bytes: seq<bv8>)
      requires Valid() && size <= msgSize
      modifies this`head
      ensures Valid() && (View(), bytes) == Take(old(View()), size)
    {
      TakeShape(View(), size);
      bytes := pool[head][..size];
      assert bytes == pool[head][..][..size];
      head := (head + 1) % slots;
      assert Slots() == old(Slots());
    }

    /** The locked section that starts a receive. */
    method RecvEnter(size: nat, timeout: int) returns (e: Entered)
      requires Valid()
      modifies this`head
      ensures Valid()
      ensures var m := old(View());
              if size > msgSize then View() == m && e == Failed(Size)
              else if Contents(m) != [] then View() == Take(m, size).0 && e == Taken(Take(m, size).1)
              else View() == m && e == if timeout == 0 then Failed(Timeout) else MustWait
    {
      MsgsIs(View());
      if size <= msgSize {
        if head == tail {
          e := if timeout == 0 then Failed(Timeout) else MustWait;
        } else {
          var bytes := Copied(size);
          e := Taken(bytes);
        }
      } else {
        e := Failed(Size);
      }
    }

    /** The locked section that a successful wait returns to: the queue is not looked at again. */
    method RecvWake(size: nat) returns (bytes: seq<bv8>)
      requires Valid() && size <= msgSize
      modifies this`head
      ensures Valid() && (View(), bytes) == Take(old(View()), size)
    {
      bytes := Copied(size);
    }
  }
}

/** Senders and receivers interleaved, one locked section a step. */
module MsgQueueRuns {
  import opened Bytes
  import opened MsgRing

  /** A receiver outside the lock; Woken is a wait that has ended well and will run on under the lock. */
  datatype Receiver = Idle | Waiting(size: nat, timed: bool) | Woken(size: nat)

  datatype Step =
    | SendStep(msg: seq<bv8>, wakes: nat)
    | Enter(i: nat, size: nat, timeout: int)
    | Wake(i: nat)
    | Expire(i: nat)
    | Spurious(i: nat)
    | ResetStep

  datatype Event = Quiet | Sent(err: Err) | Got(i: nat, bytes: seq<bv8>) | Refused(i: nat, err: Err) | Stale(i: nat)

  datatype Sys = Sys(mq: Mq, rcv: seq<Receiver>)

  /** A queue that is nothing but its messages. */
  datatype Plain = Plain(queue: seq<seq<bv8>>, rcv: seq<Receiver>)

  predicate SomeWaiting(rcv: seq<Receiver>) {
    exists k :: 0 <= k < |rcv| && rcv[k].Waiting?
  }

  predicate Enabled(rcv: seq<Receiver>, s: Step) {
    match s
    case SendStep(_, w) => SomeWaiting(rcv) ==> w < |rcv| && rcv[w].Waiting?
    case Enter(i, _, _) => i < |rcv| && rcv[i].Idle?
    case Wake(i) => i < |rcv| && rcv[i].Woken?
    case Expire(i) => i < |rcv| && rcv[i].Waiting? && rcv[i].timed
    case Spurious(i) => i < |rcv| && rcv[i].Waiting?
    case ResetStep => true
  }

  /** `pthread_cond_signal`: one waiting receiver, if there is any. */
  function Signal(rcv: seq<Receiver>, w: nat): (r: seq<Receiver>)
    ensures |r| == |rcv|
  {
    if w < |rcv| && rcv[w].Waiting? then rcv[w := Woken(rcv[w].size)] else rcv
  }

  /** What a step does to the receivers; `took` says whether an Enter found a message. */
  function Moved(rcv: seq<Receiver>, s: Step, msgSize: nat, accepted: bool, took: bool): (r: seq<Receiver>)
    requires Enabled(rcv, s)
    ensures |r| == |rcv|
  {
    match s
    case SendStep(_, w) => if accepted then Signal(rcv, w) else rcv
    case Enter(i, size, timeout) =>
      if size > msgSize || took || timeout == 0 then rcv else rcv[i := Waiting(size, timeout > 0)]
    case Wake(i) => rcv[i := Idle]
    case Expire(i) => rcv[i := Idle]
    case Spurious(i) => rcv[i := Woken(rcv[i].size)]
    case ResetStep => rcv
  }

  /** Sizes beyond the message size are turned away before any wait. */
  predicate Sizes(rcv: seq<Receiver>, msgSize: nat) {
    forall k :: 0 <= k < |rcv| ==>
      (rcv[k].Waiting? ==> rcv[k].size <= msgSize) && (rcv[k].Woken? ==> rcv[k].size <= msgSize)
  }

  predicate Sound(x: Sys) {
    Valid(x.mq) && Sizes(x.rcv, x.mq.msgSize)
  }

  function Next(x: Sys, s: Step): (Sys, Event)
    requires Sound(x) && Enabled(x.rcv, s)
  {
    var m, size := x.mq, x.mq.msgSize;
    var took := Contents(m) != [];
    match s
    case SendStep(msg, w) =>
      var t := Send(m, msg);
      (Sys(t.0, Moved(x.rcv, s, size, t.1 == Ok, took)), Sent(t.1))
    case Enter(i, n, timeout) =>
      if n > size then (x, Refused(i, Size))
      else if took then (Sys(Take(m, n).0, x.rcv), Got(i, Take(m, n).1))
      else (Sys(m, Moved(x.rcv, s, size, true, took)), if timeout == 0 then Refused(i, Timeout) else Quiet)
    case Wake(i) => (Sys(Take(m, x.rcv[i].size).0, Moved(x.rcv, s, size, true, took)), Got(i, Take(m, x.rcv[i].size).1))
    case Expire(i) => (Sys(m, Moved(x.rcv, s, size, true, took)), Refused(i, Timeout))
    case Spurious(i) => (Sys(m, Moved(x.rcv, s, size, true, took)), Quiet)
    case ResetStep => (Sys(m.(head := 0, tail := 0), x.rcv), Quiet)
  }

  /** The same step on the plain queue; waking to an empty queue is an event of its own. */
  function PlainNext(p: Plain, s: Step, size: nat, capacity: nat): (Plain, Event)
    requires Sizes(p.rcv, size) && (forall k :: 0 <= k < |p.queue| ==> |p.queue[k]| == size) && Enabled(p.rcv, s)
  {
    var took := p.queue != [];
    match s
    case SendStep(msg, w) =>
      if |msg| > size then (p, Sent(Size))
      else if |p.queue| == capacity then (p, Sent(Full))
      else (Plain(p.queue + [Padded(msg, size)], Signal(p.rcv, w)), Sent(Ok))
    case Enter(i, n, timeout) =>
      if n > size then (p, Refused(i, Size))
      else if took then (p.(queue := p.queue[1..]), Got(i, p.queue[0][..n]))
      else (p.(rcv := Moved(p.rcv, s, size, true, took)), if timeout == 0 then Refused(i, Timeout) else Quiet)
    case Wake(i) =>
      if took then (Plain(p.queue[1..], p.rcv[i := Idle]), Got(i, p.queue[0][..p.rcv[i].size]))
      else (p.(rcv := p.rcv[i := Idle]), Stale(i))
    case Expire(i) => (p.(rcv := p.rcv[i := Idle]), Refused(i, Timeout))
    case Spurious(i) => (p.(rcv := Moved(p.rcv, s, size, true, took)), Quiet)
    case ResetStep => (p.(queue := []), Quiet)
  }

  function Abs(x: Sys): Plain
    requires Sound(x)
  {
    Plain(Contents(x.mq), x.rcv)
  }

  /** A wait that ends on an empty queue. */
  predicate WakesEmpty(p: Plain, s: Step) {
    s.Wake? && p.queue == []
  }

  /** A receive that finds nothing waits unless its timeout is zero, and its wait can run out if and only if the timeout
      is positive; one that finds a message, or is refused, does not wait. */
  lemma WaitsExactly(x: Sys, i: nat, n: nat, timeout: int)
    requires Sound(x) && Enabled(x.rcv, Enter(i, n, timeout))
    ensures var y, idle := Next(x, Enter(i, n, timeout)).0, n > x.mq.msgSize || Contents(x.mq) != [];
            && (Enabled(y.rcv, Expire(i)) <==> !idle && timeout > 0)
            && (Enabled(y.rcv, Spurious(i)) <==> !idle && timeout != 0)
            && (forall k :: 0 <= k < |x.rcv| && k != i ==> y.rcv[k] == x.rcv[k])
  {
    hide Contents, Msgs, Take;
  }

  /** A send that is accepted wakes the receiver that is signalled, and no other; a refused one wakes nobody. */
  lemma WakesExactly(x: Sys, msg: seq<bv8>, w: nat)
    requires Sound(x) && Enabled(x.rcv, SendStep(msg, w))
    ensures var y := Next(x, SendStep(msg, w));
            forall k :: 0 <= k < |x.rcv| ==>
              (y.0.rcv[k].Woken? <==> x.rcv[k].Woken? || (y.1 == Sent(Ok) && k == w && SomeWaiting(x.rcv)))
  {
    hide Contents, Msgs, Send;
  }

  lemma NextSound(x: Sys, s: Step)
    requires Sound(x) && Enabled(x.rcv, s)
    ensures var y := Next(x, s).0;
            Sound(y) && y.mq.slots == x.mq.slots && y.mq.msgSize == x.mq.msgSize && |y.rcv| == |x.rcv|
  {
    hide Contents, Msgs;
    match s
    case SendStep(msg, _) => SendShape(x.mq, msg); hide Send;
    case Enter(i, n, _) => if n <= x.mq.msgSize { TakeShape(x.mq, n); } hide Take;
    case Wake(i) => TakeShape(x.mq, x.rcv[i].size); hide Take;
    case Expire(i) =>
    case Spurious(i) =>
    case ResetStep =>
  }

  predicate SameStep(x: Sys, s: Step)
    requires Sound(x) && Enabled(x.rcv, s) && Sound(Next(x, s).0)
  {
    var a, b := Next(x, s), PlainNext(Abs(x), s, x.mq.msgSize, x.mq.slots - 1);
    Abs(a.0) == b.0 && a.1 == b.1
  }

  /** One locked section is one step of the plain queue if and only if it is not a wakeup on an empty queue. */
  lemma StepExactly(x: Sys, s: Step)
    requires Sound(x) && Enabled(x.rcv, s)
    ensures Sound(Next(x, s).0)
    ensures SameStep(x, s) <==> !WakesEmpty(Abs(x), s)
  {
    NextSound(x, s);
    match s
    case SendStep(msg, _) =>
      SendAppends(x.mq, msg);
      hide Send, Contents, Msgs, Padded;
    case Enter(i, n, _) =>
      if n <= x.mq.msgSize && Contents(x.mq) != [] {
        TakeFirst(x.mq, n);
      }
      hide Take, Contents, Msgs;
    case Wake(i) =>
      if Contents(x.mq) != [] {
        TakeFirst(x.mq, x.rcv[i].size);
      }
      hide Take, Contents, Msgs;
    case Expire(i) =>
      hide Contents, Msgs;
    case Spurious(i) =>
      hide Contents, Msgs;
    case ResetStep =>
      ResetEmpty(x.mq);
      hide Contents, Msgs;
  }

  // ----- runs -----

  /** Every step of the run can be taken where it stands. */
  predicate Runs(x: Sys, steps: seq<Step>)
    requires Sound(x)
    decreases |steps|
  {
    steps == [] || (Enabled(x.rcv, steps[0]) && (NextSound(x, steps[0]); Runs(Next(x, steps[0]).0, steps[1..])))
  }

  /** No wait of the run ends on an empty queue. */
  predicate NeverStale(x: Sys, steps: seq<Step>)
    requires Sound(x) && Runs(x, steps)
    decreases |steps|
  {
    steps == [] ||
      (!WakesEmpty(Abs(x), steps[0]) && (NextSound(x, steps[0]); NeverStale(Next(x, steps[0]).0, steps[1..])))
  }

  /** The whole history of a run: messages accepted, bytes handed to receivers, and the last state. */
  datatype History = History(accepted: seq<seq<bv8>>, received: seq<seq<bv8>>, last: Sys)

  function Accepted(s: Step, e: Event, size: nat): seq<seq<bv8>> {
    if s.SendStep? && e == Sent(Ok) && |s.msg| <= size then [Padded(s.msg, size)] else []
  }

  function Received(e: Event): seq<seq<bv8>> {
    if e.Got? then [e.bytes] else []
  }

  function Record(x: Sys, steps: seq<Step>): (h: History)
    requires Sound(x) && Runs(x, steps)
    ensures Sound(h.last)
    decreases |steps|
  {
    if steps == [] then History([], [], x)
    else
      NextSound(x, steps[0]);
      var n := Next(x, steps[0]);
      var h := Record(n.0, steps[1..]);
      History(Accepted(steps[0], n.1, x.mq.msgSize) + h.accepted, Received(n.1) + h.received, h.last)
  }

  /** Message by message, what was received is the first bytes of what was accepted; the rest is still queued. */
  predicate InOrder(queued: seq<seq<bv8>>, h: History)
    requires Sound(h.last)
  {
    var all := queued + h.accepted;
    && |all| == |h.received| + |Contents(h.last.mq)| && all[|h.received|..] == Contents(h.last.mq)
    && forall k :: 0 <= k < |h.received| ==> h.received[k] <= all[k]
  }

  /** One step taken by the plain queue passes messages on in order. */
  lemma OrderStep(queued: seq<seq<bv8>>, next: seq<seq<bv8>>, acc: seq<seq<bv8>>, rec: seq<seq<bv8>>, h: History)
    requires Sound(h.last) && InOrder(next, h)
    requires || (rec == [] && next == queued + acc)
             || (acc == [] && |rec| == 1 && queued != [] && next == queued[1..] && rec[0] <= queued[0])
    ensures InOrder(queued, History(acc + h.accepted, rec + h.received, h.last))
  {
    hide Contents;
    var all, tail := queued + (acc + h.accepted), next + h.accepted;
    if rec == [] {
      assert all == tail && rec + h.received == h.received;
    } else {
      assert all == [queued[0]] + tail;
      forall k | 0 <= k < 1 + |h.received|
        ensures (rec + h.received)[k] <= all[k]
      {
        if k > 0 {
          assert h.received[k - 1] <= tail[k - 1];
        }
      }
    }
  }

  lemma PlainStep(x: Sys, s: Step)
    requires Sound(x) && Enabled(x.rcv, s) && !WakesEmpty(Abs(x), s) && !s.ResetStep?
    ensures Sound(Next(x, s).0)
    ensures var a := Next(x, s); var q, n := Contents(x.mq), Contents(a.0.mq);
            var acc, rec := Accepted(s, a.1, x.mq.msgSize), Received(a.1);
            (rec == [] && n == q + acc) || (acc == [] && |rec| == 1 && q != [] && n == q[1..] && rec[0] <= q[0])
  {
    StepExactly(x, s);
    hide Contents, Msgs, Next, Padded;
    var q := Contents(x.mq);
    assert q + [] == q;
  }

  /** In every run without a reset in which no wait ends on an empty queue, messages are received in the order
      in which they were accepted, and none is lost or made up. */
  lemma {:induction false} FirstInFirstOut(x: Sys, steps: seq<Step>)
    requires Sound(x) && Runs(x, steps) && NeverStale(x, steps) && ResetStep !in steps
    ensures InOrder(Contents(x.mq), Record(x, steps))
    decreases |steps|
  {
    hide Contents;
    if steps != [] {
      var s := steps[0];
      NextSound(x, s);
      var n := Next(x, s);
      assert s in steps && forall t :: t in steps[1..] ==> t in steps;
      FirstInFirstOut(n.0, steps[1..]);
      PlainStep(x, s);
      hide Next, Accepted, Received, InOrder;
      OrderStep(Contents(x.mq), Contents(n.0.mq), Accepted(s, n.1, x.mq.msgSize), Received(n.1),
                Record(n.0, steps[1..]));
    } else {
      assert Contents(x.mq) + [] == Contents(x.mq);
    }
  }

  // ----- one receiver -----

  /** With no more than one receiver, a wait that has ended well has a message to take. */
  predicate WokenHasMessage(x: Sys)
    requires Sound(x)
  {
    |x.rcv| <= 1 && forall k :: 0 <= k < |x.rcv| && x.rcv[k].Woken? ==> Contents(x.mq) != []
  }

  predicate Mild(p: Plain, s: Step) {
    !s.Spurious? && (s.ResetStep? ==> forall k :: 0 <= k < |p.rcv| ==> !p.rcv[k].Woken?)
  }

  /** No spurious wakeup, and no reset between a signal and the wakeup. */
  predicate Polite(x: Sys, steps: seq<Step>)
    requires Sound(x) && Runs(x, steps)
    decreases |steps|
  {
    steps == [] ||
      (Mild(Abs(x), steps[0]) && (NextSound(x, steps[0]); Polite(Next(x, steps[0]).0, steps[1..])))
  }

  lemma WokenKept(x: Sys, s: Step)
    requires Sound(x) && Enabled(x.rcv, s) && WokenHasMessage(x) && Mild(Abs(x), s)
    ensures Sound(Next(x, s).0) && WokenHasMessage(Next(x, s).0) && !WakesEmpty(Abs(x), s)
  {
    StepExactly(x, s);
    hide Contents, Msgs, Next, Padded;
    var b := PlainNext(Abs(x), s, x.mq.msgSize, x.mq.slots - 1);
    assert Abs(Next(x, s).0) == b.0;
  }

  /** No second receiver, no spurious wakeup and no reset before a wakeup: no wait ends on an empty queue. */
  lemma {:induction false} OneReceiver(x: Sys, steps: seq<Step>)
    requires Sound(x) && Runs(x, steps) && WokenHasMessage(x) && Polite(x, steps)
    ensures NeverStale(x, steps)
    decreases |steps|
  {
    hide Contents;
    if steps != [] {
      WokenKept(x, steps[0]);
      hide Next, WokenHasMessage, WakesEmpty, Enabled;
      NextSound(x, steps[0]);
      OneReceiver(Next(x, steps[0]).0, steps[1..]);
    }
  }

  /** So one receiver of whole messages gets exactly the accepted ones, in order, from any empty queue. */
  lemma OneReceiverInOrder(x: Sys, steps: seq<Step>)
    requires Sound(x) && x.rcv == [Idle] && Contents(x.mq) == []
    requires Runs(x, steps) && Polite(x, steps) && ResetStep !in steps
    ensures var h := Record(x, steps);
            && |h.accepted| == |h.received| + |Contents(h.last.mq)|
            && (forall k :: 0 <= k < |h.received| ==> h.received[k] <= h.accepted[k])
            && ((forall k :: 0 <= k < |h.received| ==> |h.received[k]| == |h.accepted[k]|) ==> h.received <= h.accepted)
  {
    OneReceiver(x, steps);
    FirstInFirstOut(x, steps);
    var h := Record(x, steps);
    hide Contents, Record, Runs, Polite, NeverStale;
    assert [] + h.accepted == h.accepted;
    if forall k :: 0 <= k < |h.received| ==> |h.received[k]| == |h.accepted[k]| {
      forall k | 0 <= k < |h.received|
        ensures h.received[k] == h.accepted[k]
      {
        assert h.received[k] <= h.accepted[k];
      }
    }
  }

  // ----- and without any one of the three -----

  function Start(size: nat, receivers: nat): (x: Sys)
    ensures Sound(x) && Abs(x) == Plain([], seq(receivers, _ => Idle)) && x.mq.msgSize == size && x.mq.slots == 2
  {
    var m := Mq(size, 2, 0, 0, [Zeros(size), Zeros(size)]);
    MsgsIs(m);
    Sys(m, seq(receivers, _ => Idle))
  }

  predicate Leads(p: Plain, s: Step, q: Plain, size: nat, capacity: nat) {
    && Sizes(p.rcv, size) && (forall k :: 0 <= k < |p.queue| ==> |p.queue[k]| == size)
    && Enabled(p.rcv, s) && !WakesEmpty(p, s) && PlainNext(p, s, size, capacity).0 == q
  }

  /** A run along given states of the plain queue, whose last step wakes on an empty queue. */
  lemma {:induction false} StaleRun(x: Sys, steps: seq<Step>, ps: seq<Plain>)
    requires |ps| == |steps| > 0 && Sound(x) && Abs(x) == ps[0]
    requires forall k :: 0 <= k < |steps| - 1 ==> Leads(ps[k], steps[k], ps[k + 1], x.mq.msgSize, x.mq.slots - 1)
    requires Enabled(ps[|ps| - 1].rcv, steps[|ps| - 1]) && WakesEmpty(ps[|ps| - 1], steps[|ps| - 1])
    ensures Runs(x, steps) && !NeverStale(x, steps)
    ensures (forall k :: 0 <= k < |steps| ==> Mild(ps[k], steps[k])) ==> Polite(x, steps)
    decreases |steps|
  {
    if |steps| > 1 {
      assert Leads(ps[0], steps[0], ps[0 + 1], x.mq.msgSize, x.mq.slots - 1);
    }
    NextSound(x, steps[0]);
    hide Next, Contents;
    if |steps| > 1 {
      StepExactly(x, steps[0]);
      var n := Next(x, steps[0]).0;
      forall k | 0 <= k < |steps[1..]| - 1
        ensures Leads(ps[1..][k], steps[1..][k], ps[1..][k + 1], n.mq.msgSize, n.mq.slots - 1)
      {
        assert Leads(ps[k + 1], steps[k + 1], ps[k + 1 + 1], x.mq.msgSize, x.mq.slots - 1);
      }
      hide Leads, WakesEmpty, Mild, Enabled;
      StaleRun(n, steps[1..], ps[1..]);
    } else {
      assert steps[1..] == [];
    }
  }

  const ONE: seq<seq<bv8>> := [[7]]

  lemma WaitLeads(rcv: seq<Receiver>, i: nat)
    requires Sizes(rcv, 1) && i < |rcv| && rcv[i].Idle?
    ensures Leads(Plain([], rcv), Enter(i, 1, -1), Plain([], rcv[i := Waiting(1, false)]), 1, 1)
  {
  }

  lemma SendLeads(rcv: seq<Receiver>, i: nat)
    requires Sizes(rcv, 1) && i < |rcv| && rcv[i] == Waiting(1, false)
    ensures Leads(Plain([], rcv), SendStep([7], i), Plain(ONE, rcv[i := Woken(1)]), 1, 1)
  {
    assert Padded([7], 1) == [7] && [] + ONE == ONE;
  }

  lemma TakeLeads(rcv: seq<Receiver>, i: nat)
    requires Sizes(rcv, 1) && i < |rcv| && rcv[i].Idle?
    ensures Leads(Plain(ONE, rcv), Enter(i, 1, -1), Plain([], rcv), 1, 1)
  {
    assert ONE[1..] == [];
  }

  /** The run of one of several receivers: another one takes the message between the signal and the wakeup. */
  const STOLEN: seq<Step> := [Enter(0, 1, -1), SendStep([7], 0), Enter(1, 1, -1), Wake(0)]

  lemma TwoReceivers(n: nat)
    requires n >= 2
    ensures var x := Start(1, n); Runs(x, STOLEN) && Polite(x, STOLEN) && !NeverStale(x, STOLEN)
  {
    var r0: seq<Receiver> := seq(n, _ => Idle);
    var r1, r2 := r0[0 := Waiting(1, false)], r0[0 := Waiting(1, false)][0 := Woken(1)];
    WaitLeads(r0, 0);
    SendLeads(r1, 0);
    TakeLeads(r2, 1);
    hide Leads, Start, Runs, Polite, NeverStale;
    StaleRun(Start(1, n), STOLEN, [Plain([], r0), Plain([], r1), Plain(ONE, r2), Plain([], r2)]);
  }

  /** From a queue that nobody waits for, with this many receivers, no wait of a polite run ends on an empty queue. */
  ghost predicate PoliteIsEnough(receivers: nat) {
    forall x: Sys, steps: seq<Step> | Sound(x) && x.rcv == seq(receivers, _ => Idle) && Runs(x, steps) ::
      Polite(x, steps) ==> NeverStale(x, steps)
  }

  /** That is so if and only if there is no second receiver. */
  lemma PoliteExactly(receivers: nat)
    ensures PoliteIsEnough(receivers) <==> receivers <= 1
  {
    hide Runs, Polite, NeverStale, Contents, Start, STOLEN;
    if receivers <= 1 {
      forall x: Sys, steps: seq<Step>
        | Sound(x) && x.rcv == seq(receivers, _ => Idle) && Runs(x, steps) && Polite(x, steps)
        ensures NeverStale(x, steps)
      {
        OneReceiver(x, steps);
      }
    } else {
      TwoReceivers(receivers);
    }
  }

  /** So does a spurious wakeup of the only receiver. */
  lemma SpuriousWakeup()
    ensures var steps := [Enter(0, 1, -1), Spurious(0), Wake(0)];
            var x := Start(1, 1); Runs(x, steps) && !NeverStale(x, steps)
  {
    var r0: seq<Receiver> := [Idle];
    var r1, r2 := r0[0 := Waiting(1, false)], r0[0 := Waiting(1, false)][0 := Woken(1)];
    WaitLeads(r0, 0);
    assert Leads(Plain([], r1), Spurious(0), Plain([], r2), 1, 1);
    hide Leads, Start, Runs, NeverStale;
    assert seq(1, _ => Idle) == r0;
    StaleRun(Start(1, 1), [Enter(0, 1, -1), Spurious(0), Wake(0)], [Plain([], r0), Plain([], r1), Plain([], r2)]);
  }

  /** And a reset between the signal and the wakeup. */
  lemma ResetRace()
    ensures var steps := [Enter(0, 1, -1), SendStep([7], 0), ResetStep, Wake(0)];
            var x := Start(1, 1); Runs(x, steps) && !NeverStale(x, steps)
  {
    var r0: seq<Receiver> := [Idle];
    var r1, r2 := r0[0 := Waiting(1, false)], r0[0 := Waiting(1, false)][0 := Woken(1)];
    WaitLeads(r0, 0);
    SendLeads(r1, 0);
    assert Leads(Plain(ONE, r2), ResetStep, Plain([], r2), 1, 1);
    hide Leads, Start, Runs, NeverStale;
    assert seq(1, _ => Idle) == r0;
    StaleRun(Start(1, 1), [Enter(0, 1, -1), SendStep([7], 0), ResetStep, Wake(0)],
             [Plain([], r0), Plain([], r1), Plain(ONE, r2), Plain([], r2)]);
  }
}
