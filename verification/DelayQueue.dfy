/**
 The delay queue as a machine: producers, the mover thread and the bloom manager take one
 critical section at a time, in any order, while the clock runs; what the manager receives it
 applies to the ring. src/msgqueue.c, src/worker.c, src/bloommgr.c.
 */
module DelayQueue {
  import opened Times
  import BloomManager

  /** A message with the time put_msg stamped on it. */
  datatype Msg = Msg(stamp: Timespec, body: BloomManager.Message)

  /** What the out-queue holds: messages that came through the mover, and instant ones. */
  datatype Item = Delayed(msg: Msg) | Instant(msg: Msg)

  /** Where the mover thread stands in its loop. */
  datatype Mover =
    | Idle
    | Peeked(stamp: Timespec)
    | Sleeping(since: nat, time: Timespec)
    | Ready
    | Holding(msg: Msg)

  datatype Hand = Nothing | Taken(item: Item)

  datatype Delivery = Delivery(item: Item, at: nat)

  datatype State = State(
    now: nat,                    // nanoseconds
    stamped: map<nat, Msg>,      // producers between clock_gettime and put_msg_raw
    inq: seq<Msg>,
    mover: Mover,
    outq: seq<Item>,
    manager: Hand,
    applied: seq<Delivery>,
    put: seq<Msg>,               // history: everything ever appended to inq
    store: BloomManager.Store,
    wall: int,                   // the latest reading of time(NULL), in seconds
    interval: nat)

  datatype Action =
    | Tick(ns: nat)
    | Stamp(producer: nat, body: BloomManager.Message)
    | Enqueue(producer: nat)
    | PutInstant(body: BloomManager.Message)
    | Peek
    | Decide
    | Interrupt(left: Timespec)
    | Wake
    | Take
    | Pass
    | Receive
    | Apply(clock: BloomManager.Clock)

  predicate NonZero(t: Timespec) {
    t.sec != 0 || t.nsec != 0
  }

  ghost predicate Enabled(s: State, a: Action) {
    match a
    case Tick(_) => true
    case Stamp(p, _) => p !in s.stamped
    case Enqueue(p) => p in s.stamped
    case PutInstant(_) => true
    case Peek => s.mover.Idle? && s.inq != []
    case Decide => s.mover.Peeked?
    // nanosleep reports at least the time that is still to be slept
    case Interrupt(left) =>
      s.mover.Sleeping? && left.Normal() && s.now + left.Ns() >= s.mover.since + s.mover.time.Ns()
    case Wake => s.mover.Sleeping? && s.now >= s.mover.since + s.mover.time.Ns()
    case Take => s.mover.Ready? && s.inq != []
    case Pass => s.mover.Holding?
    case Receive => s.manager.Nothing? && s.outq != []
    case Apply(c) =>
      && s.manager.Taken? && s.store.ring.Valid()
      && BloomManager.Fits(s.manager.item.msg.body, |s.store.ring.slots|, |s.store.ring.aggregate|)
      && s.wall <= c.first <= c.second <= c.third
  }

  /** One pass of the mover's test: sleep until stamp + delay, or go on at once. */
  function Decided(stamp: Timespec, delay: Timespec, now: nat): Mover {
    if NonZero(delay) then
      var (sleep, future) := Difference(Sum(stamp, delay), Reading(now));
      if future then Sleeping(now, sleep) else Ready
    else Ready
  }

  ghost function Step(s: State, a: Action, delay: Timespec): State
    requires Enabled(s, a)
  {
    match a
    case Tick(ns) => s.(now := s.now + ns)
    case Stamp(p, body) => s.(stamped := s.stamped[p := Msg(Reading(s.now), body)])
    case Enqueue(p) =>
      s.(stamped := s.stamped - {p}, inq := s.inq + [s.stamped[p]], put := s.put + [s.stamped[p]])
    case PutInstant(body) => s.(outq := s.outq + [Instant(Msg(Reading(s.now), body))])
    case Peek => s.(mover := Peeked(s.inq[0].stamp))
    case Decide => s.(mover := Decided(s.mover.stamp, delay, s.now))
    case Interrupt(left) => s.(mover := Sleeping(s.now, left))
    case Wake => s.(mover := Ready)
    case Take => s.(mover := Holding(s.inq[0]), inq := s.inq[1..])
    case Pass => s.(mover := Idle, outq := s.outq + [Delayed(s.mover.msg)])
    case Receive => s.(manager := Taken(s.outq[0]), outq := s.outq[1..])
    case Apply(c) =>
      s.(manager := Nothing, applied := s.applied + [Delivery(s.manager.item, s.now)], wall := c.third,
         store := BloomManager.Apply(s.store, BloomManager.Event(s.manager.item.msg.body, c), s.interval))
  }

  function Initial(store: BloomManager.Store, wall: int, interval: nat): State {
    State(0, map[], [], Idle, [], Nothing, [], [], store, wall, interval)
  }

  ghost predicate Possible(s: State, run: seq<Action>, delay: Timespec)
    decreases |run|
  {
    run == [] || (Enabled(s, run[0]) && Possible(Step(s, run[0], delay), run[1..], delay))
  }

  ghost function After(s: State, run: seq<Action>, delay: Timespec): State
    requires Possible(s, run, delay)
    decreases |run|
  {
    if run == [] then s else After(Step(s, run[0], delay), run[1..], delay)
  }

  // Where the delayed messages are.

  function DelayedOf(items: seq<Item>): seq<Msg> {
    if items == [] then []
    else Kept(items[0]) + DelayedOf(items[1..])
  }

  function Kept(item: Item): seq<Msg> {
    if item.Delayed? then [item.msg] else []
  }

  function AppliedItems(ds: seq<Delivery>): seq<Item> {
    seq(|ds|, i requires 0 <= i < |ds| => ds[i].item)
  }

  function HandItems(h: Hand): seq<Item> {
    if h.Nothing? then [] else [h.item]
  }

  function MoverMessages(m: Mover): seq<Msg> {
    if m.Holding? then [m.msg] else []
  }

  /** Everything past the mover, oldest first. */
  function Downstream(s: State): seq<Item> {
    AppliedItems(s.applied) + HandItems(s.manager) + s.outq
  }

  lemma {:induction false} DelayedOfConcat(a: seq<Item>, b: seq<Item>)
    ensures DelayedOf(a + b) == DelayedOf(a) + DelayedOf(b)
  {
    if a == [] {
      assert a + b == b;
    } else {
      var c := a + b;
      assert c[0] == a[0] && c[1..] == a[1..] + b;
      DelayedOfConcat(a[1..], b);
      assert DelayedOf(c) == Kept(a[0]) + DelayedOf(c[1..]);
    }
  }

  /** Put order is kept, nothing is lost and nothing is duplicated. */
  ghost predicate Conserved(s: State) {
    s.put == DelayedOf(Downstream(s)) + MoverMessages(s.mover) + s.inq
  }

  predicate Due(m: Msg, delay: Timespec, at: int) {
    m.stamp.Ns() + delay.Ns() <= at
  }

  predicate Stamped(m: Msg, now: nat) {
    m.stamp.Normal() && m.stamp.Ns() <= now
  }

  ghost predicate StampsPast(s: State) {
    && (forall p :: p in s.stamped ==> Stamped(s.stamped[p], s.now))
    && (forall i :: 0 <= i < |s.inq| ==> Stamped(s.inq[i], s.now))
  }

  /** While the mover works on the head of inq, that head does not change and its time is coming. */
  ghost predicate MoverOnHead(s: State, delay: Timespec) {
    match s.mover
    case Idle => true
    case Peeked(stamp) => s.inq != [] && s.inq[0].stamp == stamp
    case Sleeping(since, time) => s.inq != [] && Due(s.inq[0], delay, since + time.Ns())
    case Ready => s.inq != [] && Due(s.inq[0], delay, s.now)
    case Holding(m) => Due(m, delay, s.now)
  }

  ghost predicate NeverEarly(s: State, delay: Timespec) {
    && (forall i :: 0 <= i < |s.outq| && s.outq[i].Delayed? ==> Due(s.outq[i].msg, delay, s.now))
    && (s.manager.Taken? && s.manager.item.Delayed? ==> Due(s.manager.item.msg, delay, s.now))
    && (forall i :: 0 <= i < |s.applied| && s.applied[i].item.Delayed? ==>
          Due(s.applied[i].item.msg, delay, s.applied[i].at))
  }

  ghost predicate Inv(s: State, delay: Timespec) {
    Conserved(s) && StampsPast(s) && MoverOnHead(s, delay) && NeverEarly(s, delay)
  }

  lemma DecidedWaits(head: Msg, delay: Timespec, now: nat)
    requires Stamped(head, now) && delay.Normal()
    ensures
      var m := Decided(head.stamp, delay, now);
      (m.Ready? && Due(head, delay, now)) || (m.Sleeping? && Due(head, delay, m.since + m.time.Ns()))
  {
    SumExact(head.stamp, delay);
    DifferenceExact(Sum(head.stamp, delay), Reading(now));
  }

  /** The mover puts what it holds at the end of outq. */
  lemma PassConserves(s: State, delay: Timespec)
    requires s.mover.Holding? && Conserved(s)
    ensures Conserved(Step(s, Pass, delay))
  {
    var s', item := Step(s, Pass, delay), Delayed(s.mover.msg);
    assert Downstream(s') == Downstream(s) + [item];
    DelayedOfConcat(Downstream(s), [item]);
    assert DelayedOf([item]) == Kept(item) + DelayedOf([]);
  }

  lemma InstantConserves(s: State, body: BloomManager.Message, delay: Timespec)
    requires Conserved(s)
    ensures Conserved(Step(s, PutInstant(body), delay))
  {
    var item := Instant(Msg(Reading(s.now), body));
    assert Downstream(Step(s, PutInstant(body), delay)) == Downstream(s) + [item];
    InstantAddsNothing(Downstream(s), item);
  }

  lemma InstantAddsNothing(items: seq<Item>, item: Item)
    requires item.Instant?
    ensures DelayedOf(items + [item]) == DelayedOf(items)
  {
    DelayedOfConcat(items, [item]);
    assert DelayedOf([item]) == Kept(item) + DelayedOf([]);
  }

  lemma TakeConserves(s: State, delay: Timespec)
    requires s.mover.Ready? && s.inq != [] && Conserved(s)
    ensures Conserved(Step(s, Take, delay))
  {
    var s' := Step(s, Take, delay);
    assert MoverMessages(s'.mover) + s'.inq == s.inq;
    assert Downstream(s') == Downstream(s);
  }

  /** The manager's two steps move one item along without touching the order. */
  lemma ManagerConserves(s: State, a: Action, delay: Timespec)
    requires (a.Receive? || a.Apply?) && Enabled(s, a) && Conserved(s)
    ensures Conserved(Step(s, a, delay))
  {
    var s' := Step(s, a, delay);
    if a.Apply? {
      assert AppliedItems(s'.applied) == AppliedItems(s.applied) + [s.manager.item];
    }
    assert Downstream(s') == Downstream(s);
  }

  lemma {:induction false} StepConserves(s: State, a: Action, delay: Timespec)
    requires Enabled(s, a) && Conserved(s)
    ensures Conserved(Step(s, a, delay))
  {
    match a {
      case PutInstant(body) => InstantConserves(s, body, delay);
      case Take => TakeConserves(s, delay);
      case Pass => PassConserves(s, delay);
      case Receive => ManagerConserves(s, a, delay);
      case Apply(_) => ManagerConserves(s, a, delay);
      case _ => assert Downstream(Step(s, a, delay)) == Downstream(s);
    }
  }

  lemma {:induction false} StepKeepsTimes(s: State, a: Action, delay: Timespec)
    requires Enabled(s, a) && delay.Normal()
    requires StampsPast(s) && MoverOnHead(s, delay) && NeverEarly(s, delay)
    ensures StampsPast(Step(s, a, delay)) && MoverOnHead(Step(s, a, delay), delay)
    ensures NeverEarly(Step(s, a, delay), delay)
  {
    if a.Decide? {
      DecidedWaits(s.inq[0], delay, s.now);
    }
  }

  lemma {:induction false} InvAfter(s: State, run: seq<Action>, delay: Timespec)
    requires delay.Normal() && Inv(s, delay) && Possible(s, run, delay)
    ensures Inv(After(s, run, delay), delay)
    decreases |run|
  {
    if run != [] {
      StepConserves(s, run[0], delay);
      StepKeepsTimes(s, run[0], delay);
      InvAfter(Step(s, run[0], delay), run[1..], delay);
    }
  }

  /** Nothing is under way; the ring, its clock and its interval may be any. */
  ghost predicate IsInitial(s: State) {
    s == Initial(s.store, s.wall, s.interval)
  }

  /** In every run, no message that went through the queue is applied before its stamp plus the delay. */
  lemma {:induction false} NoEarlyDelivery(init: State, run: seq<Action>, delay: Timespec, i: nat)
    requires delay.Normal() && IsInitial(init) && Possible(init, run, delay)
    requires i < |After(init, run, delay).applied|
    ensures
      var d := After(init, run, delay).applied[i];
      d.item.Delayed? ==> d.at >= d.item.msg.stamp.Ns() + delay.Ns()
  {
    InvAfter(init, run, delay);
  }

  /**
   In every run, the messages put so far are, in put order, the ones applied, the one in the
   manager's hand, the ones in outq, the one in the mover's hand and the ones in inq: each is in
   exactly one place.
   */
  lemma {:induction false} ExactlyOncePlaced(init: State, run: seq<Action>, delay: Timespec)
    requires delay.Normal() && IsInitial(init) && Possible(init, run, delay)
    ensures
      var s := After(init, run, delay);
      s.put == DelayedOf(AppliedItems(s.applied)) + DelayedOf(HandItems(s.manager)) + DelayedOf(s.outq)
               + MoverMessages(s.mover) + s.inq
  {
    InvAfter(init, run, delay);
    var s := After(init, run, delay);
    DelayedOfConcat(AppliedItems(s.applied) + HandItems(s.manager), s.outq);
    DelayedOfConcat(AppliedItems(s.applied), HandItems(s.manager));
  }
}
