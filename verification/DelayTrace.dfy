/**
 What the delay machine does, said in terms of its run alone: which messages were put and when,
 and when the mover passes them on. src/msgqueue.c.
 */
module DelayTrace {
  import opened DelayQueue
  import opened Times
  import BloomManager

  /** A message and the time at which its producer read the clock. */
  datatype Note = Note(at: nat, body: BloomManager.Message)

  /** The messages put on the delay queue in a run, by what its actions say. */
  function Puts(run: seq<Action>, now: nat, pending: map<nat, Note>): seq<Note>
    decreases |run|
  {
    if run == [] then []
    else match run[0]
      case Tick(ns) => Puts(run[1..], now + ns, pending)
      case Stamp(p, body) => Puts(run[1..], now, pending[p := Note(now, body)])
      case Enqueue(p) =>
        (if p in pending then [pending[p]] else []) + Puts(run[1..], now, pending - {p})
      case _ => Puts(run[1..], now, pending)
  }

  /** The instant messages of a run. */
  function Instants(run: seq<Action>, now: nat): seq<Note>
    decreases |run|
  {
    if run == [] then []
    else match run[0]
      case Tick(ns) => Instants(run[1..], now + ns)
      case PutInstant(body) => [Note(now, body)] + Instants(run[1..], now)
      case _ => Instants(run[1..], now)
  }

  /** The times at which the manager applied something. */
  function ApplyTimes(run: seq<Action>, now: nat): seq<nat>
    decreases |run|
  {
    if run == [] then []
    else match run[0]
      case Tick(ns) => ApplyTimes(run[1..], now + ns)
      case Apply(_) => [now] + ApplyTimes(run[1..], now)
      case _ => ApplyTimes(run[1..], now)
  }

  function AsMsg(n: Note): Msg {
    Msg(Reading(n.at), n.body)
  }

  function AsMsgs(ns: seq<Note>): seq<Msg> {
    if ns == [] then [] else [AsMsg(ns[0])] + AsMsgs(ns[1..])
  }

  ghost predicate Pending(s: State, pending: map<nat, Note>) {
    s.stamped.Keys == pending.Keys && forall p :: p in pending ==> s.stamped[p] == AsMsg(pending[p])
  }

  lemma {:induction false} PutsTraced(s: State, run: seq<Action>, delay: Timespec, pending: map<nat, Note>)
    requires Possible(s, run, delay) && Pending(s, pending)
    ensures After(s, run, delay).put == s.put + AsMsgs(Puts(run, s.now, pending))
    decreases |run|
  {
    if run != [] {
      var s' := Step(s, run[0], delay);
      match run[0] {
        case Stamp(p, body) => PutsTraced(s', run[1..], delay, pending[p := Note(s.now, body)]);
        case Enqueue(p) =>
          PutsTraced(s', run[1..], delay, pending - {p});
          var rest := Puts(run[1..], s.now, pending - {p});
          assert ([pending[p]] + rest)[1..] == rest;
        case _ => PutsTraced(s', run[1..], delay, pending);
      }
    }
  }

  function InstantOf(items: seq<Item>): seq<Msg> {
    if items == [] then []
    else (if items[0].Instant? then [items[0].msg] else []) + InstantOf(items[1..])
  }

  lemma {:induction false} InstantOfConcat(a: seq<Item>, b: seq<Item>)
    ensures InstantOf(a + b) == InstantOf(a) + InstantOf(b)
  {
    if a == [] {
      assert a + b == b;
    } else {
      assert (a + b)[0] == a[0] && (a + b)[1..] == a[1..] + b;
      InstantOfConcat(a[1..], b);
    }
  }

  lemma InstantOfOne(item: Item)
    ensures InstantOf([item]) == if item.Instant? then [item.msg] else []
  {
    assert [item][1..] == [];
  }

  /** What one step does to the instant messages past the mover. */
  lemma InstantStep(s: State, a: Action, delay: Timespec)
    requires Enabled(s, a)
    ensures InstantOf(Downstream(Step(s, a, delay))) ==
      InstantOf(Downstream(s)) + if a.PutInstant? then [AsMsg(Note(s.now, a.body))] else []
  {
    var s' := Step(s, a, delay);
    match a {
      case PutInstant(body) =>
        var item := Instant(Msg(Reading(s.now), body));
        assert Downstream(s') == Downstream(s) + [item];
        InstantOfConcat(Downstream(s), [item]);
        InstantOfOne(item);
      case Pass =>
        var item := Delayed(s.mover.msg);
        assert Downstream(s') == Downstream(s) + [item];
        InstantOfConcat(Downstream(s), [item]);
        InstantOfOne(item);
      case Apply(_) =>
        assert AppliedItems(s'.applied) == AppliedItems(s.applied) + [s.manager.item];
        assert Downstream(s') == Downstream(s);
      case _ => assert Downstream(s') == Downstream(s);
    }
  }

  lemma {:induction false} InstantsTraced(s: State, run: seq<Action>, delay: Timespec)
    requires Possible(s, run, delay)
    ensures InstantOf(Downstream(After(s, run, delay))) ==
      InstantOf(Downstream(s)) + AsMsgs(Instants(run, s.now))
    decreases |run|
  {
    if run != [] {
      var s' := Step(s, run[0], delay);
      InstantStep(s, run[0], delay);
      StepClock(s, run[0], delay);
      InstantsTraced(s', run[1..], delay);
      InstantsSplit(run, s.now);
      Regroup(InstantOf(Downstream(s)), if run[0].PutInstant? then [AsMsg(Note(s.now, run[0].body))] else [],
              AsMsgs(Instants(run[1..], s'.now)));
    }
  }

  lemma StepClock(s: State, a: Action, delay: Timespec)
    requires Enabled(s, a)
    ensures Step(s, a, delay).now == if a.Tick? then s.now + a.ns else s.now
  {
  }

  lemma Regroup<T>(a: seq<T>, b: seq<T>, c: seq<T>)
    ensures a + b + c == a + (b + c)
  {
  }

  lemma InstantsSplit(run: seq<Action>, now: nat)
    requires run != []
    ensures AsMsgs(Instants(run, now)) ==
      (if run[0].PutInstant? then [AsMsg(Note(now, run[0].body))] else [])
      + AsMsgs(Instants(run[1..], if run[0].Tick? then now + run[0].ns else now))
  {
    if run[0].PutInstant? {
      var rest := Instants(run[1..], now);
      assert ([Note(now, run[0].body)] + rest)[1..] == rest;
    }
  }

  lemma {:induction false} ApplyTimesTraced(s: State, run: seq<Action>, delay: Timespec)
    requires Possible(s, run, delay)
    ensures
      var applied, times := After(s, run, delay).applied, ApplyTimes(run, s.now);
      && |applied| == |s.applied| + |times| && applied[..|s.applied|] == s.applied
      && forall i :: 0 <= i < |times| ==> applied[|s.applied| + i].at == times[i]
    decreases |run|
  {
    if run != [] {
      var s' := Step(s, run[0], delay);
      ApplyTimesTraced(s', run[1..], delay);
      if run[0].Apply? {
        var applied, rest := After(s, run, delay).applied, ApplyTimes(run[1..], s.now);
        var times := ApplyTimes(run, s.now);
        assert applied[..|s.applied|] == applied[..|s'.applied|][..|s.applied|];
        assert applied[..|s'.applied|][|s.applied|] == s'.applied[|s.applied|];
        assert forall i :: 0 < i < |times| ==> times[i] == rest[i - 1];
      }
    }
  }

  /**
   In every run: what the actions put on the delay queue is, in that order and with the times of
   their stamps, what has been applied, is in the manager's hand, in outq, in the mover's hand and
   in inq; the same for the instant messages past the mover; and the deliveries carry the times of
   the actions that made them.
   */
  lemma {:induction false} EverythingAccountedFor(init: State, run: seq<Action>, delay: Timespec)
    requires delay.Normal() && IsInitial(init) && Possible(init, run, delay)
    ensures
      var s := After(init, run, delay);
      && AsMsgs(Puts(run, 0, map[])) ==
           DelayedOf(AppliedItems(s.applied)) + DelayedOf(HandItems(s.manager)) + DelayedOf(s.outq)
           + MoverMessages(s.mover) + s.inq
      && AsMsgs(Instants(run, 0)) == InstantOf(Downstream(s))
      && |s.applied| == |ApplyTimes(run, 0)|
      && forall i :: 0 <= i < |s.applied| ==> s.applied[i].at == ApplyTimes(run, 0)[i]
  {
    ExactlyOncePlaced(init, run, delay);
    PutsTraced(init, run, delay, map[]);
    InstantsTraced(init, run, delay);
    ApplyTimesTraced(init, run, delay);
  }

  // The mover is not late either.

  /** With a delay the mover sleeps until exactly stamp plus delay, unless that has passed. */
  lemma DecidedExactly(stamp: Timespec, delay: Timespec, now: nat)
    requires stamp.Normal() && delay.Normal()
    ensures NonZero(delay) && now <= stamp.Ns() + delay.Ns() ==>
      var m := Decided(stamp, delay, now);
      m.Sleeping? && m.since == now && now + m.time.Ns() == stamp.Ns() + delay.Ns()
    ensures !NonZero(delay) || now > stamp.Ns() + delay.Ns() ==> Decided(stamp, delay, now) == Ready
  {
    SumExact(stamp, delay);
    DifferenceExact(Sum(stamp, delay), Reading(now));
  }

  function Max(a: int, b: int): int {
    if a < b then b else a
  }

  /** nanosleep reports exactly the time that was left to sleep. */
  ghost predicate ExactInterrupt(s: State, a: Action) {
    a.Interrupt? && s.mover.Sleeping? ==>
      s.now + a.left.Ns() == Max(s.mover.since + s.mover.time.Ns(), s.now)
  }

  ghost predicate Punctual(s: State, run: seq<Action>, delay: Timespec)
    requires Possible(s, run, delay)
    decreases |run|
  {
    run == [] || (ExactInterrupt(s, run[0]) && Punctual(Step(s, run[0], delay), run[1..], delay))
  }

  /** The sleep ends when the head is due, or has ended if it is. */
  ghost predicate OnTime(s: State, delay: Timespec) {
    s.mover.Sleeping? ==>
      && s.inq != [] && s.mover.since <= s.now
      && s.mover.since + s.mover.time.Ns() == Max(s.inq[0].stamp.Ns() + delay.Ns(), s.mover.since)
  }

  lemma OnTimeStep(s: State, a: Action, delay: Timespec)
    requires Enabled(s, a) && delay.Normal() && Inv(s, delay) && OnTime(s, delay) && ExactInterrupt(s, a)
    ensures OnTime(Step(s, a, delay), delay)
  {
    if a.Decide? {
      DecidedExactly(s.mover.stamp, delay, s.now);
    }
  }

  lemma {:induction false} OnTimeAfter(s: State, run: seq<Action>, delay: Timespec)
    requires delay.Normal() && Inv(s, delay) && OnTime(s, delay) && Possible(s, run, delay) && Punctual(s, run, delay)
    ensures Inv(After(s, run, delay), delay) && OnTime(After(s, run, delay), delay)
    decreases |run|
  {
    if run != [] {
      StepConserves(s, run[0], delay);
      StepKeepsTimes(s, run[0], delay);
      OnTimeStep(s, run[0], delay);
      OnTimeAfter(Step(s, run[0], delay), run[1..], delay);
    }
  }

  ghost predicate WakesOnTime(s: State, delay: Timespec) {
    s.mover.Sleeping? ==>
      s.inq != [] && (Enabled(s, Wake) <==> s.now >= s.inq[0].stamp.Ns() + delay.Ns())
  }

  lemma OnTimeWakes(s: State, delay: Timespec)
    requires OnTime(s, delay)
    ensures WakesOnTime(s, delay)
  {
  }

  /** In every such run the mover can wake up from the moment the head of inq is due. */
  lemma {:induction false} WakesWhenDue(init: State, run: seq<Action>, delay: Timespec)
    requires delay.Normal() && IsInitial(init) && Possible(init, run, delay) && Punctual(init, run, delay)
    ensures WakesOnTime(After(init, run, delay), delay)
  {
    OnTimeAfter(init, run, delay);
    OnTimeWakes(After(init, run, delay), delay);
  }

  /** A mover that was interrupted sleeps as long as nanosleep said was left, from then on. */
  lemma SleepsWhatIsLeft(s: State, left: Timespec, ns: nat, delay: Timespec)
    requires Enabled(s, Interrupt(left))
    ensures
      var s' := Step(Step(s, Interrupt(left), delay), Tick(ns), delay);
      Enabled(s', Wake) <==> ns >= left.Ns()
  {
  }

  /** Steps of the mover alone, with no time passing, bring outq to this. */
  ghost predicate MovesTo(s: State, out: seq<Item>, delay: Timespec) {
    exists run :: Possible(s, run, delay) && MoverOnly(run) && After(s, run, delay).outq == out
  }

  predicate MoverOnly(run: seq<Action>) {
    forall i :: 0 <= i < |run| ==>
      run[i].Peek? || run[i].Decide? || run[i].Wake? || run[i].Take? || run[i].Pass?
  }

  lemma MovesStep(s: State, a: Action, out: seq<Item>, delay: Timespec)
    requires Enabled(s, a) && MoverOnly([a]) && MovesTo(Step(s, a, delay), out, delay)
    ensures MovesTo(s, out, delay)
  {
    var s' := Step(s, a, delay);
    var rest :| Possible(s', rest, delay) && MoverOnly(rest) && After(s', rest, delay).outq == out;
    var run := [a] + rest;
    assert [a][0] == a && run[0] == a && run[1..] == rest;
    assert Possible(s, run, delay) && MoverOnly(run) && After(s, run, delay).outq == out;
  }

  lemma HoldingMoves(s: State, delay: Timespec)
    requires s.mover.Holding?
    ensures MovesTo(s, s.outq + [Delayed(s.mover.msg)], delay)
  {
    var s' := Step(s, Pass, delay);
    assert Possible(s', [], delay) && MoverOnly([]) && After(s', [], delay).outq == s'.outq;
    assert MoverOnly([Pass]);
    MovesStep(s, Pass, s'.outq, delay);
  }

  lemma ReadyMoves(s: State, delay: Timespec)
    requires s.mover.Ready? && s.inq != []
    ensures MovesTo(s, s.outq + [Delayed(s.inq[0])], delay)
  {
    HoldingMoves(Step(s, Take, delay), delay);
    assert MoverOnly([Take]);
    MovesStep(s, Take, s.outq + [Delayed(s.inq[0])], delay);
  }

  lemma SleepingMoves(s: State, delay: Timespec)
    requires s.mover.Sleeping? && OnTime(s, delay) && Due(s.inq[0], delay, s.now)
    ensures MovesTo(s, s.outq + [Delayed(s.inq[0])], delay)
  {
    ReadyMoves(Step(s, Wake, delay), delay);
    assert MoverOnly([Wake]);
    MovesStep(s, Wake, s.outq + [Delayed(s.inq[0])], delay);
  }

  lemma PeekedMoves(s: State, delay: Timespec)
    requires s.mover.Peeked? && Inv(s, delay) && delay.Normal() && Due(s.inq[0], delay, s.now)
    ensures MovesTo(s, s.outq + [Delayed(s.inq[0])], delay)
  {
    var s' := Step(s, Decide, delay);
    DecidedExactly(s.mover.stamp, delay, s.now);
    if s'.mover.Ready? {
      ReadyMoves(s', delay);
    } else {
      SleepingMoves(s', delay);
    }
    assert MoverOnly([Decide]);
    MovesStep(s, Decide, s.outq + [Delayed(s.inq[0])], delay);
  }

  /** In every such run a message at the head of inq that is due can be passed on at once. */
  lemma {:induction false} PassedWhenDue(init: State, run: seq<Action>, delay: Timespec)
    requires delay.Normal() && IsInitial(init) && Possible(init, run, delay) && Punctual(init, run, delay)
    requires
      var s := After(init, run, delay);
      s.inq != [] && !s.mover.Holding? && Due(s.inq[0], delay, s.now)
    ensures
      var s := After(init, run, delay);
      MovesTo(s, s.outq + [Delayed(s.inq[0])], delay)
  {
    OnTimeAfter(init, run, delay);
    var s := After(init, run, delay);
    match s.mover {
      case Idle =>
        PeekedMoves(Step(s, Peek, delay), delay) by {
          StepConserves(s, Peek, delay);
          StepKeepsTimes(s, Peek, delay);
        }
        assert MoverOnly([Peek]);
        MovesStep(s, Peek, s.outq + [Delayed(s.inq[0])], delay);
      case Peeked(_) => PeekedMoves(s, delay);
      case Sleeping(_, _) => SleepingMoves(s, delay);
      case Ready => ReadyMoves(s, delay);
    }
  }
}
