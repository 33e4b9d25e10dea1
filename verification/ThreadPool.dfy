/**
 A thread pool as a machine: each lock section of the pool thread's loop is one step, and the
 steps of all threads interleave freely. src/thread_pool.c.
 */
module ThreadPool {
  import opened Counting
  import opened Options

  /** Where a pool thread stands; edicts are named by the submission that queued them. */
  datatype Thread =
    | Created                     // before its first lock section
    | Looping                     // at the top of the loop
    | Waiting                     // counted idle, in get_msg_timed
    | Woken(got: Option<nat>)     // has a message or a timeout, still counted idle
    | Deciding(edict: nat)
    | Running(edict: nat)
    | Refusing(edict: nat)
    | Unlinking(edict: nat)
    | Exited

  datatype Pool = Pool(
    threads: map<nat, Thread>,
    queue: seq<nat>,
    countThread: int,
    countIdle: int,
    wdlist: seq<nat>,
    submitted: multiset<nat>,     // history from here on
    started: multiset<nat>,
    refused: multiset<nat>,
    unlinked: multiset<nat>)

  /** max_thread (0 is no limit) and whether the watchdog is on. */
  datatype Limits = Limits(maxThread: nat, watchdog: bool)

  datatype Action =
    | Submit(edict: nat)
    | Begin(thread: nat)
    | Exit(thread: nat)
    | Idle(thread: nat)
    | Receive(thread: nat)
    | TimeOut(thread: nat)
    | Busy(thread: nat)
    | Decide(thread: nat, spawn: nat)
    | Finish(thread: nat)
    | Unlink(thread: nat)

  predicate Is(p: Pool, t: nat, pc: Thread) {
    t in p.threads && p.threads[t] == pc
  }

  /** The test of the moving average is a free choice, so an exit is possible whenever count > 8. */
  predicate Enabled(p: Pool, a: Action) {
    match a
    case Submit(e) => e !in p.submitted
    case Begin(t) => Is(p, t, Created)
    case Exit(t) => Is(p, t, Looping) && p.countThread > 8
    case Idle(t) => Is(p, t, Looping)
    case Receive(t) => Is(p, t, Waiting) && p.queue != []
    case TimeOut(t) => Is(p, t, Waiting)
    case Busy(t) => t in p.threads && p.threads[t].Woken?
    case Decide(t, n) => t in p.threads && p.threads[t].Deciding? && n !in p.threads
    case Finish(t) => t in p.threads && (p.threads[t].Running? || p.threads[t].Refusing?)
    case Unlink(t) => t in p.threads && p.threads[t].Unlinking?
  }

  /** The walk that takes a thread out of the watchdog list. */
  function Unlisted(list: seq<nat>, t: nat): seq<nat> {
    if list == [] then []
    else if list[0] == t then list[1..]
    else [list[0]] + Unlisted(list[1..], t)
  }

  function Moved(p: Pool, t: nat, pc: Thread): Pool {
    p.(threads := p.threads[t := pc])
  }

  predicate MayCreate(p: Pool, l: Limits) {
    p.countThread <= l.maxThread || l.maxThread == 0
  }

  function Step(p: Pool, a: Action, l: Limits): Pool
    requires Enabled(p, a)
  {
    match a
    case Submit(e) => p.(queue := p.queue + [e], submitted := p.submitted + multiset{e})
    case Begin(t) =>
      Moved(p, t, Looping).(countThread := p.countThread + 1,
                            wdlist := if l.watchdog then [t] + p.wdlist else p.wdlist)
    case Exit(t) =>
      Moved(p, t, Exited).(countThread := p.countThread - 1,
                           wdlist := if l.watchdog then Unlisted(p.wdlist, t) else p.wdlist)
    case Idle(t) => Moved(p, t, Waiting).(countIdle := p.countIdle + 1)
    case Receive(t) => Moved(p, t, Woken(Some(p.queue[0]))).(queue := p.queue[1..])
    case TimeOut(t) => Moved(p, t, Woken(None))
    case Busy(t) =>
      var got := p.threads[t].got;
      Moved(p, t, if got.Some? then Deciding(got.value) else Looping).(countIdle := p.countIdle - 1)
    case Decide(t, n) =>
      var e := p.threads[t].edict;
      if p.countIdle >= 1 then Moved(p, t, Running(e)).(started := p.started + multiset{e})
      else if MayCreate(p, l) then
        Moved(Moved(p, t, Running(e)), n, Created).(started := p.started + multiset{e})
      else Moved(p, t, Refusing(e)).(refused := p.refused + multiset{e})
    case Finish(t) => Moved(p, t, Unlinking(p.threads[t].edict))
    case Unlink(t) =>
      Moved(p, t, Looping).(unlinked := p.unlinked + multiset{p.threads[t].edict})
  }

  /** create_thread_pool starts the first thread. */
  function Initial(first: nat): Pool {
    Pool(map[first := Created], [], 0, 0, [], multiset{}, multiset{}, multiset{}, multiset{})
  }

  // Sets of threads.

  predicate CountedIdle(pc: Thread) {
    pc.Waiting? || pc.Woken?
  }

  predicate Registered(pc: Thread) {
    !pc.Created? && !pc.Exited?
  }

  predicate Holds(pc: Thread, e: nat) {
    pc == Woken(Some(e)) || pc == Deciding(e) || pc == Running(e) || pc == Refusing(e) || pc == Unlinking(e)
  }

  predicate HasDecided(pc: Thread, e: nat) {
    pc == Running(e) || pc == Refusing(e) || pc == Unlinking(e)
  }

  function Those(m: map<nat, Thread>, p: Thread -> bool): set<nat> {
    set t | t in m && p(m[t])
  }

  lemma ThoseMoved(m: map<nat, Thread>, t: nat, pc: Thread, p: Thread -> bool)
    ensures |Those(m[t := pc], p)| == |Those(m, p)| - One(t in m && p(m[t])) + One(p(pc))
  {
    var others := Those(m, p) - {t};
    assert Those(m[t := pc], p) == if p(pc) then others + {t} else others;
    assert Those(m, p) == if t in m && p(m[t]) then others + {t} else others;
  }

  function Holders(m: map<nat, Thread>, e: nat): set<nat> {
    set t | t in m && Holds(m[t], e)
  }

  function Deciders(m: map<nat, Thread>, e: nat): set<nat> {
    set t | t in m && HasDecided(m[t], e)
  }

  lemma HoldersMoved(m: map<nat, Thread>, t: nat, pc: Thread, e: nat)
    ensures |Holders(m[t := pc], e)| == |Holders(m, e)| - One(t in m && Holds(m[t], e)) + One(Holds(pc, e))
  {
    var others := Holders(m, e) - {t};
    assert Holders(m[t := pc], e) == if Holds(pc, e) then others + {t} else others;
    assert Holders(m, e) == if t in m && Holds(m[t], e) then others + {t} else others;
  }

  lemma DecidersMoved(m: map<nat, Thread>, t: nat, pc: Thread, e: nat)
    ensures |Deciders(m[t := pc], e)| ==
            |Deciders(m, e)| - One(t in m && HasDecided(m[t], e)) + One(HasDecided(pc, e))
  {
    var others := Deciders(m, e) - {t};
    assert Deciders(m[t := pc], e) == if HasDecided(pc, e) then others + {t} else others;
    assert Deciders(m, e) == if t in m && HasDecided(m[t], e) then others + {t} else others;
  }

  // Invariants.

  ghost predicate CountsExact(p: Pool) {
    && p.countIdle == |Those(p.threads, CountedIdle)|
    && p.countThread == |Those(p.threads, Registered)|
  }

  predicate NoRepeats(list: seq<nat>) {
    forall i, j :: 0 <= i < j < |list| ==> list[i] != list[j]
  }

  ghost predicate Watched(p: Pool, l: Limits) {
    && NoRepeats(p.wdlist)
    && (l.watchdog ==> forall t :: t in p.wdlist <==> t in Those(p.threads, Registered))
    && (!l.watchdog ==> p.wdlist == [])
  }

  /** A submission is queued, in one thread's hand, or unlinked; and decided once. */
  ghost predicate Placed(p: Pool, e: nat) {
    && p.submitted[e] <= 1
    && multiset(p.queue)[e] + |Holders(p.threads, e)| + p.unlinked[e] == p.submitted[e]
    && p.started[e] + p.refused[e] == |Deciders(p.threads, e)| + p.unlinked[e]
  }

  lemma CountsKept(p: Pool, a: Action, l: Limits)
    requires Enabled(p, a) && CountsExact(p)
    ensures CountsExact(Step(p, a, l))
  {
    if !a.Submit? {
      var pc := Step(p, a, l).threads[a.thread];
      ThoseMoved(p.threads, a.thread, pc, CountedIdle);
      ThoseMoved(p.threads, a.thread, pc, Registered);
      if a.Decide? {
        ThoseMoved(p.threads[a.thread := pc], a.spawn, Created, CountedIdle);
        ThoseMoved(p.threads[a.thread := pc], a.spawn, Created, Registered);
      }
    }
  }

  lemma {:induction false} UnlistedExact(list: seq<nat>, t: nat)
    requires NoRepeats(list)
    ensures NoRepeats(Unlisted(list, t))
    ensures forall x :: x in Unlisted(list, t) <==> x in list && x != t
  {
    if list != [] {
      assert list == [list[0]] + list[1..];
      if list[0] == t {
        assert t !in list[1..];
      } else {
        UnlistedExact(list[1..], t);
        assert list[0] !in Unlisted(list[1..], t);
      }
    }
  }

  lemma BeginWatched(p: Pool, t: nat, l: Limits)
    requires Is(p, t, Created) && Watched(p, l)
    ensures Watched(Step(p, Begin(t), l), l)
  {
    var p' := Step(p, Begin(t), l);
    assert Those(p'.threads, Registered) == Those(p.threads, Registered) + {t};
    if l.watchdog {
      assert t !in p.wdlist;
    }
  }

  lemma ExitWatched(p: Pool, t: nat, l: Limits)
    requires Enabled(p, Exit(t)) && Watched(p, l)
    ensures Watched(Step(p, Exit(t), l), l)
  {
    var p' := Step(p, Exit(t), l);
    UnlistedExact(p.wdlist, t);
    assert Those(p'.threads, Registered) == Those(p.threads, Registered) - {t};
  }

  lemma WatchKept(p: Pool, a: Action, l: Limits)
    requires Enabled(p, a) && Watched(p, l)
    ensures Watched(Step(p, a, l), l)
  {
    if a.Begin? {
      BeginWatched(p, a.thread, l);
    } else if a.Exit? {
      ExitWatched(p, a.thread, l);
    } else {
      SameRegistered(p, a, l);
    }
  }

  lemma SameRegistered(p: Pool, a: Action, l: Limits)
    requires Enabled(p, a) && !a.Begin? && !a.Exit?
    ensures Those(Step(p, a, l).threads, Registered) == Those(p.threads, Registered)
    ensures Step(p, a, l).wdlist == p.wdlist
  {
  }

  lemma ReceivePlaced(p: Pool, t: nat, l: Limits, e: nat)
    requires Enabled(p, Receive(t)) && Placed(p, e)
    ensures Placed(Step(p, Receive(t), l), e)
  {
    var pc := Woken(Some(p.queue[0]));
    HoldersMoved(p.threads, t, pc, e);
    DecidersMoved(p.threads, t, pc, e);
    assert p.queue == [p.queue[0]] + p.queue[1..];
    assert multiset(p.queue)[e] == One(p.queue[0] == e) + multiset(p.queue[1..])[e];
  }

  lemma DecidePlaced(p: Pool, a: Action, l: Limits, e: nat)
    requires a.Decide? && Enabled(p, a) && Placed(p, e)
    ensures Placed(Step(p, a, l), e)
  {
    var t, mine := a.thread, p.threads[a.thread].edict;
    var pc := if p.countIdle >= 1 || MayCreate(p, l) then Running(mine) else Refusing(mine);
    HoldersMoved(p.threads, t, pc, e);
    DecidersMoved(p.threads, t, pc, e);
    HoldersMoved(p.threads[t := pc], a.spawn, Created, e);
    DecidersMoved(p.threads[t := pc], a.spawn, Created, e);
  }

  lemma UnlinkPlaced(p: Pool, t: nat, l: Limits, e: nat)
    requires Enabled(p, Unlink(t)) && Placed(p, e)
    ensures Placed(Step(p, Unlink(t), l), e)
  {
    HoldersMoved(p.threads, t, Looping, e);
    DecidersMoved(p.threads, t, Looping, e);
  }

  lemma QuietPlaced(p: Pool, a: Action, l: Limits, e: nat)
    requires Enabled(p, a) && Placed(p, e)
    requires a.Begin? || a.Exit? || a.Idle? || a.TimeOut? || a.Busy? || a.Finish?
    ensures Placed(Step(p, a, l), e)
  {
    var pc := Step(p, a, l).threads[a.thread];
    HoldersMoved(p.threads, a.thread, pc, e);
    DecidersMoved(p.threads, a.thread, pc, e);
  }

  lemma PlacedKept(p: Pool, a: Action, l: Limits, e: nat)
    requires Enabled(p, a) && Placed(p, e)
    ensures Placed(Step(p, a, l), e)
  {
    match a {
      case Submit(_) =>
      case Receive(t) => ReceivePlaced(p, t, l, e);
      case Decide(_, _) => DecidePlaced(p, a, l, e);
      case Unlink(t) => UnlinkPlaced(p, t, l, e);
      case _ => QuietPlaced(p, a, l, e);
    }
  }

  ghost predicate Inv(p: Pool, l: Limits) {
    CountsExact(p) && Watched(p, l) && forall e :: Placed(p, e)
  }

  ghost predicate Possible(p: Pool, run: seq<Action>, l: Limits)
    decreases |run|
  {
    run == [] || (Enabled(p, run[0]) && Possible(Step(p, run[0], l), run[1..], l))
  }

  ghost function After(p: Pool, run: seq<Action>, l: Limits): Pool
    requires Possible(p, run, l)
    decreases |run|
  {
    if run == [] then p else After(Step(p, run[0], l), run[1..], l)
  }

  lemma InitialInv(first: nat, l: Limits)
    ensures Inv(Initial(first), l)
  {
    var p := Initial(first);
    assert Those(p.threads, CountedIdle) == {} && Those(p.threads, Registered) == {};
    forall e
      ensures Placed(p, e)
    {
      assert Holders(p.threads, e) == {} && Deciders(p.threads, e) == {};
    }
  }

  /** Every step of every thread keeps the pool's books. */
  lemma {:induction false} InvAfter(p: Pool, run: seq<Action>, l: Limits)
    requires Inv(p, l) && Possible(p, run, l)
    ensures Inv(After(p, run, l), l)
    decreases |run|
  {
    if run != [] {
      var p' := Step(p, run[0], l);
      CountsKept(p, run[0], l);
      WatchKept(p, run[0], l);
      forall e
        ensures Placed(p', e)
      {
        PlacedKept(p, run[0], l, e);
      }
      InvAfter(p', run[1..], l);
    }
  }

  lemma Subset(a: set<nat>, b: set<nat>)
    requires a <= b
    ensures |a| <= |b|
  {
    var rest := b - a;
    assert b == a + rest;
  }

  /** The counters say what they are named after, and idle threads never outnumber threads. */
  lemma CountersRight(first: nat, run: seq<Action>, l: Limits)
    requires Possible(Initial(first), run, l)
    ensures
      var p := After(Initial(first), run, l);
      && p.countIdle == |Those(p.threads, CountedIdle)|
      && p.countThread == |Those(p.threads, Registered)|
      && 0 <= p.countIdle <= p.countThread
  {
    InitialInv(first, l);
    InvAfter(Initial(first), run, l);
    var p := After(Initial(first), run, l);
    Subset(Those(p.threads, CountedIdle), Those(p.threads, Registered));
  }

  /** The watchdog list holds each registered thread exactly once. */
  lemma WatchdogRight(first: nat, run: seq<Action>, l: Limits)
    requires l.watchdog && Possible(Initial(first), run, l)
    ensures
      var p := After(Initial(first), run, l);
      && NoRepeats(p.wdlist)
      && forall t :: t in p.wdlist <==> t in p.threads && Registered(p.threads[t])
  {
    InitialInv(first, l);
    InvAfter(Initial(first), run, l);
  }

  /** Each submission is run or refused at most once, never both, and unlinked once it was. */
  lemma HandledOnce(first: nat, run: seq<Action>, l: Limits, e: nat)
    requires Possible(Initial(first), run, l)
    ensures
      var p := After(Initial(first), run, l);
      && p.started[e] + p.refused[e] <= 1
      && p.unlinked[e] <= p.started[e] + p.refused[e]
      && (Holders(p.threads, e) == {} && e !in p.queue && e in p.submitted ==> p.unlinked[e] == 1)
  {
    InitialInv(first, l);
    InvAfter(Initial(first), run, l);
    var p := After(Initial(first), run, l);
    assert Placed(p, e);
    Subset(Deciders(p.threads, e), Holders(p.threads, e));
  }

  /** A routine starts only when another thread is counted idle or has just been created. */
  lemma SomeoneListens(first: nat, run: seq<Action>, l: Limits, a: Action)
    requires Possible(Initial(first), run, l)
    requires a.Decide? && Enabled(After(Initial(first), run, l), a)
    requires Step(After(Initial(first), run, l), a, l).threads[a.thread].Running?
    ensures
      var p := After(Initial(first), run, l);
      || Is(Step(p, a, l), a.spawn, Created)
      || exists t :: t != a.thread && t in p.threads && CountedIdle(p.threads[t])
  {
    InitialInv(first, l);
    InvAfter(Initial(first), run, l);
    var p := After(Initial(first), run, l);
    if p.countIdle >= 1 {
      assert Those(p.threads, CountedIdle) != {};
      var t :| t in Those(p.threads, CountedIdle);
      assert t != a.thread;
    }
  }

  /** No voluntary exit leaves fewer than eight threads in the pool. */
  lemma ExitLeavesEight(first: nat, run: seq<Action>, l: Limits, t: nat)
    requires Possible(Initial(first), run, l) && Enabled(After(Initial(first), run, l), Exit(t))
    ensures |Those(Step(After(Initial(first), run, l), Exit(t), l).threads, Registered)| >= 8
  {
    InitialInv(first, l);
    InvAfter(Initial(first), run, l);
    CountsKept(After(Initial(first), run, l), Exit(t), l);
  }

  /** An exit is open to a thread at the top of its loop exactly while more than eight are in the pool. */
  lemma ExitExactly(first: nat, run: seq<Action>, l: Limits, t: nat)
    requires Possible(Initial(first), run, l)
    ensures
      var p := After(Initial(first), run, l);
      Enabled(p, Exit(t)) <==> Is(p, t, Looping) && |Those(p.threads, Registered)| > 8
  {
    InitialInv(first, l);
    InvAfter(Initial(first), run, l);
  }

  /**
   In every run a thread that has taken a job refuses it exactly when no thread is counted idle and
   there is a limit which the threads in the pool exceed; otherwise it runs the job, and starts
   another thread exactly when no thread is counted idle.
   */
  lemma DecidesExactly(first: nat, run: seq<Action>, l: Limits, t: nat, n: nat)
    requires Possible(Initial(first), run, l) && Enabled(After(Initial(first), run, l), Decide(t, n))
    ensures
      var p := After(Initial(first), run, l);
      var p', e := Step(p, Decide(t, n), l), p.threads[t].edict;
      var noneIdle := Those(p.threads, CountedIdle) == {};
      var full := 0 < l.maxThread < |Those(p.threads, Registered)|;
      && Is(p', t, if noneIdle && full then Refusing(e) else Running(e))
      && (n in p'.threads <==> noneIdle && !full)
      && (n in p'.threads ==> p'.threads[n].Created?)
  {
    InitialInv(first, l);
    InvAfter(Initial(first), run, l);
    var p := After(Initial(first), run, l);
    assert Those(p.threads, CountedIdle) == {} <==> p.countIdle == 0;
  }

  // Jobs are taken in the order of their submission.

  function SubmittedIn(run: seq<Action>): seq<nat> {
    if run == [] then []
    else
      SubmittedIn(run[..|run| - 1])
      + if run[|run| - 1].Submit? then [run[|run| - 1].edict] else []
  }

  function ReceivedIn(run: seq<Action>): nat {
    if run == [] then 0
    else ReceivedIn(run[..|run| - 1]) + One(run[|run| - 1].Receive?)
  }

  lemma {:induction false} RunSplit(p: Pool, run: seq<Action>, l: Limits)
    requires Possible(p, run, l) && run != []
    ensures
      var n := |run| - 1;
      && Possible(p, run[..n], l) && Enabled(After(p, run[..n], l), run[n])
      && After(p, run, l) == Step(After(p, run[..n], l), run[n], l)
    decreases |run|
  {
    var n := |run| - 1;
    if n > 0 {
      RunSplit(Step(p, run[0], l), run[1..], l);
      assert run[..n][1..] == run[1..][..n - 1] && run[..n][0] == run[0];
    } else {
      assert run[..0] == [] && run[1..] == [];
    }
  }

  lemma {:induction false} QueueInOrder(first: nat, run: seq<Action>, l: Limits)
    requires Possible(Initial(first), run, l)
    ensures ReceivedIn(run) <= |SubmittedIn(run)|
    ensures After(Initial(first), run, l).queue == SubmittedIn(run)[ReceivedIn(run)..]
    decreases |run|
  {
    if run != [] {
      var n := |run| - 1;
      RunSplit(Initial(first), run, l);
      QueueInOrder(first, run[..n], l);
      QueueStep(After(Initial(first), run[..n], l), run[n], l);
      DropMore(SubmittedIn(run[..n]), ReceivedIn(run[..n]), run[n]);
    }
  }

  lemma QueueStep(p: Pool, a: Action, l: Limits)
    requires Enabled(p, a)
    ensures Step(p, a, l).queue ==
      if a.Submit? then p.queue + [a.edict] else if a.Receive? then p.queue[1..] else p.queue
    ensures a.Receive? ==> p.queue != []
  {
  }

  lemma DropMore(s: seq<nat>, n: nat, a: Action)
    requires n <= |s|
    ensures a.Submit? ==> (s + [a.edict])[n..] == s[n..] + [a.edict]
    ensures a.Receive? && s[n..] != [] ==> n + 1 <= |s| && s[n + 1..] == s[n..][1..]
  {
  }

  /** In every run the next thread to receive a job receives the oldest that nobody has received. */
  lemma OldestFirst(first: nat, run: seq<Action>, l: Limits, t: nat)
    requires Possible(Initial(first), run, l) && Enabled(After(Initial(first), run, l), Receive(t))
    ensures ReceivedIn(run) < |SubmittedIn(run)|
    ensures Is(Step(After(Initial(first), run, l), Receive(t), l), t, Woken(Some(SubmittedIn(run)[ReceivedIn(run)])))
  {
    QueueInOrder(first, run, l);
  }
}
