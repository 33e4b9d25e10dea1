/**
 Queue ids over every interleaving: releasing a queue takes three separate critical sections,
 and get_queue may run between any two of them. src/msgqueue.c.
 */
module QueueIds {
  /** How far the owner of a queue has got with it. */
  datatype Phase = InUse | Checked | Deactivated | Free

  /** A created queue: the active flag, its number of messages, and its owner's progress. */
  datatype Queue = Queue(active: bool, count: nat, phase: Phase)

  datatype State = State(queues: seq<Queue>, metaqueue: seq<nat>)

  datatype Action =
    | Get                  // get_queue, under the global lock
    | Put(id: nat)         // a producer of the owner
    | Consume(id: nat)
    | Check(id: nat)       // release_queue finds the queue empty
    | Deactivate(id: nat)
    | Push(id: nat)        // the put on the metaqueue

  predicate InPhase(s: State, id: nat, p: Phase) {
    id < |s.queues| && s.queues[id].phase == p
  }

  /** Owners release once, and nobody puts messages into a queue that is being released. */
  predicate Enabled(s: State, a: Action) {
    match a
    case Get => true
    case Put(id) => InPhase(s, id, InUse)
    case Consume(id) => InPhase(s, id, InUse) && s.queues[id].count > 0
    case Check(id) => InPhase(s, id, InUse) && s.queues[id].count == 0
    case Deactivate(id) => InPhase(s, id, Checked)
    case Push(id) => InPhase(s, id, Deactivated)
  }

  /** The id get_queue is about to return. */
  function NextId(s: State): nat {
    if s.metaqueue != [] then s.metaqueue[0] else |s.queues|
  }

  function With(s: State, id: nat, q: Queue): State
    requires id < |s.queues|
  {
    s.(queues := s.queues[id := q])
  }

  function Step(s: State, a: Action): State
    requires Enabled(s, a) && Inv(s)
  {
    match a
    case Get =>
      if s.metaqueue != [] then
        var id := s.metaqueue[0];
        With(s, id, s.queues[id].(active := true, phase := InUse)).(metaqueue := s.metaqueue[1..])
      else s.(queues := s.queues + [Queue(true, 0, InUse)])
    case Put(id) => With(s, id, s.queues[id].(count := s.queues[id].count + 1))
    case Consume(id) => With(s, id, s.queues[id].(count := s.queues[id].count - 1))
    case Check(id) => With(s, id, s.queues[id].(phase := Checked))
    case Deactivate(id) => With(s, id, s.queues[id].(active := false, phase := Deactivated))
    case Push(id) => With(s, id, s.queues[id].(phase := Free)).(metaqueue := s.metaqueue + [id])
  }

  predicate Sound(q: Queue) {
    && (q.active <==> q.phase.InUse? || q.phase.Checked?)
    && (!q.phase.InUse? ==> q.count == 0)
  }

  /** The metaqueue lists exactly the free queues, once each; they are empty and inactive. */
  predicate Inv(s: State) {
    && (forall i :: 0 <= i < |s.queues| ==> Sound(s.queues[i]))
    && (forall k :: 0 <= k < |s.metaqueue| ==> InPhase(s, s.metaqueue[k], Free))
    && (forall j, k :: 0 <= j < k < |s.metaqueue| ==> s.metaqueue[j] != s.metaqueue[k])
    && (forall i :: 0 <= i < |s.queues| && s.queues[i].phase.Free? ==> i in s.metaqueue)
  }

  lemma GetKeeps(s: State)
    requires Inv(s)
    ensures Inv(Step(s, Get))
  {
    var s' := Step(s, Get);
    if s.metaqueue != [] {
      forall i | 0 <= i < |s'.queues| && s'.queues[i].phase.Free?
        ensures i in s'.metaqueue
      {
        var k :| 0 <= k < |s.metaqueue| && s.metaqueue[k] == i;
        assert s'.metaqueue[k - 1] == i;
      }
    }
  }

  lemma StepKeeps(s: State, a: Action)
    requires Inv(s) && Enabled(s, a)
    ensures Inv(Step(s, a))
  {
    if a.Get? {
      GetKeeps(s);
    }
  }

  ghost predicate Possible(s: State, run: seq<Action>)
    requires Inv(s)
    decreases |run|
  {
    run == [] || (Enabled(s, run[0]) && (StepKeeps(s, run[0]); Possible(Step(s, run[0]), run[1..])))
  }

  ghost function After(s: State, run: seq<Action>): (s': State)
    requires Inv(s) && Possible(s, run)
    ensures Inv(s')
    decreases |run|
  {
    if run == [] then s else (StepKeeps(s, run[0]); After(Step(s, run[0]), run[1..]))
  }

  const INITIAL := State([], [])

  /**
   In every run the id get_queue returns is not held by anyone, not even by an owner half way
   through releasing it, and the queue behind it is empty.
   */
  lemma IdIsFree(run: seq<Action>)
    requires Possible(INITIAL, run)
    ensures
      var s := After(INITIAL, run);
      var id := NextId(s);
      && InPhase(Step(s, Get), id, InUse) && Step(s, Get).queues[id].count == 0
      && (id < |s.queues| ==> s.queues[id].phase == Free)
      && (forall i :: 0 <= i < |s.queues| && i != id ==> Step(s, Get).queues[i] == s.queues[i])
  {
  }

  /** An id that was handed out stays taken until the last step of its release. */
  lemma {:induction false} TakenUntilPushed(s: State, run: seq<Action>, id: nat)
    requires Inv(s) && Possible(s, run) && Push(id) !in run
    requires id < |s.queues| && !InPhase(s, id, Free)
    ensures id < |After(s, run).queues| && !InPhase(After(s, run), id, Free)
    decreases |run|
  {
    if run != [] {
      assert run[0] in run;
      StepKeeps(s, run[0]);
      TakenUntilPushed(Step(s, run[0]), run[1..], id);
    }
  }

  /** In every run, get_queue returns the same id again only after its owner has released it. */
  lemma ReusedOnlyAfterRelease(before: seq<Action>, between: seq<Action>)
    requires Possible(INITIAL, before)
    requires Possible(After(INITIAL, before), [Get] + between)
    ensures
      var s := After(INITIAL, before);
      NextId(After(s, [Get] + between)) == NextId(s) ==> Push(NextId(s)) in between
  {
    var s := After(INITIAL, before);
    var id := NextId(s);
    StepKeeps(s, Get);
    assert ([Get] + between)[1..] == between;
    if Push(id) !in between {
      TakenUntilPushed(Step(s, Get), between, id);
    }
  }

  lemma OnceEach(m: seq<nat>, i: nat)
    requires forall j, k :: 0 <= j < k < |m| ==> m[j] != m[k]
    ensures multiset(m)[i] == if i in m then 1 else 0
  {
    if i in m {
      var k :| 0 <= k < |m| && m[k] == i;
      assert m == m[..k] + [i] + m[k + 1..];
      assert i !in m[..k] && i !in m[k + 1..];
    }
  }

  /** Every run keeps the metaqueue a duplicate-free list of exactly the released queues. */
  lemma {:induction false} MetaqueueExact(run: seq<Action>, i: nat)
    requires Possible(INITIAL, run)
    ensures
      var s := After(INITIAL, run);
      multiset(s.metaqueue)[i] == if InPhase(s, i, Free) then 1 else 0
  {
    OnceEach(After(INITIAL, run).metaqueue, i);
  }
}
