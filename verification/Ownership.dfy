/**
 Reference counts of one query: the request tuple and the edict are shared by the worker, the
 pool threads and the messages between them. Every critical section is one step and the steps
 interleave freely. src/worker.c, src/thread_pool.c.
 */
module Ownership {
  import opened Counting

  /** How far the job of one check has got. */
  datatype Job =
    | Unsubmitted
    | Referenced     // the worker has taken a request reference for it
    | Counted        // and an edict reference
    | Queued         // on the pool's work queue
    | Taken          // a pool thread has it and has not decided
    | Running        // inside the check routine
    | Answered       // the final result is sent
    | Returned       // the routine has unlinked the request
    | Refusing       // the pool is exhausted
    | Refused        // the NULL result is sent
    | Finished       // the thread has unlinked the edict

  datatype Reply = Partial | Final | Null

  datatype Worker =
    | Submitting(next: nat)
    | Collecting
    | Done           // wants no more results, still holds the edict
    | Dropped        // edict unlinked, the caller still holds the request
    | Gone

  datatype State = State(
    jobs: seq<Job>,
    worker: Worker,
    results: seq<Reply>,
    requestCount: int,
    edictCount: int,
    requestFreed: bool,
    queueReleased: bool,
    finals: nat)       // history: final replies the worker has collected

  datatype Action =
    | TakeRequest | TakeEdict | Enqueue
    | Collect | Stop | DropEdict | DropRequest
    | Take(job: nat)
    | Decide(job: nat, process: bool)
    | SendPartial(job: nat)
    | SendFinal(job: nat)
    | UnlinkRequest(job: nat)
    | SendNull(job: nat)
    | UnlinkEdict(job: nat)

  predicate At(s: State, j: nat, w: Job) {
    j < |s.jobs| && s.jobs[j] == w
  }

  predicate Submits(s: State, w: Job) {
    s.worker.Submitting? && At(s, s.worker.next, w)
  }

  /** The last unlink of an edict empties the result queue, which must then hold no NULL result. */
  predicate MayUnlink(s: State) {
    s.edictCount == 1 ==> Null !in s.results
  }

  predicate Enabled(s: State, a: Action) {
    match a
    case TakeRequest => Submits(s, Unsubmitted)
    case TakeEdict => Submits(s, Referenced)
    case Enqueue => Submits(s, Counted)
    case Collect => s.worker.Collecting? && s.results != []
    case Stop => s.worker.Collecting?
    case DropEdict => s.worker.Done? && MayUnlink(s)
    case DropRequest => s.worker.Dropped?
    case Take(j) => At(s, j, Queued)
    case Decide(j, _) => At(s, j, Taken)
    case SendPartial(j) => At(s, j, Running)
    case SendFinal(j) => At(s, j, Running)
    case UnlinkRequest(j) => At(s, j, Answered)
    case SendNull(j) => At(s, j, Refusing)
    case UnlinkEdict(j) => (At(s, j, Returned) || At(s, j, Refused)) && MayUnlink(s)
  }

  function Moved(s: State, j: nat, w: Job): State
    requires j < |s.jobs|
  {
    s.(jobs := s.jobs[j := w])
  }

  /** request_unlink. */
  function RequestUnlinked(s: State): State {
    s.(requestCount := s.requestCount - 1, requestFreed := s.requestFreed || s.requestCount - 1 == 0)
  }

  /** edict_unlink: the last one flushes and releases the result queue. */
  function EdictUnlinked(s: State): State {
    if s.edictCount - 1 == 0 then s.(edictCount := 0, queueReleased := true, results := [])
    else s.(edictCount := s.edictCount - 1)
  }

  function Sent(s: State, r: Reply): State {
    s.(results := s.results + [r])
  }

  function Step(s: State, a: Action): State
    requires Enabled(s, a)
  {
    match a
    case TakeRequest => Moved(s, s.worker.next, Referenced).(requestCount := s.requestCount + 1)
    case TakeEdict => Moved(s, s.worker.next, Counted).(edictCount := s.edictCount + 1)
    case Enqueue =>
      var i := s.worker.next;
      Moved(s, i, Queued).(worker := if i + 1 < |s.jobs| then Submitting(i + 1) else Collecting)
    case Collect =>
      var s' := s.(results := s.results[1..], finals := s.finals + (if s.results[0].Partial? then 0 else 1));
      if s.results[0].Null? then RequestUnlinked(s') else s'
    case Stop => s.(worker := Done)
    case DropEdict => EdictUnlinked(s.(worker := Dropped))
    case DropRequest => RequestUnlinked(s.(worker := Gone))
    case Take(j) => Moved(s, j, Taken)
    case Decide(j, process) => Moved(s, j, if process then Running else Refusing)
    case SendPartial(j) => Sent(s, Partial)
    case SendFinal(j) => Sent(Moved(s, j, Answered), Final)
    case UnlinkRequest(j) => RequestUnlinked(Moved(s, j, Returned))
    case SendNull(j) => Sent(Moved(s, j, Refused), Null)
    case UnlinkEdict(j) => EdictUnlinked(Moved(s, j, Finished))
  }

  /** request_new and edict_get have given the worker one reference to each. */
  function Initial(n: nat): State
    requires n > 0
  {
    State(seq(n, _ => Unsubmitted), Submitting(0), [], 1, 1, false, false, 0)
  }

  // Who holds what.

  predicate HoldsRequest(w: Job) {
    w.Referenced? || w.Counted? || w.Queued? || w.Taken? || w.Running? || w.Answered? || w.Refusing?
  }

  predicate HoldsEdict(w: Job) {
    w.Counted? || w.Queued? || w.Taken? || w.Running? || w.Answered? || w.Returned? || w.Refusing? || w.Refused?
  }

  predicate HasReplied(w: Job) {
    w.Answered? || w.Returned? || w.Refused? || w.Finished?
  }

  predicate WorkerHoldsEdict(w: Worker) {
    w.Submitting? || w.Collecting? || w.Done?
  }

  function Count(jobs: seq<Job>, p: Job -> bool): nat {
    if jobs == [] then 0 else One(p(jobs[0])) + Count(jobs[1..], p)
  }

  function CountReplies(rs: seq<Reply>, p: Reply -> bool): nat {
    if rs == [] then 0 else One(p(rs[0])) + CountReplies(rs[1..], p)
  }

  function Nulls(rs: seq<Reply>): nat {
    CountReplies(rs, (r: Reply) => r.Null?)
  }

  function FinalReplies(rs: seq<Reply>): nat {
    CountReplies(rs, (r: Reply) => !r.Partial?)
  }

  lemma {:induction false} CountMoved(jobs: seq<Job>, j: nat, w: Job, p: Job -> bool)
    requires j < |jobs|
    ensures Count(jobs[j := w], p) == Count(jobs, p) - One(p(jobs[j])) + One(p(w))
  {
    if j == 0 {
      assert jobs[0 := w][1..] == jobs[1..];
    } else {
      assert jobs[j := w][1..] == jobs[1..][j - 1 := w];
      CountMoved(jobs[1..], j - 1, w, p);
    }
  }

  lemma {:induction false} CountSent(rs: seq<Reply>, r: Reply, p: Reply -> bool)
    ensures CountReplies(rs + [r], p) == CountReplies(rs, p) + One(p(r))
  {
    if rs == [] {
      assert rs + [r] == [r];
    } else {
      assert (rs + [r])[1..] == rs[1..] + [r];
      CountSent(rs[1..], r, p);
    }
  }

  lemma {:induction false} CountPositive(jobs: seq<Job>, j: nat, p: Job -> bool)
    requires j < |jobs| && p(jobs[j])
    ensures Count(jobs, p) > 0
  {
    if j > 0 {
      CountPositive(jobs[1..], j - 1, p);
    }
  }

  /** The request's count is its holders and the NULL results nobody has collected yet. */
  ghost predicate RequestAccounted(s: State) {
    s.requestCount == One(!s.worker.Gone?) + Count(s.jobs, HoldsRequest) + Nulls(s.results)
  }

  /** The edict's count is its queued or running jobs and the worker's own link. */
  ghost predicate EdictAccounted(s: State) {
    s.edictCount == One(WorkerHoldsEdict(s.worker)) + Count(s.jobs, HoldsEdict)
  }

  ghost predicate Inv(s: State) {
    && RequestAccounted(s) && EdictAccounted(s)
    && (s.requestFreed <==> s.requestCount == 0)
    && (s.queueReleased <==> s.edictCount == 0)
    && (s.queueReleased ==> s.results == [])
  }

  /** What moving one job does to the three counts. */
  lemma MovedCounts(s: State, j: nat, w: Job)
    requires j < |s.jobs|
    ensures
      var jobs := s.jobs[j := w];
      && Count(jobs, HoldsRequest) == Count(s.jobs, HoldsRequest) - One(HoldsRequest(s.jobs[j])) + One(HoldsRequest(w))
      && Count(jobs, HoldsEdict) == Count(s.jobs, HoldsEdict) - One(HoldsEdict(s.jobs[j])) + One(HoldsEdict(w))
      && Count(jobs, HasReplied) == Count(s.jobs, HasReplied) - One(HasReplied(s.jobs[j])) + One(HasReplied(w))
  {
    CountMoved(s.jobs, j, w, HoldsRequest);
    CountMoved(s.jobs, j, w, HoldsEdict);
    CountMoved(s.jobs, j, w, HasReplied);
  }

  lemma SentCounts(rs: seq<Reply>, r: Reply)
    ensures Nulls(rs + [r]) == Nulls(rs) + One(r.Null?)
    ensures FinalReplies(rs + [r]) == FinalReplies(rs) + One(!r.Partial?)
  {
    CountSent(rs, r, (r: Reply) => r.Null?);
    CountSent(rs, r, (r: Reply) => !r.Partial?);
  }

  lemma {:induction false} NullsIn(rs: seq<Reply>)
    ensures Nulls(rs) > 0 <==> Null in rs
  {
    if rs != [] {
      NullsIn(rs[1..]);
      assert rs == [rs[0]] + rs[1..];
    }
  }

  /** The job an action moves, and where to. */
  function Mover(s: State, a: Action): (nat, Job)
    requires Enabled(s, a) && MovesJob(a)
  {
    match a
    case TakeRequest => (s.worker.next, Referenced)
    case TakeEdict => (s.worker.next, Counted)
    case Enqueue => (s.worker.next, Queued)
    case Take(j) => (j, Taken)
    case Decide(j, process) => (j, if process then Running else Refusing)
    case SendFinal(j) => (j, Answered)
    case UnlinkRequest(j) => (j, Returned)
    case SendNull(j) => (j, Refused)
    case UnlinkEdict(j) => (j, Finished)
  }

  predicate MovesJob(a: Action) {
    a.TakeRequest? || a.TakeEdict? || a.Enqueue? || a.Take? || a.Decide?
    || a.SendFinal? || a.UnlinkRequest? || a.SendNull? || a.UnlinkEdict?
  }

  /** A holder that is about to act keeps both objects alive. */
  lemma HoldersAlive(s: State, j: nat)
    requires Inv(s) && j < |s.jobs|
    ensures HoldsRequest(s.jobs[j]) ==> s.requestCount > 0 && !s.requestFreed
    ensures HoldsEdict(s.jobs[j]) ==> s.edictCount > 0 && !s.queueReleased
  {
    if HoldsRequest(s.jobs[j]) {
      CountPositive(s.jobs, j, HoldsRequest);
    }
    if HoldsEdict(s.jobs[j]) {
      CountPositive(s.jobs, j, HoldsEdict);
    }
  }

  lemma JobStepKeeps(s: State, a: Action)
    requires Inv(s) && Enabled(s, a) && MovesJob(a)
    ensures Inv(Step(s, a))
  {
    var (j, w) := Mover(s, a);
    MovedCounts(s, j, w);
    HoldersAlive(s, j);
    SentCounts(s.results, Final);
    SentCounts(s.results, Null);
    NullsIn(s.results);
  }

  lemma WorkerStepKeeps(s: State, a: Action)
    requires Inv(s) && Enabled(s, a) && !MovesJob(a)
    ensures Inv(Step(s, a))
  {
    SentCounts(s.results, Partial);
    NullsIn(s.results);
    if a.SendPartial? {
      HoldersAlive(s, a.job);
    }
  }

  lemma StepKeeps(s: State, a: Action)
    requires Inv(s) && Enabled(s, a)
    ensures Inv(Step(s, a))
  {
    if MovesJob(a) {
      JobStepKeeps(s, a);
    } else {
      WorkerStepKeeps(s, a);
    }
  }

  ghost predicate Possible(s: State, run: seq<Action>)
    decreases |run|
  {
    run == [] || (Enabled(s, run[0]) && Possible(Step(s, run[0]), run[1..]))
  }

  ghost function After(s: State, run: seq<Action>): State
    requires Possible(s, run)
    decreases |run|
  {
    if run == [] then s else After(Step(s, run[0]), run[1..])
  }

  lemma {:induction false} InvAfter(s: State, run: seq<Action>)
    requires Inv(s) && Possible(s, run)
    ensures Inv(After(s, run))
    decreases |run|
  {
    if run != [] {
      StepKeeps(s, run[0]);
      InvAfter(Step(s, run[0]), run[1..]);
    }
  }

  lemma {:induction false} NoneYet(n: nat, p: Job -> bool)
    requires !p(Unsubmitted)
    ensures Count(seq(n, _ => Unsubmitted), p) == 0
  {
    if n > 0 {
      var jobs := seq(n, _ => Unsubmitted);
      assert jobs[1..] == seq(n - 1, _ => Unsubmitted);
      NoneYet(n - 1, p);
    }
  }

  lemma InitialInv(n: nat)
    requires n > 0
    ensures Inv(Initial(n)) && RepliesAccounted(Initial(n))
  {
    NoneYet(n, HoldsRequest);
    NoneYet(n, HoldsEdict);
    NoneYet(n, HasReplied);
  }

  /** Final replies are collected or still on the queue, until the queue is released. */
  ghost predicate RepliesAccounted(s: State) {
    !s.queueReleased ==> s.finals + FinalReplies(s.results) == Count(s.jobs, HasReplied)
  }

  lemma RepliesKept(s: State, a: Action)
    requires Inv(s) && RepliesAccounted(s) && Enabled(s, a)
    ensures RepliesAccounted(Step(s, a))
  {
    if MovesJob(a) {
      var (j, w) := Mover(s, a);
      MovedCounts(s, j, w);
      HoldersAlive(s, j);
    }
    SentCounts(s.results, Final);
    SentCounts(s.results, Null);
    SentCounts(s.results, Partial);
  }

  lemma {:induction false} RepliesAfter(s: State, run: seq<Action>)
    requires Inv(s) && RepliesAccounted(s) && Possible(s, run)
    ensures RepliesAccounted(After(s, run)) && |After(s, run).jobs| == |s.jobs|
    decreases |run|
  {
    if run != [] {
      StepKeeps(s, run[0]);
      RepliesKept(s, run[0]);
      RepliesAfter(Step(s, run[0]), run[1..]);
    }
  }

  lemma {:induction false} CountAtMost(jobs: seq<Job>, p: Job -> bool)
    ensures Count(jobs, p) <= |jobs|
  {
    if jobs != [] {
      CountAtMost(jobs[1..], p);
    }
  }

  /** The counts are exact in every state of every run. */
  lemma CountsExact(n: nat, run: seq<Action>)
    requires n > 0 && Possible(Initial(n), run)
    ensures RequestAccounted(After(Initial(n), run)) && EdictAccounted(After(Initial(n), run))
  {
    InitialInv(n);
    InvAfter(Initial(n), run);
  }

  /** In every run, the tuple lives while a check can read it, and results go to a live queue only. */
  lemma NothingUsedAfterFree(n: nat, run: seq<Action>, j: nat)
    requires n > 0 && Possible(Initial(n), run) && j < |After(Initial(n), run).jobs|
    ensures
      var s := After(Initial(n), run);
      && (HoldsRequest(s.jobs[j]) || !s.worker.Gone? ==> !s.requestFreed)
      && (s.jobs[j].Running? || s.jobs[j].Refusing? || s.worker.Collecting? ==> !s.queueReleased)
  {
    InitialInv(n);
    InvAfter(Initial(n), run);
    HoldersAlive(After(Initial(n), run), j);
  }

  lemma {:induction false} CountAll(jobs: seq<Job>, p: Job -> bool)
    requires forall j :: 0 <= j < |jobs| ==> !p(jobs[j])
    ensures Count(jobs, p) == 0
  {
    if jobs != [] {
      CountAll(jobs[1..], p);
    }
  }

  /** Once everybody is finished, nothing is left allocated. */
  lemma NothingLeaks(n: nat, run: seq<Action>)
    requires n > 0 && Possible(Initial(n), run)
    requires
      var s := After(Initial(n), run);
      s.worker.Gone? && forall j :: 0 <= j < |s.jobs| ==> s.jobs[j] == Finished
    ensures After(Initial(n), run).requestFreed && After(Initial(n), run).queueReleased
  {
    InitialInv(n);
    InvAfter(Initial(n), run);
    var s := After(Initial(n), run);
    CountAll(s.jobs, HoldsRequest);
    CountAll(s.jobs, HoldsEdict);
  }

  lemma {:induction false} FinalsIn(rs: seq<Reply>)
    requires Null in rs
    ensures FinalReplies(rs) > 0
  {
    if !rs[0].Null? {
      FinalsIn(rs[1..]);
    }
  }

  /** A worker that has collected a final reply from every check leaves no NULL result behind. */
  lemma FlushIsClean(n: nat, run: seq<Action>)
    requires n > 0 && Possible(Initial(n), run)
    requires After(Initial(n), run).finals == n
    ensures Null !in After(Initial(n), run).results
  {
    var s := After(Initial(n), run);
    InitialInv(n);
    InvAfter(Initial(n), run);
    RepliesAfter(Initial(n), run);
    CountAtMost(s.jobs, HasReplied);
    if Null in s.results {
      FinalsIn(s.results);
    }
  }

  ghost predicate Reaches(s: State, end: State) {
    exists run :: Possible(s, run) && After(s, run) == end
  }

  lemma ReachesStep(s: State, a: Action, next: State, end: State)
    requires Enabled(s, a) && Step(s, a) == next && Reaches(next, end)
    ensures Reaches(s, end)
  {
    var rest :| Possible(next, rest) && After(next, rest) == end;
    var run := [a] + rest;
    assert run[0] == a && run[1..] == rest;
    assert Possible(s, run) && After(s, run) == end;
  }

  // A worker that stops sooner can leave a NULL result. The run: all n checks are submitted, the
  // first f are heard out, the worker stops, all checks but number f finish, the worker drops the
  // edict, and then the pool refuses check number f.

  /** The first i jobs are on their queues. */
  function Submitted(n: nat, i: nat): State
    requires i < n
  {
    State(seq(n, j => if j < i then Queued else Unsubmitted), Submitting(i), [], i + 1, i + 1, false, false, 0)
  }

  /** The worker has heard out the first i checks. */
  function Heard(n: nat, i: nat): State
    requires i <= n
  {
    State(seq(n, j => if j < i then Finished else Queued), Collecting, [], n + 1 - i, n + 1 - i, false, false, i)
  }

  /** It has stopped after f, and i of the checks behind number f have finished. */
  function Stopped(n: nat, f: nat, i: nat): State
    requires f + i < n
  {
    State(seq(n, j => if j != f && j < f + 1 + i then Finished else Queued), Done, seq(i, _ => Final),
          n + 1 - f - i, n + 1 - f - i, false, false, f)
  }

  /** The refused check holds the last link of the edict, and its NULL result is on the queue. */
  function LateNull(n: nat, f: nat): State
    requires f < n
  {
    State(seq(n, j => if j == f then Refused else Finished), Dropped, seq(n - 1 - f, _ => Final) + [Null],
          2, 1, false, false, f)
  }

  /** A job that is run from its queue to the end leaves one final result. */
  lemma RunsThrough(s: State, j: nat, end: State)
    requires At(s, j, Queued) && s.edictCount > 1 && s.requestCount > 1 && !s.requestFreed
    requires Reaches(Sent(Moved(s, j, Finished), Final).(requestCount := s.requestCount - 1,
                                                         edictCount := s.edictCount - 1), end)
    ensures Reaches(s, end)
  {
    var s1 := Moved(s, j, Taken);
    var s2 := Moved(s, j, Running);
    var s3 := Sent(Moved(s, j, Answered), Final);
    var s4 := Moved(s3, j, Returned).(requestCount := s.requestCount - 1);
    var s5 := Moved(s4, j, Finished).(edictCount := s.edictCount - 1);
    assert s5 == Sent(Moved(s, j, Finished), Final).(requestCount := s.requestCount - 1,
                                                     edictCount := s.edictCount - 1);
    ReachesStep(s4, UnlinkEdict(j), s5, end);
    ReachesStep(s3, UnlinkRequest(j), s4, end);
    ReachesStep(s2, SendFinal(j), s3, end);
    ReachesStep(s1, Decide(j, true), s2, end);
    ReachesStep(s, Take(j), s1, end);
  }

  lemma {:induction false} SubmitsAll(n: nat, i: nat, end: State)
    requires i < n && Reaches(Heard(n, 0), end)
    ensures Reaches(Submitted(n, i), end)
    decreases n - i
  {
    var s0 := Submitted(n, i);
    var s1 := Moved(s0, i, Referenced).(requestCount := i + 2);
    var s2 := Moved(s1, i, Counted).(edictCount := i + 2);
    var s3 := if i + 1 < n then Submitted(n, i + 1) else Heard(n, 0);
    if i + 1 < n {
      SubmitsAll(n, i + 1, end);
    }
    assert Step(s2, Enqueue).jobs == s3.jobs;
    ReachesStep(s2, Enqueue, s3, end);
    ReachesStep(s1, TakeEdict, s2, end);
    ReachesStep(s0, TakeRequest, s1, end);
  }

  lemma {:induction false} HearsOut(n: nat, f: nat, i: nat, end: State)
    requires i <= f < n && Reaches(Heard(n, f), end)
    ensures Reaches(Heard(n, i), end)
    decreases f - i
  {
    if i < f {
      HearsOut(n, f, i + 1, end);
      var s := Heard(n, i);
      var s1 := Sent(Moved(s, i, Finished), Final).(requestCount := s.requestCount - 1, edictCount := s.edictCount - 1);
      assert Step(s1, Collect).jobs == Heard(n, i + 1).jobs;
      ReachesStep(s1, Collect, Heard(n, i + 1), end);
      RunsThrough(s, i, end);
    }
  }

  lemma {:induction false} OthersFinish(n: nat, f: nat, i: nat, end: State)
    requires f + i < n && Reaches(Stopped(n, f, n - 1 - f), end)
    ensures Reaches(Stopped(n, f, i), end)
    decreases n - i
  {
    if f + i + 1 < n {
      OthersFinish(n, f, i + 1, end);
      var s, j := Stopped(n, f, i), f + 1 + i;
      var s1 := Sent(Moved(s, j, Finished), Final).(requestCount := s.requestCount - 1, edictCount := s.edictCount - 1);
      assert s1.jobs == Stopped(n, f, i + 1).jobs && s1.results == Stopped(n, f, i + 1).results;
      RunsThrough(s, j, end);
    }
  }

  lemma RefusedLate(n: nat, f: nat)
    requires f < n
    ensures Reaches(Stopped(n, f, n - 1 - f), LateNull(n, f))
  {
    var s, end := Stopped(n, f, n - 1 - f), LateNull(n, f);
    assert Possible(end, []) && After(end, []) == end;
    var s1 := s.(worker := Dropped, edictCount := 1);
    var s2 := Moved(s1, f, Taken);
    var s3 := Moved(s1, f, Refusing);
    assert Step(s3, SendNull(f)).jobs == end.jobs;
    ReachesStep(s3, SendNull(f), end, end);
    ReachesStep(s2, Decide(f, false), s3, end);
    ReachesStep(s1, Take(f), s2, end);
    ReachesStep(s, DropEdict, s1, end);
  }

  /** With fewer than n final replies collected the very last unlink can meet a NULL result. */
  lemma FlushCanMeetNull(n: nat, f: nat)
    requires f < n
    ensures Reaches(Initial(n), LateNull(n, f)) && At(LateNull(n, f), f, Refused) && !MayUnlink(LateNull(n, f))
  {
    var end := LateNull(n, f);
    RefusedLate(n, f);
    OthersFinish(n, f, 0, end);
    assert Heard(n, f).(worker := Done).jobs == Stopped(n, f, 0).jobs;
    ReachesStep(Heard(n, f), Stop, Stopped(n, f, 0), end);
    HearsOut(n, f, 0, end);
    SubmitsAll(n, 0, end);
    assert Initial(n).jobs == Submitted(n, 0).jobs;
    assert end.results[n - 1 - f] == Null;
  }

  /** The worker wants no more results. */
  predicate HasStopped(w: Worker) {
    w.Done? || w.Dropped? || w.Gone?
  }

  /** In every run in which the worker has stopped after f final replies no NULL result is left. */
  ghost predicate AlwaysClean(n: nat, f: nat)
    requires n > 0
  {
    forall run :: Possible(Initial(n), run) ==>
      var s := After(Initial(n), run);
      HasStopped(s.worker) && s.finals == f ==> Null !in s.results
  }

  /** The same asked of the flush alone: one link to the edict is left. */
  ghost predicate FlushClean(n: nat, f: nat)
    requires n > 0
  {
    forall run :: Possible(Initial(n), run) ==>
      var s := After(Initial(n), run);
      HasStopped(s.worker) && s.finals == f && s.edictCount == 1 ==> Null !in s.results
  }

  /** The flush is free of NULL results exactly when the worker stopped with no check running. */
  lemma FlushCleanExactly(n: nat, f: nat)
    requires f <= n && n > 0
    ensures AlwaysClean(n, f) <==> f == n
    ensures FlushClean(n, f) <==> f == n
  {
    if f == n {
      forall run | Possible(Initial(n), run) && After(Initial(n), run).finals == f
        ensures Null !in After(Initial(n), run).results
      {
        FlushIsClean(n, run);
      }
    } else {
      FlushCanMeetNull(n, f);
      var run :| Possible(Initial(n), run) && After(Initial(n), run) == LateNull(n, f);
    }
  }
}
