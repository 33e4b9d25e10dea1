/**
 test_tuple: the shortcuts, the loop that collects check results and the status it settles on;
 and the proof that neither the order of arrival nor stopping early changes that status.
 src/worker.c.
 */
module Verdict {
  datatype Judgment = Undefined | Suspicious | Block | Pass {
    function Rank(): nat {
      match this
      case Undefined => 0
      case Suspicious => 1
      case Block => 2
      case Pass => 3
    }
  }

  datatype Status = Grey | Match | Trust | Blocked | Fail

  /** A message on the result queue; Null comes from a pool that refused the job. */
  datatype Reply =
    | Null
    | Result(definitive: bool, wait: bool, weight: int, judgment: Judgment)

  datatype Thresholds = Thresholds(grey: int, block: int)

  /** What one pass of the loop meets: a reply, an empty wait, or the end of a timeout entry. */
  datatype Event = Got(reply: Reply) | Nothing | Expired

  /** The variables of the loop; timeouts counts the entries left in the timeout list. */
  datatype Tally = Tally(
    judgment: Judgment,
    weight: int,
    checksRunning: int,
    definitivesRunning: int,
    definitive: bool,
    timeouts: nat)
  {
    predicate Running() {
      !definitive && checksRunning > 0 && timeouts > 0
    }
  }

  function MaxJudgment(a: Judgment, b: Judgment): Judgment {
    if a.Rank() > b.Rank() then a else b
  }

  predicate Final(r: Reply) {
    r.Null? || !r.wait
  }

  function Weight(r: Reply): int {
    if r.Null? then 0 else r.weight
  }

  function JudgmentOf(r: Reply): Judgment {
    if r.Null? then Undefined else r.judgment
  }

  predicate Flagged(r: Reply) {
    r.Result? && r.definitive
  }

  /** The test made after each reply. */
  predicate Settled(t: Tally, th: Thresholds) {
    || t.judgment.Pass?
    || (t.definitivesRunning == 0 &&
        if th.block != 0 then t.weight >= th.block else t.weight >= th.grey)
  }

  function Absorb(t: Tally, r: Reply, th: Thresholds): Tally {
    var t' := t.(judgment := MaxJudgment(t.judgment, JudgmentOf(r)),
                 weight := t.weight + Weight(r),
                 checksRunning := t.checksRunning - (if Final(r) then 1 else 0),
                 definitivesRunning := t.definitivesRunning - (if Flagged(r) then 1 else 0));
    t'.(definitive := Settled(t', th))
  }

  function OnePass(t: Tally, e: Event, th: Thresholds): Tally
    requires t.timeouts > 0
  {
    match e
    case Got(r) => Absorb(t, r, th)
    case Nothing => t
    case Expired => t.(timeouts := t.timeouts - 1)
  }

  /** The loop, for as long as it runs and there are events. */
  function Collect(t: Tally, events: seq<Event>, th: Thresholds): Tally
    decreases |events|
  {
    if !t.Running() || events == [] then t else Collect(OnePass(t, events[0], th), events[1..], th)
  }

  /** The switch after the loop; seen is the filter's answer. */
  function Conclude(judgment: Judgment, weight: int, th: Thresholds, seen: bool): Status {
    match judgment
    case Pass => Trust
    case Block => Blocked
    case _ =>
      if th.block > 0 && weight >= th.block then Blocked
      else if weight >= th.grey then (if seen then Match else Grey)
      else Trust
  }

  function Start(checks: nat, definitives: nat, timeouts: nat): Tally {
    Tally(Undefined, 0, checks, definitives, false, timeouts)
  }

  /** What the configuration contributes; the daemon sets shortcut when it never blocks. */
  datatype Config = Config(shortcut: bool, updateAlways: bool, dryRun: bool, th: Thresholds)

  /** The final status, and whether the tuple is put on the update queue. */
  datatype Answer = Answer(status: Status, updated: bool)

  /** How many of the registered checks are definitive. */
  function Definitives(checklist: seq<bool>): nat {
    if checklist == [] then 0
    else Definitives(checklist[..|checklist| - 1]) + (if checklist[|checklist| - 1] then 1 else 0)
  }

  /** A caller without a timeout list gets one entry. */
  function Entries(timeouts: nat): nat {
    if timeouts == 0 then 1 else timeouts
  }

  /** What the loop has collected when it ends. */
  function Collected(checklist: seq<bool>, timeouts: nat, events: seq<Event>, th: Thresholds): Tally {
    Collect(Start(|checklist|, Definitives(checklist), Entries(timeouts)), events, th)
  }

  /** The three ways to a status: at once, without checks, or from what was collected. */
  function Decided(cfg: Config, checks: nat, seen: bool, collected: Status): Status {
    if seen && (cfg.shortcut || checks == 0) then Match
    else if checks == 0 then Grey
    else collected
  }

  function StatusOf(cfg: Config, checklist: seq<bool>, timeouts: nat, events: seq<Event>,
                    seen: bool, seenLater: bool): Status {
    var t := Collected(checklist, timeouts, events, cfg.th);
    Decided(cfg, |checklist|, seen, Conclude(t.judgment, t.weight, cfg.th, seenLater))
  }

  function Answered(cfg: Config, status: Status): Answer {
    Answer(if cfg.dryRun then Trust else status, status.Grey? || status.Match? || cfg.updateAlways)
  }

  /** The submission loop. */
  method SubmitJobs(checklist: seq<bool>) returns (checks: nat, definitives: nat)
    ensures checks == |checklist| && definitives == Definitives(checklist)
  {
    checks, definitives := 0, 0;
    while checks < |checklist|
      invariant checks <= |checklist| && definitives == Definitives(checklist[..checks])
    {
      if checklist[checks] {
        definitives := definitives + 1;
      }
      assert checklist[..checks + 1][..checks] == checklist[..checks];
      checks := checks + 1;
    }
    assert checklist[..checks] == checklist;
  }

  /** The loop over its local variables. */
  method CollectResults(checks: nat, definitives: nat, timeouts: nat, events: seq<Event>, th: Thresholds)
    returns (t: Tally)
    ensures t == Collect(Start(checks, definitives, timeouts), events, th)
  {
    var judgment, weight := Undefined, 0;
    var checksRunning, definitivesRunning := checks as int, definitives as int;
    var definitive, ta := false, timeouts;
    var i := 0;
    while !definitive && checksRunning > 0 && ta > 0 && i < |events|
      invariant 0 <= i <= |events|
      invariant Collect(Tally(judgment, weight, checksRunning, definitivesRunning, definitive, ta), events[i..], th)
             == Collect(Start(checks, definitives, timeouts), events, th)
    {
      assert events[i..][0] == events[i] && events[i..][1..] == events[i + 1..];
      match events[i] {
        case Got(result) =>
          if result.Null? {
            checksRunning := checksRunning - 1;
          } else {
            if !result.wait {
              checksRunning := checksRunning - 1;
            }
            judgment := if judgment.Rank() > result.judgment.Rank() then judgment else result.judgment;
            weight := weight + result.weight;
            if result.definitive {
              definitivesRunning := definitivesRunning - 1;
            }
          }
          if judgment.Pass? {
            definitive := true;
          } else if 0 == definitivesRunning {
            if th.block != 0 && weight >= th.block {
              definitive := true;
            } else if th.block == 0 && weight >= th.grey {
              definitive := true;
            }
          }
        case Nothing =>
        case Expired => ta := ta - 1;
      }
      i := i + 1;
    }
    t := Tally(judgment, weight, checksRunning, definitivesRunning, definitive, ta);
  }

  /**
   test_tuple. maskable says whether grey_mask accepts the client's address; seen and seenLater
   are the filter's answers before and after the checks.
   */
  method TestTuple(maskable: bool, cfg: Config, checklist: seq<bool>, timeouts: nat, events: seq<Event>,
                   seen: bool, seenLater: bool)
    returns (ret: int, answer: Answer)
    ensures !maskable ==> ret == -1 && answer == Answer(Fail, false)
    ensures maskable ==> ret == 0 && !answer.status.Fail?
    ensures answer.status.Grey? || answer.status.Match? ==> answer.updated
    ensures maskable && cfg.updateAlways ==> answer.updated
    ensures !cfg.dryRun && !cfg.updateAlways && (answer.status.Trust? || answer.status.Blocked?) ==> !answer.updated
    ensures maskable && cfg.dryRun ==> answer.status.Trust?
    ensures maskable ==> answer == Answered(cfg, StatusOf(cfg, checklist, timeouts, events, seen, seenLater))
  {
    if !maskable {
      return -1, Answer(Fail, false);
    }
    var checkcount := |checklist|;
    var retvalue;
    if seen && (cfg.shortcut || 0 == checkcount) {
      retvalue := Match;
    } else if 0 == checkcount {
      retvalue := Grey;
    } else {
      var ta := if timeouts == 0 then 1 else timeouts;
      var checksRunning, definitivesRunning := SubmitJobs(checklist);
      var t := CollectResults(checksRunning, definitivesRunning, ta, events, cfg.th);
      match t.judgment {
        case Pass => retvalue := Trust;
        case Block => retvalue := Blocked;
        case _ =>
          if cfg.th.block > 0 && t.weight >= cfg.th.block {
            retvalue := Blocked;
          } else if t.weight >= cfg.th.grey {
            if seenLater {
              retvalue := Match;
            } else {
              retvalue := Grey;
            }
          } else {
            retvalue := Trust;
          }
      }
    }
    var updated := retvalue.Grey? || retvalue.Match? || cfg.updateAlways;
    if cfg.dryRun {
      retvalue := Trust;
    }
    return 0, Answer(retvalue, updated);
  }

  /** A dry run hides the status and changes nothing else. */
  lemma DryRunOnlyHides(cfg: Config, status: Status)
    ensures Answered(cfg.(dryRun := true), status)
         == Answer(Trust, Answered(cfg.(dryRun := false), status).updated)
    ensures Answered(cfg.(dryRun := false), status).status == status
  {
  }

  /** A tuple that stays in the filter is never deferred, whatever the checks do and even on a timeout. */
  lemma SeenNeverDeferred(cfg: Config, checklist: seq<bool>, timeouts: nat, events: seq<Event>)
    ensures !StatusOf(cfg, checklist, timeouts, events, true, true).Grey?
  {
  }
}

/** What the loop has heard decides, and nothing else. */
module Hearing {
  import opened Verdict

  /** The reply is a result with this judgment. */
  predicate Says(r: Reply, j: Judgment) {
    r.Result? && r.judgment == j
  }

  ghost predicate Said(rs: seq<Reply>, j: Judgment) {
    exists i :: 0 <= i < |rs| && Says(rs[i], j)
  }

  /** The weights of some replies together. */
  function Suspicion(rs: seq<Reply>): int {
    if rs == [] then 0
    else
      Suspicion(rs[..|rs| - 1])
      + match rs[|rs| - 1] { case Null => 0 case Result(_, _, weight, _) => weight }
  }

  /** How many checks the replies end. */
  function Ended(rs: seq<Reply>): nat {
    if rs == [] then 0
    else
      Ended(rs[..|rs| - 1])
      + match rs[|rs| - 1] { case Null => 1 case Result(_, wait, _, _) => if wait then 0 else 1 }
  }

  /** How many of them are marked definitive. */
  function Marked(rs: seq<Reply>): nat {
    if rs == [] then 0
    else
      Marked(rs[..|rs| - 1])
      + match rs[|rs| - 1] { case Null => 0 case Result(definitive, _, _, _) => if definitive then 1 else 0 }
  }

  /** The verdict on some replies. */
  ghost function VerdictOf(rs: seq<Reply>, th: Thresholds, seen: bool): Status {
    if Said(rs, Pass) then Trust
    else if Said(rs, Block) then Blocked
    else if th.block > 0 && Suspicion(rs) >= th.block then Blocked
    else if Suspicion(rs) < th.grey then Trust
    else if seen then Match else Grey
  }

  /** The replies are reason enough to stop waiting. */
  ghost predicate Enough(rs: seq<Reply>, definitives: nat, th: Thresholds) {
    && rs != []
    && (Said(rs, Pass) ||
        (Marked(rs) == definitives && Suspicion(rs) >= if th.block != 0 then th.block else th.grey))
  }

  /** The replies the loop takes before it ends. */
  function Heard(t: Tally, events: seq<Event>, th: Thresholds): seq<Reply>
    decreases |events|
  {
    if !t.Running() || events == [] then []
    else
      (if events[0].Got? then [events[0].reply] else []) + Heard(OnePass(t, events[0], th), events[1..], th)
  }

  function Expiries(t: Tally, events: seq<Event>, th: Thresholds): nat
    decreases |events|
  {
    if !t.Running() || events == [] then 0
    else (if events[0].Expired? then 1 else 0) + Expiries(OnePass(t, events[0], th), events[1..], th)
  }

  /** The loop's variables are what the replies add up to. */
  ghost predicate Counted(t: Tally, rs: seq<Reply>, checks: nat, definitives: nat, th: Thresholds) {
    && (t.judgment.Pass? <==> Said(rs, Pass))
    && (t.judgment.Block? <==> Said(rs, Block) && !Said(rs, Pass))
    && t.weight == Suspicion(rs)
    && t.checksRunning == checks - Ended(rs)
    && t.definitivesRunning == definitives - Marked(rs)
    && (t.definitive <==> Enough(rs, definitives, th))
  }

  lemma SaidMore(rs: seq<Reply>, r: Reply, j: Judgment)
    ensures Said(rs + [r], j) <==> Said(rs, j) || Says(r, j)
  {
    var all := rs + [r];
    if i :| 0 <= i < |rs| && Says(rs[i], j) {
      assert Says(all[i], j);
    }
    if Says(r, j) {
      assert Says(all[|rs|], j);
    }
    if i :| 0 <= i < |all| && Says(all[i], j) {
      assert i == |rs| || Says(rs[i], j);
    }
  }

  lemma CountedMore(t: Tally, rs: seq<Reply>, r: Reply, checks: nat, definitives: nat, th: Thresholds)
    requires Counted(t, rs, checks, definitives, th)
    ensures Counted(Absorb(t, r, th), rs + [r], checks, definitives, th)
  {
    assert (rs + [r])[..|rs|] == rs;
    SaidMore(rs, r, Pass);
    SaidMore(rs, r, Block);
  }

  lemma {:induction false} LoopCounted(t: Tally, events: seq<Event>, rs: seq<Reply>, checks: nat, definitives: nat,
                                       th: Thresholds)
    requires Counted(t, rs, checks, definitives, th)
    ensures Counted(Collect(t, events, th), rs + Heard(t, events, th), checks, definitives, th)
    ensures Collect(t, events, th).timeouts == t.timeouts - Expiries(t, events, th)
    decreases |events|
  {
    if t.Running() && events != [] {
      var t' := OnePass(t, events[0], th);
      if events[0].Got? {
        CountedMore(t, rs, events[0].reply, checks, definitives, th);
        LoopCounted(t', events[1..], rs + [events[0].reply], checks, definitives, th);
        assert rs + Heard(t, events, th) == rs + [events[0].reply] + Heard(t', events[1..], th);
      } else {
        LoopCounted(t', events[1..], rs, checks, definitives, th);
        assert Heard(t, events, th) == Heard(t', events[1..], th);
      }
    } else {
      assert rs + Heard(t, events, th) == rs;
    }
  }

  /** The replies test_tuple hears. */
  function HeardBy(checklist: seq<bool>, timeouts: nat, events: seq<Event>, th: Thresholds): seq<Reply> {
    Heard(Start(|checklist|, Definitives(checklist), Entries(timeouts)), events, th)
  }

  /** Whatever ends the loop, a timeout too, the status is the verdict on the replies it has heard. */
  lemma {:induction false} StatusOfHeard(cfg: Config, checklist: seq<bool>, timeouts: nat, events: seq<Event>,
                                         seen: bool, seenLater: bool)
    ensures
      var heard := HeardBy(checklist, timeouts, events, cfg.th);
      StatusOf(cfg, checklist, timeouts, events, seen, seenLater) ==
        if seen && (cfg.shortcut || checklist == []) then Match
        else if checklist == [] then Grey
        else VerdictOf(heard, cfg.th, seenLater)
  {
    var t0 := Start(|checklist|, Definitives(checklist), Entries(timeouts));
    LoopCounted(t0, events, [], |checklist|, Definitives(checklist), cfg.th);
    assert [] + Heard(t0, events, cfg.th) == Heard(t0, events, cfg.th);
  }

  /** When the loop stops: with enough heard, with every check ended, or with the timeouts used up. */
  lemma {:induction false} StopsExactly(checklist: seq<bool>, timeouts: nat, events: seq<Event>, th: Thresholds)
    ensures
      var heard := HeardBy(checklist, timeouts, events, th);
      var t0 := Start(|checklist|, Definitives(checklist), Entries(timeouts));
      !Collected(checklist, timeouts, events, th).Running() <==>
        || Enough(heard, Definitives(checklist), th)
        || Ended(heard) >= |checklist|
        || Expiries(t0, events, th) >= if timeouts == 0 then 1 else timeouts
  {
    var t0 := Start(|checklist|, Definitives(checklist), Entries(timeouts));
    LoopCounted(t0, events, [], |checklist|, Definitives(checklist), th);
    assert [] + Heard(t0, events, th) == Heard(t0, events, th);
  }

  /** While it has not stopped, the loop hears every reply. */
  lemma {:induction false} RunningHearsAll(t: Tally, events: seq<Event>, th: Thresholds)
    requires Collect(t, events, th).Running()
    ensures Heard(t, events, th) == Gots(events)
    decreases |events|
  {
    if events != [] {
      RunningHearsAll(OnePass(t, events[0], th), events[1..], th);
    }
  }

  /** The replies among some events. */
  function Gots(events: seq<Event>): seq<Reply> {
    if events == [] then []
    else (if events[0].Got? then [events[0].reply] else []) + Gots(events[1..])
  }

  // The order in which the replies were heard does not matter.

  lemma {:induction false} SuspicionWithout(rs: seq<Reply>, i: nat)
    requires i < |rs|
    ensures Suspicion(rs) == Suspicion(rs[..i] + rs[i + 1..]) + Suspicion([rs[i]])
  {
    var n := |rs| - 1;
    assert [rs[i]][..0] == [];
    if i == n {
      assert rs[..i] + rs[i + 1..] == rs[..n];
    } else {
      SuspicionWithout(rs[..n], i);
      var rest := rs[..i] + rs[i + 1..];
      assert rest[..|rest| - 1] == rs[..n][..i] + rs[..n][i + 1..];
    }
  }

  lemma {:induction false} SuspicionOrderFree(a: seq<Reply>, b: seq<Reply>)
    requires multiset(a) == multiset(b)
    ensures Suspicion(a) == Suspicion(b)
    decreases |a|
  {
    if a == [] {
      assert |multiset(b)| == 0;
    } else {
      var n := |a| - 1;
      var r := a[n];
      assert r in multiset(a);
      var i :| 0 <= i < |b| && b[i] == r;
      RemovedOne(b, i);
      RemovedOne(a, n);
      assert a[..n] + a[n + 1..] == a[..n];
      SuspicionOrderFree(a[..n], b[..i] + b[i + 1..]);
      SuspicionWithout(a, n);
      SuspicionWithout(b, i);
    }
  }

  lemma RemovedOne<T>(s: seq<T>, i: nat)
    requires i < |s|
    ensures multiset(s[..i] + s[i + 1..]) == multiset(s) - multiset{s[i]}
  {
    assert s == s[..i] + [s[i]] + s[i + 1..];
  }

  lemma SaidOrderFree(a: seq<Reply>, b: seq<Reply>, j: Judgment)
    requires multiset(a) == multiset(b) && Said(a, j)
    ensures Said(b, j)
  {
    var i :| 0 <= i < |a| && Says(a[i], j);
    assert a[i] in multiset(a);
    var k :| 0 <= k < |b| && b[k] == a[i];
  }

  lemma {:induction false} VerdictOrderFree(a: seq<Reply>, b: seq<Reply>, th: Thresholds, seen: bool)
    requires multiset(a) == multiset(b)
    ensures VerdictOf(a, th, seen) == VerdictOf(b, th, seen)
  {
    SuspicionOrderFree(a, b);
    forall j | Said(a, j) || Said(b, j)
      ensures Said(a, j) && Said(b, j)
    {
      if Said(a, j) {
        SaidOrderFree(a, b, j);
      } else {
        SaidOrderFree(b, a, j);
      }
    }
  }
}

/** Order and early stopping do not matter. */
module Confluence {
  import opened Hearing
  import opened Verdict

  /** A configured check and everything it sends for one request. */
  datatype Check = Check(definitive: bool, replies: seq<Reply>)

  datatype Arrival = Arrival(check: nat, reply: Reply)

  /**
   A check sends one final reply, as its last; weights are not negative; only a definitive check
   judges PASS or BLOCK or flags a reply, and it flags at most its last.
   */
  ghost predicate WellBehaved(c: Check) {
    && c.replies != []
    && (c.replies[|c.replies| - 1].Result? ==> !c.replies[|c.replies| - 1].wait)
    && (forall j :: 0 <= j < |c.replies| - 1 ==>
          c.replies[j].Result? && c.replies[j].wait && !c.replies[j].definitive)
    && (forall j :: 0 <= j < |c.replies| && c.replies[j].Result? ==> c.replies[j].weight >= 0)
    && (!c.definitive ==> forall j :: 0 <= j < |c.replies| && c.replies[j].Result? ==>
          !c.replies[j].definitive && (c.replies[j].judgment.Undefined? || c.replies[j].judgment.Suspicious?))
  }

  predicate Mild(r: Reply) {
    !Flagged(r) && JudgmentOf(r).Rank() <= 1
  }

  /** What check k contributed to a sequence of arrivals. */
  function Project(order: seq<Arrival>, k: nat): seq<Reply> {
    if order == [] then []
    else
      var last := order[|order| - 1];
      Project(order[..|order| - 1], k) + (if last.check == k then [last.reply] else [])
  }

  /** The arrivals interleave the checks' replies, each check's own in the order it sent them. */
  ghost predicate Interleaving(order: seq<Arrival>, checks: seq<Check>) {
    && (forall i :: 0 <= i < |order| ==> order[i].check < |checks|)
    && (forall k :: 0 <= k < |checks| ==> Project(order, k) == checks[k].replies)
  }

  // Sums by check.

  function Total(f: Reply -> int, rs: seq<Reply>): int {
    if rs == [] then 0 else Total(f, rs[..|rs| - 1]) + f(rs[|rs| - 1])
  }

  function TotalOf(f: Reply -> int, order: seq<Arrival>): int {
    if order == [] then 0 else TotalOf(f, order[..|order| - 1]) + f(order[|order| - 1].reply)
  }

  /** The sum of g over the first n checks. */
  function SumTo(g: nat -> int, n: nat): int {
    if n == 0 then 0 else SumTo(g, n - 1) + g(n - 1)
  }

  lemma {:induction false} SumToStep(g: nat -> int, h: nat -> int, k: nat, d: int, n: nat)
    requires forall i :: g(i) == h(i) + (if i == k then d else 0)
    ensures SumTo(g, n) == SumTo(h, n) + (if k < n then d else 0)
    decreases n
  {
    if n > 0 {
      SumToStep(g, h, k, d, n - 1);
    }
  }

  function Each(f: Reply -> int, order: seq<Arrival>): nat -> int {
    (k: nat) => Total(f, Project(order, k))
  }

  function ByCheck(f: Reply -> int, order: seq<Arrival>, n: nat): int {
    SumTo(Each(f, order), n)
  }

  lemma TotalStep(f: Reply -> int, rs: seq<Reply>, r: Reply)
    ensures Total(f, rs + [r]) == Total(f, rs) + f(r)
  {
    assert (rs + [r])[..|rs|] == rs;
  }

  lemma ByCheckStep(f: Reply -> int, order: seq<Arrival>, n: nat)
    requires order != []
    ensures
      var last := order[|order| - 1];
      ByCheck(f, order, n) == ByCheck(f, order[..|order| - 1], n) + (if last.check < n then f(last.reply) else 0)
  {
    var init, last := order[..|order| - 1], order[|order| - 1];
    forall k: nat
      ensures Each(f, order)(k) == Each(f, init)(k) + (if k == last.check then f(last.reply) else 0)
    {
      TotalProjected(f, order, k);
    }
    SumToStep(Each(f, order), Each(f, init), last.check, f(last.reply), n);
  }

  lemma TotalProjected(f: Reply -> int, order: seq<Arrival>, k: nat)
    requires order != []
    ensures
      var init, last := order[..|order| - 1], order[|order| - 1];
      Total(f, Project(order, k)) == Total(f, Project(init, k)) + (if last.check == k then f(last.reply) else 0)
  {
    var init, last := order[..|order| - 1], order[|order| - 1];
    if last.check == k {
      TotalStep(f, Project(init, k), last.reply);
    } else {
      assert Project(order, k) == Project(init, k);
    }
  }

  lemma {:induction false} ByCheckEmpty(f: Reply -> int, n: nat)
    ensures ByCheck(f, [], n) == 0
  {
    if n > 0 {
      ByCheckEmpty(f, n - 1);
    }
  }

  /** A total over the arrivals is the sum of the checks' totals. */
  lemma {:induction false} TotalByCheck(f: Reply -> int, order: seq<Arrival>, n: nat)
    requires forall i :: 0 <= i < |order| ==> order[i].check < n
    ensures TotalOf(f, order) == ByCheck(f, order, n)
  {
    if order == [] {
      ByCheckEmpty(f, n);
    } else {
      TotalByCheck(f, order[..|order| - 1], n);
      ByCheckStep(f, order, n);
    }
  }

  function SumOf(bs: seq<int>): (sum: int)
    ensures (forall k :: 0 <= k < |bs| ==> bs[k] >= 0) ==> sum >= 0
  {
    if bs == [] then 0 else SumOf(bs[..|bs| - 1]) + bs[|bs| - 1]
  }

  ghost predicate BoundedBy(f: Reply -> int, order: seq<Arrival>, bs: seq<int>) {
    forall k :: 0 <= k < |bs| ==> Total(f, Project(order, k)) <= bs[k]
  }

  lemma {:induction false} BoundsMet(g: nat -> int, bs: seq<int>)
    requires forall k :: 0 <= k < |bs| ==> g(k) <= bs[k]
    ensures SumTo(g, |bs|) <= SumOf(bs)
    ensures SumTo(g, |bs|) == SumOf(bs) ==> forall k :: 0 <= k < |bs| ==> g(k) == bs[k]
  {
    if bs != [] {
      BoundsMet(g, bs[..|bs| - 1]);
    }
  }

  /** If every check stays within its bound and the sum reaches the bounds' sum, each reaches its own. */
  lemma BoundsReached(f: Reply -> int, order: seq<Arrival>, bs: seq<int>)
    requires BoundedBy(f, order, bs)
    ensures ByCheck(f, order, |bs|) <= SumOf(bs)
    ensures ByCheck(f, order, |bs|) == SumOf(bs) ==>
              forall k :: 0 <= k < |bs| ==> Total(f, Project(order, k)) == bs[k]
  {
    BoundsMet(Each(f, order), bs);
    assert forall k: nat :: Each(f, order)(k) == Total(f, Project(order, k));
  }

  // Prefixes of an interleaving.

  lemma {:induction false} ProjectPrefix(order: seq<Arrival>, k: nat, p: nat)
    requires p <= |order|
    ensures Project(order[..p], k) <= Project(order, k)
    decreases |order| - p
  {
    if p == |order| {
      assert order[..p] == order;
    } else {
      ProjectPrefix(order, k, p + 1);
      assert order[..p + 1][..p] == order[..p];
    }
  }

  /** Once a check has been heard out, nothing more comes from it. */
  lemma NothingAfterWhole(order: seq<Arrival>, k: nat, p: nat, i: nat)
    requires p <= i < |order| && Project(order[..p], k) == Project(order, k)
    ensures order[i].check != k
  {
    ProjectPrefix(order[..i], k, p);
    assert order[..i][..p] == order[..p];
    ProjectPrefix(order, k, i + 1);
    assert order[..i + 1][..i] == order[..i];
  }

  lemma ArrivalInProject(order: seq<Arrival>, i: nat)
    requires i < |order|
    ensures order[i].reply in Project(order, order[i].check)
  {
    var k := order[i].check;
    ProjectPrefix(order, k, i + 1);
    var mine := Project(order[..i + 1], k);
    assert mine[|mine| - 1] == order[i].reply;
    assert Project(order, k)[|mine| - 1] == order[i].reply;
  }

  function FinalOne(r: Reply): int {
    if Final(r) then 1 else 0
  }

  function FlagOne(r: Reply): int {
    if Flagged(r) then 1 else 0
  }

  lemma {:induction false} NoneFinal(rs: seq<Reply>)
    requires forall j :: 0 <= j < |rs| ==> !Final(rs[j]) && !Flagged(rs[j])
    ensures Total(FinalOne, rs) == 0 && Total(FlagOne, rs) == 0
  {
    if rs != [] {
      NoneFinal(rs[..|rs| - 1]);
    }
  }

  /** A prefix of a check's replies holds its final one exactly when it is all of them. */
  lemma PrefixCounts(c: Check, rs: seq<Reply>)
    requires WellBehaved(c) && rs <= c.replies
    ensures Total(FinalOne, rs) == if rs == c.replies then 1 else 0
    ensures Total(FlagOne, rs) <= if rs == c.replies && c.definitive then 1 else 0
  {
    if rs == c.replies {
      NoneFinal(rs[..|rs| - 1]);
    } else {
      NoneFinal(rs);
    }
  }

  function Ones(checks: seq<Check>): seq<int> {
    seq(|checks|, _ => 1)
  }

  function DefinitiveOnes(checks: seq<Check>): seq<int> {
    seq(|checks|, k requires 0 <= k < |checks| => if checks[k].definitive then 1 else 0)
  }

  lemma {:induction false} SumOfOnes(bs: seq<int>)
    requires forall k :: 0 <= k < |bs| ==> bs[k] == 1
    ensures SumOf(bs) == |bs|
  {
    if bs != [] {
      SumOfOnes(bs[..|bs| - 1]);
    }
  }

  ghost predicate AllBehave(checks: seq<Check>) {
    forall k :: 0 <= k < |checks| ==> WellBehaved(checks[k])
  }

  /** When as many final replies have come as there are checks, everything has come. */
  lemma {:induction false} AllFinalsMeanAll(checks: seq<Check>, order: seq<Arrival>, p: nat)
    requires AllBehave(checks) && Interleaving(order, checks) && p <= |order|
    requires TotalOf(FinalOne, order[..p]) >= |checks|
    ensures p == |order|
  {
    var heard, bs := order[..p], Ones(checks);
    forall k | 0 <= k < |bs|
      ensures Total(FinalOne, Project(heard, k)) == (if Project(heard, k) == checks[k].replies then 1 else 0)
    {
      ProjectPrefix(order, k, p);
      PrefixCounts(checks[k], Project(heard, k));
    }
    TotalByCheck(FinalOne, heard, |checks|);
    BoundsReached(FinalOne, heard, bs);
    SumOfOnes(bs);
    if p < |order| {
      var k := order[p].check;
      assert bs[k] == 1 && Project(heard, k) == checks[k].replies;
      NothingAfterWhole(order, k, p, p);
    }
  }

  function DefinitiveCount(checks: seq<Check>): nat {
    SumOf(DefinitiveOnes(checks))
  }

  /** When no definitive check is left running, only mild replies are still to come. */
  lemma {:induction false} RestIsMild(checks: seq<Check>, order: seq<Arrival>, p: nat, i: nat)
    requires AllBehave(checks) && Interleaving(order, checks) && p <= i < |order|
    requires TotalOf(FlagOne, order[..p]) == DefinitiveCount(checks)
    ensures Mild(order[i].reply)
  {
    var heard, bs := order[..p], DefinitiveOnes(checks);
    forall k | 0 <= k < |bs|
      ensures Total(FlagOne, Project(heard, k)) <=
              (if Project(heard, k) == checks[k].replies then bs[k] else 0)
    {
      ProjectPrefix(order, k, p);
      PrefixCounts(checks[k], Project(heard, k));
    }
    TotalByCheck(FlagOne, heard, |checks|);
    BoundsReached(FlagOne, heard, bs);
    var k := order[i].check;
    if checks[k].definitive {
      assert bs[k] == 1 && Total(FlagOne, Project(heard, k)) == 1;
      NothingAfterWhole(order, k, p, i);
    } else {
      ArrivalInProject(order, i);
    }
  }

  // Judgments and weights.

  function MaxOf(order: seq<Arrival>): Judgment {
    if order == [] then Undefined
    else MaxJudgment(MaxOf(order[..|order| - 1]), JudgmentOf(order[|order| - 1].reply))
  }

  lemma {:induction false} MaxGrows(order: seq<Arrival>, p: nat)
    requires p <= |order|
    ensures MaxOf(order[..p]).Rank() <= MaxOf(order).Rank()
    decreases |order| - p
  {
    if p == |order| {
      assert order[..p] == order;
    } else {
      MaxGrows(order, p + 1);
      assert order[..p + 1][..p] == order[..p];
    }
  }

  /** Mild replies neither raise a judgment to BLOCK or PASS nor lower the weight. */
  lemma {:induction false} MildRest(order: seq<Arrival>, p: nat)
    requires p <= |order|
    requires forall i :: p <= i < |order| ==> Mild(order[i].reply) && Weight(order[i].reply) >= 0
    ensures MaxOf(order) == MaxOf(order[..p]) || MaxOf(order).Rank() <= 1
    ensures TotalOf(Weight, order) >= TotalOf(Weight, order[..p])
    decreases |order| - p
  {
    if p == |order| {
      assert order[..p] == order;
    } else {
      MildRest(order, p + 1);
      assert order[..p + 1][..p] == order[..p];
    }
  }

  lemma {:induction false} MaxIsReached(order: seq<Arrival>)
    ensures forall i :: 0 <= i < |order| ==> JudgmentOf(order[i].reply).Rank() <= MaxOf(order).Rank()
    ensures MaxOf(order) == Undefined || exists i :: 0 <= i < |order| && JudgmentOf(order[i].reply) == MaxOf(order)
  {
    if order != [] {
      var init := order[..|order| - 1];
      MaxIsReached(init);
      if MaxOf(order) == MaxOf(init) && MaxOf(init) != Undefined {
        var i :| 0 <= i < |init| && JudgmentOf(init[i].reply) == MaxOf(init);
        assert JudgmentOf(order[i].reply) == MaxOf(order);
      } else {
        assert JudgmentOf(order[|order| - 1].reply) == MaxOf(order) || MaxOf(order) == Undefined;
      }
    }
  }

  // The reference: a verdict read off the checks, with no order in it.

  ghost predicate Somewhere(checks: seq<Check>, j: Judgment) {
    exists k, i :: 0 <= k < |checks| && 0 <= i < |checks[k].replies| && Says(checks[k].replies[i], j)
  }

  function TotalWeight(checks: seq<Check>): int {
    if checks == [] then 0
    else TotalWeight(checks[..|checks| - 1]) + Suspicion(checks[|checks| - 1].replies)
  }

  lemma {:induction false} SuspicionIsTotal(rs: seq<Reply>)
    ensures Suspicion(rs) == Total(Weight, rs)
  {
    if rs != [] {
      SuspicionIsTotal(rs[..|rs| - 1]);
    }
  }

  ghost function Reference(checks: seq<Check>, th: Thresholds, seen: bool): Status {
    if Somewhere(checks, Pass) then Trust
    else if Somewhere(checks, Block) then Blocked
    else if th.block > 0 && TotalWeight(checks) >= th.block then Blocked
    else if TotalWeight(checks) < th.grey then Trust
    else if seen then Match else Grey
  }

  lemma {:induction false} WeightByCheck(checks: seq<Check>, order: seq<Arrival>, n: nat)
    requires n <= |checks| && forall k :: 0 <= k < n ==> Project(order, k) == checks[k].replies
    ensures ByCheck(Weight, order, n) == TotalWeight(checks[..n])
  {
    if n > 0 {
      WeightByCheck(checks, order, n - 1);
      assert checks[..n][..n - 1] == checks[..n - 1];
      SuspicionIsTotal(checks[n - 1].replies);
    }
  }

  lemma SomewhereArrives(checks: seq<Check>, order: seq<Arrival>, j: Judgment)
    requires Interleaving(order, checks) && !j.Undefined?
    ensures Somewhere(checks, j) <==> exists i :: 0 <= i < |order| && JudgmentOf(order[i].reply) == j
  {
    if i :| 0 <= i < |order| && JudgmentOf(order[i].reply) == j {
      ArrivalInProject(order, i);
      var k := order[i].check;
      var m :| 0 <= m < |checks[k].replies| && checks[k].replies[m] == order[i].reply;
      assert Says(checks[k].replies[m], j);
    }
    if k, m :| 0 <= k < |checks| && 0 <= m < |checks[k].replies| && Says(checks[k].replies[m], j) {
      var i := OriginOf(order, k, m);
    }
  }

  lemma {:induction false} OriginOf(order: seq<Arrival>, k: nat, m: nat) returns (i: nat)
    requires m < |Project(order, k)|
    ensures i < |order| && order[i].reply == Project(order, k)[m]
  {
    var init := order[..|order| - 1];
    if m < |Project(init, k)| {
      i := OriginOf(init, k, m);
    } else {
      i := |order| - 1;
    }
  }

  /** Collecting everything gives the reference verdict. */
  lemma {:induction false} CollectedAll(checks: seq<Check>, order: seq<Arrival>, th: Thresholds, seen: bool)
    requires Interleaving(order, checks)
    ensures Conclude(MaxOf(order), TotalOf(Weight, order), th, seen) == Reference(checks, th, seen)
  {
    AllWeighed(checks, order);
    AllJudged(checks, order);
  }

  lemma AllWeighed(checks: seq<Check>, order: seq<Arrival>)
    requires Interleaving(order, checks)
    ensures TotalOf(Weight, order) == TotalWeight(checks)
  {
    TotalByCheck(Weight, order, |checks|);
    WeightByCheck(checks, order, |checks|);
    assert checks[..|checks|] == checks;
  }

  lemma AllJudged(checks: seq<Check>, order: seq<Arrival>)
    requires Interleaving(order, checks)
    ensures MaxOf(order).Pass? <==> Somewhere(checks, Pass)
    ensures MaxOf(order).Block? <==> Somewhere(checks, Block) && !Somewhere(checks, Pass)
  {
    MaxIsReached(order);
    SomewhereArrives(checks, order, Pass);
    SomewhereArrives(checks, order, Block);
  }

  // The loop's variables.

  ghost predicate Counts(t: Tally, heard: seq<Arrival>, checks: seq<Check>, th: Thresholds) {
    && t.judgment == MaxOf(heard)
    && t.weight == TotalOf(Weight, heard)
    && t.checksRunning == |checks| - TotalOf(FinalOne, heard)
    && t.definitivesRunning == DefinitiveCount(checks) - TotalOf(FlagOne, heard)
    && (t.definitive ==> Settled(t, th))
  }

  /** The replies among the events are the arrivals from p on, as far as they go. */
  ghost predicate Follows(events: seq<Event>, order: seq<Arrival>, p: nat) {
    var rs := Gots(events);
    p + |rs| <= |order| && forall i :: 0 <= i < |rs| ==> rs[i] == order[p + i].reply
  }

  lemma {:induction false} LoopCounts(t: Tally, events: seq<Event>, th: Thresholds, checks: seq<Check>,
                                      order: seq<Arrival>, p: nat) returns (p': nat)
    requires p <= |order| && Follows(events, order, p) && Counts(t, order[..p], checks, th)
    ensures p' <= |order| && Counts(Collect(t, events, th), order[..p'], checks, th)
    decreases |events|
  {
    p' := p;
    if t.Running() && events != [] {
      var e, t' := events[0], OnePass(t, events[0], th);
      var step := if e.Got? then 1 else 0;
      if e.Got? {
        assert Gots(events)[0] == e.reply == order[p].reply;
        assert order[..p + 1][..p] == order[..p];
      }
      assert Follows(events[1..], order, p + step) by {
        var rs, rs' := Gots(events), Gots(events[1..]);
        assert forall i :: 0 <= i < |rs'| ==> rs'[i] == rs[i + step];
      }
      p' := LoopCounts(t', events[1..], th, checks, order, p + step);
    }
  }

  /**
   For every order of arrival and every run of the loop that stops before the timeouts are used
   up, whether everything was collected or not, the status is the reference verdict.
   */
  lemma {:induction false} VerdictConfluent(checks: seq<Check>, order: seq<Arrival>, events: seq<Event>, timeouts: nat,
                         th: Thresholds, seen: bool)
    requires AllBehave(checks) && Interleaving(order, checks) && Follows(events, order, 0)
    requires th.grey >= 0 && th.block >= 0
    requires
      var t := Collect(Start(|checks|, DefinitiveCount(checks), timeouts), events, th);
      !t.Running() && t.timeouts > 0
    ensures
      var t := Collect(Start(|checks|, DefinitiveCount(checks), timeouts), events, th);
      Conclude(t.judgment, t.weight, th, seen) == Reference(checks, th, seen)
  {
    var t0 := Start(|checks|, DefinitiveCount(checks), timeouts);
    var t := Collect(t0, events, th);
    var p := LoopCounts(t0, events, th, checks, order, 0);
    CollectedAll(checks, order, th, seen);
    if !t.definitive {
      AllFinalsMeanAll(checks, order, p);
      assert order[..p] == order;
    } else if t.judgment.Pass? {
      MaxGrows(order, p);
    } else {
      forall i | p <= i < |order|
        ensures Mild(order[i].reply) && Weight(order[i].reply) >= 0
      {
        RestIsMild(checks, order, p, i);
        ArrivalInProject(order, i);
      }
      MildRest(order, p);
      MaxGrows(order, p);
    }
  }

  lemma {:induction false} DefinitivesCounted(checks: seq<Check>, checklist: seq<bool>)
    requires |checklist| == |checks| && forall k :: 0 <= k < |checks| ==> checklist[k] == checks[k].definitive
    ensures Definitives(checklist) == DefinitiveCount(checks)
  {
    if checks != [] {
      var n := |checks| - 1;
      DefinitivesCounted(checks[..n], checklist[..n]);
      assert DefinitiveOnes(checks)[..n] == DefinitiveOnes(checks[..n]);
    }
  }

  /** The status of the whole function, read off the checks. */
  ghost function FullReference(cfg: Config, checks: seq<Check>, seen: bool, seenLater: bool): Status {
    if checks == [] then (if seen then Match else Grey)
    else if seen && cfg.shortcut then Match
    else Reference(checks, cfg.th, seenLater)
  }

  /** The same for the whole of test_tuple, shortcuts included. */
  lemma TupleVerdict(cfg: Config, checks: seq<Check>, checklist: seq<bool>, order: seq<Arrival>, events: seq<Event>,
                     timeouts: nat, seen: bool, seenLater: bool)
    requires |checklist| == |checks| && forall k :: 0 <= k < |checks| ==> checklist[k] == checks[k].definitive
    requires AllBehave(checks) && Interleaving(order, checks) && Follows(events, order, 0)
    requires cfg.th.grey >= 0 && cfg.th.block >= 0
    requires checks != [] && !(seen && cfg.shortcut) ==>
      var t := Collected(checklist, timeouts, events, cfg.th);
      !t.Running() && t.timeouts > 0
    ensures StatusOf(cfg, checklist, timeouts, events, seen, seenLater) == FullReference(cfg, checks, seen, seenLater)
  {
    if checks != [] && !(seen && cfg.shortcut) {
      DefinitivesCounted(checks, checklist);
      VerdictConfluent(checks, order, events, Entries(timeouts), cfg.th, seenLater);
    }
  }

  /** When the shortcut changes nothing: no check passes or blocks and the weight is in the grey range. */
  lemma ShortcutHarmlessExactly(cfg: Config, checks: seq<Check>)
    requires checks != []
    ensures FullReference(cfg.(shortcut := true), checks, true, true)
              == FullReference(cfg.(shortcut := false), checks, true, true)
        <==> && !Somewhere(checks, Pass) && !Somewhere(checks, Block)
             && TotalWeight(checks) >= cfg.th.grey
             && (cfg.th.block > 0 ==> TotalWeight(checks) < cfg.th.block)
  {
  }
}
