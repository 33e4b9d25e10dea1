/**
 The promise of a greylister: a tuple that was deferred is not deferred again while the ring
 remembers it. src/worker.c, src/msgqueue.c, src/bloommgr.c.
 */
module Greylisting {
  import opened Bloom
  import opened DelayedStore
  import opened DelayQueue
  import opened Times
  import BloomManager
  import Hearing
  import Verdict

  lemma {:induction false} RunsOn(s: State, first: seq<Action>, second: seq<Action>, delay: Timespec)
    requires Possible(s, first, delay) && Possible(After(s, first, delay), second, delay)
    ensures Possible(s, first + second, delay)
    ensures After(s, first + second, delay) == After(After(s, first, delay), second, delay)
    decreases |first|
  {
    if first == [] {
      assert first + second == second;
    } else {
      assert (first + second)[0] == first[0] && (first + second)[1..] == first[1..] + second;
      RunsOn(Step(s, first[0], delay), first[1..], second, delay);
    }
  }

  /**
   In every run: once the manager has applied the update of a deferred tuple, which is not before
   the delay has passed, a query for it that begins and ends inside the window is not deferred,
   whatever the configuration, the checks, their results and the timeouts.
   */
  lemma {:induction false} RetryAccepted(
      init: State, before: seq<Action>, c: BloomManager.Clock, between: seq<Action>, during: seq<Action>,
      delay: Timespec, d: Digest,
      cfg: Verdict.Config, checklist: seq<bool>, timeouts: nat, events: seq<Verdict.Event>)
    requires IsInitial(init) && init.store.ring.Valid() && delay.Normal() && Possible(init, before, delay)
    requires
      var s := After(init, before, delay);
      s.manager.Taken? && Inserts(s.manager.item.msg.body, d) && Possible(s, [Apply(c)] + between, delay)
    requires
      var s := After(init, before, delay);
      var asked := After(s, [Apply(c)] + between, delay);
      && Possible(asked, during, delay)
      && After(asked, during, delay).wall <= s.store.lastRotate + |s.store.ring.slots| * s.interval
    ensures
      var s := After(init, before, delay);
      var asked := After(s, [Apply(c)] + between, delay);
      var answered := After(asked, during, delay);
      && (s.manager.item.Delayed? ==> s.now >= s.manager.item.msg.stamp.Ns() + delay.Ns())
      && !Verdict.StatusOf(cfg, checklist, timeouts, events, Present(asked, d), Present(answered, d)).Grey?
  {
    var s := After(init, before, delay);
    StoreRuns(init, before, delay);
    var run := [Apply(c)] + between;
    var asked := After(s, run, delay);
    StoreRuns(s, run, delay);
    StoreRuns(asked, during, delay);
    UpdateKept(init, before, c, between, delay, d);
    RunsOn(s, run, during, delay);
    assert run + during == [Apply(c)] + (between + during);
    UpdateKept(init, before, c, between + during, delay, d);
    Verdict.SeenNeverDeferred(cfg, checklist, timeouts, events);
  }

  /** And a tuple that is not in the filter is deferred exactly when its replies call for it. */
  lemma UnseenDeferredExactly(cfg: Verdict.Config, checklist: seq<bool>, timeouts: nat, events: seq<Verdict.Event>)
    ensures
      var heard := Hearing.HeardBy(checklist, timeouts, events, cfg.th);
      Verdict.StatusOf(cfg, checklist, timeouts, events, false, false).Grey? <==>
        || checklist == []
        || (&& !Hearing.Said(heard, Verdict.Pass) && !Hearing.Said(heard, Verdict.Block)
            && Hearing.Suspicion(heard) >= cfg.th.grey
            && (cfg.th.block > 0 ==> Hearing.Suspicion(heard) < cfg.th.block))
  {
    Hearing.StatusOfHeard(cfg, checklist, timeouts, events, false, false);
  }
}
