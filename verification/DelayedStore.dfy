/**
 The way from a query to the filter and back: what the delay machine's manager does to the ring,
 and when a digest that was put on the delay queue is present. src/worker.c, src/msgqueue.c,
 src/bloommgr.c.
 */
module DelayedStore {
  import opened Bloom
  import opened Contents
  import opened DelayQueue
  import opened Retention
  import opened Times
  import BloomManager

  /** The manager's messages in a run, with the clock readings of each. */
  ghost function Events(s: State, run: seq<Action>, delay: Timespec): seq<BloomManager.Event>
    requires Possible(s, run, delay)
    decreases |run|
  {
    if run == [] then []
    else
      var rest := Events(Step(s, run[0], delay), run[1..], delay);
      if run[0].Apply? then [BloomManager.Event(s.manager.item.msg.body, run[0].clock)] + rest else rest
  }

  ghost predicate FitsAll(s: State, es: seq<BloomManager.Event>) {
    BloomManager.AllFit(es, |s.store.ring.slots|, |s.store.ring.aggregate|)
  }

  /** In every run of the machine the ring goes through a run of the manager. */
  lemma {:induction false} StoreRuns(s: State, run: seq<Action>, delay: Timespec)
    requires s.store.ring.Valid() && Possible(s, run, delay)
    ensures
      var s', es := After(s, run, delay), Events(s, run, delay);
      && FitsAll(s, es)
      && s'.store == BloomManager.Run(s.store, es, s.interval)
      && s'.interval == s.interval && s.wall <= s'.wall
      && BloomManager.Chronological(es, s.wall, s'.wall)
    decreases |run|
  {
    if run != [] {
      var s1 := Step(s, run[0], delay);
      StoreRuns(s1, run[1..], delay);
      var es, rest := Events(s, run, delay), Events(s1, run[1..], delay);
      if run[0].Apply? {
        assert es[1..] == rest && forall i :: 0 < i < |es| ==> es[i] == rest[i - 1];
      }
    }
  }

  /** What a query is answered. */
  predicate Present(s: State, d: Digest) {
    |s.store.ring.aggregate| > 0 && IsIn(s.store.ring.aggregate, d)
  }

  /** The message inserts this digest. */
  predicate Inserts(m: BloomManager.Message, d: Digest) {
    (m.Update? || m.UpdateOper?) && m.digest == d
  }

  /**
   In every run: when the manager applies a digest's update, the delay has passed since the update
   was put on the queue; and from then on, whatever else happens, the digest is present until N
   intervals after the rotation before.
   */
  lemma {:induction false} UpdateKept(init: State, before: seq<Action>, c: BloomManager.Clock, after: seq<Action>,
                                      delay: Timespec, d: Digest)
    requires IsInitial(init) && init.store.ring.Valid() && delay.Normal() && Possible(init, before, delay)
    requires
      var s := After(init, before, delay);
      s.manager.Taken? && Inserts(s.manager.item.msg.body, d) && Possible(s, [Apply(c)] + after, delay)
    ensures
      var s := After(init, before, delay);
      var s' := After(s, [Apply(c)] + after, delay);
      && (s.manager.item.Delayed? ==> s.now >= s.manager.item.msg.stamp.Ns() + delay.Ns())
      && (s'.wall <= s.store.lastRotate + |s.store.ring.slots| * s.interval ==> Present(s', d))
  {
    InvAfter(init, before, delay);
    StoreRuns(init, before, delay);
    var s := After(init, before, delay);
    var s1, s' := Step(s, Apply(c), delay), After(s, [Apply(c)] + after, delay);
    assert ([Apply(c)] + after)[1..] == after;
    StoreRuns(s1, after, delay);
    if s'.wall <= s.store.lastRotate + |s.store.ring.slots| * s.interval {
      WindowExactly(s.store, d, c.third, s'.wall, s.interval);
      var es := Events(s1, after, delay);
      assert IsIn(BloomManager.Run(s.store.(ring := s.store.ring.Insert(d)), es, s.interval).ring.aggregate, d);
    }
  }

  /** The digests whose updates have been applied, those from the delay queue no earlier than due. */
  ghost function DueDigests(ds: seq<Delivery>, delay: Timespec): set<Digest> {
    set i | 0 <= i < |ds| && IsDueUpdate(ds[i], delay) :: ds[i].item.msg.body.digest
  }

  predicate IsDueUpdate(d: Delivery, delay: Timespec) {
    && (d.item.msg.body.Update? || d.item.msg.body.UpdateOper?)
    && (d.item.Delayed? ==> Due(d.item.msg, delay, d.at))
  }

  /** What was applied is what the manager's messages were. */
  lemma {:induction false} AppliedMessages(s: State, run: seq<Action>, delay: Timespec)
    requires Possible(s, run, delay)
    ensures
      var es, applied := Events(s, run, delay), After(s, run, delay).applied;
      && |applied| == |s.applied| + |es| && applied[..|s.applied|] == s.applied
      && forall i :: 0 <= i < |es| ==> applied[|s.applied| + i].item.msg.body == es[i].message
    decreases |run|
  {
    if run != [] {
      var s1 := Step(s, run[0], delay);
      AppliedMessages(s1, run[1..], delay);
      if run[0].Apply? {
        var es, rest := Events(s, run, delay), Events(s1, run[1..], delay);
        var applied := After(s, run, delay).applied;
        assert applied[..|s.applied|] == applied[..|s1.applied|][..|s.applied|];
        assert applied[..|s1.applied|][|s.applied|] == s1.applied[|s.applied|];
        forall i | 0 < i < |es|
          ensures applied[|s.applied| + i].item.msg.body == es[i].message
        {
          assert es[i] == rest[i - 1];
        }
      }
    }
  }

  ghost predicate Within(e: Epochs, all: set<Digest>) {
    forall j :: 0 <= j < |e| ==> e[j] <= all
  }

  lemma {:induction false} EpochsWithin(s: BloomManager.Store, e: Epochs, es: seq<BloomManager.Event>, interval: nat,
                                        all: set<Digest>)
    requires s.ring.Valid() && BloomManager.AllFit(es, |s.ring.slots|, |s.ring.aggregate|) && Within(e, all)
    requires forall i :: 0 <= i < |es| && (es[i].message.Update? || es[i].message.UpdateOper?) ==>
               es[i].message.digest in all
    ensures Within(EpochsAfterRun(s, e, es, interval), all)
    decreases |es|
  {
    if es != [] {
      EpochsWithin(BloomManager.Apply(s, es[0], interval), EpochsAfter(s, e, es[0], interval), es[1..], interval, all);
    }
  }

  lemma RecentWithin(e: Epochs, n: nat, all: set<Digest>)
    requires Within(e, all)
    ensures Recent(e, n) <= all
  {
  }

  /**
   In every run from a new ring without absolute updates: a digest that is answered "present" has
   had its own update applied, no earlier than stamp plus delay if that came through the queue, or
   its bits are covered by other digests of which the same is true.
   */
  lemma {:induction false} PresentOnlyWhenDue(num: nat, size: nat, lastRotate: int, wall: int, interval: nat,
                                              run: seq<Action>, delay: Timespec, d: Digest)
    requires num > 0 && size > 0 && delay.Normal()
    requires
      var init := Initial(BloomManager.Store(Empty(num, size), lastRotate), wall, interval);
      Possible(init, run, delay) && NoAbsolute(Events(init, run, delay))
    ensures
      var s := After(Initial(BloomManager.Store(Empty(num, size), lastRotate), wall, interval), run, delay);
      Present(s, d) ==>
        || d in DueDigests(s.applied, delay)
        || DigestBits(d, size) <= BitsOf(DueDigests(s.applied, delay) - {d}, size)
  {
    var init := Initial(BloomManager.Store(Empty(num, size), lastRotate), wall, interval);
    var s, es := After(init, run, delay), Events(init, run, delay);
    var all := DueDigests(s.applied, delay);
    InvAfter(init, run, delay);
    StoreRuns(init, run, delay);
    AppliedMessages(init, run, delay);
    forall i | 0 <= i < |es| && (es[i].message.Update? || es[i].message.UpdateOper?)
      ensures es[i].message.digest in all
    {
      assert s.applied[i].item.msg.body == es[i].message && IsDueUpdate(s.applied[i], delay);
    }
    EpochsWithin(init.store, [{}], es, interval, all);
    var e := EpochsAfterRun(init.store, [{}], es, interval);
    RecentWithin(e, num, all);
    if Present(s, d) && d !in all {
      AnswersLastEpochs(num, size, lastRotate, es, interval, d);
      assert all - {d} == all;
      assert BitsOf(Recent(e, num), size) <= BitsOf(all, size);
    }
  }
}
