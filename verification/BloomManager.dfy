/**
 The thread that owns the ring: it applies one message at a time and rotates by the clock.
 Everything about whole runs of it is proved here. src/bloommgr.c.
 */
module BloomManager {
  import opened Bloom
  import opened BloomRings
  import opened Powers

  const FILTER_SIZE: nat := 32

  datatype Message =
    | Update(digest: Digest)
    | UpdateOper(digest: Digest)
    | AbsoluteUpdate(buffer: nat, index: nat, filter: Filter)
    | Rotate
    | SyncAggregate
    | Unknown

  /** Three successive readings of time(NULL) while one message is handled. */
  datatype Clock = Clock(first: int, second: int, third: int)

  datatype Event = Event(message: Message, clock: Clock)

  /** The ring and the time of the last rotation. */
  datatype Store = Store(ring: Ring, lastRotate: int)

  function ChunkSize(size: nat): nat {
    if FILTER_SIZE > size then size else FILTER_SIZE
  }

  /** An absolute update must carry 32 words and lie inside the ring; other messages always fit. */
  predicate Fits(m: Message, num: nat, size: nat) {
    m.AbsoluteUpdate? ==>
      && |m.filter| == FILTER_SIZE
      && m.buffer < num
      && m.index * ChunkSize(size) + ChunkSize(size) <= size
  }

  predicate RotationDue(s: Store, c: Clock, interval: nat) {
    c.first - s.lastRotate > interval
  }

  predicate Expired(s: Store, c: Clock, interval: nat) {
    c.second - s.lastRotate > interval * |s.ring.slots|
  }

  /** rotate(): nothing, one catch-up step, or a whole-ring reset. */
  function Rotated(s: Store, c: Clock, interval: nat): (s': Store)
    requires s.ring.Valid()
    ensures s'.ring.Valid()
    ensures |s'.ring.slots| == |s.ring.slots| && |s'.ring.aggregate| == |s.ring.aggregate|
  {
    if !RotationDue(s, c, interval) then s
    else if Expired(s, c, interval) then Store(s.ring.Clear(), c.third)
    else Store(s.ring.Rotate(), s.lastRotate + interval)
  }

  function Apply(s: Store, e: Event, interval: nat): (s': Store)
    requires s.ring.Valid() && Fits(e.message, |s.ring.slots|, |s.ring.aggregate|)
    ensures s'.ring.Valid()
    ensures |s'.ring.slots| == |s.ring.slots| && |s'.ring.aggregate| == |s.ring.aggregate|
  {
    match e.message
    case Update(d) => s.(ring := s.ring.Insert(d))
    case UpdateOper(d) => s.(ring := s.ring.Insert(d))
    case AbsoluteUpdate(k, index, words) =>
      var n := ChunkSize(|s.ring.aggregate|);
      s.(ring := s.ring.Merge(k, index * n, words[..n]))
    case Rotate => Rotated(s, e.clock, interval)
    case SyncAggregate => s.(ring := s.ring.Sync())
    case Unknown => s
  }

  predicate AllFit(es: seq<Event>, num: nat, size: nat) {
    forall i :: 0 <= i < |es| ==> Fits(es[i].message, num, size)
  }

  function Run(s: Store, es: seq<Event>, interval: nat): (s': Store)
    requires s.ring.Valid() && AllFit(es, |s.ring.slots|, |s.ring.aggregate|)
    ensures s'.ring.Valid()
    ensures |s'.ring.slots| == |s.ring.slots| && |s'.ring.aggregate| == |s.ring.aggregate|
    decreases |es|
  {
    if es == [] then s else Run(Apply(s, es[0], interval), es[1..], interval)
  }

  /** Clock readings never go back, start at `from` and do not pass `until`. */
  predicate Chronological(es: seq<Event>, from: int, until: int)
    decreases |es|
  {
    es == [] ||
    var c := es[0].clock;
    from <= c.first <= c.second <= c.third <= until && Chronological(es[1..], c.third, until)
  }

  /** bloommgr with its ring in memory. */
  class Manager {
    const ring: BloomRing
    const interval: nat
    var lastRotate: int

    constructor (num: nat, numBits: nat, interval: nat, now: int)
      requires num > 0 && 5 <= numBits
      ensures this.interval == interval && ring.Valid()
      ensures fresh(ring) && fresh(ring.arrays) && fresh(ring.aggregate.filter)
      ensures Model() == Store(Empty(num, Pow2(numBits - 5)), now)
    {
      ring := new BloomRing(num, numBits);
      this.interval := interval;
      lastRotate := now;
    }

    ghost function Model(): Store
      requires ring.Valid()
      reads this, ring, ring.arrays, ring.aggregate.filter
    {
      Store(ring.Model(), lastRotate)
    }

    method RotateByClock(c: Clock)
      requires ring.Valid()
      modifies this`lastRotate, ring`currentIndex, ring.arrays, ring.aggregate.filter
      ensures ring.Valid() && Model() == Rotated(old(Model()), c, interval)
    {
      if c.first - lastRotate <= interval {
        return;
      }
      if c.second - lastRotate > interval * |ring.group| {
        ring.Clear();
        lastRotate := c.third;
      } else {
        lastRotate := lastRotate + interval;
        ring.Rotate();
      }
    }

    method Dispatch(e: Event)
      requires ring.Valid() && Fits(e.message, |ring.group|, ring.aggregate.size)
      modifies this`lastRotate, ring`currentIndex, ring.arrays, ring.aggregate.filter
      ensures ring.Valid() && Model() == Apply(old(Model()), e, interval)
    {
      match e.message
      case Update(d) => ring.Insert(d);
      case UpdateOper(d) => ring.Insert(d);
      case AbsoluteUpdate(k, index, words) => ring.InsertAbsolute(words, FILTER_SIZE, index, k);
      case Rotate => RotateByClock(e.clock);
      case SyncAggregate => ring.SyncAggregate();
      case Unknown =>
    }
  }
}

/** How long a digest is remembered, over every run of the manager. */
module Retention {
  import opened Bloom
  import opened BloomManager

  /** The digest's bits are in the slot that was current `age` rotations ago, and in the aggregate. */
  ghost predicate Held(r: Ring, d: Digest, age: nat)
    requires r.Valid() && age < |r.slots|
  {
    && DigestBits(d, |r.aggregate|) <= Bits(r.slots[r.Back(age)])
    && DigestBits(d, |r.aggregate|) <= Bits(r.aggregate)
  }

  lemma InsertKeeps(r: Ring, d: Digest, age: nat, other: Digest)
    requires r.Valid() && age < |r.slots| && Held(r, d, age)
    ensures Held(r.Insert(other), d, age)
  {
    WithDigestBits(r.slots[r.current], other);
    WithDigestBits(r.aggregate, other);
  }

  lemma InsertHolds(r: Ring, d: Digest)
    requires r.Valid()
    ensures Held(r.Insert(d), d, 0)
  {
    WithDigestBits(r.slots[r.current], d);
    WithDigestBits(r.aggregate, d);
  }

  lemma MergeKeeps(r: Ring, d: Digest, age: nat, k: nat, at: nat, words: Filter)
    requires r.Valid() && age < |r.slots| && Held(r, d, age)
    requires k < |r.slots| && at + |words| <= |r.aggregate|
    ensures Held(r.Merge(k, at, words), d, age)
  {
    OrAtBits(r.slots[k], at, words);
  }

  lemma SyncKeeps(r: Ring, d: Digest, age: nat)
    requires r.Valid() && age < |r.slots| && Held(r, d, age)
    ensures Held(r.Sync(), d, age)
  {
    SlotBitsInUnion(r.slots, |r.aggregate|, r.Back(age));
  }

  /** One rotation makes the digest one rotation older, unless it was in the oldest slot. */
  lemma RotateKeeps(r: Ring, d: Digest, age: nat)
    requires r.Valid() && age + 1 < |r.slots| && Held(r, d, age)
    ensures Held(r.Rotate(), d, age + 1)
  {
    var r' := r.Rotate();
    assert r'.Back(age + 1) == r.Back(age) != r.Next();
    SlotBitsInUnion(r'.slots, |r.aggregate|, r.Back(age));
  }

  lemma Margins(n: nat, age: nat, interval: nat)
    requires age < n
    ensures (n - age) * interval <= interval * n
    ensures age + 1 < n ==> (n - age) * interval == interval + (n - (age + 1)) * interval
    ensures age + 1 == n ==> (n - age) * interval == interval
  {
    assert interval * n == (n - age) * interval + age * interval;
  }

  /** A held digest outlives every run whose clock stays within the rotations it has left. */
  lemma {:induction false} HeldThroughRun(s: Store, d: Digest, age: nat, es: seq<Event>, interval: nat,
                                          from: int, until: int)
    returns (age': nat)
    requires s.ring.Valid() && AllFit(es, |s.ring.slots|, |s.ring.aggregate|)
    requires age < |s.ring.slots| && Held(s.ring, d, age)
    requires Chronological(es, from, until)
    requires until <= s.lastRotate + (|s.ring.slots| - age) * interval
    ensures age' < |s.ring.slots| && Held(Run(s, es, interval).ring, d, age')
    ensures until <= Run(s, es, interval).lastRotate + (|s.ring.slots| - age') * interval
    decreases |es|
  {
    if es == [] {
      age' := age;
    } else {
      age' := HeldOneStep(s, d, age, es[0], interval, until);
      age' := HeldThroughRun(Apply(s, es[0], interval), d, age', es[1..], interval, es[0].clock.third, until);
    }
  }

  /** Within the window a rotate message neither resets the ring nor reaches the digest's slot. */
  lemma {:induction false} HeldOneRotation(s: Store, d: Digest, age: nat, c: Clock, interval: nat, until: int)
    returns (age': nat)
    requires s.ring.Valid() && age < |s.ring.slots| && Held(s.ring, d, age)
    requires c.first <= c.second <= until
    requires until <= s.lastRotate + (|s.ring.slots| - age) * interval
    ensures age' < |s.ring.slots| && Held(Rotated(s, c, interval).ring, d, age')
    ensures until <= Rotated(s, c, interval).lastRotate + (|s.ring.slots| - age') * interval
  {
    age' := age;
    Margins(|s.ring.slots|, age, interval);
    if RotationDue(s, c, interval) {
      assert !Expired(s, c, interval);
      age' := age + 1;
      RotateKeeps(s.ring, d, age);
    }
  }

  lemma {:induction false} HeldOneStep(s: Store, d: Digest, age: nat, e: Event, interval: nat, until: int)
    returns (age': nat)
    requires s.ring.Valid() && Fits(e.message, |s.ring.slots|, |s.ring.aggregate|)
    requires age < |s.ring.slots| && Held(s.ring, d, age)
    requires e.clock.first <= e.clock.second <= until
    requires until <= s.lastRotate + (|s.ring.slots| - age) * interval
    ensures age' < |s.ring.slots| && Held(Apply(s, e, interval).ring, d, age')
    ensures until <= Apply(s, e, interval).lastRotate + (|s.ring.slots| - age') * interval
  {
    age' := age;
    match e.message {
      case Update(other) => InsertKeeps(s.ring, d, age, other);
      case UpdateOper(other) => InsertKeeps(s.ring, d, age, other);
      case AbsoluteUpdate(k, index, words) =>
        var n := ChunkSize(|s.ring.aggregate|);
        MergeKeeps(s.ring, d, age, k, index * n, words[..n]);
      case Rotate => age' := HeldOneRotation(s, d, age, e.clock, interval, until);
      case SyncAggregate => SyncKeeps(s.ring, d, age);
      case Unknown =>
    }
  }

  /**
   In every run that starts with the insertion of d at time `at`, whatever else is inserted,
   merged, synced, rotated or reset, d is answered "present" at the end if the clock has not
   passed `until`.
   */
  ghost predicate RememberedUntil(s: Store, d: Digest, at: int, until: int, interval: nat)
    requires s.ring.Valid()
  {
    forall es: seq<Event> ::
      AllFit(es, |s.ring.slots|, |s.ring.aggregate|) && Chronological(es, at, until) ==>
        IsIn(Run(s.(ring := s.ring.Insert(d)), es, interval).ring.aggregate, d)
  }

  lemma ClearForgets(r: Ring, d: Digest)
    requires r.Valid()
    ensures !IsIn(r.Clear().aggregate, d)
  {
    ZerosBits(|r.aggregate|);
    IsInBits(r.Clear().aggregate, d);
    assert d.Words()[0] == d.h0;
    assert Index(d.h0, |r.aggregate|) in DigestBits(d, |r.aggregate|);
  }

  /** One rotate message after the window has passed resets the ring. */
  lemma {:induction false} ForgottenAfter(s: Store, d: Digest, at: int, until: int, interval: nat)
    requires s.ring.Valid() && at <= until
    requires until > s.lastRotate + |s.ring.slots| * interval
    ensures !RememberedUntil(s, d, at, until, interval)
  {
    var s0 := s.(ring := s.ring.Insert(d));
    var e := Event(Rotate, Clock(until, until, until));
    AtLeastOne(|s.ring.slots|, interval);
    ClearForgets(s0.ring, d);
    assert Apply(s0, e, interval).ring == s0.ring.Clear();
    RunOne(s0, e, interval);
    ChronologicalOne(e, at, until);
  }

  lemma AtLeastOne(n: nat, interval: nat)
    requires n > 0
    ensures interval <= n * interval
  {
    assert n * interval == interval + (n - 1) * interval;
  }

  lemma RunOne(s: Store, e: Event, interval: nat)
    requires s.ring.Valid() && Fits(e.message, |s.ring.slots|, |s.ring.aggregate|)
    ensures Run(s, [e], interval) == Apply(s, e, interval)
  {
    assert [e][1..] == [];
  }

  lemma ChronologicalOne(e: Event, at: int, until: int)
    requires at <= until && e.clock == Clock(until, until, until)
    ensures Chronological([e], at, until)
  {
    assert [e][1..] == [];
  }

  /** The guaranteed window of a digest ends exactly N intervals after the last rotation before it. */
  lemma {:induction false} WindowExactly(s: Store, d: Digest, at: int, until: int, interval: nat)
    requires s.ring.Valid() && at <= until
    ensures RememberedUntil(s, d, at, until, interval) <==>
            until <= s.lastRotate + |s.ring.slots| * interval
  {
    if until <= s.lastRotate + |s.ring.slots| * interval {
      var s0 := s.(ring := s.ring.Insert(d));
      InsertHolds(s.ring, d);
      forall es: seq<Event> | AllFit(es, |s.ring.slots|, |s.ring.aggregate|) && Chronological(es, at, until)
        ensures IsIn(Run(s0, es, interval).ring.aggregate, d)
      {
        var age := HeldThroughRun(s0, d, 0, es, interval, at, until);
        IsInBits(Run(s0, es, interval).ring.aggregate, d);
      }
    } else {
      ForgottenAfter(s, d, at, until, interval);
    }
  }

  /**
   The promised N - 1 intervals hold exactly when the digest was inserted while no rotation was
   overdue.
   */
  lemma {:induction false} RetentionExactly(s: Store, d: Digest, at: int, interval: nat)
    requires s.ring.Valid()
    ensures RememberedUntil(s, d, at, at + (|s.ring.slots| - 1) * interval, interval) <==>
            at <= s.lastRotate + interval
  {
    var n := |s.ring.slots|;
    assert n * interval == interval + (n - 1) * interval;
    WindowExactly(s, d, at, at + (n - 1) * interval, interval);
  }
}

/** What the aggregate holds, over every run of the manager. */
module Contents {
  import opened Bloom
  import opened BloomManager

  /** Digests by epoch, newest first: epoch 0 is the time since the last rotation. */
  type Epochs = e: seq<set<Digest>> | |e| > 0 witness [{}]

  function At(e: Epochs, j: nat): set<Digest> {
    if j < |e| then e[j] else {}
  }

  function EpochsAfter(s: Store, e: Epochs, ev: Event, interval: nat): Epochs {
    match ev.message
    case Update(d) => e[0 := e[0] + {d}]
    case UpdateOper(d) => e[0 := e[0] + {d}]
    case Rotate =>
      if !RotationDue(s, ev.clock, interval) then e
      else if Expired(s, ev.clock, interval) then [{}]
      else [{}] + e
    case _ => e
  }

  ghost function BitsOf(ds: set<Digest>, size: nat): set<nat>
    requires size > 0
  {
    set d, b | d in ds && b in DigestBits(d, size) :: b
  }

  /** Every digest of the last n epochs. */
  ghost function Recent(e: Epochs, n: nat): set<Digest> {
    set j, d | 0 <= j < n && d in At(e, j) :: d
  }

  /** Slot by slot, the ring holds the bits of its last N epochs and nothing else. */
  ghost predicate Exact(r: Ring, e: Epochs)
    requires r.Valid()
  {
    && (forall j :: 0 <= j < |r.slots| ==> Bits(r.slots[r.Back(j)]) == BitsOf(At(e, j), |r.aggregate|))
    && Bits(r.aggregate) == BitsOf(Recent(e, |r.slots|), |r.aggregate|)
  }

  lemma SlotIsSomeBack(r: Ring, i: nat) returns (j: nat)
    requires r.Valid() && i < |r.slots|
    ensures j < |r.slots| && r.Back(j) == i
  {
    j := if i <= r.current then r.current - i else r.current + |r.slots| - i;
  }

  /** Once every slot is exact, so is the union of them all. */
  lemma UnionIsRecent(r: Ring, e: Epochs)
    requires r.Valid()
    requires forall j :: 0 <= j < |r.slots| ==> Bits(r.slots[r.Back(j)]) == BitsOf(At(e, j), |r.aggregate|)
    ensures Bits(r.Union()) == BitsOf(Recent(e, |r.slots|), |r.aggregate|)
  {
    var n, size := |r.slots|, |r.aggregate|;
    forall b | b in Bits(r.Union())
      ensures b in BitsOf(Recent(e, n), size)
    {
      OrAllBits(r.slots, size, b);
      var i :| 0 <= i < n && Has(r.slots[i], b);
      var j := SlotIsSomeBack(r, i);
      assert b in Bits(r.slots[r.Back(j)]);
      var d :| d in At(e, j) && b in DigestBits(d, size);
      assert d in Recent(e, n);
    }
    forall b | b in BitsOf(Recent(e, n), size)
      ensures b in Bits(r.Union())
    {
      var d :| d in Recent(e, n) && b in DigestBits(d, size);
      var j :| 0 <= j < n && d in At(e, j);
      assert b in Bits(r.slots[r.Back(j)]);
      SlotBitsInUnion(r.slots, size, r.Back(j));
    }
  }

  lemma InsertExact(r: Ring, e: Epochs, d: Digest)
    requires r.Valid() && Exact(r, e)
    ensures Exact(r.Insert(d), e[0 := e[0] + {d}])
  {
    var n, size := |r.slots|, |r.aggregate|;
    var r', e' := r.Insert(d), e[0 := e[0] + {d}];
    WithDigestBits(r.slots[r.current], d);
    WithDigestBits(r.aggregate, d);
    MoreBits(e[0], d, size);
    forall j | 0 <= j < n
      ensures Bits(r'.slots[r'.Back(j)]) == BitsOf(At(e', j), size)
    {
      assert r'.Back(j) == r.Back(j);
      if j == 0 {
        assert r.Back(0) == r.current;
      }
    }
    assert Recent(e', n) == Recent(e, n) + {d} by {
      assert d in At(e', 0);
      forall x | x in Recent(e, n)
        ensures x in Recent(e', n)
      {
        var j :| 0 <= j < n && x in At(e, j);
        assert x in At(e', j);
      }
      forall x | x in Recent(e', n) && x != d
        ensures x in Recent(e, n)
      {
        var j :| 0 <= j < n && x in At(e', j);
        assert x in At(e, j);
      }
    }
    MoreBits(Recent(e, n), d, size);
  }

  lemma MoreBits(ds: set<Digest>, d: Digest, size: nat)
    requires size > 0
    ensures BitsOf(ds + {d}, size) == BitsOf(ds, size) + DigestBits(d, size)
  {
  }

  lemma RotateExact(r: Ring, e: Epochs)
    requires r.Valid() && Exact(r, e)
    ensures Exact(r.Rotate(), [{}] + e)
  {
    var r', e' := r.Rotate(), [{}] + e;
    ZerosBits(|r.aggregate|);
    forall j | 0 <= j < |r'.slots|
      ensures Bits(r'.slots[r'.Back(j)]) == BitsOf(At(e', j), |r'.aggregate|)
    {
      if j > 0 {
        assert r'.Back(j) == r.Back(j - 1) != r.Next();
        assert At(e', j) == At(e, j - 1);
      }
    }
    UnionIsRecent(r', e');
  }

  lemma ClearExact(r: Ring)
    requires r.Valid()
    ensures Exact(r.Clear(), [{}])
  {
    ZerosBits(|r.aggregate|);
    assert Recent([{}], |r.slots|) == {};
  }

  lemma SyncExact(r: Ring, e: Epochs)
    requires r.Valid() && Exact(r, e)
    ensures Exact(r.Sync(), e)
  {
    UnionIsRecent(r, e);
    assert forall j :: 0 <= j < |r.slots| ==> r.Sync().Back(j) == r.Back(j);
  }

  ghost function EpochsAfterRun(s: Store, e: Epochs, es: seq<Event>, interval: nat): Epochs
    requires s.ring.Valid() && AllFit(es, |s.ring.slots|, |s.ring.aggregate|)
    decreases |es|
  {
    if es == [] then e
    else EpochsAfterRun(Apply(s, es[0], interval), EpochsAfter(s, e, es[0], interval), es[1..], interval)
  }

  predicate NoAbsolute(es: seq<Event>) {
    forall i :: 0 <= i < |es| ==> !es[i].message.AbsoluteUpdate?
  }

  lemma ExactOneStep(s: Store, e: Epochs, ev: Event, interval: nat)
    requires s.ring.Valid() && Exact(s.ring, e) && !ev.message.AbsoluteUpdate?
    ensures Exact(Apply(s, ev, interval).ring, EpochsAfter(s, e, ev, interval))
  {
    match ev.message {
      case Update(d) => InsertExact(s.ring, e, d);
      case UpdateOper(d) => InsertExact(s.ring, e, d);
      case Rotate =>
        if RotationDue(s, ev.clock, interval) {
          if Expired(s, ev.clock, interval) {
            ClearExact(s.ring);
          } else {
            RotateExact(s.ring, e);
          }
        }
      case SyncAggregate => SyncExact(s.ring, e);
      case Unknown =>
    }
  }

  /** Without absolute updates the ring stays exact through every run. */
  lemma {:induction false} ExactThroughRun(s: Store, e: Epochs, es: seq<Event>, interval: nat)
    requires s.ring.Valid() && AllFit(es, |s.ring.slots|, |s.ring.aggregate|)
    requires Exact(s.ring, e) && NoAbsolute(es)
    ensures Exact(Run(s, es, interval).ring, EpochsAfterRun(s, e, es, interval))
    decreases |es|
  {
    if es != [] {
      ExactOneStep(s, e, es[0], interval);
      ExactThroughRun(Apply(s, es[0], interval), EpochsAfter(s, e, es[0], interval), es[1..], interval);
    }
  }

  /**
   From a new ring, after any run without absolute updates, a digest is answered "present"
   exactly when its bits are covered by the digests of the last N epochs: older ones have left
   no trace.
   */
  lemma {:induction false} AnswersLastEpochs(num: nat, size: nat, now: int, es: seq<Event>, interval: nat, d: Digest)
    requires num > 0 && size > 0 && AllFit(es, num, size) && NoAbsolute(es)
    ensures
      var s := Store(Empty(num, size), now);
      IsIn(Run(s, es, interval).ring.aggregate, d) <==>
      DigestBits(d, size) <= BitsOf(Recent(EpochsAfterRun(s, [{}], es, interval), num), size)
  {
    var s := Store(Empty(num, size), now);
    assert Exact(s.ring, [{}]) by {
      ZerosBits(size);
      assert Recent([{}], num) == {};
    }
    ExactThroughRun(s, [{}], es, interval);
    IsInBits(Run(s, es, interval).ring.aggregate, d);
  }

  // The aggregate against the slots, with absolute updates allowed.

  /** True while no absolute update has come after the last effective rotate, reset or sync. */
  predicate FreshAfter(s: Store, isFresh: bool, ev: Event, interval: nat) {
    match ev.message
    case AbsoluteUpdate(_, _, _) => false
    case SyncAggregate => true
    case Rotate => isFresh || RotationDue(s, ev.clock, interval)
    case _ => isFresh
  }

  ghost predicate FreshAfterRun(s: Store, isFresh: bool, es: seq<Event>, interval: nat)
    requires s.ring.Valid() && AllFit(es, |s.ring.slots|, |s.ring.aggregate|)
    decreases |es|
  {
    if es == [] then isFresh
    else FreshAfterRun(Apply(s, es[0], interval), FreshAfter(s, isFresh, es[0], interval), es[1..], interval)
  }

  /** The aggregate never shows a bit no slot has, and misses none while it is fresh. */
  ghost predicate Coherent(r: Ring, isFresh: bool)
    requires r.Valid()
  {
    Bits(r.aggregate) <= Bits(r.Union()) && (isFresh ==> r.aggregate == r.Union())
  }

  lemma InsertCoherent(r: Ring, isFresh: bool, d: Digest)
    requires r.Valid() && Coherent(r, isFresh)
    ensures Coherent(r.Insert(d), isFresh)
  {
    var r', size := r.Insert(d), |r.aggregate|;
    WithDigestBits(r.slots[r.current], d);
    WithDigestBits(r.aggregate, d);
    assert Bits(r'.Union()) == Bits(r.Union()) + DigestBits(d, size) by {
      forall b | 0 <= b < 32 * size
        ensures b in Bits(r'.Union()) <==> b in Bits(r.Union()) || b in DigestBits(d, size)
      {
        OrAllBits(r.slots, size, b);
        OrAllBits(r'.slots, size, b);
        SlotWiseInsert(r, d, b);
      }
    }
    if isFresh {
      BitsDetermine(r'.aggregate, r'.Union());
    }
  }

  lemma SlotWiseInsert(r: Ring, d: Digest, b: nat)
    requires r.Valid() && b < 32 * |r.aggregate|
    ensures SomeHas(r.Insert(d).slots, |r.aggregate|, b) <==>
            SomeHas(r.slots, |r.aggregate|, b) || b in DigestBits(d, |r.aggregate|)
  {
    var r' := r.Insert(d);
    WithDigestBits(r.slots[r.current], d);
    assert b in Bits(r'.slots[r.current]) <==> b in Bits(r.slots[r.current]) || b in DigestBits(d, |r.aggregate|);
    if i :| 0 <= i < |r.slots| && Has(r.slots[i], b) {
      assert Has(r'.slots[i], b);
    }
    if i :| 0 <= i < |r.slots| && Has(r'.slots[i], b) {
      assert i == r.current || Has(r.slots[i], b);
    }
  }

  lemma MergeCoherent(r: Ring, isFresh: bool, k: nat, at: nat, words: Filter)
    requires r.Valid() && Coherent(r, isFresh)
    requires k < |r.slots| && at + |words| <= |r.aggregate|
    ensures Coherent(r.Merge(k, at, words), false)
  {
    var r', size := r.Merge(k, at, words), |r.aggregate|;
    OrAtBits(r.slots[k], at, words);
    forall b | b in Bits(r.aggregate)
      ensures b in Bits(r'.Union())
    {
      OrAllBits(r.slots, size, b);
      var i :| 0 <= i < |r.slots| && Has(r.slots[i], b);
      assert b in Bits(r.slots[i]) && b in Bits(r'.slots[i]);
      SlotBitsInUnion(r'.slots, size, i);
    }
  }

  lemma ClearCoherent(r: Ring)
    requires r.Valid()
    ensures Coherent(r.Clear(), true)
  {
    var r', size := r.Clear(), |r.aggregate|;
    ZerosBits(size);
    forall b | 0 <= b < 32 * size
      ensures b !in Bits(r'.Union())
    {
      OrAllBits(r'.slots, size, b);
    }
    BitsDetermine(r'.aggregate, r'.Union());
  }

  lemma CoherentOneStep(s: Store, isFresh: bool, ev: Event, interval: nat)
    requires s.ring.Valid() && Fits(ev.message, |s.ring.slots|, |s.ring.aggregate|)
    requires Coherent(s.ring, isFresh)
    ensures Coherent(Apply(s, ev, interval).ring, FreshAfter(s, isFresh, ev, interval))
  {
    match ev.message {
      case Update(d) => InsertCoherent(s.ring, isFresh, d);
      case UpdateOper(d) => InsertCoherent(s.ring, isFresh, d);
      case AbsoluteUpdate(k, index, words) =>
        var n := ChunkSize(|s.ring.aggregate|);
        MergeCoherent(s.ring, isFresh, k, index * n, words[..n]);
      case Rotate =>
        if RotationDue(s, ev.clock, interval) && Expired(s, ev.clock, interval) {
          ClearCoherent(s.ring);
        }
      case SyncAggregate =>
      case Unknown =>
    }
  }

  /** In every reachable state the aggregate agrees with the slots as far as it should. */
  lemma {:induction false} CoherentThroughRun(s: Store, isFresh: bool, es: seq<Event>, interval: nat)
    requires s.ring.Valid() && AllFit(es, |s.ring.slots|, |s.ring.aggregate|)
    requires Coherent(s.ring, isFresh)
    ensures Coherent(Run(s, es, interval).ring, FreshAfterRun(s, isFresh, es, interval))
    decreases |es|
  {
    if es != [] {
      CoherentOneStep(s, isFresh, es[0], interval);
      CoherentThroughRun(Apply(s, es[0], interval), FreshAfter(s, isFresh, es[0], interval), es[1..], interval);
    }
  }

  /** From a new ring. */
  lemma AggregateCoherent(num: nat, size: nat, now: int, es: seq<Event>, interval: nat)
    requires num > 0 && size > 0 && AllFit(es, num, size)
    ensures
      var s := Store(Empty(num, size), now);
      Coherent(Run(s, es, interval).ring, FreshAfterRun(s, true, es, interval))
  {
    var s := Store(Empty(num, size), now);
    ClearCoherent(s.ring);
    assert s.ring.Clear() == s.ring;
    CoherentThroughRun(s, true, es, interval);
  }
}

/** How the rotation clock makes the ring forget in time, and start anew after a reset. */
module Forgetting {
  import opened Bloom
  import opened BloomManager
  import opened Contents
  import opened Retention

  /** The digests that the messages of a run insert. */
  ghost function InsertedIn(es: seq<Event>): set<Digest> {
    set i | 0 <= i < |es| && (es[i].message.Update? || es[i].message.UpdateOper?) :: es[i].message.digest
  }

  /** The first k epochs hold nothing but the given digests. */
  ghost predicate FrontOnly(e: Epochs, k: nat, all: set<Digest>) {
    forall j :: 0 <= j < k && j < |e| ==> e[j] <= all
  }

  /** Either nothing old is left at all, or the k epochs in front took k rotations since `base`. */
  ghost predicate Aged(s: Store, e: Epochs, k: nat, base: int, interval: nat, all: set<Digest>) {
    FrontOnly(e, |e|, all) || (FrontOnly(e, k, all) && s.lastRotate == base + k * interval)
  }

  /** One message: the front grows with each rotation, and a reset leaves nothing old. */
  lemma AgedOneStep(s: Store, e: Epochs, k: nat, ev: Event, base: int, interval: nat, all: set<Digest>)
    returns (k': nat)
    requires s.ring.Valid() && Fits(ev.message, |s.ring.slots|, |s.ring.aggregate|)
    requires Aged(s, e, k, base, interval, all)
    requires (ev.message.Update? || ev.message.UpdateOper?) ==> ev.message.digest in all
    ensures Aged(Apply(s, ev, interval), EpochsAfter(s, e, ev, interval), k', base, interval, all)
  {
    k' := if ev.message.Rotate? && RotationDue(s, ev.clock, interval) then k + 1 else k;
    Distribute(k, 1, interval);
  }

  lemma {:induction false} AgedThroughRun(s: Store, e: Epochs, k: nat, es: seq<Event>, base: int, interval: nat,
                                          all: set<Digest>)
    returns (k': nat)
    requires s.ring.Valid() && AllFit(es, |s.ring.slots|, |s.ring.aggregate|)
    requires Aged(s, e, k, base, interval, all) && InsertedIn(es) <= all
    ensures Aged(Run(s, es, interval), EpochsAfterRun(s, e, es, interval), k', base, interval, all)
    decreases |es|
  {
    if es == [] {
      k' := k;
    } else {
      assert es[0].message.Update? || es[0].message.UpdateOper? ==> es[0].message.digest in InsertedIn(es);
      assert InsertedIn(es[1..]) <= InsertedIn(es);
      k' := AgedOneStep(s, e, k, es[0], base, interval, all);
      k' := AgedThroughRun(Apply(s, es[0], interval), EpochsAfter(s, e, es[0], interval), k', es[1..], base, interval,
                           all);
    }
  }

  lemma Distribute(a: int, b: int, c: int)
    ensures (a + b) * c == a * c + b * c
  {
  }

  lemma RotationsNeeded(k: int, n: nat, interval: nat)
    requires n * interval < (k + 1) * interval
    ensures k >= n
  {
    if k < n {
      Distribute(n - k - 1, k + 1, interval);
      NotNegative(n - k - 1, interval);
      assert false;
    }
  }

  lemma NotNegative(a: nat, b: nat)
    ensures a * b >= 0
  {
  }

  /**
   Forgetting in time: after every run with no rotation overdue at its end, once N intervals have
   passed since the last rotation before it, the N epochs in the ring hold only what was inserted
   in the run.
   */
  lemma {:induction false} ForgottenInTime(s: Store, e: Epochs, es: seq<Event>, interval: nat, until: int)
    requires s.ring.Valid() && AllFit(es, |s.ring.slots|, |s.ring.aggregate|)
    requires until <= Run(s, es, interval).lastRotate + interval
    requires until > s.lastRotate + |s.ring.slots| * interval
    ensures Recent(EpochsAfterRun(s, e, es, interval), |s.ring.slots|) <= InsertedIn(es)
  {
    var k := AgedThroughRun(s, e, 0, es, s.lastRotate, interval, InsertedIn(es));
    var e' := EpochsAfterRun(s, e, es, interval);
    if !FrontOnly(e', |e'|, InsertedIn(es)) {
      Distribute(k, 1, interval);
      RotationsNeeded(k, |s.ring.slots|, interval);
    }
  }

  /** What is then answered "present" was inserted in the run, or is covered by digests that were. */
  lemma {:induction false} OnlyRecentAnswered(s: Store, e: Epochs, es: seq<Event>, interval: nat, until: int, d: Digest)
    requires s.ring.Valid() && AllFit(es, |s.ring.slots|, |s.ring.aggregate|) && Exact(s.ring, e) && NoAbsolute(es)
    requires until <= Run(s, es, interval).lastRotate + interval
    requires until > s.lastRotate + |s.ring.slots| * interval
    requires IsIn(Run(s, es, interval).ring.aggregate, d)
    ensures DigestBits(d, |s.ring.aggregate|) <= BitsOf(InsertedIn(es), |s.ring.aggregate|)
  {
    ForgottenInTime(s, e, es, interval, until);
    ExactThroughRun(s, e, es, interval);
    IsInBits(Run(s, es, interval).ring.aggregate, d);
  }

  /** A reset starts the clock anew: the next digest has exactly N intervals from the third reading. */
  lemma {:induction false} ResetRestarts(s: Store, c: Clock, interval: nat, d: Digest, until: int)
    requires s.ring.Valid() && RotationDue(s, c, interval) && Expired(s, c, interval) && c.third <= until
    ensures RememberedUntil(Rotated(s, c, interval), d, c.third, until, interval) <==>
            until <= c.third + |s.ring.slots| * interval
  {
    WindowExactly(Rotated(s, c, interval), d, c.third, until, interval);
  }

  /** The first reading alone decides whether anything happens, the second alone whether it is a reset. */
  lemma ReadingsUsed(s: Store, c: Clock, interval: nat, e: Epochs)
    requires s.ring.Valid()
    ensures
      var ev := Event(Rotate, c);
      && (c.first <= s.lastRotate + interval ==> Rotated(s, c, interval) == s && EpochsAfter(s, e, ev, interval) == e)
      && (c.first > s.lastRotate + interval && c.second <= s.lastRotate + |s.ring.slots| * interval ==>
            EpochsAfter(s, e, ev, interval) == [{}] + e)
      && (c.first > s.lastRotate + interval && c.second > s.lastRotate + |s.ring.slots| * interval ==>
            Rotated(s, c, interval).ring == Empty(|s.ring.slots|, |s.ring.aggregate|))
  {
    assert |s.ring.slots| * interval == interval * |s.ring.slots|;
  }
}

/** Readers, which do not take the lock while a rotation copies the new aggregate over the old one. */
module Racing {
  import opened Bloom
  import opened BloomManager
  import opened Retention

  /** The aggregate as a reader sees it when the words in `written` have been copied. */
  function Torn(before: Filter, after: Filter, written: set<nat>): (f: Filter)
    requires |before| == |after|
    ensures |f| == |before|
  {
    seq(|before|, i requires 0 <= i < |before| => if i in written then after[i] else before[i])
  }

  /** is_in_array where the copy may have advanced arbitrarily between any two of the eight reads. */
  ghost predicate TornIsIn(before: Filter, after: Filter, d: Digest, progress: seq<set<nat>>)
    requires |before| == |after| > 0 && |progress| == 8
  {
    forall k :: 0 <= k < 8 ==> Has(Torn(before, after, progress[k]), Index(d.Words()[k], |before|))
  }

  /** A reader racing with the copy still finds every digest that stays in the window. */
  lemma {:induction false} RacingReaderFinds(r: Ring, d: Digest, age: nat, progress: seq<set<nat>>)
    requires r.Valid() && age + 1 < |r.slots| && |progress| == 8
    requires IsIn(r.aggregate, d)
    requires DigestBits(d, |r.aggregate|) <= Bits(r.slots[r.Back(age)])
    ensures TornIsIn(r.aggregate, r.Rotate().aggregate, d, progress)
  {
    var r', size := r.Rotate(), |r.aggregate|;
    IsInBits(r.aggregate, d);
    assert r.Back(age) != r.Next();
    SlotBitsInUnion(r'.slots, size, r.Back(age));
    forall k | 0 <= k < 8
      ensures Has(Torn(r.aggregate, r'.aggregate, progress[k]), Index(d.Words()[k], size))
    {
      var b := Index(d.Words()[k], size);
      assert b in DigestBits(d, size);
      assert b in Bits(r.aggregate) && b in Bits(r'.aggregate);
    }
  }

  /**
   In every run, at any point of the copy of every rotation before the window ends, and whatever
   the order of the writes: an inserted digest is found.
   */
  lemma {:induction false} FoundDuringRotation(s: Store, d: Digest, at: int, until: int, interval: nat,
                            es: seq<Event>, c: Clock, progress: seq<set<nat>>)
    requires s.ring.Valid() && AllFit(es, |s.ring.slots|, |s.ring.aggregate|) && |progress| == 8
    requires until <= s.lastRotate + |s.ring.slots| * interval
    requires Chronological(es, at, until) && c.first <= c.second <= until
    requires RotationDue(Run(s.(ring := s.ring.Insert(d)), es, interval), c, interval)
    ensures
      var s' := Run(s.(ring := s.ring.Insert(d)), es, interval);
      && Rotated(s', c, interval).ring == s'.ring.Rotate()
      && TornIsIn(s'.ring.aggregate, s'.ring.Rotate().aggregate, d, progress)
  {
    var s0 := s.(ring := s.ring.Insert(d));
    InsertHolds(s.ring, d);
    var age := HeldThroughRun(s0, d, 0, es, interval, at, until);
    var s' := Run(s0, es, interval);
    Margins(|s.ring.slots|, age, interval);
    IsInBits(s'.ring.aggregate, d);
    RacingReaderFinds(s'.ring, d, age, progress);
  }
}
