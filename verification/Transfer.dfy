/**
 The whole transfer: what the receiving manager holds once the sender's chunks have arrived, in
 any order and mixed with any other messages that do not rotate the ring.
 src/syncmgr.c, src/bloom.c, src/bloommgr.c.
 */
module Transfer {
  import opened Bloom
  import opened BloomManager
  import opened BloomRings
  import opened Replication

  /** Word by word, f is contained in g. */
  ghost predicate Sub(f: Filter, g: Filter) {
    |f| == |g| && forall i :: 0 <= i < |f| ==> f[i] <= g[i]
  }

  ghost predicate SubAll(a: seq<Filter>, b: seq<Filter>) {
    |a| == |b| && forall k :: 0 <= k < |a| ==> Sub(a[k], b[k])
  }

  lemma SubFromBits(f: Filter, g: Filter)
    requires |f| == |g| && Bits(f) <= Bits(g)
    ensures Sub(f, g)
  {
    forall i, j: nat | 0 <= i < |f| && j in f[i]
      ensures j in g[i]
    {
      var b := 32 * i + j;
      assert b / 32 == i && b % 32 == j;
      assert b in Bits(f);
    }
  }

  lemma BitsFromSub(f: Filter, g: Filter)
    requires Sub(f, g)
    ensures Bits(f) <= Bits(g)
  {
  }

  // The receiver only gains bits until it rotates.

  lemma StepGrows(s: Store, e: Event, interval: nat)
    requires s.ring.Valid() && Fits(e.message, |s.ring.slots|, |s.ring.aggregate|)
    requires !e.message.Rotate?
    ensures SubAll(s.ring.slots, Apply(s, e, interval).ring.slots)
  {
    match e.message {
      case Update(d) =>
        WithDigestBits(s.ring.slots[s.ring.current], d);
        SubFromBits(s.ring.slots[s.ring.current], WithDigest(s.ring.slots[s.ring.current], d));
      case UpdateOper(d) =>
        WithDigestBits(s.ring.slots[s.ring.current], d);
        SubFromBits(s.ring.slots[s.ring.current], WithDigest(s.ring.slots[s.ring.current], d));
      case AbsoluteUpdate(k, index, words) =>
      case SyncAggregate =>
      case Unknown =>
    }
  }

  predicate NoRotate(es: seq<Event>) {
    forall i :: 0 <= i < |es| ==> !es[i].message.Rotate?
  }

  lemma {:induction false} RunGrows(s: Store, es: seq<Event>, interval: nat)
    requires s.ring.Valid() && AllFit(es, |s.ring.slots|, |s.ring.aggregate|) && NoRotate(es)
    ensures SubAll(s.ring.slots, Run(s, es, interval).ring.slots)
    decreases |es|
  {
    if es != [] {
      StepGrows(s, es[0], interval);
      RunGrows(Apply(s, es[0], interval), es[1..], interval);
    }
  }

  function AsMessage(c: StartupSync): Message {
    AbsoluteUpdate(c.buffer, c.index, c.filter)
  }

  /** Once a chunk has been applied its words stay in the receiver's slot. */
  lemma {:induction false} DeliveredStays(s: Store, es: seq<Event>, p: nat, interval: nat, f: Filter, k: nat, m: nat)
    requires s.ring.Valid() && AllFit(es, |s.ring.slots|, |s.ring.aggregate|) && NoRotate(es)
    requires Whole(|f|) && |f| == |s.ring.aggregate| && k < |s.ring.slots|
    requires m * ChunkSize(|f|) + ChunkSize(|f|) <= |f|
    requires p < |es| && es[p].message == AsMessage(StartupSync(k, m, ChunkWords(f, m)))
    ensures forall w {:trigger f[w]} :: m * ChunkSize(|f|) <= w < m * ChunkSize(|f|) + ChunkSize(|f|) ==>
              f[w] <= Run(s, es, interval).ring.slots[k][w]
    decreases |es|
  {
    var s' := Apply(s, es[0], interval);
    if p == 0 {
      var n := ChunkSize(|f|);
      forall w {:trigger f[w]} | m * n <= w < m * n + n
        ensures f[w] <= s'.ring.slots[k][w]
      {
        assert ChunkWords(f, m)[..n][w - m * n] == f[w];
      }
      RunGrows(s', es[1..], interval);
      assert Sub(s'.ring.slots[k], Run(s', es[1..], interval).ring.slots[k]);
    } else {
      DeliveredStays(s', es[1..], p - 1, interval, f, k, m);
    }
  }

  // Every word of the sender is in some chunk.

  ghost predicate AllWhole(slots: seq<Filter>) {
    forall i :: 0 <= i < |slots| ==> Whole(|slots[i]|)
  }

  lemma {:induction false} FilterChunkListed(i: nat, f: Filter, count: nat, m: nat)
    requires Whole(|f|) && m < count <= ChunkCount(|f|)
    ensures m * ChunkSize(|f|) + ChunkSize(|f|) <= |f|
    ensures StartupSync(i, m, ChunkWords(f, m)) in FilterChunks(i, f, count)
  {
    ChunkInside(|f|, m);
    if m < count - 1 {
      FilterChunkListed(i, f, count - 1, m);
    }
  }

  lemma {:induction false} ChunkListed(slots: seq<Filter>, count: nat, k: nat, m: nat)
    requires k < count <= |slots| && AllWhole(slots) && Whole(|slots[k]|)
    requires m < ChunkCount(|slots[k]|)
    ensures m * ChunkSize(|slots[k]|) + ChunkSize(|slots[k]|) <= |slots[k]|
    ensures StartupSync(k, m, ChunkWords(slots[k], m)) in RingChunks(slots, count)
  {
    if k == count - 1 {
      FilterChunkListed(k, slots[k], ChunkCount(|slots[k]|), m);
    } else {
      ChunkListed(slots, count - 1, k, m);
    }
  }

  lemma WordInChunk(size: nat, w: nat)
    requires Whole(size) && w < size
    ensures
      var n := ChunkSize(size);
      w / n < ChunkCount(size) && w / n * n <= w < w / n * n + n
  {
    if size < FILTER_SIZE {
      assert w / size == 0;
    }
  }

  ghost predicate SameShape(sender: seq<Filter>, r: Ring) {
    |sender| == |r.slots| && Whole(|r.aggregate|) && Uniform(sender, |r.aggregate|)
  }

  ghost predicate Arrives(es: seq<Event>, c: StartupSync) {
    exists p :: 0 <= p < |es| && es[p].message == AsMessage(c)
  }

  /** Each of the sender's chunks occurs somewhere among the messages. */
  ghost predicate AllDelivered(es: seq<Event>, sender: seq<Filter>)
    requires AllWhole(sender)
  {
    forall c :: c in RingChunks(sender, |sender|) ==> Arrives(es, c)
  }

  lemma ChunkArrives(s: Store, es: seq<Event>, interval: nat, sender: seq<Filter>, k: nat, m: nat)
    requires s.ring.Valid() && AllFit(es, |s.ring.slots|, |s.ring.aggregate|) && NoRotate(es)
    requires SameShape(sender, s.ring) && AllDelivered(es, sender)
    requires k < |sender| && m < ChunkCount(|sender[k]|)
    ensures var f := sender[k];
      m * ChunkSize(|f|) + ChunkSize(|f|) <= |f| &&
      forall w {:trigger f[w]} :: m * ChunkSize(|f|) <= w < m * ChunkSize(|f|) + ChunkSize(|f|) ==>
        f[w] <= Run(s, es, interval).ring.slots[k][w]
  {
    var f := sender[k];
    ChunkListed(sender, |sender|, k, m);
    var c := StartupSync(k, m, ChunkWords(f, m));
    assert Arrives(es, c);
    var p :| 0 <= p < |es| && es[p].message == AsMessage(c);
    DeliveredStays(s, es, p, interval, f, k, m);
  }

  lemma WordArrives(s: Store, es: seq<Event>, interval: nat, sender: seq<Filter>, k: nat, w: nat)
    requires s.ring.Valid() && AllFit(es, |s.ring.slots|, |s.ring.aggregate|) && NoRotate(es)
    requires SameShape(sender, s.ring) && AllDelivered(es, sender)
    requires k < |sender| && w < |sender[k]|
    ensures sender[k][w] <= Run(s, es, interval).ring.slots[k][w]
  {
    var f := sender[k];
    var m := w / ChunkSize(|f|);
    WordInChunk(|f|, w);
    ChunkArrives(s, es, interval, sender, k, m);
    assert f[w] <= Run(s, es, interval).ring.slots[k][w];
  }

  /** No word is missed, whatever the order, the repetitions and the other traffic. */
  lemma {:induction false} EveryWordArrives(s: Store, es: seq<Event>, interval: nat, sender: seq<Filter>)
    requires s.ring.Valid() && AllFit(es, |s.ring.slots|, |s.ring.aggregate|) && NoRotate(es)
    requires SameShape(sender, s.ring) && AllDelivered(es, sender)
    ensures SubAll(sender, Run(s, es, interval).ring.slots)
  {
    var r' := Run(s, es, interval).ring;
    forall k | 0 <= k < |sender|
      ensures Sub(sender[k], r'.slots[k])
    {
      forall w | 0 <= w < |sender[k]|
        ensures sender[k][w] <= r'.slots[k][w]
      {
        WordArrives(s, es, interval, sender, k, w);
      }
    }
  }

  // Nothing but the sender's words arrives.

  lemma {:induction false} FilterChunkOrigin(i: nat, f: Filter, count: nat, c: StartupSync)
    requires Whole(|f|) && count <= ChunkCount(|f|) && c in FilterChunks(i, f, count)
    ensures c.buffer == i && c.index < count
    ensures c.index * ChunkSize(|f|) + ChunkSize(|f|) <= |f| && c.filter == ChunkWords(f, c.index)
  {
    if c in FilterChunks(i, f, count - 1) {
      FilterChunkOrigin(i, f, count - 1, c);
    } else {
      ChunkInside(|f|, count - 1);
    }
  }

  lemma {:induction false} ChunkOrigin(slots: seq<Filter>, count: nat, c: StartupSync)
    requires count <= |slots| && AllWhole(slots)
    requires c in RingChunks(slots, count)
    ensures c.buffer < count
    ensures
      var f := slots[c.buffer];
      c.index * ChunkSize(|f|) + ChunkSize(|f|) <= |f| && c.filter == ChunkWords(f, c.index)
  {
    if c in RingChunks(slots, count - 1) {
      ChunkOrigin(slots, count - 1, c);
    } else {
      FilterChunkOrigin(count - 1, slots[count - 1], ChunkCount(|slots[count - 1]|), c);
    }
  }

  ghost predicate CarriesChunk(m: Message, sender: seq<Filter>)
    requires AllWhole(sender)
  {
    exists c :: c in RingChunks(sender, |sender|) && m == AsMessage(c)
  }

  /** Every message is one of the sender's chunks. */
  ghost predicate OnlyChunks(es: seq<Event>, sender: seq<Filter>)
    requires AllWhole(sender)
  {
    forall p :: 0 <= p < |es| ==> CarriesChunk(es[p].message, sender)
  }

  /** Chunks fit: all indices are in bounds at a receiver of the same shape. */
  lemma {:induction false} ChunksFit(es: seq<Event>, sender: seq<Filter>, num: nat, size: nat)
    requires |sender| == num && Whole(size) && Uniform(sender, size) && OnlyChunks(es, sender)
    ensures AllFit(es, num, size) && NoRotate(es)
  {
    forall p | 0 <= p < |es|
      ensures Fits(es[p].message, num, size) && !es[p].message.Rotate?
    {
      assert CarriesChunk(es[p].message, sender);
      var c :| c in RingChunks(sender, |sender|) && es[p].message == AsMessage(c);
      ChunkOrigin(sender, |sender|, c);
    }
  }

  /** The receiver stays between its old slots and their union with the sender's. */
  ghost predicate Bounded(slots: seq<Filter>, base: seq<Filter>, sender: seq<Filter>) {
    |slots| == |base| == |sender| &&
    forall k :: 0 <= k < |slots| ==> |base[k]| == |sender[k]| && Sub(slots[k], Or(base[k], sender[k]))
  }

  lemma OrAtBounded(f: Filter, at: nat, words: Filter, bound: Filter)
    requires Sub(f, bound) && at + |words| <= |f|
    requires forall i :: 0 <= i < |words| ==> words[i] <= bound[at + i]
    ensures Sub(OrAt(f, at, words), bound)
  {
  }

  lemma ChunkPrefix(f: Filter, m: nat)
    requires |f| > 0 && m * ChunkSize(|f|) + ChunkSize(|f|) <= |f|
    ensures ChunkWords(f, m)[..ChunkSize(|f|)] == f[m * ChunkSize(|f|)..m * ChunkSize(|f|) + ChunkSize(|f|)]
  {
  }

  lemma ChunkBounded(s: Store, k: nat, m: nat, e: Event, interval: nat, base: seq<Filter>, sender: seq<Filter>)
    requires s.ring.Valid() && SameShape(sender, s.ring)
    requires Bounded(s.ring.slots, base, sender)
    requires k < |sender| && |sender[k]| == |s.ring.aggregate|
    requires m * ChunkSize(|sender[k]|) + ChunkSize(|sender[k]|) <= |sender[k]|
    requires e.message == AbsoluteUpdate(k, m, ChunkWords(sender[k], m))
    ensures Fits(e.message, |s.ring.slots|, |s.ring.aggregate|)
    ensures Bounded(Apply(s, e, interval).ring.slots, base, sender)
    ensures Apply(s, e, interval).ring.aggregate == s.ring.aggregate
  {
    var n := ChunkSize(|s.ring.aggregate|);
    ChunkPrefix(sender[k], m);
    MergeBounded(s.ring, k, m * n, e.message.filter[..n], base, sender);
  }

  lemma MergeBounded(r: Ring, k: nat, at: nat, words: Filter, base: seq<Filter>, sender: seq<Filter>)
    requires r.Valid() && Bounded(r.slots, base, sender)
    requires k < |r.slots| && at + |words| <= |r.aggregate| == |sender[k]|
    requires words == sender[k][at..at + |words|]
    ensures Bounded(r.Merge(k, at, words).slots, base, sender)
  {
    OrAtBounded(r.slots[k], at, words, Or(base[k], sender[k]));
  }

  lemma {:induction false} RunBounded(s: Store, es: seq<Event>, interval: nat, base: seq<Filter>, sender: seq<Filter>)
    requires s.ring.Valid() && SameShape(sender, s.ring)
    requires OnlyChunks(es, sender) && AllFit(es, |s.ring.slots|, |s.ring.aggregate|)
    requires Bounded(s.ring.slots, base, sender)
    ensures Bounded(Run(s, es, interval).ring.slots, base, sender)
    ensures Run(s, es, interval).ring.aggregate == s.ring.aggregate
    decreases |es|
  {
    if es != [] {
      assert CarriesChunk(es[0].message, sender);
      var c :| c in RingChunks(sender, |sender|) && es[0].message == AsMessage(c);
      ChunkOrigin(sender, |sender|, c);
      ChunkBounded(s, c.buffer, c.index, es[0], interval, base, sender);
      RunBounded(Apply(s, es[0], interval), es[1..], interval, base, sender);
    }
  }

  lemma SubBothWays(f: Filter, a: Filter, b: Filter)
    requires Sub(a, f) && Sub(b, f) && Sub(f, Or(a, b))
    ensures f == Or(a, b)
  {
    forall w | 0 <= w < |f|
      ensures f[w] == Or(a, b)[w]
    {
      assert f[w] <= a[w] + b[w];
    }
  }

  function MergedSlots(a: seq<Filter>, b: seq<Filter>): seq<Filter>
    requires |a| == |b| && forall k :: 0 <= k < |a| ==> |a[k]| == |b[k]|
  {
    seq(|a|, k requires 0 <= k < |a| => Or(a[k], b[k]))
  }

  /**
   When the chunks arrive, all of them and in any order, every slot of the receiver becomes the
   word-wise OR of what it was and what the sender has; the aggregate waits for the sync.
   */
  lemma {:induction false} TransferMerges(s: Store, es: seq<Event>, interval: nat, sender: seq<Filter>)
    requires s.ring.Valid() && SameShape(sender, s.ring)
    requires OnlyChunks(es, sender) && AllDelivered(es, sender)
    ensures AllFit(es, |s.ring.slots|, |s.ring.aggregate|)
    ensures Run(s, es, interval).ring.slots == MergedSlots(s.ring.slots, sender)
    ensures Run(s, es, interval).ring.aggregate == s.ring.aggregate
  {
    ChunksFit(es, sender, |s.ring.slots|, |s.ring.aggregate|);
    EveryWordArrives(s, es, interval, sender);
    RunGrows(s, es, interval);
    RunBounded(s, es, interval, s.ring.slots, sender);
    var r' := Run(s, es, interval).ring;
    forall k | 0 <= k < |sender|
      ensures r'.slots[k] == Or(s.ring.slots[k], sender[k])
    {
      assert Sub(sender[k], r'.slots[k]) && Sub(s.ring.slots[k], r'.slots[k]);
      SubBothWays(r'.slots[k], s.ring.slots[k], sender[k]);
    }
  }

  /** The closing aggregate request makes every digest the sender's slots cover present. */
  lemma {:induction false} PeerAnswers(s: Store, es: seq<Event>, interval: nat, sender: seq<Filter>, d: Digest)
    requires s.ring.Valid() && AllFit(es, |s.ring.slots|, |s.ring.aggregate|) && NoRotate(es)
    requires SameShape(sender, s.ring) && AllDelivered(es, sender)
    requires IsIn(OrAll(sender, |s.ring.aggregate|), d)
    ensures IsIn(Run(s, es, interval).ring.Sync().aggregate, d)
  {
    EveryWordArrives(s, es, interval, sender);
    var r', size := Run(s, es, interval).ring, |s.ring.aggregate|;
    forall b | b in Bits(OrAll(sender, size))
      ensures b in Bits(r'.Union())
    {
      OrAllBits(sender, size, b);
      var k :| 0 <= k < |sender| && Has(sender[k], b);
      assert Sub(sender[k], r'.slots[k]);
      BitsFromSub(sender[k], r'.slots[k]);
      assert b in Bits(sender[k]);
      SlotBitsInUnion(r'.slots, size, k);
    }
    IsInBits(OrAll(sender, size), d);
    IsInBits(r'.Sync().aggregate, d);
  }

  /** The messages send_filters puts on the wire do deliver every chunk and nothing else. */
  lemma {:induction false} SentMessagesDeliver(sender: seq<Filter>, es: seq<Event>)
    requires AllWhole(sender)
    requires
      var sent := RingChunks(sender, |sender|);
      |es| == |sent| && forall p :: 0 <= p < |sent| ==> es[p].message == AsMessage(sent[p])
    ensures AllDelivered(es, sender) && OnlyChunks(es, sender)
  {
    var sent := RingChunks(sender, |sender|);
    forall c | c in sent
      ensures Arrives(es, c)
    {
      var p :| 0 <= p < |sent| && sent[p] == c;
      assert es[p].message == AsMessage(c);
    }
    forall p | 0 <= p < |es|
      ensures CarriesChunk(es[p].message, sender)
    {
      assert sent[p] in sent;
    }
  }

  // From the sender's ring to the receiver's answer.

  /** What sstoh gives the manager for a chunk that sston has put on the wire. */
  function OverTheWire(c: StartupSync): Message
    requires c.Valid()
  {
    OrderRoundTrip(c);
    AsMessage(SwapSync(SwapSync(c)))
  }

  /** The number of filters and of words a 32-bit count can name. */
  ghost predicate Countable(slots: seq<Filter>) {
    |slots| <= 0x1_0000_0000 && forall k :: 0 <= k < |slots| ==> |slots[k]| <= 0x1_0000_0000
  }

  lemma {:induction false} ChunkIsValid(sender: seq<Filter>, c: StartupSync)
    requires AllWhole(sender) && Countable(sender) && c in RingChunks(sender, |sender|)
    ensures c.Valid()
  {
    ChunkOrigin(sender, |sender|, c);
    ChunkStart(c.index, ChunkSize(|sender[c.buffer]|));
  }

  /** The receiver's messages are the sender's chunks over the wire, in sending order. */
  ghost predicate Received(es: seq<Event>, sender: seq<Filter>)
    requires AllWhole(sender) && Countable(sender)
  {
    var sent := RingChunks(sender, |sender|);
    |es| == |sent| && forall p :: 0 <= p < |sent| ==>
      (ChunkIsValid(sender, sent[p]); es[p].message == OverTheWire(sent[p]))
  }

  /**
   The whole of a start-up synchronisation: after the chunks and the closing request every slot of
   the receiver is the OR of both daemons' slots and its aggregate is the OR of them all.
   */
  lemma {:induction false} Synchronised(s: Store, es: seq<Event>, interval: nat, sender: seq<Filter>, c: Clock)
    requires s.ring.Valid() && SameShape(sender, s.ring) && Countable(sender) && Received(es, sender)
    ensures AllFit(es, |s.ring.slots|, |s.ring.aggregate|)
    ensures
      var r := Apply(Run(s, es, interval), Event(SyncAggregate, c), interval).ring;
      r.slots == MergedSlots(s.ring.slots, sender) && r.aggregate == OrAll(r.slots, |s.ring.aggregate|)
  {
    var sent := RingChunks(sender, |sender|);
    forall p | 0 <= p < |sent|
      ensures es[p].message == AsMessage(sent[p])
    {
      ChunkIsValid(sender, sent[p]);
      OrderRoundTrip(sent[p]);
    }
    SentMessagesDeliver(sender, es);
    TransferMerges(s, es, interval, sender);
  }

  /** Such a receiver answers "present" exactly for what the filters of the two daemons cover together. */
  lemma {:induction false} JointAnswer(a: seq<Filter>, b: seq<Filter>, size: nat, d: Digest)
    requires |a| == |b| && size > 0 && Uniform(a, size) && Uniform(b, size)
    ensures Uniform(MergedSlots(a, b), size)
    ensures IsIn(OrAll(MergedSlots(a, b), size), d) <==>
      DigestBits(d, size) <= Bits(OrAll(a, size)) + Bits(OrAll(b, size))
  {
    var m := MergedSlots(a, b);
    forall i | 0 <= i < 32 * size
      ensures Has(OrAll(m, size), i) <==> Has(OrAll(a, size), i) || Has(OrAll(b, size), i)
    {
      OrAllBits(m, size, i);
      OrAllBits(a, size, i);
      OrAllBits(b, size, i);
      MergedHas(a, b, size, i);
    }
    assert Bits(OrAll(m, size)) == Bits(OrAll(a, size)) + Bits(OrAll(b, size));
    IsInBits(OrAll(m, size), d);
  }

  lemma MergedHas(a: seq<Filter>, b: seq<Filter>, size: nat, i: nat)
    requires |a| == |b| && Uniform(a, size) && Uniform(b, size) && i < 32 * size
    ensures SomeHas(MergedSlots(a, b), size, i) <==> SomeHas(a, size, i) || SomeHas(b, size, i)
  {
    var m := MergedSlots(a, b);
    forall k | 0 <= k < |a|
      ensures Has(m[k], i) <==> Has(a[k], i) || Has(b[k], i)
    {
    }
    if k :| 0 <= k < |m| && Has(m[k], i) {
      assert Has(a[k], i) || Has(b[k], i);
    }
    if k :| 0 <= k < |a| && Has(a[k], i) {
      assert Has(m[k], i);
    }
    if k :| 0 <= k < |b| && Has(b[k], i) {
      assert Has(m[k], i);
    }
  }

  lemma {:induction false} RunAppend(s: Store, es: seq<Event>, e: Event, interval: nat)
    requires s.ring.Valid() && AllFit(es + [e], |s.ring.slots|, |s.ring.aggregate|)
    ensures AllFit(es, |s.ring.slots|, |s.ring.aggregate|) && Fits(e.message, |s.ring.slots|, |s.ring.aggregate|)
    ensures Run(s, es + [e], interval) == Apply(Run(s, es, interval), e, interval)
    decreases |es|
  {
    assert (es + [e])[|es|] == e;
    assert forall i :: 0 <= i < |es| ==> (es + [e])[i] == es[i];
    if es == [] {
      assert es + [e] == [e] && [e][1..] == [];
    } else {
      assert (es + [e])[1..] == es[1..] + [e];
      RunAppend(Apply(s, es[0], interval), es[1..], e, interval);
    }
  }

  lemma {:induction false} RunOneMore(s: Store, es: seq<Event>, p: nat, interval: nat)
    requires s.ring.Valid() && AllFit(es, |s.ring.slots|, |s.ring.aggregate|) && p < |es|
    ensures Run(s, es[..p + 1], interval) == Apply(Run(s, es[..p], interval), es[p], interval)
  {
    TakeNext(es, p);
    RunAppend(s, es[..p], es[p], interval);
  }

  lemma TakeNext<T>(s: seq<T>, p: nat)
    requires p < |s|
    ensures s[..p + 1] == s[..p] + [s[p]]
  {
  }

  const NO_CLOCK := Clock(0, 0, 0)

  /** One chunk on its way: encoded, decoded and applied. */
  method Deliver(receiver: Manager, chunk: StartupSync)
    requires receiver.ring.Valid() && chunk.Valid()
    requires Fits(OverTheWire(chunk), |receiver.ring.group|, receiver.ring.aggregate.size)
    modifies receiver`lastRotate, receiver.ring`currentIndex, receiver.ring.arrays, receiver.ring.aggregate.filter
    ensures receiver.ring.Valid()
    ensures receiver.Model() == Apply(old(receiver.Model()), Event(OverTheWire(chunk), NO_CLOCK), receiver.interval)
  {
    OrderRoundTrip(chunk);
    var wire := ConvertOrder(chunk);
    var got := ConvertOrder(wire);
    receiver.Dispatch(Event(AbsoluteUpdate(got.buffer, got.index, got.filter), NO_CLOCK));
  }

  /** The events of a list of chunks. */
  ghost function EventsOf(sent: seq<StartupSync>): (es: seq<Event>)
    requires forall p :: 0 <= p < |sent| ==> sent[p].Valid()
    ensures |es| == |sent| && forall p :: 0 <= p < |es| ==> es[p] == Event(OverTheWire(sent[p]), NO_CLOCK)
  {
    if sent == [] then [] else EventsOf(sent[..|sent| - 1]) + [Event(OverTheWire(sent[|sent| - 1]), NO_CLOCK)]
  }

  method DeliverAll(receiver: Manager, sent: seq<StartupSync>)
    requires receiver.ring.Valid() && forall p :: 0 <= p < |sent| ==> sent[p].Valid()
    requires AllFit(EventsOf(sent), |receiver.ring.group|, receiver.ring.aggregate.size)
    modifies receiver`lastRotate, receiver.ring`currentIndex, receiver.ring.arrays, receiver.ring.aggregate.filter
    ensures receiver.ring.Valid()
    ensures receiver.Model() == Run(old(receiver.Model()), EventsOf(sent), receiver.interval)
  {
    ghost var es, was := EventsOf(sent), receiver.Model();
    var p := 0;
    while p < |sent|
      invariant 0 <= p <= |sent| && receiver.ring.Valid()
      invariant receiver.Model() == Run(was, es[..p], receiver.interval)
    {
      assert Fits(es[p].message, |was.ring.slots|, |was.ring.aggregate|);
      Deliver(receiver, sent[p]);
      RunOneMore(was, es, p, receiver.interval);
      p := p + 1;
    }
    assert es[..p] == es;
  }

  lemma EventsReceived(sender: seq<Filter>)
    requires AllWhole(sender) && Countable(sender)
    ensures forall p :: 0 <= p < |RingChunks(sender, |sender|)| ==> RingChunks(sender, |sender|)[p].Valid()
    ensures Received(EventsOf(RingChunks(sender, |sender|)), sender)
  {
    var sent := RingChunks(sender, |sender|);
    forall p | 0 <= p < |sent|
      ensures sent[p].Valid()
    {
      ChunkIsValid(sender, sent[p]);
    }
  }

  /** Both rings' slots are in the ring now, and its aggregate is the OR of them all. */
  ghost predicate Joined(now: Ring, was: Ring, sent: seq<Filter>)
    requires was.Valid() && SameShape(sent, was)
  {
    && now.slots == MergedSlots(was.slots, sent)
    && now.aggregate == OrAll(now.slots, |was.aggregate|)
  }

  /** The receiving side: every chunk, then the closing request. */
  method ReceiveAll(receiver: Manager, sent: seq<StartupSync>, ghost slots: seq<Filter>)
    requires receiver.ring.Valid() && SameShape(slots, receiver.Model().ring) && Countable(slots)
    requires sent == RingChunks(slots, |slots|)
    modifies receiver`lastRotate, receiver.ring`currentIndex, receiver.ring.arrays, receiver.ring.aggregate.filter
    ensures receiver.ring.Valid() && Joined(receiver.Model().ring, old(receiver.Model().ring), slots)
  {
    EventsReceived(slots);
    Synchronised(receiver.Model(), EventsOf(sent), receiver.interval, slots, NO_CLOCK);
    DeliverAll(receiver, sent);
    receiver.Dispatch(Event(SyncAggregate, NO_CLOCK));
  }

  /** Sender and receiver together: send_filters on one side, the manager on the other. */
  method Synchronise(sender: BloomRing, receiver: Manager)
    requires sender.Valid() && receiver.ring.Valid() && Countable(sender.Slots())
    requires SameShape(sender.Slots(), receiver.Model().ring)
    modifies receiver`lastRotate, receiver.ring`currentIndex, receiver.ring.arrays, receiver.ring.aggregate.filter
    ensures receiver.ring.Valid() && Joined(receiver.Model().ring, old(receiver.Model().ring), old(sender.Slots()))
  {
    ghost var slots := sender.Slots();
    assert |slots[0]| == sender.aggregate.size == receiver.ring.aggregate.size;
    var sent := SendFilters(sender);
    ReceiveAll(receiver, sent, slots);
  }
}
