/**
 The filters and the ring in memory: fixed word arrays changed in place, each method proved to
 compute the corresponding function on ring values. src/bloom.c.
 */
module BloomRings {
  import opened Bloom
  import opened Powers
  import Words

  /** int_to_index masks a hash with 2^numBits - 1, which is its remainder. */
  lemma MaskIsIndex(h: nat, numBits: nat)
    requires numBits >= 5
    ensures Words.AndBits(h, Pow2(numBits) - 1) == Index(h, Pow2(numBits - 5))
  {
    Words.AndLowMask(h, numBits);
    assert Pow2(numBits) == 4 * Pow2(numBits - 2);
    assert Pow2(numBits - 2) == 4 * Pow2(numBits - 4);
  }

  lemma WordCount(numBits: nat)
    requires 4 <= numBits
    ensures 5 <= numBits ==> Pow2(numBits) / 32 == Pow2(numBits - 5)
    ensures numBits == 4 ==> Pow2(numBits) / 32 == 0
  {
    if numBits == 4 {
      assert Pow2(2) == 4;
    } else {
      var words := Pow2(numBits - 5);
      assert Pow2(numBits - 3) == 4 * words;
      assert Pow2(numBits - 1) == 4 * Pow2(numBits - 3);
      assert Pow2(numBits) == 32 * words;
    }
  }

  /** A bloom_filter_t. */
  class BloomFilter {
    const filter: array<wordbits>
    const size: nat

    ghost predicate Valid() {
      size > 0 && filter.Length == size
    }

    /** create_bloom_filter. A filter of 2^4 bits, which the code's assertion admits, has no word. */
    constructor (numBits: nat)
      requires 4 <= numBits
      ensures fresh(filter) && filter.Length == size && size == Pow2(numBits) / 32
      ensures Valid() <==> 5 <= numBits
      ensures filter[..] == Zeros(size)
    {
      var n := Pow2(numBits) / 32;
      WordCount(numBits);
      filter := new wordbits[n](_ => {});
      size := n;
    }

    /** copy_bloom_filter(filter, TRUE): the same shape, all words zero. */
    constructor EmptyCopy(other: BloomFilter)
      requires other.Valid()
      ensures Valid() && fresh(filter) && size == other.size
      ensures filter[..] == Zeros(size)
    {
      filter := new wordbits[other.size](_ => {});
      size := other.size;
    }

    predicate GetBit(b: nat)
      requires Valid() && b < 32 * size
      reads filter
    {
      b % 32 in filter[b / 32]
    }

    method InsertBit(b: nat)
      requires Valid() && b < 32 * size
      modifies filter
      ensures filter[..] == WithBit(old(filter[..]), b)
    {
      filter[b / 32] := filter[b / 32] + {b % 32};
    }

    method InsertDigest(d: Digest)
      requires Valid()
      modifies filter
      ensures filter[..] == WithDigest(old(filter[..]), d)
    {
      var hs := d.Words();
      var i := 0;
      while i < |hs|
        invariant 0 <= i <= |hs|
        invariant WithHashes(filter[..], hs[i..]) == WithDigest(old(filter[..]), d)
      {
        assert hs[i..][0] == hs[i] && hs[i..][1..] == hs[i + 1..];
        InsertBit(Index(hs[i], size));
        i := i + 1;
      }
    }

    /** is_in_array. */
    predicate IsInArray(d: Digest)
      requires Valid()
      reads filter
      ensures IsInArray(d) <==> Bloom.IsIn(filter[..], d)
    {
      && GetBit(Index(d.h0, size)) && GetBit(Index(d.h1, size))
      && GetBit(Index(d.h2, size)) && GetBit(Index(d.h3, size))
      && GetBit(Index(d.h4, size)) && GetBit(Index(d.h5, size))
      && GetBit(Index(d.h6, size)) && GetBit(Index(d.h7, size))
    }

    /** zero_bloom_filter. */
    method Zero()
      requires Valid()
      modifies filter
      ensures filter[..] == Zeros(size)
    {
      var i := 0;
      while i < size
        invariant 0 <= i <= size
        invariant forall j :: 0 <= j < i ==> filter[j] == {}
      {
        filter[i] := {};
        i := i + 1;
      }
    }

    /** add_filter. */
    method Add(other: BloomFilter)
      requires Valid() && other.Valid() && size == other.size && filter != other.filter
      modifies filter
      ensures filter[..] == Or(old(filter[..]), other.filter[..])
    {
      var i := 0;
      while i < size
        invariant 0 <= i <= size
        invariant forall j :: 0 <= j < i ==> filter[j] == old(filter[j]) + other.filter[j]
        invariant forall j :: i <= j < size ==> filter[j] == old(filter[j])
      {
        filter[i] := filter[i] + other.filter[i];
        i := i + 1;
      }
    }

    /** The final memcpy of rotate_bloom_ring_queue. */
    method CopyFrom(other: BloomFilter)
      requires Valid() && other.Valid() && size == other.size && filter != other.filter
      modifies filter
      ensures filter[..] == other.filter[..]
    {
      var i := 0;
      while i < size
        invariant 0 <= i <= size
        invariant forall j :: 0 <= j < i ==> filter[j] == other.filter[j]
      {
        filter[i] := other.filter[i];
        i := i + 1;
      }
    }
  }

  /** A bloom_ring_queue_t. */
  class BloomRing {
    const group: seq<BloomFilter>
    const aggregate: BloomFilter
    var currentIndex: nat

    ghost const arrays: set<array<wordbits>> := set i | 0 <= i < |group| :: group[i].filter

    ghost predicate Valid()
      reads this
    {
      && |group| > 0
      && currentIndex < |group|
      && aggregate.Valid()
      && (forall i :: 0 <= i < |group| ==>
           group[i].Valid() && group[i].size == aggregate.size && group[i].filter != aggregate.filter)
      && (forall i, j :: 0 <= i < j < |group| ==> group[i].filter != group[j].filter)
    }

    /** create_bloom_ring_queue. */
    constructor (num: nat, numBits: nat)
      requires num > 0 && 4 <= numBits
      ensures |group| == num && aggregate.size == Pow2(numBits) / 32
      ensures fresh(arrays) && fresh(aggregate.filter)
      ensures Valid() <==> 5 <= numBits
      ensures Valid() ==> Model() == Empty(num, Pow2(numBits - 5))
    {
      var filters: seq<BloomFilter> := [];
      var all := new BloomFilter(numBits);
      while |filters| < num
        invariant |filters| <= num
        invariant fresh(all.filter) && all.filter.Length == all.size == Pow2(numBits) / 32
        invariant all.filter[..] == Zeros(all.size)
        invariant forall i :: 0 <= i < |filters| ==>
                     && filters[i].filter.Length == filters[i].size == all.size
                     && fresh(filters[i].filter) && filters[i].filter != all.filter
                     && filters[i].filter[..] == Zeros(all.size)
        invariant forall i, j :: 0 <= i < j < |filters| ==> filters[i].filter != filters[j].filter
      {
        var f := new BloomFilter(numBits);
        filters := filters + [f];
      }
      group := filters;
      aggregate := all;
      currentIndex := 0;
      new;
      WordCount(numBits);
      assert Valid() ==> Slots() == seq(num, _ => Zeros(all.size));
    }

    ghost function Slots(): (s: seq<Filter>)
      requires Valid()
      reads this, arrays
      ensures |s| == |group|
      ensures forall i :: 0 <= i < |group| ==> s[i] == group[i].filter[..]
    {
      seq(|group|, i requires 0 <= i < |group| reads this, arrays => group[i].filter[..])
    }

    /** The ring value these objects represent. */
    ghost function Model(): (r: Ring)
      requires Valid()
      reads this, arrays, aggregate.filter
      ensures r.Valid()
    {
      Ring(Slots(), aggregate.filter[..], currentIndex)
    }

    predicate IsIn(d: Digest)
      requires Valid()
      reads this, arrays, aggregate.filter
      ensures IsIn(d) <==> Bloom.IsIn(Model().aggregate, d)
    {
      aggregate.IsInArray(d)
    }

    method Insert(d: Digest)
      requires Valid()
      modifies arrays, aggregate.filter
      ensures Valid() && Model() == old(Model()).Insert(d)
    {
      aggregate.InsertDigest(d);
      group[currentIndex].InsertDigest(d);
      assert Slots() == old(Slots())[currentIndex := WithDigest(old(Slots())[currentIndex], d)];
    }

    function NextIndex(): (i: nat)
      requires Valid()
      reads this
      ensures i < |group|
    {
      if currentIndex + 1 >= |group| then 0 else currentIndex + 1
    }

    /** The first step of a rotation: one slot is zeroed. */
    method ZeroSlot(k: nat)
      requires Valid() && k < |group|
      modifies group[k].filter
      ensures Valid() && Slots() == old(Slots())[k := Zeros(aggregate.size)]
      ensures aggregate.filter[..] == old(aggregate.filter[..])
    {
      group[k].Zero();
      OtherSlotsKept(k);
    }

    /** The middle of a rotation: the union of the slots is built aside. */
    method UnionAside() returns (tmp: BloomFilter)
      requires Valid()
      ensures tmp.Valid() && tmp.size == aggregate.size && fresh(tmp.filter)
      ensures tmp.filter[..] == OrAll(Slots(), aggregate.size)
    {
      tmp := new BloomFilter.EmptyCopy(aggregate);
      ghost var slots := Slots();
      var i := 0;
      while i < |group|
        invariant 0 <= i <= |group|
        invariant fresh(tmp.filter) && tmp.Valid() && tmp.size == aggregate.size
        invariant tmp.filter[..] == OrAll(slots[..i], aggregate.size)
        modifies tmp.filter
      {
        assert slots[..i + 1][..i] == slots[..i];
        assert slots[i] == group[i].filter[..];
        tmp.Add(group[i]);
        i := i + 1;
      }
      assert slots[..i] == slots;
    }

    /** rotate_bloom_ring_queue: the union is built aside and copied over the aggregate at the end. */
    method Rotate()
      requires Valid()
      modifies this`currentIndex, arrays, aggregate.filter
      ensures Valid() && Model() == old(Model()).Rotate()
    {
      ZeroSlot(NextIndex());
      ghost var cleared := Slots();
      var tmp := UnionAside();
      currentIndex := NextIndex();
      aggregate.CopyFrom(tmp);
      assert Slots() == cleared;
    }

    twostate lemma OtherSlotsKept(k: nat)
      requires old(Valid()) && Valid() && k < |group|
      requires forall i :: 0 <= i < |group| && i != k ==> group[i].filter[..] == old(group[i].filter[..])
      ensures Slots() == old(Slots())[k := group[k].filter[..]]
    {
    }

    /** zero_bloom_ring_queue. */
    method Clear()
      requires Valid()
      modifies this`currentIndex, arrays, aggregate.filter
      ensures Valid() && Model() == old(Model()).Clear()
    {
      aggregate.Zero();
      var i := 0;
      while i < |group|
        invariant 0 <= i <= |group|
        invariant aggregate.filter[..] == Zeros(aggregate.size)
        invariant forall j :: 0 <= j < i ==> group[j].filter[..] == Zeros(aggregate.size)
        modifies arrays
      {
        group[i].Zero();
        i := i + 1;
      }
      currentIndex := 0;
      assert Slots() == seq(|group|, _ => Zeros(aggregate.size));
    }

    /**
     insert_absolute_bloom_ring_queue: the chunk is clipped to the filter and or-ed in at
     index * size. The caller must send an index whose chunk lies inside the filter.
     */
    method InsertAbsolute(buffer: Filter, size: nat, index: nat, bufIndex: nat)
      requires Valid() && size <= |buffer|
      requires bufIndex < |group|
      requires index * Clip(size) + Clip(size) <= aggregate.size
      modifies arrays
      ensures Valid()
      ensures Model() == old(Model()).Merge(bufIndex, index * Clip(size), buffer[..Clip(size)])
    {
      var n := Clip(size);
      MergeWords(group[bufIndex], buffer, n, index);
      OtherSlotsKept(bufIndex);
    }

    function Clip(size: nat): nat
    {
      if size > aggregate.size then aggregate.size else size
    }

    /** sync_aggregate: the slots are added starting at the current one and wrapping round. */
    method SyncAggregate()
      requires Valid()
      modifies aggregate.filter
      ensures Valid() && Model() == old(Model()).Sync()
    {
      var index := currentIndex;
      ghost var slots := Slots();
      aggregate.Zero();
      var i := 0;
      NothingVisited(slots, currentIndex, aggregate.size);
      while i < |group|
        invariant 0 <= i <= |group|
        invariant index == (if currentIndex + i < |group| then currentIndex + i else currentIndex + i - |group|)
        invariant Slots() == slots
        invariant VisitedUnion(aggregate.filter[..], slots, currentIndex, i)
        modifies aggregate.filter
      {
        VisitOne(aggregate.filter[..], slots, currentIndex, i, index);
        aggregate.Add(group[index]);
        index := index + 1;
        if index >= |group| {
          index := 0;
        }
        i := i + 1;
      }
      AllVisited(aggregate.filter[..], slots, currentIndex);
    }
  }

  /** The loop of insert_absolute_bloom_ring_queue. */
  method MergeWords(filter: BloomFilter, buffer: Filter, n: nat, index: nat)
    requires filter.Valid() && n <= |buffer| && index * n + n <= filter.size
    modifies filter.filter
    ensures filter.filter[..] == OrAt(old(filter.filter[..]), index * n, buffer[..n])
  {
    var f, at := filter.filter, index * n;
    var i := 0;
    while i < n
      invariant 0 <= i <= n
      invariant forall j :: 0 <= j < i ==> f[at + j] == old(f[at + j]) + buffer[j]
      invariant forall j :: 0 <= j < at || at + i <= j < f.Length ==> f[j] == old(f[j])
    {
      ChunkStart(index, n);
      assert index + i < filter.size;    // the code's own assertion
      f[at + i] := f[at + i] + buffer[i];
      i := i + 1;
    }
  }

  lemma ChunkStart(index: nat, n: nat)
    requires n > 0
    ensures index <= index * n
  {
    assert index * n == index + index * (n - 1);
  }

  /** Slot i is among the n slots from start on, wrapping round. */
  ghost predicate InWindow(i: int, start: nat, n: nat, total: nat) {
    start <= i < start + n || i + total < start + n
  }

  /** f is the union of the n slots from start on. */
  ghost predicate VisitedUnion(f: Filter, slots: seq<Filter>, start: nat, n: nat)
    requires Uniform(slots, |f|)
  {
    forall b :: 0 <= b < 32 * |f| ==>
      (Has(f, b) <==> exists i :: 0 <= i < |slots| && InWindow(i, start, n, |slots|) && Has(slots[i], b))
  }

  lemma NothingVisited(slots: seq<Filter>, start: nat, size: nat)
    requires Uniform(slots, size) && start < |slots|
    ensures VisitedUnion(Zeros(size), slots, start, 0)
  {
  }

  lemma VisitOne(f: Filter, slots: seq<Filter>, start: nat, n: nat, index: nat)
    requires Uniform(slots, |f|) && start < |slots| && n < |slots|
    requires index == (if start + n < |slots| then start + n else start + n - |slots|)
    requires VisitedUnion(f, slots, start, n)
    ensures VisitedUnion(Or(f, slots[index]), slots, start, n + 1)
  {
    var g := Or(f, slots[index]);
    forall b | 0 <= b < 32 * |f|
      ensures Has(g, b) <==> exists i :: 0 <= i < |slots| && InWindow(i, start, n + 1, |slots|) && Has(slots[i], b)
    {
      assert Has(g, b) <==> Has(f, b) || Has(slots[index], b);
      forall i | 0 <= i < |slots|
        ensures InWindow(i, start, n + 1, |slots|) <==> InWindow(i, start, n, |slots|) || i == index
      {
        WindowGrows(i, start, n, |slots|, index);
      }
    }
  }

  lemma WindowGrows(i: nat, start: nat, n: nat, total: nat, index: nat)
    requires i < total && start < total && n < total
    requires index == (if start + n < total then start + n else start + n - total)
    ensures InWindow(i, start, n + 1, total) <==> InWindow(i, start, n, total) || i == index
  {
  }

  lemma AllVisited(f: Filter, slots: seq<Filter>, start: nat)
    requires Uniform(slots, |f|) && start < |slots|
    requires VisitedUnion(f, slots, start, |slots|)
    ensures f == OrAll(slots, |f|)
  {
    forall b | 0 <= b < 32 * |f|
      ensures Has(f, b) <==> Has(OrAll(slots, |f|), b)
    {
      OrAllBits(slots, |f|, b);
      assert forall i :: 0 <= i < |slots| ==> InWindow(i, start, |slots|, |slots|);
    }
    BitsDetermine(f, OrAll(slots, |f|));
  }
}
