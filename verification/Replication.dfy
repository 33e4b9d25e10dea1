/**
 Start-up replication: a daemon sends its filters to a peer in chunks of at most 32 words and
 the peer ors every chunk into its own ring. src/syncmgr.c.
 */
module Replication {
  import opened Bloom
  import opened BloomRings
  import opened BloomManager
  import opened Powers

  /** A startup_sync_t. */
  datatype StartupSync = StartupSync(buffer: nat, index: nat, filter: Filter) {
    ghost predicate Valid() {
      buffer < 0x1_0000_0000 && index < 0x1_0000_0000 && |filter| == FILTER_SIZE
    }
  }

  // Byte order.

  /** htonl and ntohl on a little-endian host, for numbers. */
  function SwapNumber(x: nat): (r: nat)
    requires x < 0x1_0000_0000
    ensures r < 0x1_0000_0000
  {
    x % 0x100 * 0x100_0000 + x / 0x100 % 0x100 * 0x1_0000 + x / 0x1_0000 % 0x100 * 0x100 + x / 0x100_0000
  }

  function SwapPosition(i: nat): (j: nat)
    requires i < 32
    ensures j < 32
  {
    (3 - i / 8) * 8 + i % 8
  }

  /** htonl and ntohl on a little-endian host, for filter words. */
  function SwapWord(w: wordbits): wordbits {
    set i | i in w :: SwapPosition(i)
  }

  function SwapSync(ss: StartupSync): StartupSync
    requires ss.Valid()
  {
    StartupSync(SwapNumber(ss.buffer), SwapNumber(ss.index),
                seq(FILTER_SIZE, i requires 0 <= i < FILTER_SIZE => SwapWord(ss.filter[i])))
  }

  /** sston, and sstoh which has the same body. */
  method ConvertOrder(ss: StartupSync) returns (r: StartupSync)
    requires ss.Valid()
    ensures r == SwapSync(ss)
  {
    var words := new wordbits[FILTER_SIZE](_ => {});
    var i := 0;
    while i < FILTER_SIZE
      invariant 0 <= i <= FILTER_SIZE
      invariant forall j :: 0 <= j < i ==> words[j] == SwapWord(ss.filter[j])
    {
      words[i] := SwapWord(ss.filter[i]);
      i := i + 1;
    }
    r := StartupSync(SwapNumber(ss.buffer), SwapNumber(ss.index), words[..]);
  }

  lemma SwapWordTwice(w: wordbits)
    ensures SwapWord(SwapWord(w)) == w
  {
    assert forall i :: 0 <= i < 32 ==> SwapPosition(SwapPosition(i)) == i;
    forall i | i in w
      ensures i in SwapWord(SwapWord(w))
    {
      assert SwapPosition(i) in SwapWord(w);
    }
  }

  lemma SwapNumberTwice(x: nat)
    requires x < 0x1_0000_0000
    ensures SwapNumber(SwapNumber(x)) == x
  {
    var b0, b1, b2, b3 := x % 0x100, x / 0x100 % 0x100, x / 0x1_0000 % 0x100, x / 0x100_0000;
    Bytes(b3, b2, b1, b0);
    assert x == b0 + b1 * 0x100 + b2 * 0x1_0000 + b3 * 0x100_0000 by {
      assert x / 0x1_0000 == x / 0x100 / 0x100 && x / 0x100_0000 == x / 0x1_0000 / 0x100;
    }
  }

  lemma Bytes(b0: nat, b1: nat, b2: nat, b3: nat)
    requires b0 < 0x100 && b1 < 0x100 && b2 < 0x100 && b3 < 0x100
    ensures
      var y := b0 + b1 * 0x100 + b2 * 0x1_0000 + b3 * 0x100_0000;
      y % 0x100 == b0 && y / 0x100 % 0x100 == b1 && y / 0x1_0000 % 0x100 == b2 && y / 0x100_0000 == b3
  {
    var y := b0 + b1 * 0x100 + b2 * 0x1_0000 + b3 * 0x100_0000;
    assert y / 0x100 == b1 + b2 * 0x100 + b3 * 0x1_0000;
    assert y / 0x1_0000 == b2 + b3 * 0x100;
  }

  /** What the peer decodes is what was sent. */
  lemma {:induction false} OrderRoundTrip(ss: StartupSync)
    requires ss.Valid()
    ensures SwapSync(ss).Valid() && SwapSync(SwapSync(ss)) == ss
  {
    SwapNumberTwice(ss.buffer);
    SwapNumberTwice(ss.index);
    var r := SwapSync(SwapSync(ss));
    forall i | 0 <= i < FILTER_SIZE
      ensures r.filter[i] == ss.filter[i]
    {
      SwapWordTwice(ss.filter[i]);
    }
  }

  // Cutting into chunks.

  /** The filter is a whole number of chunks. */
  predicate Whole(size: nat) {
    size > 0 && (size < FILTER_SIZE || size % FILTER_SIZE == 0)
  }

  /** Every filter of 2^b bits is. */
  lemma {:induction false} PowersAreWhole(k: nat)
    ensures Whole(Pow2(k))
  {
    if k <= 5 {
      assert Pow2(0) == 1;
      assert Pow2(1) == 2;
      assert Pow2(2) == 4;
      assert Pow2(3) == 8;
      assert Pow2(4) == 16;
      assert Pow2(5) == 32;
    } else {
      PowersAreWhole(k - 1);
      LargePower(k - 1);
    }
  }

  lemma {:induction false} LargePower(k: nat)
    requires k >= 5
    ensures Pow2(k) >= FILTER_SIZE
  {
    if k == 5 {
      assert Pow2(1) == 2;
      assert Pow2(3) == 8;
    } else {
      LargePower(k - 1);
    }
  }

  function ChunkCount(size: nat): nat
    requires size > 0
  {
    size / ChunkSize(size)
  }

  /** Chunk m of a filter, padded with zero words to the fixed message length. */
  function ChunkWords(f: Filter, m: nat): (ws: Filter)
    requires |f| > 0 && m * ChunkSize(|f|) + ChunkSize(|f|) <= |f|
    ensures |ws| == FILTER_SIZE
  {
    var n := ChunkSize(|f|);
    f[m * n..m * n + n] + Zeros(FILTER_SIZE - n)
  }

  lemma ChunkInside(size: nat, m: nat)
    requires Whole(size) && m < ChunkCount(size)
    ensures m * ChunkSize(size) + ChunkSize(size) <= size
  {
  }

  /** The first m chunks of filter number i. */
  function FilterChunks(i: nat, f: Filter, m: nat): (ss: seq<StartupSync>)
    requires Whole(|f|) && m <= ChunkCount(|f|)
    ensures |ss| == m
  {
    if m == 0 then []
    else
      ChunkInside(|f|, m - 1);
      FilterChunks(i, f, m - 1) + [StartupSync(i, m - 1, ChunkWords(f, m - 1))]
  }

  /** The chunks of the first k filters. */
  function RingChunks(slots: seq<Filter>, k: nat): seq<StartupSync>
    requires k <= |slots| && forall i :: 0 <= i < |slots| ==> Whole(|slots[i]|)
  {
    if k == 0 then []
    else RingChunks(slots, k - 1) + FilterChunks(k - 1, slots[k - 1], ChunkCount(|slots[k - 1]|))
  }

  /** Word j is in chunk m, or all chunks are done. */
  ghost predicate InChunk(j: nat, m: nat, size: nat) {
    var n := ChunkSize(size);
    m * n <= j <= size && (j < size ==> j < m * n + n) && (j == size ==> j == m * n)
  }

  /** The message buffer when words from..to of the filter have been put into it. */
  function Filled(f: Filter, from: nat, to: nat): (ws: Filter)
    requires from <= to <= |f| && to - from <= FILTER_SIZE
    ensures |ws| == FILTER_SIZE
  {
    f[from..to] + Zeros(FILTER_SIZE - (to - from))
  }

  /** How the loop's index arithmetic, which mixes 32 and the chunk size, works out. */
  lemma {:induction false} Position(j: nat, m: nat, size: nat)
    requires Whole(size) && InChunk(j, m, size) && j < size
    ensures m * FILTER_SIZE == m * ChunkSize(size) && m < ChunkCount(size)
    ensures j % ChunkSize(size) == j - m * ChunkSize(size)
    ensures j % ChunkSize(size) == ChunkSize(size) - 1 ==> InChunk(j + 1, m + 1, size)
    ensures j % ChunkSize(size) != ChunkSize(size) - 1 ==> InChunk(j + 1, m, size)
  {
    if size < FILTER_SIZE {
      if m > 0 {
        Larger(m, size);
        assert false;
      }
      PositionInOnly(j, size);
    } else {
      PositionIn32(j, m, size);
    }
  }

  lemma PositionInOnly(j: nat, size: nat)
    requires j < size < FILTER_SIZE
    ensures 0 < ChunkCount(size) && j % size == j
    ensures j == size - 1 ==> InChunk(j + 1, 1, size)
    ensures j < size - 1 ==> InChunk(j + 1, 0, size)
  {
    assert size / size == 1;
  }

  /** All words done means all chunks sent. */
  lemma AllSent(m: nat, size: nat)
    requires Whole(size) && InChunk(size, m, size)
    ensures m == ChunkCount(size)
  {
    if size < FILTER_SIZE {
      if m > 1 {
        Larger(m - 1, size);
        assert false;
      }
      assert size / size == 1;
    }
  }

  lemma Larger(m: nat, n: nat)
    requires m > 0
    ensures m * n >= n
  {
    assert m * n == n + (m - 1) * n;
  }

  lemma PositionIn32(j: nat, m: nat, size: nat)
    requires size % 32 == 0 && 32 * m <= j < 32 * m + 32 && j < size
    ensures m < size / 32 && j % 32 == j - 32 * m && (j % 32 == 31 ==> j + 1 == 32 * (m + 1))
    ensures j % 32 != 31 ==> j + 1 < 32 * m + 32
    ensures j + 1 == size ==> j % 32 == 31
  {
  }

  // The receiver's own check.

  /** What insert_absolute_bloom_ring_queue asserts before it writes word i. */
  predicate Asserted(index: nat, i: int, size: nat) {
    index + i < size
  }

  ghost predicate AssertionHolds(index: nat, n: nat, size: nat) {
    forall i :: 0 <= i < n ==> Asserted(index, i, size)
  }

  /** And this is where it writes. */
  predicate WritesInside(index: nat, n: nat, size: nat) {
    index * n + n <= size
  }

  /** The assertion keeps every write inside the filter exactly when the filter is one chunk. */
  lemma AssertionProtectsExactly(size: nat)
    requires Whole(size)
    ensures (forall index: nat :: AssertionHolds(index, ChunkSize(size), size) ==>
              WritesInside(index, ChunkSize(size), size))
        <==> size <= FILTER_SIZE
  {
    var n := ChunkSize(size);
    if size <= FILTER_SIZE {
      forall index: nat | AssertionHolds(index, n, size)
        ensures WritesInside(index, n, size)
      {
        assert Asserted(index, n - 1, size);
        assert index == 0;
      }
    } else {
      assert AssertionHolds(size - n, n, size) && !WritesInside(size - n, n, size);
    }
  }

  /**
   The inner loop of send_filters: a 32-word buffer is filled word by word and sent whenever a
   chunk is complete.
   */
  method SendFilter(i: nat, filter: BloomFilter) returns (sent: seq<StartupSync>)
    requires filter.Valid() && Whole(filter.size)
    ensures sent == FilterChunks(i, filter.filter[..], ChunkCount(filter.size))
  {
    ghost var f := filter.filter[..];
    var size := if FILTER_SIZE < filter.size then FILTER_SIZE else filter.size;
    var msg: Filter := Zeros(FILTER_SIZE);
    var index := 0;
    sent := [];
    var j := 0;
    while j < filter.size
      invariant 0 <= j <= filter.size
      invariant InChunk(j, index, |f|) && index <= ChunkCount(|f|)
      invariant sent == FilterChunks(i, f, index)
      invariant msg == Filled(f, index * size, j)
    {
      Position(j, index, |f|);
      msg := msg[j - index * FILTER_SIZE := filter.filter[j]];
      assert msg == Filled(f, index * size, j + 1);
      if j % size == size - 1 {
        sent := sent + [StartupSync(i, index, msg)];
        index := index + 1;
        msg := Zeros(FILTER_SIZE);
      }
      j := j + 1;
    }
    AllSent(index, |f|);
  }

  /** send_filters, up to the closing aggregate request. */
  method SendFilters(ring: BloomRing) returns (sent: seq<StartupSync>)
    requires ring.Valid() && Whole(ring.aggregate.size)
    ensures sent == RingChunks(ring.Slots(), |ring.group|)
  {
    sent := [];
    var i := 0;
    while i < |ring.group|
      invariant 0 <= i <= |ring.group|
      invariant sent == RingChunks(ring.Slots(), i)
    {
      var chunks := SendFilter(i, ring.group[i]);
      sent := sent + chunks;
      i := i + 1;
    }
  }
}

/** What the conversion between host and network order does, byte by byte. */
module ByteOrder {
  import opened Bloom
  import opened Replication
  import opened Words

  /** A number written in four bytes is the number those bytes write in the other order. */
  lemma NumberReversed(b0: byte, b1: byte, b2: byte, b3: byte)
    ensures
      var x := Value([b3, b2, b1, b0]);
      x < 0x1_0000_0000 && SwapNumber(x) == Value([b0, b1, b2, b3])
  {
    ValueOfFour(b0, b1, b2, b3);
    ValueOfFour(b3, b2, b1, b0);
    Bytes(b0, b1, b2, b3);
  }

  /** In a filter word byte k trades places with byte 3 - k, and the bits inside a byte keep theirs. */
  lemma WordReversed(w: wordbits, k: nat, i: nat)
    requires k < 4 && i < 8
    ensures 8 * k + i in SwapWord(w) <==> 8 * (3 - k) + i in w
  {
    PositionReversed(k, i);
    PositionReversed(3 - k, i);
    SwapPicks(w, 8 * k + i);
  }

  lemma PositionReversed(k: nat, i: nat)
    requires k < 4 && i < 8
    ensures SwapPosition(8 * k + i) == 8 * (3 - k) + i
  {
  }

  lemma SwapPicks(w: wordbits, to: nat)
    requires to < 32
    ensures to in SwapWord(w) <==> SwapPosition(to) in w
  {
    assert forall j :: 0 <= j < 32 ==> SwapPosition(SwapPosition(j)) == j;
    if SwapPosition(to) in w {
      assert SwapPosition(SwapPosition(to)) in SwapWord(w);
    }
  }
}
