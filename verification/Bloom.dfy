/**
 The Bloom filter values: words as sets of bits, filters as sequences of words, and the ring of
 filters with its cached union, the aggregate. src/bloom.c.
 */
module Bloom {
  const WORD_BITS: nat := 32

  /** A bitarray_base_t as the set of its one bits: `|` is union, `1 << i` is {i}. */
  type wordbits = w: set<nat> | forall i :: i in w ==> i < 32

  type Filter = seq<wordbits>

  /** A sha_256_t: eight unsigned 32-bit numbers. */
  datatype Digest = Digest(h0: nat, h1: nat, h2: nat, h3: nat, h4: nat, h5: nat, h6: nat, h7: nat) {
    function Words(): seq<nat> {
      [h0, h1, h2, h3, h4, h5, h6, h7]
    }
  }

  /** int_to_index: masking with 2^b - 1 keeps the remainder modulo the number of bits. */
  function Index(h: nat, size: nat): (b: nat)
    requires size > 0
    ensures b < 32 * size
  {
    h % (32 * size)
  }

  /** The bit positions of some hash words in a filter of the given number of words. */
  function Indices(hs: seq<nat>, size: nat): set<nat>
    requires size > 0
  {
    set i | 0 <= i < |hs| :: Index(hs[i], size)
  }

  /** get_bit. */
  predicate Has(f: Filter, b: nat)
    requires b < 32 * |f|
  {
    b % 32 in f[b / 32]
  }

  function Bits(f: Filter): set<nat> {
    set b | 0 <= b < 32 * |f| && Has(f, b)
  }

  function WithBit(f: Filter, b: nat): Filter
    requires b < 32 * |f|
  {
    f[b / 32 := f[b / 32] + {b % 32}]
  }

  function WithHashes(f: Filter, hs: seq<nat>): (g: Filter)
    requires |f| > 0
    ensures |g| == |f|
    decreases |hs|
  {
    if hs == [] then f else WithHashes(WithBit(f, Index(hs[0], |f|)), hs[1..])
  }

  /** insert_digest: one bit for each of the eight words. */
  function WithDigest(f: Filter, d: Digest): (g: Filter)
    requires |f| > 0
    ensures |g| == |f|
  {
    WithHashes(f, d.Words())
  }

  /** is_in_array: eight bit tests. */
  predicate IsIn(f: Filter, d: Digest)
    requires |f| > 0
  {
    && Has(f, Index(d.h0, |f|)) && Has(f, Index(d.h1, |f|))
    && Has(f, Index(d.h2, |f|)) && Has(f, Index(d.h3, |f|))
    && Has(f, Index(d.h4, |f|)) && Has(f, Index(d.h5, |f|))
    && Has(f, Index(d.h6, |f|)) && Has(f, Index(d.h7, |f|))
  }

  /** The bits a digest occupies. */
  function DigestBits(d: Digest, size: nat): set<nat>
    requires size > 0
  {
    Indices(d.Words(), size)
  }

  function Zeros(n: nat): (f: Filter)
    ensures |f| == n
  {
    seq(n, _ => {})
  }

  function Or(f: Filter, g: Filter): (r: Filter)
    requires |f| == |g|
    ensures |r| == |f|
  {
    seq(|f|, i requires 0 <= i < |f| => f[i] + g[i])
  }

  ghost predicate Uniform(slots: seq<Filter>, n: nat) {
    forall i :: 0 <= i < |slots| ==> |slots[i]| == n
  }

  function OrAll(slots: seq<Filter>, n: nat): (r: Filter)
    requires Uniform(slots, n)
    ensures |r| == n
  {
    if slots == [] then Zeros(n) else Or(OrAll(slots[..|slots| - 1], n), slots[|slots| - 1])
  }

  // What the word operations mean for bits.

  lemma {:induction false} WithBitBits(f: Filter, b: nat)
    requires b < 32 * |f|
    ensures |WithBit(f, b)| == |f|
    ensures Bits(WithBit(f, b)) == Bits(f) + {b}
  {
    var g := WithBit(f, b);
    forall c | 0 <= c < 32 * |f|
      ensures Has(g, c) <==> Has(f, c) || c == b
    {
      if c / 32 == b / 32 && c % 32 == b % 32 {
        assert c == b;
      }
    }
  }

  lemma {:induction false} WithHashesBits(f: Filter, hs: seq<nat>)
    requires |f| > 0
    ensures Bits(WithHashes(f, hs)) == Bits(f) + Indices(hs, |f|)
    decreases |hs|
  {
    if hs != [] {
      WithBitBits(f, Index(hs[0], |f|));
      WithHashesBits(WithBit(f, Index(hs[0], |f|)), hs[1..]);
      assert Indices(hs, |f|) == {Index(hs[0], |f|)} + Indices(hs[1..], |f|) by {
        forall i | 0 < i < |hs|
          ensures Index(hs[i], |f|) in Indices(hs[1..], |f|)
        {
          assert hs[1..][i - 1] == hs[i];
        }
      }
    }
  }

  /** Inserting a digest adds exactly its eight bits. */
  lemma WithDigestBits(f: Filter, d: Digest)
    requires |f| > 0
    ensures Bits(WithDigest(f, d)) == Bits(f) + DigestBits(d, |f|)
  {
    WithHashesBits(f, d.Words());
  }

  /** The eight bits: the remainder of each hash word modulo the number of bits in the filter. */
  lemma DigestBitsAre(d: Digest, size: nat)
    requires size > 0
    ensures
      var n := 32 * size;
      DigestBits(d, size) == {d.h0 % n, d.h1 % n, d.h2 % n, d.h3 % n, d.h4 % n, d.h5 % n, d.h6 % n, d.h7 % n}
  {
    var hs := d.Words();
    assert hs[0] == d.h0 && hs[1] == d.h1 && hs[2] == d.h2 && hs[3] == d.h3;
    assert hs[4] == d.h4 && hs[5] == d.h5 && hs[6] == d.h6 && hs[7] == d.h7;
  }

  /** The membership test is containment of the digest's bits. */
  lemma {:induction false} IsInBits(f: Filter, d: Digest)
    requires |f| > 0
    ensures IsIn(f, d) <==> DigestBits(d, |f|) <= Bits(f)
  {
    var hs := d.Words();
    if IsIn(f, d) {
      forall i | 0 <= i < |hs|
        ensures Index(hs[i], |f|) in Bits(f)
      {
      }
    } else {
      assert exists i :: 0 <= i < |hs| && Index(hs[i], |f|) !in Bits(f) by {
        assert hs[0] == d.h0 && hs[1] == d.h1 && hs[2] == d.h2 && hs[3] == d.h3;
        assert hs[4] == d.h4 && hs[5] == d.h5 && hs[6] == d.h6 && hs[7] == d.h7;
      }
    }
  }

  lemma ZerosBits(n: nat)
    ensures Bits(Zeros(n)) == {}
  {
  }

  ghost predicate SomeHas(slots: seq<Filter>, n: nat, b: nat)
    requires Uniform(slots, n) && b < 32 * n
  {
    exists i :: 0 <= i < |slots| && Has(slots[i], b)
  }

  /** The union of the slots has a bit exactly when some slot has it. */
  lemma {:induction false} OrAllBits(slots: seq<Filter>, n: nat, b: nat)
    requires Uniform(slots, n) && b < 32 * n
    ensures Has(OrAll(slots, n), b) <==> SomeHas(slots, n, b)
  {
    if slots != [] {
      var init, last := slots[..|slots| - 1], slots[|slots| - 1];
      OrAllBits(init, n, b);
      if i :| 0 <= i < |init| && Has(init[i], b) {
        assert Has(slots[i], b);
      } else if i :| 0 <= i < |slots| && Has(slots[i], b) {
        if i < |init| {
          assert false;
        }
      }
    }
  }

  lemma SlotBitsInUnion(slots: seq<Filter>, n: nat, i: nat)
    requires Uniform(slots, n) && i < |slots|
    ensures Bits(slots[i]) <= Bits(OrAll(slots, n))
  {
    forall b | b in Bits(slots[i])
      ensures b in Bits(OrAll(slots, n))
    {
      OrAllBits(slots, n, b);
    }
  }

  /** Filters with the same bits are the same words. */
  lemma BitsDetermine(f: Filter, g: Filter)
    requires |f| == |g|
    requires Bits(f) == Bits(g)
    ensures f == g
  {
    forall i | 0 <= i < |f|
      ensures f[i] == g[i]
    {
      forall j: nat | j < 32
        ensures j in f[i] <==> j in g[i]
      {
        var b := 32 * i + j;
        assert b / 32 == i && b % 32 == j;
        assert b in Bits(f) <==> b in Bits(g);
      }
    }
  }

  // The ring as a value.

  /** A bloom_ring_queue_t: the slots, the aggregate, and the slot that takes inserts. */
  datatype Ring = Ring(slots: seq<Filter>, aggregate: Filter, current: nat) {
    ghost predicate Valid() {
      && |slots| > 0
      && |aggregate| > 0
      && Uniform(slots, |aggregate|)
      && current < |slots|
    }

    /** bloom_ring_queue_next_index. */
    function Next(): (i: nat)
      requires |slots| > 0
      ensures i < |slots|
    {
      if current + 1 >= |slots| then 0 else current + 1
    }

    /** The slot that was current j rotations ago. */
    function Back(j: nat): (i: nat)
      requires current < |slots| && j < |slots|
      ensures i < |slots|
    {
      if j <= current then current - j else current + |slots| - j
    }

    function Union(): Filter
      requires Valid()
    {
      OrAll(slots, |aggregate|)
    }

    function Insert(d: Digest): (r: Ring)
      requires Valid()
    {
      Ring(slots[current := WithDigest(slots[current], d)], WithDigest(aggregate, d), current)
    }

    function Rotate(): (r: Ring)
      requires Valid()
    {
      var cleared := slots[Next() := Zeros(|aggregate|)];
      Ring(cleared, OrAll(cleared, |aggregate|), Next())
    }

    function Clear(): (r: Ring)
      requires Valid()
    {
      Ring(seq(|slots|, _ => Zeros(|aggregate|)), Zeros(|aggregate|), 0)
    }

    function Sync(): (r: Ring)
      requires Valid()
    {
      this.(aggregate := Union())
    }

    /** Words at..at+|words| of slot k are or-ed with the given words; nothing else changes. */
    function Merge(k: nat, at: nat, words: Filter): (r: Ring)
      requires Valid() && k < |slots| && at + |words| <= |aggregate|
    {
      this.(slots := slots[k := OrAt(slots[k], at, words)])
    }
  }

  /** Rotation goes up through the slots and round. */
  lemma RingOrder(r: Ring, j: nat)
    requires r.Valid() && j < |r.slots|
    ensures r.Next() == (r.current + 1) % |r.slots|
    ensures (r.Back(j) + j) % |r.slots| == r.current
  {
    Around(r.current + 1, |r.slots|);
    Around(r.Back(j) + j, |r.slots|);
  }

  lemma Around(x: nat, n: nat)
    requires x < 2 * n
    ensures x % n == if x < n then x else x - n
  {
    if x >= n {
      assert x == n + (x - n);
    }
  }

  /** A new ring: every word zero. */
  function Empty(num: nat, size: nat): (r: Ring)
    requires num > 0 && size > 0
    ensures r.Valid()
  {
    Ring(seq(num, _ => Zeros(size)), Zeros(size), 0)
  }

  function OrAt(f: Filter, at: nat, words: Filter): (r: Filter)
    requires at + |words| <= |f|
    ensures |r| == |f|
  {
    seq(|f|, i requires 0 <= i < |f| => if at <= i < at + |words| then f[i] + words[i - at] else f[i])
  }

  /** Merging adds exactly the bits of the given words, moved to their place. */
  lemma {:induction false} OrAtBits(f: Filter, at: nat, words: Filter)
    requires at + |words| <= |f|
    ensures Bits(OrAt(f, at, words)) == Bits(f) + set b | b in Bits(words) :: 32 * at + b
  {
    var added := set b | b in Bits(words) :: 32 * at + b;
    forall b | 0 <= b < 32 * |f|
      ensures Has(OrAt(f, at, words), b) <==> b in Bits(f) || b in added
    {
      if 32 * at <= b < 32 * (at + |words|) {
        var c := b - 32 * at;
        assert c / 32 == b / 32 - at && c % 32 == b % 32;
        assert c in Bits(words) <==> b in added;
      }
    }
  }
}
