/**
 The single block of memory that holds the whole ring, and the repair of its stored pointers
 when the state file is mapped at another address. Sizes are those of the LP64 model: eight-byte
 pointers. src/srvutils.c.
 */
module Layout {
  import opened Powers
  import opened Words

  const RING: int := 24      // sizeof(bloom_ring_queue_t)
  const GROUP: int := 16     // sizeof(bloom_filter_group_t)
  const LINK: int := 8       // sizeof(void *)
  const FILTER: int := 24    // sizeof(bloom_filter_t)

  const ADDRESSES: int := 0x1_0000_0000_0000_0000

  /** The bytes of one filter's data. */
  function DataBytes(bits: nat): int
    requires bits >= 3
  {
    Pow2(bits - 3)
  }

  /** lumpsize, whose last product is computed in 32 bits. */
  function LumpSize(num: nat, bits: nat): int {
    RING + GROUP + num * LINK + (num + 1) * FILTER + (num + 1) * Pow2(bits) % WRAP / 8
  }

  /** A piece of the block. */
  datatype Piece = Piece(at: int, length: int)

  /** Where build_bloom_ring puts things, as addresses. */
  datatype Ring = Ring(
    brq: int,
    group: int,
    filterGroup: int,
    aggregate: int,
    filters: seq<int>,
    aggregateData: int,
    data: seq<int>)

  /** The addresses build_bloom_ring computes while it advances ptr. */
  method BuildRing(base: int, num: nat, bits: nat) returns (r: Ring)
    requires 5 <= bits <= 30
    ensures r == Planned(base, num, bits)
  {
    var ptr := base;
    var brq := ptr;
    ptr := ptr + RING;
    var group := ptr;
    ptr := ptr + GROUP;
    var filterGroup := ptr;
    ptr := ptr + num * LINK;
    var aggregate := ptr;
    var size := Pow2(bits) / 32;
    var filters: seq<int> := [];
    var i := 0;
    while i < num
      invariant 0 <= i <= num && |filters| == i
      invariant forall j :: 0 <= j < i ==> filters[j] == ptr + FILTER * (j + 1)
    {
      filters := filters + [ptr + FILTER * (i + 1)];
      i := i + 1;
    }
    ptr := ptr + (num + 1) * FILTER;
    var aggregateData := ptr;
    var data: seq<int> := [];
    i := 0;
    while i < num
      invariant 0 <= i <= num && |data| == i
      invariant forall j :: 0 <= j < i ==> data[j] == ptr + (j + 1) * (4 * size)
    {
      data := data + [ptr + (i + 1) * (4 * size)];
      i := i + 1;
    }
    WordsToBytes(bits);
    r := Ring(brq, group, filterGroup, aggregate, filters, aggregateData, data);
  }

  lemma WordsToBytes(bits: nat)
    requires bits >= 5
    ensures 4 * (Pow2(bits) / 32) == DataBytes(bits)
  {
    var words := Pow2(bits - 5);
    assert Pow2(bits - 4) == 2 * words;
    assert Pow2(bits - 3) == 4 * words;
    assert Pow2(bits - 2) == 8 * words;
    assert Pow2(bits - 1) == 16 * words;
    assert Pow2(bits) == 32 * words;
    assert 32 * words / 32 == words;
  }

  // The plan, as offsets from the base.

  function StructAt(num: nat, i: nat): int {
    RING + GROUP + num * LINK + FILTER * i
  }

  function DataAt(num: nat, bits: nat, i: nat): int
    requires bits >= 3
  {
    RING + GROUP + num * LINK + (num + 1) * FILTER + i * DataBytes(bits)
  }

  function Planned(base: int, num: nat, bits: nat): Ring
    requires bits >= 3
  {
    Ring(base, base + RING, base + RING + GROUP, base + StructAt(num, 0),
         seq(num, i requires 0 <= i < num => base + StructAt(num, i + 1)),
         base + DataAt(num, bits, 0),
         seq(num, i requires 0 <= i < num => base + DataAt(num, bits, i + 1)))
  }

  /** The pieces in address order: ring, group, pointer table, filter structs, filter data. */
  function Pieces(r: Ring, num: nat, bits: nat): seq<Piece>
    requires bits >= 3 && |r.filters| == num && |r.data| == num
  {
    [Piece(r.brq, RING), Piece(r.group, GROUP), Piece(r.filterGroup, num * LINK), Piece(r.aggregate, FILTER)]
    + seq(num, i requires 0 <= i < num => Piece(r.filters[i], FILTER))
    + [Piece(r.aggregateData, DataBytes(bits))]
    + seq(num, i requires 0 <= i < num => Piece(r.data[i], DataBytes(bits)))
  }

  /** The pieces follow one another without gap or overlap, from `from` to `to`. */
  ghost predicate Tiles(ps: seq<Piece>, from: int, to: int) {
    && |ps| > 0
    && ps[0].at == from
    && (forall k :: 0 <= k < |ps| - 1 ==> ps[k].at + ps[k].length == ps[k + 1].at)
    && ps[|ps| - 1].at + ps[|ps| - 1].length == to
  }

  /** The bytes the plan uses. */
  function Extent(num: nat, bits: nat): int
    requires bits >= 3
  {
    DataAt(num, bits, num + 1)
  }

  lemma {:induction false} PlanTiles(base: int, num: nat, bits: nat)
    requires bits >= 3
    ensures Tiles(Pieces(Planned(base, num, bits), num, bits), base, base + Extent(num, bits))
  {
    var r := Planned(base, num, bits);
    var ps := Pieces(r, num, bits);
    forall k | 0 <= k < |ps| - 1
      ensures ps[k].at + ps[k].length == ps[k + 1].at
    {
      if 4 <= k < 4 + num {
        assert ps[k] == Piece(r.filters[k - 4], FILTER);
      } else if k >= 4 + num {
        DataStep(num, bits, k - 4 - num);
      }
    }
    DataStep(num, bits, num);
  }

  lemma DataStep(num: nat, bits: nat, i: nat)
    requires bits >= 3
    ensures DataAt(num, bits, i) + DataBytes(bits) == DataAt(num, bits, i + 1)
  {
    assert (i + 1) * DataBytes(bits) == i * DataBytes(bits) + DataBytes(bits);
  }

  /**
   The block is exactly as large as the plan if and only if the 32-bit product does not wrap; when
   it wraps the block is too small.
   */
  lemma {:induction false} LumpFitsExactly(num: nat, bits: nat)
    requires bits >= 3
    ensures LumpSize(num, bits) == Extent(num, bits) <==> (num + 1) * Pow2(bits) < WRAP
    ensures LumpSize(num, bits) < Extent(num, bits) <==> (num + 1) * Pow2(bits) >= WRAP
  {
    var total := (num + 1) * DataBytes(bits);
    EightTimes(num + 1, bits);
    EighthWraps(total);
    SizeParts(num, bits, total);
  }

  lemma EightTimes(n: nat, bits: nat)
    requires bits >= 3
    ensures n * Pow2(bits) == 8 * (n * DataBytes(bits))
  {
    PowEight(bits);
    Regroup(n, DataBytes(bits));
  }

  lemma PowEight(bits: nat)
    requires bits >= 3
    ensures Pow2(bits) == 8 * DataBytes(bits)
  {
    assert Pow2(bits - 1) == 2 * Pow2(bits - 2);
    assert Pow2(bits - 2) == 2 * Pow2(bits - 3);
  }

  lemma Regroup(n: int, d: int)
    ensures n * (8 * d) == 8 * (n * d)
  {
  }

  lemma SizeParts(num: nat, bits: nat, total: nat)
    requires bits >= 3 && total == (num + 1) * DataBytes(bits) && (num + 1) * Pow2(bits) == 8 * total
    ensures LumpSize(num, bits) - Extent(num, bits) == 8 * total % WRAP / 8 - total
  {
  }

  lemma EighthWraps(total: nat)
    ensures 8 * total % WRAP / 8 == total <==> 8 * total < WRAP
    ensures 8 * total % WRAP / 8 <= total
  {
  }

  /** The default of eight filters with filter_bits = 29, a value the daemon accepts. */
  lemma LumpTooSmall()
    ensures LumpSize(8, 29) < Extent(8, 29)
  {
    LumpFitsExactly(8, 29);
    assert 9 * Pow2(29) >= WRAP by {
      WordBits();
      assert Pow2(30) == 2 * Pow2(29);
      assert Pow2(31) == 2 * Pow2(30);
      assert Pow2(32) == 2 * Pow2(31);
    }
  }

  // Reloading the state file.

  /** The pointers stored in the block. */
  datatype Field =
    | Group                  // brq->group
    | Aggregate              // brq->aggregate
    | AggregateData          // brq->aggregate->filter
    | Table                  // brq->group->filter_group
    | Struct(i: nat)         // brq->group->filter_group[i]
    | Data(i: nat)           // brq->group->filter_group[i]->filter

  predicate Exists(f: Field, num: nat) {
    (f.Struct? || f.Data?) ==> f.i < num
  }

  /** Where in the block a pointer is stored, as an offset. */
  function Slot(f: Field, num: nat): int {
    match f
    case Group => 0
    case Aggregate => 8
    case AggregateData => StructAt(num, 0)
    case Table => RING
    case Struct(i) => RING + GROUP + LINK * i
    case Data(i) => StructAt(num, i + 1)
  }

  /** What it points at, as an offset. */
  function Target(f: Field, num: nat, bits: nat): int
    requires bits >= 3
  {
    match f
    case Group => RING
    case Aggregate => StructAt(num, 0)
    case AggregateData => DataAt(num, bits, 0)
    case Table => RING + GROUP
    case Struct(i) => StructAt(num, i + 1)
    case Data(i) => DataAt(num, bits, i + 1)
  }

  lemma SlotsDistinct(f: Field, g: Field, num: nat)
    requires Exists(f, num) && Exists(g, num) && f != g
    ensures Slot(f, num) != Slot(g, num)
  {
  }

  type Memory = map<int, int>

  /** The block at brq holds the pointer for every field: into brq where moved, else into `from`. */
  ghost predicate Holds(mem: Memory, brq: int, num: nat, bits: nat, from: int, moved: Field -> bool)
    requires bits >= 3
  {
    forall f :: Exists(f, num) ==>
      && brq + Slot(f, num) in mem
      && mem[brq + Slot(f, num)] == (if moved(f) then brq else from) + Target(f, num, bits)
  }

  /** The pointer that build_bloom_ring stores for a field. */
  function Built(r: Ring, f: Field): int
    requires (f.Struct? ==> f.i < |r.filters|) && (f.Data? ==> f.i < |r.data|)
  {
    match f
    case Group => r.group
    case Aggregate => r.aggregate
    case AggregateData => r.aggregateData
    case Table => r.filterGroup
    case Struct(i) => r.filters[i]
    case Data(i) => r.data[i]
  }

  /** A block built in place holds what the walk expects, and what it leaves: a fresh build's pointers. */
  lemma {:induction false} BuiltHolds(mem: Memory, brq: int, num: nat, bits: nat, base: int, moved: bool)
    requires bits >= 3
    ensures Holds(mem, brq, num, bits, base, f => moved) <==>
      forall f :: Exists(f, num) ==>
        && brq + Slot(f, num) in mem
        && mem[brq + Slot(f, num)] == Built(Planned(if moved then brq else base, num, bits), f)
  {
    forall f | Exists(f, num)
      ensures Built(Planned(if moved then brq else base, num, bits), f)
           == (if moved then brq else base) + Target(f, num, bits)
    {
    }
  }

  /** new_address, on addresses that wrap at 2^64. */
  function NewAddress(p: int, offset: int): int {
    (p + offset) % ADDRESSES
  }

  /** The block lies inside the address space. */
  ghost predicate InSpace(base: int, num: nat, bits: nat)
    requires bits >= 3
  {
    0 <= base && base + Extent(num, bits) <= ADDRESSES
  }

  /** Modular arithmetic brings any pointer into the old block to the same place in the new one. */
  lemma PointerMoves(from: int, brq: int, target: int)
    requires 0 <= from && 0 <= brq && 0 <= target && from + target < ADDRESSES && brq + target < ADDRESSES
    ensures NewAddress(from + target, (brq - from) % ADDRESSES) == brq + target
  {
    if brq >= from {
      assert (brq - from) % ADDRESSES == brq - from;
    } else {
      assert (brq - from) % ADDRESSES == brq - from + ADDRESSES;
    }
  }

  lemma TargetInside(f: Field, num: nat, bits: nat)
    requires bits >= 3 && Exists(f, num)
    ensures 0 <= Target(f, num, bits) < Extent(num, bits)
  {
    DataStep(num, bits, num);
    if f.Data? {
      DataOrder(num, bits, f.i + 1, num);
      DataOrder(num, bits, 0, f.i + 1);
    } else {
      DataOrder(num, bits, 0, num);
    }
  }

  lemma DataOrder(num: nat, bits: nat, i: nat, j: nat)
    requires bits >= 3 && i <= j
    ensures 0 <= DataAt(num, bits, i) <= DataAt(num, bits, j)
  {
    assert j * DataBytes(bits) == i * DataBytes(bits) + (j - i) * DataBytes(bits);
    assert i * DataBytes(bits) >= 0 && (j - i) * DataBytes(bits) >= 0;
  }

  ghost predicate IsSlot(a: int, brq: int, num: nat) {
    exists f :: Exists(f, num) && a == brq + Slot(f, num)
  }

  /** Only the given addresses change. */
  ghost predicate Only(slots: int -> bool, before: Memory, after: Memory) {
    before.Keys == after.Keys && forall a :: a in before && !slots(a) ==> after[a] == before[a]
  }

  ghost predicate Covers(slots: int -> bool, brq: int, num: nat) {
    forall f :: Exists(f, num) ==> slots(brq + Slot(f, num))
  }

  lemma MoveOne(mem: Memory, brq: int, num: nat, bits: nat, from: int, moved: Field -> bool, f: Field,
                mem': Memory, moved': Field -> bool)
    requires bits >= 3 && InSpace(brq, num, bits) && InSpace(from, num, bits)
    requires Holds(mem, brq, num, bits, from, moved) && Exists(f, num) && !moved(f)
    requires mem' == mem[brq + Slot(f, num) := NewAddress(mem[brq + Slot(f, num)], (brq - from) % ADDRESSES)]
    requires forall g :: moved'(g) <==> moved(g) || g == f
    ensures Holds(mem', brq, num, bits, from, moved')
  {
    TargetInside(f, num, bits);
    PointerMoves(from, brq, Target(f, num, bits));
    forall g | Exists(g, num)
      ensures brq + Slot(g, num) in mem'
      ensures mem'[brq + Slot(g, num)] == (if moved'(g) then brq else from) + Target(g, num, bits)
    {
      if g != f {
        SlotsDistinct(f, g, num);
      }
    }
  }

  lemma Stored(mem: Memory, brq: int, num: nat, bits: nat, from: int, moved: Field -> bool, f: Field)
    requires bits >= 3 && Holds(mem, brq, num, bits, from, moved) && Exists(f, num)
    ensures brq + Slot(f, num) in mem
    ensures mem[brq + Slot(f, num)] == (if moved(f) then brq else from) + Target(f, num, bits)
  {
  }

  /** The fields handled after the loop has run i times. */
  predicate Handled(f: Field, i: nat) {
    (f.Struct? || f.Data?) ==> f.i < i
  }

  /** Where the number of filters is stored: brq->group->group_size. */
  const GROUP_SIZE: int := RING + LINK

  ghost predicate HoldsSize(mem: Memory, brq: int, num: nat) {
    brq + GROUP_SIZE in mem && mem[brq + GROUP_SIZE] == num
  }

  lemma SizeIsNoSlot(brq: int, num: nat)
    ensures !IsSlot(brq + GROUP_SIZE, brq, num)
  {
  }

  lemma AllHandled(mem: Memory, brq: int, num: nat, bits: nat, from: int)
    requires bits >= 3 && Holds(mem, brq, num, bits, from, f => Handled(f, num))
    ensures Holds(mem, brq, num, bits, from, f => true)
  {
  }

  /** The mapped state file. */
  class StateFile {
    var mem: Memory

    /** CHANGE_ADDRESS on the pointer stored at an address. */
    method ChangeAddress(at: int, offset: int)
      requires at in mem
      modifies this
      ensures mem == old(mem)[at := NewAddress(old(mem[at]), offset)]
    {
      mem := mem[at := NewAddress(mem[at], offset)];
    }

    /**
     walk_mmap_info, for a block whose pointers were stored when it lay at `from` and which says
     itself how many filters it holds. Each stored pointer ends up at its original offset from the
     new base, and nothing else changes.
     */
    method WalkMmapInfo(brq: int, ghost num: nat, ghost bits: nat, ghost from: int)
      requires bits >= 3 && InSpace(brq, num, bits) && InSpace(from, num, bits)
      requires Holds(mem, brq, num, bits, from, f => false) && HoldsSize(mem, brq, num)
      modifies this
      ensures Holds(mem, brq, num, bits, from, f => true) && HoldsSize(mem, brq, num)
      ensures mem.Keys == old(mem).Keys
      ensures forall a :: a in mem && !IsSlot(a, brq, num) ==> mem[a] == old(mem)[a]
    {
      ghost var slots: int -> bool := a => IsSlot(a, brq, num);
      Stored(mem, brq, num, bits, from, f => false, Group);
      var offset := (brq + RING - mem[brq]) % ADDRESSES;
      SizeIsNoSlot(brq, num);
      WalkRing(brq, num, offset, bits, from, slots);
      WalkBehind(brq, num, offset, bits, from, slots);
      WalkFilters(brq, num, offset, bits, from, slots);
      AllHandled(mem, brq, num, bits, from);
    }

    /** The loop over the filters. */
    method WalkFilters(brq: int, ghost num: nat, offset: int, ghost bits: nat, ghost from: int,
                       ghost slots: int -> bool)
      requires bits >= 3 && InSpace(brq, num, bits) && InSpace(from, num, bits)
      requires offset == (brq - from) % ADDRESSES && Covers(slots, brq, num)
      requires Holds(mem, brq, num, bits, from, f => Handled(f, 0))
      requires HoldsSize(mem, brq, num) && !slots(brq + GROUP_SIZE)
      modifies this
      ensures Holds(mem, brq, num, bits, from, f => Handled(f, num))
      ensures Only(slots, old(mem), mem)
    {
      var i := 0;
      Stored(mem, brq, num, bits, from, f => Handled(f, 0), Group);
      while i < mem[mem[brq] + LINK]
        invariant 0 <= i <= num && brq in mem && mem[brq] == brq + RING && HoldsSize(mem, brq, num)
        invariant Holds(mem, brq, num, bits, from, f => Handled(f, i)) && Only(slots, old(mem), mem)
        decreases num - i
      {
        WalkFilter(brq, num, i, offset, bits, from, slots);
        i := i + 1;
        Stored(mem, brq, num, bits, from, f => Handled(f, i), Group);
      }
    }

    /** Repairs the pointer of one more field. */
    method Repair(at: int, offset: int, ghost brq: int, ghost num: nat, ghost bits: nat, ghost from: int,
                  ghost moved: Field -> bool, ghost f: Field, ghost moved': Field -> bool,
                  ghost slots: int -> bool)
      requires bits >= 3 && InSpace(brq, num, bits) && InSpace(from, num, bits)
      requires offset == (brq - from) % ADDRESSES && Covers(slots, brq, num)
      requires Holds(mem, brq, num, bits, from, moved) && Exists(f, num) && !moved(f) && at == brq + Slot(f, num)
      requires forall g :: moved'(g) <==> moved(g) || g == f
      modifies this
      ensures Holds(mem, brq, num, bits, from, moved')
      ensures Only(slots, old(mem), mem)
    {
      ChangeAddress(at, offset);
      MoveOne(old(mem), brq, num, bits, from, moved, f, mem, moved');
    }

    /** The two pointers in the ring itself. */
    method WalkRing(brq: int, ghost num: nat, offset: int, ghost bits: nat, ghost from: int,
                  ghost slots: int -> bool)
      requires bits >= 3 && InSpace(brq, num, bits) && InSpace(from, num, bits)
      requires offset == (brq - from) % ADDRESSES && Covers(slots, brq, num)
      requires Holds(mem, brq, num, bits, from, f => false)
      modifies this
      ensures Holds(mem, brq, num, bits, from, f => f == Group || f == Aggregate)
      ensures Only(slots, old(mem), mem)
    {
      ghost var first: Field -> bool := f => f == Group;
      Repair(brq, offset, brq, num, bits, from, f => false, Group, first, slots);
      Repair(brq + 8, offset, brq, num, bits, from, first, Aggregate, f => f == Group || f == Aggregate, slots);
    }

    /** The two pointers behind them, found through the ones just repaired. */
    method WalkBehind(brq: int, ghost num: nat, offset: int, ghost bits: nat, ghost from: int,
                  ghost slots: int -> bool)
      requires bits >= 3 && InSpace(brq, num, bits) && InSpace(from, num, bits)
      requires offset == (brq - from) % ADDRESSES && Covers(slots, brq, num)
      requires Holds(mem, brq, num, bits, from, f => f == Group || f == Aggregate)
      modifies this
      ensures Holds(mem, brq, num, bits, from, f => Handled(f, 0))
      ensures Only(slots, old(mem), mem)
    {
      ghost var first: Field -> bool := f => f == Group || f == Aggregate;
      Stored(mem, brq, num, bits, from, first, Aggregate);
      ghost var second: Field -> bool := f => f == Group || f == Aggregate || f == AggregateData;
      Repair(mem[brq + 8], offset, brq, num, bits, from, first, AggregateData, second, slots);
      Stored(mem, brq, num, bits, from, second, Group);
      Repair(mem[brq], offset, brq, num, bits, from, second, Table, f => Handled(f, 0), slots);
    }

    /** One turn of the loop: the table entry, then the data pointer of the filter it leads to. */
    method WalkFilter(brq: int, ghost num: nat, i: nat, offset: int, ghost bits: nat, ghost from: int,
                      ghost slots: int -> bool)
      requires bits >= 3 && InSpace(brq, num, bits) && InSpace(from, num, bits) && i < num
      requires offset == (brq - from) % ADDRESSES && Covers(slots, brq, num)
      requires Holds(mem, brq, num, bits, from, f => Handled(f, i))
      modifies this
      ensures Holds(mem, brq, num, bits, from, f => Handled(f, i + 1))
      ensures Only(slots, old(mem), mem)
    {
      ghost var first: Field -> bool := f => Handled(f, i);
      Stored(mem, brq, num, bits, from, first, Group);
      Stored(mem, brq, num, bits, from, first, Table);
      var entry := mem[mem[brq]] + LINK * i;
      ghost var second: Field -> bool := f => Handled(f, i) || f == Struct(i);
      Repair(entry, offset, brq, num, bits, from, first, Struct(i), second, slots);
      Stored(mem, brq, num, bits, from, second, Struct(i));
      Repair(mem[entry], offset, brq, num, bits, from, second, Data(i), f => Handled(f, i + 1), slots);
    }
  }
}
