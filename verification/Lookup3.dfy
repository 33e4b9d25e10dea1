/**
 Bob Jenkins' hashlittle: three ways of reading the key, chosen by its alignment, against one
 fold over twelve-byte blocks padded with zeros. Also the inverse of mix. src/lookup3.c.
 */
module Lookup3 {
  import opened Powers
  import opened Words

  /** The internal state. */
  datatype Abc = Abc(a: word, b: word, c: word)

  function Sub(a: word, b: word): word {
    (a - b) % WRAP
  }

  function Rot(x: word, k: nat): word
    requires k < 32
  {
    Or(ShiftLeft(x, k), ShiftRight(x, 32 - k))
  }

  // mix and its inverse.

  /** One line of mix: `x -= z; x ^= rot(z, k); z += y`. */
  function Line(x: word, y: word, z: word, rot: word -> word): (word, word) {
    (Xor(Sub(x, z), rot(z)), Add(z, y))
  }

  /** The line undone. */
  function Unline(x: word, y: word, z: word, rot: word -> word): (word, word) {
    var z' := Sub(z, y);
    (Add(Xor(x, rot(z')), z'), z')
  }

  function RotBy(k: nat): word -> word
    requires k < 32
  {
    (x: word) => Rot(x, k)
  }

  /** The six rotations of mix. */
  datatype Rots = Rots(r1: word -> word, r2: word -> word, r3: word -> word,
                       r4: word -> word, r5: word -> word, r6: word -> word)

  function MixBy(r: Rots, s: Abc): Abc {
    var (a, c) := Line(s.a, s.b, s.c, r.r1);
    var (b, a) := Line(s.b, c, a, r.r2);
    var (c, b) := Line(c, a, b, r.r3);
    var (a, c) := Line(a, b, c, r.r4);
    var (b, a) := Line(b, c, a, r.r5);
    var (c, b) := Line(c, a, b, r.r6);
    Abc(a, b, c)
  }

  function UnmixBy(r: Rots, s: Abc): Abc {
    var (c, b) := Unline(s.c, s.a, s.b, r.r6);
    var (b, a) := Unline(b, c, s.a, r.r5);
    var (a, c) := Unline(a, b, c, r.r4);
    var (c, b) := Unline(c, a, b, r.r3);
    var (b, a) := Unline(b, c, a, r.r2);
    var (a, c) := Unline(a, b, c, r.r1);
    Abc(a, b, c)
  }

  function MixRots(): Rots {
    Rots(RotBy(4), RotBy(6), RotBy(8), RotBy(16), RotBy(19), RotBy(4))
  }

  function Mix(s: Abc): Abc {
    MixBy(MixRots(), s)
  }

  function Unmix(s: Abc): Abc {
    UnmixBy(MixRots(), s)
  }

  lemma {:induction false} XorBitsTwice(a: nat, b: nat)
    ensures XorBits(XorBits(a, b), b) == a
    decreases a + b
  {
    if a > 0 || b > 0 {
      XorStep(a, b);
      XorStep(XorBits(a, b), b);
      XorBitsTwice(a / 2, b / 2);
    }
  }

  lemma SubThenAdd(a: word, b: word)
    ensures Add(Sub(a, b), b) == a && Sub(Add(a, b), b) == a
  {
    WrapAdd(a - b, b);
    var back: int := b;
    WrapAdd(a + b, -back);
  }

  /** Each line of mix is reversible, whatever the rotation. */
  lemma LineUndone(x: word, y: word, z: word, rot: word -> word)
    ensures
      var (x', z') := Line(x, y, z, rot);
      Unline(x', y, z', rot) == (x, z)
  {
    SubThenAdd(z, y);
    XorBitsTwice(Sub(x, z), rot(z));
    SubThenAdd(x, z);
  }

  lemma LineRedone(x: word, y: word, z: word, rot: word -> word)
    ensures
      var (x', z') := Unline(x, y, z, rot);
      Line(x', y, z', rot) == (x, z)
  {
    SubThenAdd(z, y);
    var z' := Sub(z, y);
    SubThenAdd(Xor(x, rot(z')), z');
    XorBitsTwice(x, rot(z'));
  }

  lemma MixByUndone(r: Rots, s: Abc)
    ensures UnmixBy(r, MixBy(r, s)) == s
  {
    LineUndone(s.a, s.b, s.c, r.r1);
    var (a1, c1) := Line(s.a, s.b, s.c, r.r1);
    LineUndone(s.b, c1, a1, r.r2);
    var (b2, a2) := Line(s.b, c1, a1, r.r2);
    LineUndone(c1, a2, b2, r.r3);
    var (c3, b3) := Line(c1, a2, b2, r.r3);
    LineUndone(a2, b3, c3, r.r4);
    var (a4, c4) := Line(a2, b3, c3, r.r4);
    LineUndone(b3, c4, a4, r.r5);
    var (b5, a5) := Line(b3, c4, a4, r.r5);
    LineUndone(c4, a5, b5, r.r6);
  }

  lemma MixByRedone(r: Rots, s: Abc)
    ensures MixBy(r, UnmixBy(r, s)) == s
  {
    LineRedone(s.c, s.a, s.b, r.r6);
    var (c5, b5) := Unline(s.c, s.a, s.b, r.r6);
    LineRedone(b5, c5, s.a, r.r5);
    var (b4, a4) := Unline(b5, c5, s.a, r.r5);
    LineRedone(a4, b4, c5, r.r4);
    var (a3, c3) := Unline(a4, b4, c5, r.r4);
    LineRedone(c3, a3, b4, r.r3);
    var (c2, b2) := Unline(c3, a3, b4, r.r3);
    LineRedone(b2, c2, a3, r.r2);
    var (b1, a1) := Unline(b2, c2, a3, r.r2);
    LineRedone(a1, b1, c2, r.r1);
  }

  /** mix loses no information: it is a bijection with an explicit inverse. */
  lemma MixReversible(s: Abc)
    ensures Unmix(Mix(s)) == s && Mix(Unmix(s)) == s
  {
    MixByUndone(MixRots(), s);
    MixByRedone(MixRots(), s);
  }

  /** One line of final: `x ^= y; x -= rot(y, k)`. */
  function FinalLine(x: word, y: word, rot: word -> word): word {
    Sub(Xor(x, y), rot(y))
  }

  function Final(s: Abc): Abc {
    var c := FinalLine(s.c, s.b, RotBy(14));
    var a := FinalLine(s.a, c, RotBy(11));
    var b := FinalLine(s.b, a, RotBy(25));
    var c := FinalLine(c, b, RotBy(16));
    var a := FinalLine(a, c, RotBy(4));
    var b := FinalLine(b, a, RotBy(14));
    var c := FinalLine(c, b, RotBy(24));
    Abc(a, b, c)
  }

  // The reference: a fold over twelve-byte blocks, the last one padded with zeros.

  function ByteAt(key: seq<byte>, i: nat): byte {
    if i < |key| then key[i] else 0
  }

  function Little(b0: byte, b1: byte, b2: byte, b3: byte): word {
    b0 + 0x100 * b1 + 0x1_0000 * b2 + 0x100_0000 * b3
  }

  function WordAt(key: seq<byte>, i: nat): word {
    Little(ByteAt(key, i), ByteAt(key, i + 1), ByteAt(key, i + 2), ByteAt(key, i + 3))
  }

  /** The first twelve bytes added in. */
  function Absorb(s: Abc, key: seq<byte>): Abc {
    Abc(Add(s.a, WordAt(key, 0)), Add(s.b, WordAt(key, 4)), Add(s.c, WordAt(key, 8)))
  }

  /** The two mixing functions. */
  datatype Mixers = Mixers(mix: Abc -> Abc, final: Abc -> Abc)

  function Fold(m: Mixers, s: Abc, key: seq<byte>): word
    decreases |key|
  {
    if |key| > 12 then Fold(m, m.mix(Absorb(s, key)), key[12..])
    else if key == [] then s.c
    else m.final(Absorb(s, key)).c
  }

  function Start(length: nat, initval: word): Abc {
    var x := Add(Add(0xdeadbeef, length % WRAP), initval);
    Abc(x, x, x)
  }

  function Reference(key: seq<byte>, initval: word): word {
    Fold(Mixers(Mix, Final), Start(|key|, initval), key)
  }

  // Memory on a little-endian host.

  type Memory = nat -> byte

  function Read16(mem: Memory, p: nat): (r: int)
    ensures 0 <= r < 0x1_0000
  {
    mem(p) + 0x100 * mem(p + 1)
  }

  function Read32(mem: Memory, p: nat): word {
    Little(mem(p), mem(p + 1), mem(p + 2), mem(p + 3))
  }

  /** The key lies in memory from p on; what follows it is unknown. */
  ghost predicate KeyAt(mem: Memory, p: nat, key: seq<byte>) {
    forall i :: 0 <= i < |key| ==> mem(p + i) == key[i]
  }

  /** A mask of n low bytes, applied as the code does to a word it read past the end of the key. */
  function MaskBytes(w: word, n: nat): word {
    And(w, if n == 3 then 0xffffff else if n == 2 then 0xffff else 0xff)
  }

  /** The masked-off tail leaves exactly the bytes of the key. */
  lemma MaskDropsTail(b0: byte, b1: byte, b2: byte, b3: byte)
    ensures MaskBytes(Little(b0, b1, b2, b3), 3) == Little(b0, b1, b2, 0)
    ensures MaskBytes(Little(b0, b1, b2, b3), 2) == Little(b0, b1, 0, 0)
    ensures MaskBytes(Little(b0, b1, b2, b3), 1) == b0
  {
    var w := Little(b0, b1, b2, b3);
    BytePowers();
    AndLowMask(w, 8);
    AndLowMask(w, 16);
    AndLowMask(w, 24);
    LowBytes(b0, b1, b2, b3);
  }

  lemma BytePowers()
    ensures Pow2(8) == 0x100 && Pow2(16) == 0x1_0000 && Pow2(24) == 0x100_0000
  {
    assert Pow2(4) == 16;
    assert Pow2(12) == 0x1000;
    assert Pow2(20) == 0x10_0000;
  }

  lemma LowBytes(b0: byte, b1: byte, b2: byte, b3: byte)
    ensures
      var w := Little(b0, b1, b2, b3);
      w % 0x100 == b0 && w % 0x1_0000 == Little(b0, b1, 0, 0) && w % 0x100_0000 == Little(b0, b1, b2, 0)
  {
    var w := Little(b0, b1, b2, b3);
    RemainderIs(w, 0x100, b1 + 0x100 * b2 + 0x1_0000 * b3, b0);
    RemainderIs(w, 0x1_0000, b2 + 0x100 * b3, Little(b0, b1, 0, 0));
    RemainderIs(w, 0x100_0000, b3, Little(b0, b1, b2, 0));
  }

  // The three ways of reading.

  /** How many of the last n bytes lie from byte k on. */
  function From(n: nat, k: nat): nat {
    if n >= k then n - k else 0
  }

  /** What the 32-bit switch adds to one of a, b, c when n bytes of its word belong to the key. */
  function Part32(x: word, mem: Memory, p: nat, n: nat): word {
    if n >= 4 then Add(x, Read32(mem, p))
    else if n >= 1 then Add(x, MaskBytes(Read32(mem, p), n))
    else x
  }

  /** Two half-words added as one term. */
  function Pair16(mem: Memory, p: nat): word {
    Add(Read16(mem, p), Read16(mem, p + 2) * 0x1_0000)
  }

  /** The same for the 16-bit switch, which falls through from a single byte to a half-word. */
  function Part16(x: word, mem: Memory, p: nat, n: nat): word {
    if n >= 4 then Add(x, Pair16(mem, p))
    else if n == 3 then Add(Add(x, mem(p + 2) * 0x1_0000), Read16(mem, p))
    else if n == 2 then Add(x, Read16(mem, p))
    else if n == 1 then Add(x, mem(p))
    else x
  }

  /** The same for the byte-wise switch, which falls through from the highest byte down. */
  function Part8(x: word, mem: Memory, p: nat, n: nat): word {
    var x := if n >= 4 then Add(x, mem(p + 3) * 0x100_0000) else x;
    var x := if n >= 3 then Add(x, mem(p + 2) * 0x1_0000) else x;
    var x := if n >= 2 then Add(x, mem(p + 1) * 0x100) else x;
    if n >= 1 then Add(x, mem(p)) else x
  }

  /** Four bytes of one word, lowest first, as the byte-wise loop adds them. */
  function UpBytes(x: word, mem: Memory, p: nat): word {
    Add(Add(Add(Add(x, mem(p)), mem(p + 1) * 0x100), mem(p + 2) * 0x1_0000), mem(p + 3) * 0x100_0000)
  }

  // Each reads the same words.

  lemma AddTwice(x: word, p: word, q: word)
    requires p + q < WRAP
    ensures Add(Add(x, p), q) == Add(x, p + q)
  {
    WrapAdd(x + p, q);
  }

  /** The n bytes of a word that belong to the key. */
  function Partial(mem: Memory, p: nat, n: nat): word {
    Little(if n >= 1 then mem(p) else 0, if n >= 2 then mem(p + 1) else 0,
           if n >= 3 then mem(p + 2) else 0, if n >= 4 then mem(p + 3) else 0)
  }

  lemma UpBytesExact(x: word, mem: Memory, p: nat)
    ensures UpBytes(x, mem, p) == Add(x, Read32(mem, p))
  {
    var p0, p1, p2, p3 := mem(p), mem(p + 1) * 0x100, mem(p + 2) * 0x1_0000, mem(p + 3) * 0x100_0000;
    AddTwice(x, p0, p1);
    AddTwice(x, p0 + p1, p2);
    AddTwice(x, p0 + p1 + p2, p3);
  }

  lemma AddFour(x: word, p0: word, p1: word, p2: word, p3: word)
    requires p0 + p1 + p2 + p3 < WRAP
    ensures Add(Add(Add(Add(x, p3), p2), p1), p0) == Add(x, p0 + p1 + p2 + p3)
  {
    AddTwice(x, p3, p2);
    AddTwice(x, p3 + p2, p1);
    AddTwice(x, p3 + p2 + p1, p0);
  }

  lemma AddNothing(x: word)
    ensures Add(x, 0) == x
  {
  }

  lemma Part8Exact(x: word, mem: Memory, p: nat, n: nat)
    ensures Part8(x, mem, p, n) == Add(x, Partial(mem, p, n))
  {
    var p0, p1, p2, p3 := mem(p), mem(p + 1) * 0x100, mem(p + 2) * 0x1_0000, mem(p + 3) * 0x100_0000;
    AddNothing(x);
    if n >= 4 {
      AddFour(x, p0, p1, p2, p3);
    } else if n == 3 {
      AddFour(x, p0, p1, p2, 0);
    } else if n == 2 {
      AddFour(x, p0, p1, 0, 0);
    }
  }

  lemma Pair16Exact(mem: Memory, p: nat)
    ensures Pair16(mem, p) == Read32(mem, p)
  {
    Halves(mem(p), mem(p + 1), mem(p + 2), mem(p + 3));
  }

  lemma Halves(b0: byte, b1: byte, b2: byte, b3: byte)
    ensures Add(b0 + 0x100 * b1, (b2 + 0x100 * b3) * 0x1_0000) == Little(b0, b1, b2, b3)
  {
    RemainderIs(Little(b0, b1, b2, b3), WRAP, 0, Little(b0, b1, b2, b3));
  }

  lemma Part16Exact(x: word, mem: Memory, p: nat, n: nat)
    ensures Part16(x, mem, p, n) == Add(x, Partial(mem, p, n))
  {
    if n >= 4 {
      Pair16Exact(mem, p);
    } else if n == 3 {
      AddTwice(x, mem(p + 2) * 0x1_0000, Read16(mem, p));
    } else if n == 0 {
      AddNothing(x);
    }
  }

  lemma MaskedExact(mem: Memory, p: nat, n: nat)
    requires 1 <= n <= 3
    ensures MaskBytes(Read32(mem, p), n) == Partial(mem, p, n)
  {
    MaskDropsTail(mem(p), mem(p + 1), mem(p + 2), mem(p + 3));
  }

  lemma Part32Exact(x: word, mem: Memory, p: nat, n: nat)
    ensures Part32(x, mem, p, n) == Add(x, Partial(mem, p, n))
  {
    AddNothing(x);
    if 1 <= n <= 3 {
      MaskedExact(mem, p, n);
    }
  }

  /** The part of a word that belongs to the key is that word of the zero-padded key. */
  lemma PartialIsWord(mem: Memory, p: nat, key: seq<byte>, i: nat)
    requires KeyAt(mem, p, key)
    ensures Partial(mem, p + i, From(|key|, i)) == WordAt(key, i)
  {
    var n := From(|key|, i);
    var b0: byte := if n >= 1 then mem(p + i) else 0;
    var b1: byte := if n >= 2 then mem(p + i + 1) else 0;
    var b2: byte := if n >= 3 then mem(p + i + 2) else 0;
    var b3: byte := if n >= 4 then mem(p + i + 3) else 0;
    KeyByte(mem, p, key, i, 0);
    KeyByte(mem, p, key, i, 1);
    KeyByte(mem, p, key, i, 2);
    KeyByte(mem, p, key, i, 3);
    SameBytes(b0, b1, b2, b3, ByteAt(key, i), ByteAt(key, i + 1), ByteAt(key, i + 2), ByteAt(key, i + 3));
  }

  lemma SameBytes(b0: byte, b1: byte, b2: byte, b3: byte, c0: byte, c1: byte, c2: byte, c3: byte)
    requires b0 == c0 && b1 == c1 && b2 == c2 && b3 == c3
    ensures Little(b0, b1, b2, b3) == Little(c0, c1, c2, c3)
  {
  }

  lemma KeyByte(mem: Memory, p: nat, key: seq<byte>, i: nat, j: nat)
    requires KeyAt(mem, p, key)
    ensures ByteAt(key, i + j) == if From(|key|, i) > j then mem(p + i + j) else 0
  {
    if i + j < |key| {
      assert mem(p + (i + j)) == key[i + j];
    }
  }

  /** One of the three ways of reading: a whole word, or the last n bytes of one, added to x. */
  datatype Reader = Reader(whole: (word, Memory, nat) -> word, part: (word, Memory, nat, nat) -> word)

  const BY32 := Reader((x, mem, p) => Add(x, Read32(mem, p)), Part32)
  const BY16 := Reader((x, mem, p) => Add(x, Pair16(mem, p)), Part16)
  const BY8 := Reader(UpBytes, Part8)

  ghost predicate ReadsRight(r: Reader, mem: Memory) {
    && (forall x, p :: r.whole(x, mem, p) == Add(x, Read32(mem, p)))
    && (forall x, p, n :: r.part(x, mem, p, n) == Add(x, Partial(mem, p, n)))
  }

  /** All three add the same words. */
  lemma AllReadRight(mem: Memory)
    ensures ReadsRight(BY32, mem) && ReadsRight(BY16, mem) && ReadsRight(BY8, mem)
  {
    forall x, p
      ensures BY16.whole(x, mem, p) == Add(x, Read32(mem, p)) && BY8.whole(x, mem, p) == Add(x, Read32(mem, p))
    {
      Pair16Exact(mem, p);
      UpBytesExact(x, mem, p);
    }
    forall x, p, n
      ensures Part32(x, mem, p, n) == Add(x, Partial(mem, p, n))
      ensures Part16(x, mem, p, n) == Add(x, Partial(mem, p, n))
      ensures Part8(x, mem, p, n) == Add(x, Partial(mem, p, n))
    {
      Part32Exact(x, mem, p, n);
      Part16Exact(x, mem, p, n);
      Part8Exact(x, mem, p, n);
    }
  }

  function WholeBlock(r: Reader, mem: Memory, p: nat, s: Abc): Abc {
    Abc(r.whole(s.a, mem, p), r.whole(s.b, mem, p + 4), r.whole(s.c, mem, p + 8))
  }

  function LastBlock(r: Reader, mem: Memory, p: nat, n: nat, s: Abc): Abc {
    Abc(r.part(s.a, mem, p, n), r.part(s.b, mem, p + 4, From(n, 4)), r.part(s.c, mem, p + 8, From(n, 8)))
  }

  lemma BlockWords(r: Reader, mem: Memory, p: nat, key: seq<byte>, s: Abc)
    requires ReadsRight(r, mem) && KeyAt(mem, p, key)
    ensures LastBlock(r, mem, p, |key|, s) == Absorb(s, key)
    ensures |key| >= 12 ==> WholeBlock(r, mem, p, s) == Absorb(s, key)
  {
    PartialIsWord(mem, p, key, 0);
    PartialIsWord(mem, p, key, 4);
    PartialIsWord(mem, p, key, 8);
    WholeIsPartial(mem, p, |key|);
    WholeIsPartial(mem, p + 4, From(|key|, 4));
    WholeIsPartial(mem, p + 8, From(|key|, 8));
  }

  lemma WholeIsPartial(mem: Memory, p: nat, n: nat)
    ensures n >= 4 ==> Read32(mem, p) == Partial(mem, p, n)
  {
  }

  lemma KeyMoves(mem: Memory, p: nat, key: seq<byte>, off: nat)
    requires KeyAt(mem, p, key) && off <= |key|
    ensures KeyAt(mem, p + off, key[off..])
  {
    forall i | 0 <= i < |key[off..]|
      ensures mem(p + off + i) == key[off..][i]
    {
      assert mem(p + (off + i)) == key[off + i];
    }
  }

  lemma FoldStep(m: Mixers, r: Reader, mem: Memory, p: nat, key: seq<byte>, s: Abc)
    requires ReadsRight(r, mem) && KeyAt(mem, p, key)
    ensures |key| > 12 ==> Fold(m, s, key) == Fold(m, m.mix(WholeBlock(r, mem, p, s)), key[12..])
    ensures 0 < |key| <= 12 ==> Fold(m, s, key) == m.final(LastBlock(r, mem, p, |key|, s)).c
  {
    BlockWords(r, mem, p, key, s);
  }

  /** The loop over whole blocks and the switch on the rest; the three paths differ in the reader only. */
  method HashBy(r: Reader, m: Mixers, mem: Memory, address: nat, size: nat, start: Abc, ghost key: seq<byte>)
    returns (h: word)
    requires ReadsRight(r, mem) && KeyAt(mem, address, key) && size == |key|
    ensures h == Fold(m, start, key)
  {
    var s, k, length := start, address, size;
    ghost var rest := key;
    while length > 12
      invariant |rest| == length && KeyAt(mem, k, rest)
      invariant Fold(m, s, rest) == Fold(m, start, key)
    {
      FoldStep(m, r, mem, k, rest, s);
      KeyMoves(mem, k, rest, 12);
      s := m.mix(WholeBlock(r, mem, k, s));
      length, k, rest := length - 12, k + 12, rest[12..];
    }
    if length == 0 {
      return s.c;
    }
    FoldStep(m, r, mem, k, rest, s);
    h := m.final(LastBlock(r, mem, k, length, s)).c;
  }

  /**
   hashlittle: whatever the address of the key and whatever bytes follow it, the value is the
   reference's.
   */
  method HashLittle(mem: Memory, address: nat, length: nat, initval: word, ghost key: seq<byte>) returns (h: word)
    requires KeyAt(mem, address, key) && length == |key|
    ensures h == Reference(key, initval)
  {
    var s, m := Start(length, initval), Mixers(Mix, Final);
    AllReadRight(mem);
    if address % 4 == 0 {
      h := HashBy(BY32, m, mem, address, length, s, key);
    } else if address % 2 == 0 {
      h := HashBy(BY16, m, mem, address, length, s, key);
    } else {
      h := HashBy(BY8, m, mem, address, length, s, key);
    }
  }
}
