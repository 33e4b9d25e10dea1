/**
 hashlittle on the key whose value its author published with lookup3.c, computed in the proof: the
 rotations as arithmetic, exclusive or a byte at a time.
 */
module Lookup3Values {
  import opened Lookup3
  import opened Powers
  import opened Words

  // Exclusive or, a byte at a time.

  function Val(b: bv8): byte {
    b as int
  }

  function Xor8(a: bv8, b: bv8): bv8 {
    a ^ b
  }

  /** The bytes of a word, highest first. */
  datatype Bytes<T> = Bytes(b3: T, b2: T, b1: T, b0: T) {
    function NumberBy(val: T -> byte): word {
      0x100_0000 * val(b3) + 0x1_0000 * val(b2) + 0x100 * val(b1) + val(b0)
    }

    function By(g: (T, T) -> T, b: Bytes<T>): Bytes<T> {
      Bytes(g(b3, b.b3), g(b2, b.b2), g(b1, b.b1), g(b0, b.b0))
    }
  }

  function Number(b: Bytes<bv8>): word {
    b.NumberBy(Val)
  }

  lemma LastBit(v: bv8) returns (h: nat, x: nat)
    ensures h == (v >> 1) as int && x == (v & 1) as int && x <= 1 && v as int == 2 * h + x
  {
    h, x := (v >> 1) as int, (v & 1) as int;
  }

  lemma XorLastBit(a: bv8, b: bv8)
    ensures (a ^ b) >> 1 == (a >> 1) ^ (b >> 1)
    ensures ((a ^ b) & 1) as int == if (a & 1) as int == (b & 1) as int then 0 else 1
  {
  }

  lemma HalfOf(p: nat, x: nat)
    requires x <= 1
    ensures (2 * p + x) / 2 == p && (2 * p + x) % 2 == x
  {
  }

  /** f takes a lowest binary digit as exclusive or does. */
  predicate Doubles(f: (nat, nat) -> nat, p: nat, x: nat, q: nat, y: nat) {
    f(2 * p + x, 2 * q + y) == 2 * f(p, q) + if x == y then 0 else 1
  }

  ghost predicate Bitwise(f: (nat, nat) -> nat) {
    f(0, 0) == 0 && forall p: nat, x: nat, q: nat, y: nat | x <= 1 && y <= 1 :: Doubles(f, p, x, q, y)
  }

  lemma XorDouble(p: nat, x: nat, q: nat, y: nat)
    requires x <= 1 && y <= 1
    ensures XorBits(2 * p + x, 2 * q + y) == 2 * XorBits(p, q) + if x == y then 0 else 1
  {
    HalfOf(p, x);
    HalfOf(q, y);
    XorStep(2 * p + x, 2 * q + y);
  }

  lemma XorBitwise()
    ensures Bitwise(XorBits)
  {
    forall p: nat, x: nat, q: nat, y: nat | x <= 1 && y <= 1
      ensures Doubles(XorBits, p, x, q, y)
    {
      XorDouble(p, x, q, y);
    }
  }

  function Times(a: nat, k: nat): nat {
    if k == 0 then a else 2 * Times(a, k - 1)
  }

  lemma {:induction false} TimesIs(a: nat, k: nat)
    ensures Times(a, k) == a * Pow2(k)
  {
    if k > 0 {
      TimesIs(a, k - 1);
    }
  }

  lemma LowBit(f: (nat, nat) -> nat, p: nat, q: nat, x: nat, y: nat, r: nat)
    requires Bitwise(f) && x <= 1 && y <= 1 && f(p, q) == r
    ensures f(2 * p + x, 2 * q + y) == 2 * r + if x == y then 0 else 1
  {
    assert Doubles(f, p, x, q, y);
  }

  lemma SplitByte(a: bv8, b: bv8) returns (a': nat, b': nat, c': nat, x: nat, y: nat)
    ensures a' == (a >> 1) as int && b' == (b >> 1) as int && c' == ((a >> 1) ^ (b >> 1)) as int
    ensures x <= 1 && y <= 1 && a as int == 2 * a' + x && b as int == 2 * b' + y
    ensures (a ^ b) as int == 2 * c' + if x == y then 0 else 1
  {
    var z;
    a', x := LastBit(a);
    b', y := LastBit(b);
    c', z := LastBit(a ^ b);
    XorLastBit(a, b);
  }

  lemma HalvesAgree(f: (nat, nat) -> nat, a: nat, b: nat, c: nat, a': nat, b': nat, c': nat, x: nat, y: nat)
    requires Bitwise(f) && x <= 1 && y <= 1 && f(a', b') == c'
    requires a == 2 * a' + x && b == 2 * b' + y && c == 2 * c' + if x == y then 0 else 1
    ensures f(a, b) == c
  {
    LowBit(f, a', b', x, y, c');
  }

  lemma OneBitMore(f: (nat, nat) -> nat, a: bv8, b: bv8)
    requires Bitwise(f) && f((a >> 1) as int, (b >> 1) as int) == ((a >> 1) ^ (b >> 1)) as int
    ensures f(a as int, b as int) == (a ^ b) as int
  {
    var a', b', c', x, y := SplitByte(a, b);
    HalvesAgree(f, a as int, b as int, (a ^ b) as int, a', b', c', x, y);
  }

  lemma NoBits(f: (nat, nat) -> nat, a: bv8, b: bv8)
    requires f(0, 0) == 0 && a as int == b as int == 0
    ensures f(a as int, b as int) == (a ^ b) as int
  {
    assert a == 0 && b == 0;
  }

  lemma FewerBits(a: bv8, n: nat)
    requires n > 0 && a as int < Pow2(n)
    ensures (a >> 1) as int < Pow2(n - 1)
  {
    var h, x := LastBit(a);
  }

  lemma {:induction false} OnBits(f: (nat, nat) -> nat, a: bv8, b: bv8, n: nat)
    requires Bitwise(f) && a as int < Pow2(n) && b as int < Pow2(n)
    ensures f(a as int, b as int) == (a ^ b) as int
    decreases n
  {
    if n == 0 {
      NoBits(f, a, b);
    } else {
      FewerBits(a, n);
      FewerBits(b, n);
      OnBits(f, a >> 1, b >> 1, n - 1);
      OneBitMore(f, a, b);
    }
  }

  /** On bytes f is the machine's exclusive or. */
  lemma OnBytes(f: (nat, nat) -> nat, a: bv8, b: bv8)
    requires Bitwise(f)
    ensures f(Val(a), Val(b)) == Val(Xor8(a, b))
  {
    EightMore(0);
    OnBits(f, a, b, 8);
  }

  /** The n lowest bits apart from the others. */
  lemma {:induction false} LowBits(f: (nat, nat) -> nat, p: nat, q: nat, a: nat, b: nat, n: nat)
    requires Bitwise(f) && a < Pow2(n) && b < Pow2(n)
    ensures f(Times(p, n) + a, Times(q, n) + b) == Times(f(p, q), n) + f(a, b)
    decreases n
  {
    if n > 0 {
      var x, y := a % 2, b % 2;
      LowBits(f, p, q, a / 2, b / 2, n - 1);
      LowBit(f, Times(p, n - 1) + a / 2, Times(q, n - 1) + b / 2, x, y, Times(f(p, q), n - 1) + f(a / 2, b / 2));
      LowBit(f, a / 2, b / 2, x, y, f(a / 2, b / 2));
    }
  }

  /** One byte more, with g for the bytes. */
  predicate Splits<T>(f: (nat, nat) -> nat, val: T -> byte, g: (T, T) -> T, p: nat, a: T, q: nat, b: T) {
    f(256 * p + val(a), 256 * q + val(b)) == 256 * f(p, q) + val(g(a, b))
  }

  lemma LowByte<T>(f: (nat, nat) -> nat, val: T -> byte, g: (T, T) -> T, p: nat, a: T, q: nat, b: T)
    requires Bitwise(f) && f(val(a), val(b)) == val(g(a, b))
    ensures Splits(f, val, g, p, a, q, b)
  {
    EightMore(0);
    TimesIs(p, 8);
    TimesIs(q, 8);
    TimesIs(f(p, q), 8);
    LowBits(f, p, q, val(a), val(b), 8);
  }

  lemma FourBytes<T(!new)>(f: (nat, nat) -> nat, val: T -> byte, g: (T, T) -> T, a: Bytes<T>, b: Bytes<T>)
    requires f(0, 0) == 0 && forall p: nat, x: T, q: nat, y: T :: Splits(f, val, g, p, x, q, y)
    ensures f(a.NumberBy(val), b.NumberBy(val)) == a.By(g, b).NumberBy(val)
  {
    var p2, q2: nat := val(a.b3), val(b.b3);
    var p1, q1 := 256 * p2 + val(a.b2), 256 * q2 + val(b.b2);
    assert Splits(f, val, g, 0, a.b3, 0, b.b3) && Splits(f, val, g, p2, a.b2, q2, b.b2);
    assert Splits(f, val, g, p1, a.b1, q1, b.b1);
    assert Splits(f, val, g, 256 * p1 + val(a.b1), a.b0, 256 * q1 + val(b.b1), b.b0);
  }

  lemma XorSplits(f: (nat, nat) -> nat)
    requires Bitwise(f)
    ensures forall p: nat, x: bv8, q: nat, y: bv8 :: Splits(f, Val, Xor8, p, x, q, y)
  {
    forall p: nat, x: bv8, q: nat, y: bv8
      ensures Splits(f, Val, Xor8, p, x, q, y)
    {
      OnBytes(f, x, y);
      LowByte(f, Val, Xor8, p, x, q, y);
    }
  }

  lemma XorBytes(a: Bytes<bv8>, b: Bytes<bv8>)
    ensures Xor(Number(a), Number(b)) == Number(a.By(Xor8, b))
  {
    XorBitwise();
    XorSplits(XorBits);
    FourBytes(XorBits, Val, Xor8, a, b);
  }

  lemma XorIs(x: word, y: word, a: Bytes<bv8>, b: Bytes<bv8>, n: word)
    requires x == Number(a) && y == Number(b) && n == Number(a.By(Xor8, b))
    ensures Xor(x, y) == n
  {
    XorBytes(a, b);
  }

  // Rotation as arithmetic.

  lemma {:induction false} ShiftLeftIs(x: word, k: nat)
    ensures ShiftLeft(x, k) == x * Pow2(k) % WRAP
    decreases k
  {
    if k > 0 {
      ShiftLeftIs(x * 2 % WRAP, k - 1);
      WrapTimes(x * 2, Pow2(k - 1));
      assert x * 2 * Pow2(k - 1) == x * Pow2(k);
    }
  }

  lemma WrapTimes(x: nat, p: nat)
    ensures x % WRAP * p % WRAP == x * p % WRAP
  {
    var q, r := x / WRAP, x % WRAP;
    assert x * p == WRAP * (q * p + r * p / WRAP) + r * p % WRAP by {
      assert x == WRAP * q + r;
      assert x * p == WRAP * (q * p) + r * p;
    }
    RemainderIs(x * p, WRAP, q * p + r * p / WRAP, r * p % WRAP);
  }

  lemma {:induction false} ShiftRightIs(hi: nat, lo: nat, n: nat)
    requires lo < Pow2(n) && Times(hi, n) + lo < WRAP
    ensures ShiftRight(Times(hi, n) + lo, n) == hi
    decreases n
  {
    if n > 0 {
      assert (Times(hi, n) + lo) / 2 == Times(hi, n - 1) + lo / 2;
      ShiftRightIs(hi, lo / 2, n - 1);
    }
  }

  function Scale8(k: nat): nat
    requires k < 8
  {
    if k == 0 then 1 else if k == 1 then 2 else if k == 2 then 4 else if k == 3 then 8
    else if k == 4 then 16 else if k == 5 then 32 else if k == 6 then 64 else 128
  }

  /** Pow2(k) below 2^32, without the recursion. */
  function Scale(k: nat): nat
    requires k < 32
  {
    if k < 8 then Scale8(k) else if k < 16 then 0x100 * Scale8(k - 8)
    else if k < 24 then 0x1_0000 * Scale8(k - 16) else 0x100_0000 * Scale8(k - 24)
  }

  lemma Scale8Is(k: nat)
    requires k < 8
    ensures Scale8(k) == Pow2(k)
  {
    assert Pow2(2) == 4 && Pow2(4) == 16 && Pow2(6) == 64;
  }

  lemma ScaleIs(k: nat)
    requires k < 32
    ensures Scale(k) == Pow2(k)
  {
    if k < 8 {
      Scale8Is(k);
    } else {
      ScaleIs(k - 8);
      EightMore(k - 8);
    }
  }

  lemma {:induction false} PowersMultiply(m: nat, n: nat)
    ensures Pow2(m + n) == Pow2(m) * Pow2(n)
  {
    if m > 0 {
      PowersMultiply(m - 1, n);
      assert Pow2(m) * Pow2(n) == 2 * (Pow2(m - 1) * Pow2(n));
    }
  }

  /** No bit is set in both. */
  ghost predicate Disjoint(a: nat, b: nat) {
    XorBits(a, b) == a + b && AndBits(a, b) == 0
  }

  lemma DisjointZero(a: nat)
    ensures Disjoint(a, 0)
  {
    XorZero(a);
    AndZero(a);
  }

  lemma {:induction false} DisjointTimes(a: nat, b: nat, k: nat)
    requires b < Pow2(k)
    ensures Disjoint(Times(a, k), b)
    decreases k
  {
    if k == 0 {
      assert b == 0;
      DisjointZero(a);
    } else {
      DisjointTimes(a, b / 2, k - 1);
      DisjointStep(Times(a, k - 1), b);
      assert Times(a, k) == 2 * Times(a, k - 1);
    }
  }

  lemma DisjointStep(p: nat, b: nat)
    requires Disjoint(p, b / 2)
    ensures Disjoint(2 * p, b)
  {
    HalfOf(p, 0);
    AndStep(2 * p, b);
    XorStep(2 * p, b);
  }

  lemma XorNothing(s: word)
    ensures Xor(s, 0) == s
  {
    XorZero(s);
  }

  lemma OrIs(a: word, b: word, s: word)
    requires Xor(a, b) == s && And(a, b) == 0 && Xor(s, 0) == s
    ensures Or(a, b) == s
  {
  }

  lemma OrSum(a: word, b: word, s: word)
    requires s == a + b && Xor(a, b) == s && And(a, b) == 0
    ensures Or(a, b) == s
  {
    XorNothing(s);
    OrIs(a, b, s);
  }

  lemma XorApart(lo: nat, hi: word, k: nat, left: word)
    requires hi < Pow2(k) && left == Times(lo, k)
    ensures left + hi < WRAP && Xor(left, hi) == left + hi && And(left, hi) == 0
  {
    DisjointTimes(lo, hi, k);
    XorIsWord(left, hi);
  }

  lemma OrApart(lo: nat, hi: word, k: nat, left: word)
    requires hi < Pow2(k) && left == Times(lo, k)
    ensures left + hi < WRAP && Or(left, hi) == left + hi
  {
    XorApart(lo, hi, k, left);
    OrSum(left, hi, left + hi);
  }

  lemma ShiftedOut(hi: nat, lo: nat, p: nat, q: nat)
    requires p * q == WRAP && lo < q
    ensures (hi * q + lo) * p % WRAP == lo * p < WRAP
  {
    assert (hi * q + lo) * p == WRAP * hi + lo * p by {
      assert hi * q * p == hi * (p * q);
    }
    assert lo * p < q * p;
    RemainderIs((hi * q + lo) * p, WRAP, hi, lo * p);
  }

  lemma RotIs(x: word, k: nat, left: word, right: word, r: word)
    requires 0 < k < 32 && ShiftLeft(x, k) == left && ShiftRight(x, 32 - k) == right && Or(left, right) == r
    ensures Rot(x, k) == r
  {
  }

  /** rot moves the k highest bits below the others. */
  lemma Rotated(x: word, k: nat, hi: word, lo: word)
    requires 0 < k < 32 && x == hi * Scale(32 - k) + lo && lo < Scale(32 - k) && hi < Scale(k)
    ensures 0 <= lo * Scale(k) + hi < WRAP && Rot(x, k) == lo * Scale(k) + hi
  {
    Shifted(x, k, hi, lo);
    OrApart(lo, hi, k, lo * Scale(k));
    RotIs(x, k, lo * Scale(k), hi, lo * Scale(k) + hi);
  }

  lemma Shifted(x: word, k: nat, hi: word, lo: word)
    requires 0 < k < 32 && x == hi * Scale(32 - k) + lo && lo < Scale(32 - k) && hi < Scale(k)
    ensures hi < Pow2(k) && lo * Scale(k) == Times(lo, k)
    ensures ShiftLeft(x, k) == lo * Scale(k) && ShiftRight(x, 32 - k) == hi
  {
    ScaleIs(k);
    ScaleIs(32 - k);
    WordBits();
    PowersMultiply(k, 32 - k);
    ShiftLeftIs(x, k);
    ShiftedOut(hi, lo, Pow2(k), Pow2(32 - k));
    TimesIs(hi, 32 - k);
    ShiftRightIs(hi, lo, 32 - k);
    TimesIs(lo, k);
  }

  // The lines of mix and final on given numbers.

  /** A number whose k highest bits are hi and whose others are lo, rotated. */
  ghost predicate Turns(x: word, k: nat, hi: word, lo: word, r: int) {
    0 < k < 32 && x == hi * Scale(32 - k) + lo && lo < Scale(32 - k) && hi < Scale(k) && r == lo * Scale(k) + hi
  }

  lemma RotatedTo(x: word, k: nat, hi: word, lo: word, r: word)
    requires Turns(x, k, hi, lo, r)
    ensures Rot(x, k) == r
  {
    Rotated(x, k, hi, lo);
  }

  /** One line of mix on given numbers, with what the proof needs to follow it. */
  datatype Step = Step(x: word, y: word, z: word, k: nat, hi: word, lo: word, a: Bytes<bv8>, b: Bytes<bv8>, n: word,
                       w: word) {
    ghost predicate Sums() {
      Turns(z, k, hi, lo, Number(b)) && Sub(x, z) == Number(a) && n == Number(a.By(Xor8, b)) && w == Add(z, y)
    }

    ghost predicate Holds(rot: word -> word) {
      Line(x, y, z, rot) == (n, w)
    }
  }

  lemma LineVia(x: word, y: word, z: word, rot: word -> word, d: word, r: word, n: word)
    requires Sub(x, z) == d && rot(z) == r && Xor(d, r) == n
    ensures Line(x, y, z, rot) == (n, Add(z, y))
  {
  }

  lemma LineIs(s: Step)
    requires s.Sums()
    ensures s.Holds(RotBy(s.k))
  {
    RotatedTo(s.z, s.k, s.hi, s.lo, Number(s.b));
    XorIs(Sub(s.x, s.z), Number(s.b), s.a, s.b, s.n);
    LineVia(s.x, s.y, s.z, RotBy(s.k), Number(s.a), Number(s.b), s.n);
  }

  lemma MixVia(r: Rots, l1: Step, l2: Step, l3: Step, l4: Step, l5: Step, l6: Step)
    requires l1.Holds(r.r1) && l2.Holds(r.r2) && l3.Holds(r.r3) && l4.Holds(r.r4) && l5.Holds(r.r5) && l6.Holds(r.r6)
    requires l2.x == l1.y && l2.y == l1.w && l2.z == l1.n && l3.x == l1.w && l3.y == l2.w && l3.z == l2.n
    requires l4.x == l2.w && l4.y == l3.w && l4.z == l3.n && l5.x == l3.w && l5.y == l4.w && l5.z == l4.n
    requires l6.x == l4.w && l6.y == l5.w && l6.z == l5.n
    ensures MixBy(r, Abc(l1.x, l1.y, l1.z)) == Abc(l5.w, l6.w, l6.n)
  {
  }

  /** One line of final. */
  datatype Last = Last(x: word, y: word, k: nat, hi: word, lo: word, r: word, a: Bytes<bv8>, b: Bytes<bv8>, v: word,
                       n: word) {
    ghost predicate Sums() {
      Turns(y, k, hi, lo, r) && x == Number(a) && y == Number(b) && v == Number(a.By(Xor8, b)) && n == Sub(v, r)
    }

    ghost predicate Holds(rot: word -> word) {
      FinalLine(x, y, rot) == n
    }
  }

  lemma FinalVia(x: word, y: word, rot: word -> word, v: word, r: word)
    requires Xor(x, y) == v && rot(y) == r
    ensures FinalLine(x, y, rot) == Sub(v, r)
  {
  }

  lemma FinalIs(s: Last)
    requires s.Sums()
    ensures s.Holds(RotBy(s.k))
  {
    RotatedTo(s.y, s.k, s.hi, s.lo, s.r);
    XorIs(s.x, s.y, s.a, s.b, s.v);
    FinalVia(s.x, s.y, RotBy(s.k), s.v, s.r);
  }

  // The blocks of the key.

  const FIRST1 := Step(0x5123_2e53, 0x4e11_322d, 0x3fce_247f, 4, 0x3, 0xfce247f,
    Bytes(0x11, 0x55, 0x09, 0xd4), Bytes(0xfc, 0xe2, 0x47, 0xf3), 0xedb7_4e27, 0x8ddf_56ac)
  const FIRST2 := Step(0x4e11_322d, 0x8ddf_56ac, 0xedb7_4e27, 6, 0x3b, 0x1b74e27,
    Bytes(0x60, 0x59, 0xe4, 0x06), Bytes(0x6d, 0xd3, 0x89, 0xfb), 0x0d8a_6dfd, 0x7b96_a4d3)
  const FIRST3 := Step(0x8ddf_56ac, 0x7b96_a4d3, 0x0d8a_6dfd, 8, 0xd, 0x8a6dfd,
    Bytes(0x80, 0x54, 0xe8, 0xaf), Bytes(0x8a, 0x6d, 0xfd, 0x0d), 0x0a39_15a2, 0x8921_12d0)
  const FIRST4 := Step(0x7b96_a4d3, 0x8921_12d0, 0x0a39_15a2, 16, 0xa39, 0x15a2,
    Bytes(0x71, 0x5d, 0x8f, 0x31), Bytes(0x15, 0xa2, 0x0a, 0x39), 0x64ff_8508, 0x935a_2872)
  const FIRST5 := Step(0x8921_12d0, 0x935a_2872, 0x64ff_8508, 19, 0x327fc, 0x508,
    Bytes(0x24, 0x21, 0x8d, 0xc8), Bytes(0x28, 0x43, 0x27, 0xfc), 0x0c62_aa34, 0xf859_ad7a)
  const FIRST6 := Step(0x935a_2872, 0xf859_ad7a, 0x0c62_aa34, 4, 0x0, 0xc62aa34,
    Bytes(0x86, 0xf7, 0x7e, 0x3e), Bytes(0xc6, 0x2a, 0xa3, 0x40), 0x40dd_dd7e, 0x04bc_57ae)

  lemma FirstSums()
    ensures FIRST1.Sums() && FIRST2.Sums() && FIRST3.Sums()
    ensures FIRST4.Sums() && FIRST5.Sums() && FIRST6.Sums()
  {
  }

  lemma FirstMix()
    ensures Mix(Abc(0x5123_2e53, 0x4e11_322d, 0x3fce_247f))
         == Abc(0xf859_ad7a, 0x04bc_57ae, 0x40dd_dd7e)
  {
    FirstSums();
    LineIs(FIRST1);
    LineIs(FIRST2);
    LineIs(FIRST3);
    LineIs(FIRST4);
    LineIs(FIRST5);
    LineIs(FIRST6);
    MixVia(MixRots(), FIRST1, FIRST2, FIRST3, FIRST4, FIRST5, FIRST6);
  }

  const SECOND1 := Step(0x6b7a_11e8, 0x7321_ce13, 0xa243_569e, 4, 0xa, 0x243569e,
    Bytes(0xc9, 0x36, 0xbb, 0x4a), Bytes(0x24, 0x35, 0x69, 0xea), 0xed03_d2a0, 0x1565_24b1)
  const SECOND2 := Step(0x7321_ce13, 0x1565_24b1, 0xed03_d2a0, 6, 0x3b, 0x103d2a0,
    Bytes(0x86, 0x1d, 0xfb, 0x73), Bytes(0x40, 0xf4, 0xa8, 0x3b), 0xc6e9_5348, 0x0268_f751)
  const SECOND3 := Step(0x1565_24b1, 0x0268_f751, 0xc6e9_5348, 8, 0xc6, 0xe95348,
    Bytes(0x4e, 0x7b, 0xd1, 0x69), Bytes(0xe9, 0x53, 0x48, 0xc6), 0xa728_99af, 0xc952_4a99)
  const SECOND4 := Step(0x0268_f751, 0xc952_4a99, 0xa728_99af, 16, 0xa728, 0x99af,
    Bytes(0x5b, 0x40, 0x5d, 0xa2), Bytes(0x99, 0xaf, 0xa7, 0x28), 0xc2ef_fa8a, 0x707a_e448)
  const SECOND5 := Step(0xc952_4a99, 0x707a_e448, 0xc2ef_fa8a, 19, 0x6177f, 0x1a8a,
    Bytes(0x06, 0x62, 0x50, 0x0f), Bytes(0xd4, 0x56, 0x17, 0x7f), 0xd234_4770, 0x336a_ded2)
  const SECOND6 := Step(0x707a_e448, 0x336a_ded2, 0xd234_4770, 4, 0xd, 0x2344770,
    Bytes(0x9e, 0x46, 0x9c, 0xd8), Bytes(0x23, 0x44, 0x77, 0x0d), 0xbd02_ebd5, 0x059f_2642)

  lemma SecondSums()
    ensures SECOND1.Sums() && SECOND2.Sums() && SECOND3.Sums()
    ensures SECOND4.Sums() && SECOND5.Sums() && SECOND6.Sums()
  {
  }

  lemma SecondMix()
    ensures Mix(Abc(0x6b7a_11e8, 0x7321_ce13, 0xa243_569e))
         == Abc(0x336a_ded2, 0x059f_2642, 0xbd02_ebd5)
  {
    SecondSums();
    LineIs(SECOND1);
    LineIs(SECOND2);
    LineIs(SECOND3);
    LineIs(SECOND4);
    LineIs(SECOND5);
    LineIs(SECOND6);
    MixVia(MixRots(), SECOND1, SECOND2, SECOND3, SECOND4, SECOND5, SECOND6);
  }

  const LAST1 := Last(0xbd02_ebd5, 0x059f_95a9, 14, 0x167, 0x395a9, 0xe56a_4167,
    Bytes(0xbd, 0x02, 0xeb, 0xd5), Bytes(0x05, 0x9f, 0x95, 0xa9), 0xb89d_7e7c, 0xd333_3d15)
  const LAST2 := Last(0x948b_5244, 0xd333_3d15, 11, 0x699, 0x133d15, 0x99e8_ae99,
    Bytes(0x94, 0x8b, 0x52, 0x44), Bytes(0xd3, 0x33, 0x3d, 0x15), 0x47b8_6f51, 0xadcf_c0b8)
  const LAST3 := Last(0x059f_95a9, 0xadcf_c0b8, 25, 0x15b9f81, 0x38, 0x715b_9f81,
    Bytes(0x05, 0x9f, 0x95, 0xa9), Bytes(0xad, 0xcf, 0xc0, 0xb8), 0xa850_5511, 0x36f4_b590)
  const LAST4 := Last(0xd333_3d15, 0x36f4_b590, 16, 0x36f4, 0xb590, 0xb590_36f4,
    Bytes(0xd3, 0x33, 0x3d, 0x15), Bytes(0x36, 0xf4, 0xb5, 0x90), 0xe5c7_8885, 0x3037_5191)
  const LAST5 := Last(0xadcf_c0b8, 0x3037_5191, 4, 0x3, 0x375191, 0x0375_1913,
    Bytes(0xad, 0xcf, 0xc0, 0xb8), Bytes(0x30, 0x37, 0x51, 0x91), 0x9df8_9129, 0x9a83_7816)
  const LAST6 := Last(0x36f4_b590, 0x9a83_7816, 14, 0x26a0, 0x37816, 0xde05_a6a0,
    Bytes(0x36, 0xf4, 0xb5, 0x90), Bytes(0x9a, 0x83, 0x78, 0x16), 0xac77_cd86, 0xce72_26e6)
  const LAST7 := Last(0x3037_5191, 0xce72_26e6, 24, 0xce7226, 0xe6, 0xe6ce_7226,
    Bytes(0x30, 0x37, 0x51, 0x91), Bytes(0xce, 0x72, 0x26, 0xe6), 0xfe45_7777, 0x1777_0551)

  lemma LastSums()
    ensures LAST1.Sums() && LAST2.Sums() && LAST3.Sums() && LAST4.Sums()
    ensures LAST5.Sums() && LAST6.Sums() && LAST7.Sums()
  {
  }

  lemma LastFinal()
    ensures Final(Abc(0x948b_5244, 0x059f_95a9, 0xbd02_ebd5)).c == 0x1777_0551
  {
    LastSums();
    FinalIs(LAST1);
    FinalIs(LAST2);
    FinalIs(LAST3);
    FinalIs(LAST4);
    FinalIs(LAST5);
    FinalIs(LAST6);
    FinalIs(LAST7);
  }

  lemma WholeThenRest(m: Mixers, s: Abc, key: seq<byte>, t: Abc, u: Abc)
    requires |key| > 12 && Absorb(s, key) == t && m.mix(t) == u
    ensures Fold(m, s, key) == Fold(m, u, key[12..])
  {
  }

  lemma Rest(m: Mixers, s: Abc, key: seq<byte>, t: Abc)
    requires 0 < |key| <= 12 && Absorb(s, key) == t
    ensures Fold(m, s, key) == m.final(t).c
  {
  }

  lemma AbsorbAt(s: Abc, key: seq<byte>, from: nat, t: Abc)
    requires from <= |key|
    requires Add(s.a, WordAt(key, from)) == t.a && Add(s.b, WordAt(key, from + 4)) == t.b
    requires Add(s.c, WordAt(key, from + 8)) == t.c
    ensures Absorb(s, key[from..]) == t
  {
    WordsAfter(key, from);
  }

  const KEY: seq<byte> := [0x46, 0x6f, 0x75, 0x72, 0x20, 0x73, 0x63, 0x6f, 0x72, 0x65,
                           0x20, 0x61, 0x6e, 0x64, 0x20, 0x73, 0x65, 0x76, 0x65, 0x6e,
                           0x20, 0x79, 0x65, 0x61, 0x72, 0x73, 0x20, 0x61, 0x67, 0x6f]

  lemma WordsAfter(key: seq<byte>, from: nat)
    requires from <= |key|
    ensures WordAt(key[from..], 0) == WordAt(key, from) && WordAt(key[from..], 4) == WordAt(key, from + 4)
    ensures WordAt(key[from..], 8) == WordAt(key, from + 8)
  {
  }

  // The key added in, block by block.

  lemma FirstBlock()
    ensures Absorb(Start(30, 0), KEY[0..]) == Abc(0x5123_2e53, 0x4e11_322d, 0x3fce_247f)
  {
    assert WordAt(KEY, 0) == 0x7275_6f46 && WordAt(KEY, 4) == 0x6f63_7320 && WordAt(KEY, 8) == 0x6120_6572;
    AbsorbAt(Start(30, 0), KEY, 0, Abc(0x5123_2e53, 0x4e11_322d, 0x3fce_247f));
  }

  lemma SecondBlock()
    ensures Absorb(Abc(0xf859_ad7a, 0x04bc_57ae, 0x40dd_dd7e), KEY[12..]) == Abc(0x6b7a_11e8, 0x7321_ce13, 0xa243_569e)
  {
    assert WordAt(KEY, 12) == 0x7320_646e && WordAt(KEY, 16) == 0x6e65_7665 && WordAt(KEY, 20) == 0x6165_7920;
    AbsorbAt(Abc(0xf859_ad7a, 0x04bc_57ae, 0x40dd_dd7e), KEY, 12, Abc(0x6b7a_11e8, 0x7321_ce13, 0xa243_569e));
  }

  lemma SixBytes(b0: byte, b1: byte, b2: byte, b3: byte, b4: byte, b5: byte)
    ensures WordAt([b0, b1, b2, b3, b4, b5], 0) == Little(b0, b1, b2, b3)
    ensures WordAt([b0, b1, b2, b3, b4, b5], 4) == Little(b4, b5, 0, 0)
    ensures WordAt([b0, b1, b2, b3, b4, b5], 8) == 0
  {
  }

  lemma LastBytes()
    ensures KEY[24..] == [0x72, 0x73, 0x20, 0x61, 0x67, 0x6f]
  {
  }

  lemma AbsorbWords(s: Abc, key: seq<byte>, x: word, y: word, z: word, t: Abc)
    requires WordAt(key, 0) == x && WordAt(key, 4) == y && WordAt(key, 8) == z
    requires t == Abc(Add(s.a, x), Add(s.b, y), Add(s.c, z))
    ensures Absorb(s, key) == t
  {
  }

  lemma ThirdBlock()
    ensures Absorb(Abc(0x336a_ded2, 0x059f_2642, 0xbd02_ebd5), KEY[24..]) == Abc(0x948b_5244, 0x059f_95a9, 0xbd02_ebd5)
  {
    LastBytes();
    SixBytes(0x72, 0x73, 0x20, 0x61, 0x67, 0x6f);
    AbsorbWords(Abc(0x336a_ded2, 0x059f_2642, 0xbd02_ebd5), KEY[24..], 0x6120_7372, 0x0000_6f67, 0,
                Abc(0x948b_5244, 0x059f_95a9, 0xbd02_ebd5));
  }

  lemma FoldThree(m: Mixers, s: Abc, key: seq<byte>, t1: Abc, u1: Abc, t2: Abc, u2: Abc, t3: Abc)
    requires |key| == 30 && Absorb(s, key[0..]) == t1 && m.mix(t1) == u1
    requires Absorb(u1, key[12..]) == t2 && m.mix(t2) == u2 && Absorb(u2, key[24..]) == t3
    ensures Fold(m, s, key) == m.final(t3).c
  {
    assert key[0..] == key && key[12..][12..] == key[24..];
    WholeThenRest(m, s, key, t1, u1);
    WholeThenRest(m, u1, key[12..], t2, u2);
    Rest(m, u2, key[24..], t3);
  }

  /** What mix and final do on the way. */
  ghost predicate OnTheWay(m: Mixers) {
    && m.mix(Abc(0x5123_2e53, 0x4e11_322d, 0x3fce_247f)) == Abc(0xf859_ad7a, 0x04bc_57ae, 0x40dd_dd7e)
    && m.mix(Abc(0x6b7a_11e8, 0x7321_ce13, 0xa243_569e)) == Abc(0x336a_ded2, 0x059f_2642, 0xbd02_ebd5)
    && m.final(Abc(0x948b_5244, 0x059f_95a9, 0xbd02_ebd5)).c == 0x1777_0551
  }

  lemma MixesOnTheWay()
    ensures OnTheWay(Mixers(Mix, Final))
  {
    FirstMix();
    SecondMix();
    LastFinal();
  }

  lemma KeyValue(m: Mixers)
    requires OnTheWay(m)
    ensures Fold(m, Start(30, 0), KEY) == 0x1777_0551
  {
    FirstBlock();
    SecondBlock();
    ThirdBlock();
    FoldThree(m, Start(30, 0), KEY,
              Abc(0x5123_2e53, 0x4e11_322d, 0x3fce_247f), Abc(0xf859_ad7a, 0x04bc_57ae, 0x40dd_dd7e),
              Abc(0x6b7a_11e8, 0x7321_ce13, 0xa243_569e), Abc(0x336a_ded2, 0x059f_2642, 0xbd02_ebd5),
              Abc(0x948b_5244, 0x059f_95a9, 0xbd02_ebd5));
  }

  /** The published values, for no key and for "Four score and seven years ago". */
  lemma PublishedValues()
    ensures Reference([], 0) == 0xdead_beef && Reference(KEY, 0) == 0x1777_0551
  {
    MixesOnTheWay();
    KeyValue(Mixers(Mix, Final));
  }
}
