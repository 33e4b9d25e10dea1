/** Unsigned 32-bit arithmetic, with the wrap-around and the bit operations written out. */
module Words {
  import opened Powers

  const WRAP: int := 0x1_0000_0000

  type word = w: int | 0 <= w < 0x1_0000_0000

  type byte = b: int | 0 <= b < 256

  function Add(a: word, b: word): word {
    (a + b) % WRAP
  }

  /** Bitwise operations, bit by bit from the lowest. */
  function AndBits(a: nat, b: nat): (r: nat)
    ensures r <= a
  {
    if a == 0 then 0 else 2 * AndBits(a / 2, b / 2) + (if a % 2 == 1 && b % 2 == 1 then 1 else 0)
  }

  function XorBits(a: nat, b: nat): (r: nat) {
    if a == 0 then b else 2 * XorBits(a / 2, b / 2) + (if a % 2 != b % 2 then 1 else 0)
  }

  lemma {:induction false} XorBound(a: nat, b: nat, n: nat)
    requires a < Pow2(n) && b < Pow2(n)
    ensures XorBits(a, b) < Pow2(n)
    decreases n
  {
    if n > 0 {
      XorBound(a / 2, b / 2, n - 1);
    }
  }

  lemma WordBits()
    ensures Pow2(32) == WRAP
  {
    assert Pow2(4) == 16;
    assert Pow2(8) == 256;
    assert Pow2(12) == 0x1000;
    assert Pow2(16) == 0x1_0000;
    assert Pow2(20) == 0x10_0000;
    assert Pow2(24) == 0x100_0000;
    assert Pow2(28) == 0x1000_0000;
  }

  lemma XorIsWord(a: word, b: word)
    ensures XorBits(a, b) < WRAP
  {
    WordBits();
    XorBound(a, b, 32);
  }

  function And(a: word, b: word): word {
    AndBits(a, b)
  }

  function Xor(a: word, b: word): word {
    XorIsWord(a, b);
    XorBits(a, b)
  }

  function Not(a: word): word {
    WRAP - 1 - a
  }

  /** The bits of `a | b`: those of a and b together, less those they share. */
  function Or(a: word, b: word): word {
    Xor(Xor(a, b), And(a, b))
  }

  function ShiftRight(a: word, n: nat): word
    decreases n
  {
    if n == 0 then a else ShiftRight(a / 2, n - 1)
  }

  function ShiftLeft(a: word, n: nat): word
    decreases n
  {
    if n == 0 then a else ShiftLeft(a * 2 % WRAP, n - 1)
  }

  lemma WrapAdd(x: int, y: int)
    ensures (x % WRAP + y) % WRAP == (x + y) % WRAP
  {
    var q := x / WRAP;
    assert x % WRAP + y == x + y - q * WRAP;
  }

  /** Four terms may be added in either order. */
  lemma AddOrder(a: word, b: word, c: word, d: word)
    ensures Add(Add(Add(a, b), c), d) == Add(Add(Add(d, c), b), a)
  {
    SumOfFour(a, b, c, d);
    SumOfFour(d, c, b, a);
  }

  lemma SumOfFour(a: word, b: word, c: word, d: word)
    ensures Add(Add(Add(a, b), c), d) == (a + b + c + d) % WRAP
  {
    WrapAdd(a + b, c);
    WrapAdd(a + b + c, d);
  }

  lemma {:induction false} AndBitsCommute(a: nat, b: nat)
    ensures AndBits(a, b) == AndBits(b, a)
    decreases a + b
  {
    if a > 0 || b > 0 {
      AndBitsCommute(a / 2, b / 2);
      if a == 0 {
        assert AndBits(0, b / 2) == 0;
      } else if b == 0 {
        assert AndBits(0, a / 2) == 0;
      }
    }
  }

  lemma XorStep(a: nat, b: nat)
    ensures XorBits(a, b) / 2 == XorBits(a / 2, b / 2)
    ensures XorBits(a, b) % 2 == (if a % 2 != b % 2 then 1 else 0)
  {
  }

  lemma {:induction false} XorBitsSwapLast(a: nat, b: nat, c: nat)
    ensures XorBits(XorBits(a, b), c) == XorBits(XorBits(a, c), b)
    decreases a + b + c
  {
    if a > 0 || b > 0 || c > 0 {
      var x, y := XorBits(XorBits(a, b), c), XorBits(XorBits(a, c), b);
      XorStep(XorBits(a, b), c);
      XorStep(a, b);
      XorStep(XorBits(a, c), b);
      XorStep(a, c);
      XorBitsSwapLast(a / 2, b / 2, c / 2);
      assert x / 2 == y / 2 && x % 2 == y % 2;
    }
  }

  /** The majority function with its terms taken in another order. */
  lemma MajorityOrder(a: word, b: word, c: word)
    ensures Xor(Xor(And(a, b), And(b, c)), And(c, a)) == Xor(Xor(And(a, b), And(a, c)), And(b, c))
  {
    AndBitsCommute(a, c);
    XorBitsSwapLast(And(a, b), And(b, c), And(a, c));
  }

  lemma AndStep(a: nat, b: nat)
    ensures AndBits(a, b) == 2 * AndBits(a / 2, b / 2) + (if a % 2 == 1 && b % 2 == 1 then 1 else 0)
  {
  }

  lemma AndOnesStep(w: nat, p: nat)
    requires p > 0
    ensures AndBits(w, 2 * p - 1) == 2 * AndBits(w / 2, p - 1) + w % 2
  {
    AndStep(w, 2 * p - 1);
    assert (2 * p - 1) / 2 == p - 1 && (2 * p - 1) % 2 == 1;
  }

  /** And with k low ones is the remainder modulo 2^k. */
  lemma {:induction false} AndLowMask(w: nat, k: nat)
    ensures AndBits(w, Pow2(k) - 1) == w % Pow2(k)
    decreases k
  {
    if k == 0 {
      AndZero(w);
    } else {
      AndLowMask(w / 2, k - 1);
      AndOnesStep(w, Pow2(k - 1));
      HalfRemainder(w, Pow2(k - 1));
    }
  }

  lemma {:induction false} AndZero(w: nat)
    ensures AndBits(w, 0) == 0
  {
    if w > 0 {
      AndZero(w / 2);
    }
  }

  lemma {:induction false} XorZero(a: nat)
    ensures XorBits(a, 0) == a
  {
    if a > 0 {
      XorZero(a / 2);
    }
  }

  lemma HalfRemainder(w: nat, p: nat)
    requires p > 0
    ensures w % (2 * p) == 2 * (w / 2 % p) + w % 2
  {
    var q, r := w / 2 / p, w / 2 % p;
    assert w == 2 * p * q + (2 * r + w % 2) by {
      assert w / 2 == p * q + r;
    }
    RemainderIs(w, 2 * p, q, 2 * r + w % 2);
  }

  lemma RemainderIs(x: int, d: int, q: int, r: int)
    requires d > 0 && x == d * q + r && 0 <= r < d
    ensures x % d == r
  {
    var q', r' := x / d, x % d;
    assert d * (q - q') == r' - r;
    if q > q' {
      AtLeast(d, q - q');
      assert false;
    } else if q < q' {
      AtLeast(d, q' - q);
      assert false;
    }
  }

  lemma AtLeast(d: int, k: int)
    requires d > 0 && k >= 1
    ensures d * k >= d
  {
  }

  // Single bits.

  /** Bit j of a number, counted from the lowest. */
  function Bit(x: nat, j: nat): nat
    decreases j
  {
    if j == 0 then x % 2 else Bit(x / 2, j - 1)
  }

  lemma BitIsBinary(x: nat, j: nat)
    ensures Bit(x, j) == 0 || Bit(x, j) == 1
    decreases j
  {
    if j > 0 {
      BitIsBinary(x / 2, j - 1);
    }
  }

  lemma {:induction false} NoHighBit(x: nat, n: nat, j: nat)
    requires x < Pow2(n) && n <= j
    ensures Bit(x, j) == 0
    decreases n
  {
    if n > 0 {
      NoHighBit(x / 2, n - 1, j - 1);
    } else if j > 0 {
      ZeroBit(j);
    }
  }

  lemma {:induction false} ZeroBit(j: nat)
    ensures Bit(0, j) == 0
  {
    if j > 0 {
      ZeroBit(j - 1);
    }
  }

  lemma {:induction false} AndBit(a: nat, b: nat, j: nat)
    ensures Bit(AndBits(a, b), j) == if Bit(a, j) == 1 && Bit(b, j) == 1 then 1 else 0
    decreases j
  {
    AndStep(a, b);
    if j > 0 {
      AndBit(a / 2, b / 2, j - 1);
      assert AndBits(a, b) / 2 == AndBits(a / 2, b / 2);
    }
  }

  lemma {:induction false} XorBit(a: nat, b: nat, j: nat)
    ensures Bit(XorBits(a, b), j) == if Bit(a, j) != Bit(b, j) then 1 else 0
    decreases j
  {
    XorStep(a, b);
    if j > 0 {
      XorBit(a / 2, b / 2, j - 1);
    }
  }

  lemma {:induction false} NotBitIn(x: nat, n: nat, j: nat)
    requires x < Pow2(n) && j < n
    ensures Bit(Pow2(n) - 1 - x, j) == 1 - Bit(x, j)
    decreases n
  {
    var p := Pow2(n - 1);
    assert (2 * p - 1 - x) / 2 == p - 1 - x / 2 && (2 * p - 1 - x) % 2 == 1 - x % 2;
    if j > 0 {
      NotBitIn(x / 2, n - 1, j - 1);
    }
  }

  lemma NotBit(x: word, j: nat)
    requires j < 32
    ensures Bit(Not(x), j) == 1 - Bit(x, j)
  {
    WordBits();
    NotBitIn(x, 32, j);
  }

  lemma {:induction false} ShiftRightBit(x: word, n: nat, j: nat)
    ensures Bit(ShiftRight(x, n), j) == Bit(x, j + n)
    decreases n
  {
    if n > 0 {
      ShiftRightBit(x / 2, n - 1, j);
    }
  }

  lemma {:induction false} WrapBit(x: nat, n: nat, j: nat)
    requires j < n
    ensures Bit(x % Pow2(n), j) == Bit(x, j)
    decreases n
  {
    HalfRemainder(x, Pow2(n - 1));
    var r := x % Pow2(n);
    assert r / 2 == x / 2 % Pow2(n - 1) && r % 2 == x % 2;
    if j > 0 {
      WrapBit(x / 2, n - 1, j - 1);
    }
  }

  lemma DoubledBit(x: word, j: nat)
    requires j < 32
    ensures Bit(x * 2 % WRAP, j) == if j == 0 then 0 else Bit(x, j - 1)
  {
    WordBits();
    WrapBit(x * 2, 32, j);
    assert x * 2 / 2 == x && x * 2 % 2 == 0;
  }

  lemma {:induction false} ShiftLeftBit(x: word, n: nat, j: nat)
    requires j < 32
    ensures Bit(ShiftLeft(x, n), j) == if j < n then 0 else Bit(x, j - n)
    decreases n
  {
    if n > 0 {
      ShiftLeftBit(x * 2 % WRAP, n - 1, j);
      if j >= n - 1 {
        DoubledBit(x, j - (n - 1));
      }
    }
  }

  lemma OrBit(a: word, b: word, j: nat)
    ensures Bit(Or(a, b), j) == if Bit(a, j) == 1 || Bit(b, j) == 1 then 1 else 0
  {
    XorBit(Xor(a, b), And(a, b), j);
    XorBit(a, b, j);
    AndBit(a, b, j);
    BitIsBinary(a, j);
    BitIsBinary(b, j);
  }

  // Bytes.

  /** The number that some bytes write, the first byte highest. */
  function Value(bytes: seq<byte>): nat {
    if bytes == [] then 0 else 256 * Value(bytes[..|bytes| - 1]) + bytes[|bytes| - 1]
  }

  lemma ValueOfFour(b0: byte, b1: byte, b2: byte, b3: byte)
    ensures Value([b0, b1, b2, b3]) == ((b0 * 256 + b1) * 256 + b2) * 256 + b3
  {
    assert Value([b0]) == b0;
    assert [b0, b1][..1] == [b0];
    assert Value([b0, b1]) == b0 * 256 + b1;
    assert [b0, b1, b2][..2] == [b0, b1];
    assert Value([b0, b1, b2]) == (b0 * 256 + b1) * 256 + b2;
    assert [b0, b1, b2, b3][..3] == [b0, b1, b2];
  }
}
