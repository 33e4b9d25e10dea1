/**
 Masking client addresses so that neighbours share one greylisting entry. IPv4 addresses are
 32-bit numbers, IPv6 addresses arrays of 16 bytes. src/addrutils.c.
 */
module AddressMask {
  import opened Powers
  import opened Words

  /** A number with its n low bits cleared. */
  function Clear(x: nat, n: nat): nat
    decreases n
  {
    if n == 0 then x else 2 * Clear(x / 2, n - 1)
  }

  /** Clearing low bits is rounding down to a multiple. */
  lemma {:induction false} ClearExact(x: nat, n: nat)
    ensures Clear(x, n) == x - x % Pow2(n)
    decreases n
  {
    if n > 0 {
      ClearExact(x / 2, n - 1);
      HalfRemainder(x, Pow2(n - 1));
    }
  }

  /** Clearing twice is clearing the larger number of bits. */
  lemma {:induction false} ClearTwice(x: nat, a: nat, b: nat)
    ensures Clear(Clear(x, a), b) == Clear(x, if a < b then b else a)
    decreases a
  {
    if a > 0 && b > 0 {
      assert Clear(x, a) / 2 == Clear(x / 2, a - 1);
      ClearTwice(x / 2, a - 1, b - 1);
    }
  }

  ghost predicate SameBits(x: nat, y: nat, from: nat, to: nat) {
    forall j :: from <= j < to ==> Bit(x, j) == Bit(y, j)
  }

  /** Two numbers of w bits agree after clearing exactly when their other bits agree. */
  lemma {:induction false} ClearSame(x: nat, y: nat, n: nat, w: nat)
    requires x < Pow2(w) && y < Pow2(w) && n <= w
    ensures Clear(x, n) == Clear(y, n) <==> SameBits(x, y, n, w)
    decreases w
  {
    if w > 0 {
      assert Pow2(w) == 2 * Pow2(w - 1);
      var n' := if n == 0 then 0 else n - 1;
      ClearSame(x / 2, y / 2, n', w - 1);
      forall j | 0 < j < w
        ensures Bit(x, j) == Bit(x / 2, j - 1) && Bit(y, j) == Bit(y / 2, j - 1)
      {
      }
      if SameBits(x, y, n, w) {
        forall j | n' <= j < w - 1
          ensures Bit(x / 2, j) == Bit(y / 2, j)
        {
          assert Bit(x, j + 1) == Bit(y, j + 1);
        }
      }
      if n == 0 {
        assert x == y <==> x / 2 == y / 2 && Bit(x, 0) == Bit(y, 0);
      }
    }
  }

  /** The masks of the code: all ones, less n low ones. */
  lemma {:induction false} AndHighMask(x: nat, w: nat, n: nat)
    requires x < Pow2(w) && n <= w
    ensures AndBits(x, XorBits(Pow2(w) - 1, Pow2(n) - 1)) == Clear(x, n)
    decreases w
  {
    if n == 0 {
      AndAll(x, w);
    } else {
      AndHighMask(x / 2, w - 1, n - 1);
      AndHighNext(x, Pow2(w - 1), Pow2(n - 1), Clear(x / 2, n - 1));
    }
  }

  lemma AndAll(x: nat, w: nat)
    requires x < Pow2(w)
    ensures AndBits(x, XorBits(Pow2(w) - 1, 0)) == x
  {
    XorZero(Pow2(w) - 1);
    AndLowMask(x, w);
    Small(x, Pow2(w));
  }

  lemma AndHighNext(x: nat, p: nat, q: nat, r: nat)
    requires p > 0 && q > 0 && AndBits(x / 2, XorBits(p - 1, q - 1)) == r
    ensures AndBits(x, XorBits(2 * p - 1, 2 * q - 1)) == 2 * r
  {
    AndHighStep(x, p, q);
  }

  lemma AndHighStep(x: nat, p: nat, q: nat)
    requires p > 0 && q > 0
    ensures AndBits(x, XorBits(2 * p - 1, 2 * q - 1)) == 2 * AndBits(x / 2, XorBits(p - 1, q - 1))
  {
    XorStep(2 * p - 1, 2 * q - 1);
    assert (2 * p - 1) / 2 == p - 1 && (2 * q - 1) / 2 == q - 1;
    AndStep(x, XorBits(2 * p - 1, 2 * q - 1));
  }

  lemma Small(x: nat, p: nat)
    requires x < p
    ensures x % p == x
  {
  }

  /** (1 << n) - 1, in 32 bits. */
  function LowOnes(n: nat): word {
    (ShiftLeft(1, n) - 1) % WRAP
  }

  lemma LowOnesExact(n: nat)
    requires n < 32
    ensures LowOnes(n) == Pow2(n) - 1
  {
    WordBits();
    PowOrder(n, 31);
    assert Pow2(32) == 2 * Pow2(31);
    ShiftedOne(1, n);
    Small(Pow2(n) - 1, WRAP);
  }

  // IPv4.

  /** grey_mask_v4, on the address in host order. */
  function GreyMaskV4(ip: word, m: nat): word
    requires 1 <= m <= 32
  {
    And(ip, Xor(0xffff_ffff, LowOnes(32 - m)))
  }

  lemma {:induction false} ShiftedOne(x: word, n: nat)
    requires x * Pow2(n) < WRAP
    ensures ShiftLeft(x, n) == x * Pow2(n)
    decreases n
  {
    if n > 0 {
      assert x * Pow2(n) == (2 * x) * Pow2(n - 1);
      Doubled(x, Pow2(n - 1));
      ShiftedOne(2 * x, n - 1);
    }
  }

  lemma Doubled(x: nat, p: nat)
    requires p > 0
    ensures 2 * x <= (2 * x) * p
  {
    if x > 0 {
      AtLeast(2 * x, p);
    }
  }

  lemma {:induction false} PowOrder(a: nat, b: nat)
    requires a <= b
    ensures Pow2(a) <= Pow2(b)
    decreases b
  {
    if a < b {
      PowOrder(a, b - 1);
    }
  }

  lemma V4Clears(ip: word, m: nat)
    requires 1 <= m <= 32
    ensures GreyMaskV4(ip, m) == Clear(ip, 32 - m)
  {
    WordBits();
    LowOnesExact(32 - m);
    AndHighMask(ip, 32, 32 - m);
  }

  /** Two addresses share an entry exactly when their first m bits agree. */
  lemma V4PrefixExactly(a: word, b: word, m: nat)
    requires 1 <= m <= 32
    ensures GreyMaskV4(a, m) == GreyMaskV4(b, m) <==> SameBits(a, b, 32 - m, 32)
  {
    WordBits();
    V4Clears(a, m);
    V4Clears(b, m);
    ClearSame(a, b, 32 - m, 32);
  }

  lemma V4Nested(ip: word, m: nat, k: nat)
    requires 1 <= m <= 32 && 1 <= k <= 32
    ensures GreyMaskV4(GreyMaskV4(ip, m), k) == GreyMaskV4(ip, if m < k then m else k)
  {
    V4Clears(ip, m);
    V4Clears(GreyMaskV4(ip, m), k);
    V4Clears(ip, if m < k then m else k);
    ClearTwice(ip, 32 - m, 32 - k);
  }

  // IPv6.

  /** What the loop does to byte i. */
  function MaskByte(b: byte, m: nat, i: nat): (r: byte) {
    if i < m / 8 then b
    else if i > m / 8 then And(b, 0)
    else And(b, Xor(0xff, LowOnes(8 - m % 8)))
  }

  function Masked(bytes: seq<byte>, m: nat): (r: seq<byte>)
    ensures |r| == |bytes|
  {
    seq(|bytes|, i requires 0 <= i < |bytes| => MaskByte(bytes[i], m, i))
  }

  /** grey_mask_v6, in place. */
  method GreyMaskV6(addr: array<byte>, m: nat)
    requires addr.Length == 16 && m <= 128
    modifies addr
    ensures addr[..] == Masked(old(addr[..]), m)
    ensures Value(addr[..]) == Clear(Value(old(addr[..])), 128 - m)
  {
    var i := 0;
    while i < addr.Length
      invariant 0 <= i <= addr.Length
      invariant forall k :: 0 <= k < i ==> addr[k] == MaskByte(old(addr[k]), m, k)
      invariant forall k :: i <= k < addr.Length ==> addr[k] == old(addr[k])
    {
      if i < m / 8 {
        i := i + 1;
        continue;
      }
      var maskPart: word;
      if i > m / 8 {
        maskPart := 0;
      } else {
        maskPart := Xor(0xff, LowOnes(8 - m % 8));
      }
      addr[i] := And(addr[i], maskPart);
      i := i + 1;
    }
    assert addr[..] == Masked(old(addr[..]), m);
    ValueMasked(old(addr[..]), m);
  }

  /** How many low bits of byte i the mask clears. */
  function Cleared(m: nat, i: nat): nat {
    if i < m / 8 then 0 else if i > m / 8 then 8 else 8 - m % 8
  }

  lemma MaskByteClears(b: byte, m: nat, i: nat)
    ensures MaskByte(b, m, i) == Clear(b, Cleared(m, i))
  {
    assert Pow2(8) == 256 by {
      assert Pow2(4) == 16;
    }
    if i > m / 8 {
      AndZero(b);
      ClearExact(b, 8);
    } else if i == m / 8 {
      LowOnesExact(8 - m % 8);
      AndHighMask(b, 8, 8 - m % 8);
    }
  }

  /** Clearing reaches into the high part only beyond the k low bits. */
  lemma {:induction false} ClearParts(high: nat, low: nat, k: nat, n: nat)
    requires low < Pow2(k)
    ensures Clear(Pow2(k) * high + low, n) ==
      if n <= k then Pow2(k) * high + Clear(low, n) else Pow2(k) * Clear(high, n - k)
    decreases k
  {
    if k > 0 && n > 0 {
      var p := Pow2(k - 1);
      Twice(p, high);
      assert (Pow2(k) * high + low) / 2 == p * high + low / 2;
      ClearParts(high, low / 2, k - 1, n - 1);
      if n > k {
        Twice(p, Clear(high, n - k));
      }
    } else if k == 0 {
      assert Pow2(0) * high + low == high;
    }
  }

  lemma Twice(p: nat, h: nat)
    ensures (2 * p) * h == 2 * (p * h)
  {
  }

  /** The mask of the bytes before the last. */
  function FrontMask(m: nat, n: nat): nat {
    if m < 8 * n then m else 8 * n
  }

  lemma MaskedFront(bytes: seq<byte>, m: nat, n: nat)
    requires n < |bytes|
    ensures Masked(bytes, m)[..n] == Masked(bytes[..n], FrontMask(m, n))
  {
    var m' := FrontMask(m, n);
    forall i | 0 <= i < n
      ensures MaskByte(bytes[i], m, i) == MaskByte(bytes[i], m', i)
    {
      if m' != m {
        assert i < m / 8 && i < m' / 8;
      }
    }
  }

  lemma LastByte(high: nat, last: byte, m: nat, n: nat)
    requires m <= 8 * n + 8
    ensures 256 * Clear(high, 8 * n - FrontMask(m, n)) + Clear(last, Cleared(m, n))
         == Clear(256 * high + last, 8 * n + 8 - m)
  {
    ByteParts(high, last, 8 * n + 8 - m);
    if m < 8 * n {
      assert m / 8 < n && Cleared(m, n) == 8;
    } else {
      assert m == 8 * n + 8 ==> m / 8 == n + 1;
      assert m < 8 * n + 8 ==> m / 8 == n && m % 8 == m - 8 * n;
      assert Cleared(m, n) == 8 * n + 8 - m;
    }
  }

  lemma ByteParts(high: nat, last: byte, n: nat)
    ensures n <= 8 ==> Clear(256 * high + last, n) == 256 * high + Clear(last, n)
    ensures n > 8 ==> Clear(256 * high + last, n) == 256 * Clear(high, n - 8)
    ensures Clear(last, 8) == 0
  {
    assert Pow2(8) == 256 by {
      assert Pow2(4) == 16;
    }
    ClearParts(high, last, 8, n);
    ClearExact(last, 8);
    Small(last, 256);
  }

  /** The byte loop clears the low bits of the whole address. */
  lemma {:induction false} ValueMasked(bytes: seq<byte>, m: nat)
    requires m <= 8 * |bytes|
    ensures Value(Masked(bytes, m)) == Clear(Value(bytes), 8 * |bytes| - m)
    decreases |bytes|
  {
    if bytes != [] {
      var n := |bytes| - 1;
      ValueMasked(bytes[..n], FrontMask(m, n));
      MaskedFront(bytes, m, n);
      MaskByteClears(bytes[n], m, n);
      ValueStep(Masked(bytes, m), bytes, m, n);
    }
  }

  lemma ValueStep(masked: seq<byte>, bytes: seq<byte>, m: nat, n: nat)
    requires |masked| == |bytes| == n + 1 && m <= 8 * n + 8
    requires Value(masked[..n]) == Clear(Value(bytes[..n]), 8 * n - FrontMask(m, n))
    requires masked[n] == Clear(bytes[n], Cleared(m, n))
    ensures Value(masked) == Clear(Value(bytes), 8 * n + 8 - m)
  {
    LastByte(Value(bytes[..n]), bytes[n], m, n);
  }

  lemma {:induction false} ValueBound(bytes: seq<byte>)
    ensures Value(bytes) < Pow2(8 * |bytes|)
  {
    if bytes != [] {
      var n := 8 * |bytes|;
      ValueBound(bytes[..|bytes| - 1]);
      PowEight(n);
    }
  }

  lemma PowEight(n: nat)
    requires n >= 8
    ensures Pow2(n) == 256 * Pow2(n - 8)
  {
    assert Pow2(n) == 4 * Pow2(n - 2);
    assert Pow2(n - 2) == 4 * Pow2(n - 4);
    assert Pow2(n - 4) == 4 * Pow2(n - 6);
    assert Pow2(n - 6) == 4 * Pow2(n - 8);
  }

  lemma {:induction false} ValueInjective(a: seq<byte>, b: seq<byte>)
    requires |a| == |b| && Value(a) == Value(b)
    ensures a == b
    decreases |a|
  {
    if a != [] {
      var n := |a| - 1;
      ValueInjective(a[..n], b[..n]);
      assert a == a[..n] + [a[n]] && b == b[..n] + [b[n]];
    }
  }

  /** Two addresses share an entry exactly when their first m bits agree. */
  lemma V6PrefixExactly(a: seq<byte>, b: seq<byte>, m: nat)
    requires |a| == |b| == 16 && m <= 128
    ensures Masked(a, m) == Masked(b, m) <==> SameBits(Value(a), Value(b), 128 - m, 128)
  {
    ValueMasked(a, m);
    ValueMasked(b, m);
    ValueBound(a);
    ValueBound(b);
    ClearSame(Value(a), Value(b), 128 - m, 128);
    if Value(Masked(a, m)) == Value(Masked(b, m)) {
      ValueInjective(Masked(a, m), Masked(b, m));
    }
  }

  lemma V6Nested(a: seq<byte>, m: nat, k: nat)
    requires |a| == 16 && m <= 128 && k <= 128
    ensures Masked(Masked(a, m), k) == Masked(a, if m < k then m else k)
  {
    var least := if m < k then m else k;
    ValueMasked(a, m);
    ValueMasked(Masked(a, m), k);
    ValueMasked(a, least);
    ClearTwice(Value(a), 128 - m, 128 - k);
    ValueInjective(Masked(Masked(a, m), k), Masked(a, least));
  }
}
