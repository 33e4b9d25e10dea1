/**
 What the tables and functions of SHA-256 are, said without them: the constants as digits of cube
 and square roots of primes, the logical functions bit by bit, the rounds as two recurrences.
 FIPS 180-4, sections 4.1.2, 4.2.2, 5.1.1, 5.3.3 and 6.2.2; src/sha256.c.
 */
module Sha256Laws {
  import opened Powers
  import opened Sha256
  import opened Words

  // The constants.

  const PRIMES_ROW0: seq<nat> := [2, 3, 5, 7, 11, 13, 17, 19]
  const PRIMES_ROW1: seq<nat> := [23, 29, 31, 37, 41, 43, 47, 53]
  const PRIMES_ROW2: seq<nat> := [59, 61, 67, 71, 73, 79, 83, 89]
  const PRIMES_ROW3: seq<nat> := [97, 101, 103, 107, 109, 113, 127, 131]
  const PRIMES_ROW4: seq<nat> := [137, 139, 149, 151, 157, 163, 167, 173]
  const PRIMES_ROW5: seq<nat> := [179, 181, 191, 193, 197, 199, 211, 223]
  const PRIMES_ROW6: seq<nat> := [227, 229, 233, 239, 241, 251, 257, 263]
  const PRIMES_ROW7: seq<nat> := [269, 271, 277, 281, 283, 293, 307, 311]

  const PRIMES: seq<nat> := PRIMES_ROW0 + PRIMES_ROW1 + PRIMES_ROW2 + PRIMES_ROW3
                            + PRIMES_ROW4 + PRIMES_ROW5 + PRIMES_ROW6 + PRIMES_ROW7

  /** k is the first 32 binary digits after the point of the cube root of p. */
  ghost predicate CubeRootDigits(p: nat, k: int) {
    exists r: nat :: Cubes(p, k, r)
  }

  predicate Cubes(p: nat, k: int, r: nat) {
    && Cube(r) <= p < Cube(r + 1)
    && Cube(r * WRAP + k) <= p * (WRAP * WRAP * WRAP) < Cube(r * WRAP + k + 1)
  }

  function Cube(x: int): int {
    x * x * x
  }

  /** The same for the square root. */
  ghost predicate SquareRootDigits(p: nat, h: int) {
    exists r: nat :: Squares(p, h, r)
  }

  predicate Squares(p: nat, h: int, r: nat) {
    r * r <= p < (r + 1) * (r + 1) && (r * WRAP + h) * (r * WRAP + h) <= p * (WRAP * WRAP)
    && p * (WRAP * WRAP) < (r * WRAP + h + 1) * (r * WRAP + h + 1)
  }

  lemma RootsRow0()
    ensures forall i :: 0 <= i < 8 ==> CubeRootDigits(PRIMES_ROW0[i], K_ROW0[i])
  {
    assert Cubes(PRIMES_ROW0[0], K_ROW0[0], 1);
    assert Cubes(PRIMES_ROW0[1], K_ROW0[1], 1);
    assert Cubes(PRIMES_ROW0[2], K_ROW0[2], 1);
    assert Cubes(PRIMES_ROW0[3], K_ROW0[3], 1);
    assert Cubes(PRIMES_ROW0[4], K_ROW0[4], 2);
    assert Cubes(PRIMES_ROW0[5], K_ROW0[5], 2);
    assert Cubes(PRIMES_ROW0[6], K_ROW0[6], 2);
    assert Cubes(PRIMES_ROW0[7], K_ROW0[7], 2);
  }

  lemma RootsRow1()
    ensures forall i :: 0 <= i < 8 ==> CubeRootDigits(PRIMES_ROW1[i], K_ROW1[i])
  {
    assert Cubes(PRIMES_ROW1[0], K_ROW1[0], 2);
    assert Cubes(PRIMES_ROW1[1], K_ROW1[1], 3);
    assert Cubes(PRIMES_ROW1[2], K_ROW1[2], 3);
    assert Cubes(PRIMES_ROW1[3], K_ROW1[3], 3);
    assert Cubes(PRIMES_ROW1[4], K_ROW1[4], 3);
    assert Cubes(PRIMES_ROW1[5], K_ROW1[5], 3);
    assert Cubes(PRIMES_ROW1[6], K_ROW1[6], 3);
    assert Cubes(PRIMES_ROW1[7], K_ROW1[7], 3);
  }

  lemma RootsRow2()
    ensures forall i :: 0 <= i < 8 ==> CubeRootDigits(PRIMES_ROW2[i], K_ROW2[i])
  {
    assert Cubes(PRIMES_ROW2[0], K_ROW2[0], 3);
    assert Cubes(PRIMES_ROW2[1], K_ROW2[1], 3);
    assert Cubes(PRIMES_ROW2[2], K_ROW2[2], 4);
    assert Cubes(PRIMES_ROW2[3], K_ROW2[3], 4);
    assert Cubes(PRIMES_ROW2[4], K_ROW2[4], 4);
    assert Cubes(PRIMES_ROW2[5], K_ROW2[5], 4);
    assert Cubes(PRIMES_ROW2[6], K_ROW2[6], 4);
    assert Cubes(PRIMES_ROW2[7], K_ROW2[7], 4);
  }

  lemma RootsRow3()
    ensures forall i :: 0 <= i < 8 ==> CubeRootDigits(PRIMES_ROW3[i], K_ROW3[i])
  {
    assert Cubes(PRIMES_ROW3[0], K_ROW3[0], 4);
    assert Cubes(PRIMES_ROW3[1], K_ROW3[1], 4);
    assert Cubes(PRIMES_ROW3[2], K_ROW3[2], 4);
    assert Cubes(PRIMES_ROW3[3], K_ROW3[3], 4);
    assert Cubes(PRIMES_ROW3[4], K_ROW3[4], 4);
    assert Cubes(PRIMES_ROW3[5], K_ROW3[5], 4);
    assert Cubes(PRIMES_ROW3[6], K_ROW3[6], 5);
    assert Cubes(PRIMES_ROW3[7], K_ROW3[7], 5);
  }

  lemma RootsRow4()
    ensures forall i :: 0 <= i < 8 ==> CubeRootDigits(PRIMES_ROW4[i], K_ROW4[i])
  {
    assert Cubes(PRIMES_ROW4[0], K_ROW4[0], 5);
    assert Cubes(PRIMES_ROW4[1], K_ROW4[1], 5);
    assert Cubes(PRIMES_ROW4[2], K_ROW4[2], 5);
    assert Cubes(PRIMES_ROW4[3], K_ROW4[3], 5);
    assert Cubes(PRIMES_ROW4[4], K_ROW4[4], 5);
    assert Cubes(PRIMES_ROW4[5], K_ROW4[5], 5);
    assert Cubes(PRIMES_ROW4[6], K_ROW4[6], 5);
    assert Cubes(PRIMES_ROW4[7], K_ROW4[7], 5);
  }

  lemma RootsRow5()
    ensures forall i :: 0 <= i < 8 ==> CubeRootDigits(PRIMES_ROW5[i], K_ROW5[i])
  {
    assert Cubes(PRIMES_ROW5[0], K_ROW5[0], 5);
    assert Cubes(PRIMES_ROW5[1], K_ROW5[1], 5);
    assert Cubes(PRIMES_ROW5[2], K_ROW5[2], 5);
    assert Cubes(PRIMES_ROW5[3], K_ROW5[3], 5);
    assert Cubes(PRIMES_ROW5[4], K_ROW5[4], 5);
    assert Cubes(PRIMES_ROW5[5], K_ROW5[5], 5);
    assert Cubes(PRIMES_ROW5[6], K_ROW5[6], 5);
    assert Cubes(PRIMES_ROW5[7], K_ROW5[7], 6);
  }

  lemma RootsRow6()
    ensures forall i :: 0 <= i < 8 ==> CubeRootDigits(PRIMES_ROW6[i], K_ROW6[i])
  {
    assert Cubes(PRIMES_ROW6[0], K_ROW6[0], 6);
    assert Cubes(PRIMES_ROW6[1], K_ROW6[1], 6);
    assert Cubes(PRIMES_ROW6[2], K_ROW6[2], 6);
    assert Cubes(PRIMES_ROW6[3], K_ROW6[3], 6);
    assert Cubes(PRIMES_ROW6[4], K_ROW6[4], 6);
    assert Cubes(PRIMES_ROW6[5], K_ROW6[5], 6);
    assert Cubes(PRIMES_ROW6[6], K_ROW6[6], 6);
    assert Cubes(PRIMES_ROW6[7], K_ROW6[7], 6);
  }

  lemma RootsRow7()
    ensures forall i :: 0 <= i < 8 ==> CubeRootDigits(PRIMES_ROW7[i], K_ROW7[i])
  {
    assert Cubes(PRIMES_ROW7[0], K_ROW7[0], 6);
    assert Cubes(PRIMES_ROW7[1], K_ROW7[1], 6);
    assert Cubes(PRIMES_ROW7[2], K_ROW7[2], 6);
    assert Cubes(PRIMES_ROW7[3], K_ROW7[3], 6);
    assert Cubes(PRIMES_ROW7[4], K_ROW7[4], 6);
    assert Cubes(PRIMES_ROW7[5], K_ROW7[5], 6);
    assert Cubes(PRIMES_ROW7[6], K_ROW7[6], 6);
    assert Cubes(PRIMES_ROW7[7], K_ROW7[7], 6);
  }

  /** Element i of eight rows of eight. */
  function Pick<T>(r0: seq<T>, r1: seq<T>, r2: seq<T>, r3: seq<T>,
                   r4: seq<T>, r5: seq<T>, r6: seq<T>, r7: seq<T>, i: nat): T
    requires |r0| == |r1| == |r2| == |r3| == |r4| == |r5| == |r6| == |r7| == 8 && i < 64
  {
    if i < 8 then r0[i] else if i < 16 then r1[i - 8] else if i < 24 then r2[i - 16]
    else if i < 32 then r3[i - 24] else if i < 40 then r4[i - 32] else if i < 48 then r5[i - 40]
    else if i < 56 then r6[i - 48] else r7[i - 56]
  }

  lemma Joined<T>(r0: seq<T>, r1: seq<T>, r2: seq<T>, r3: seq<T>,
                  r4: seq<T>, r5: seq<T>, r6: seq<T>, r7: seq<T>, i: nat)
    requires |r0| == |r1| == |r2| == |r3| == |r4| == |r5| == |r6| == |r7| == 8 && i < 64
    ensures (r0 + r1 + r2 + r3 + r4 + r5 + r6 + r7)[i] == Pick(r0, r1, r2, r3, r4, r5, r6, r7, i)
  {
  }

  lemma PickedRoots(i: nat)
    requires i < 64
    ensures
      CubeRootDigits(Pick(PRIMES_ROW0, PRIMES_ROW1, PRIMES_ROW2, PRIMES_ROW3,
                          PRIMES_ROW4, PRIMES_ROW5, PRIMES_ROW6, PRIMES_ROW7, i),
                     Pick(K_ROW0, K_ROW1, K_ROW2, K_ROW3, K_ROW4, K_ROW5, K_ROW6, K_ROW7, i))
  {
    if i < 8 {
  RootsRow0();
    }     else if i < 16 {
  RootsRow1();
    }     else if i < 24 {
  RootsRow2();
    }     else if i < 32 {
  RootsRow3();
    }     else if i < 40 {
  RootsRow4();
    }     else if i < 48 {
  RootsRow5();
    }     else if i < 56 {
  RootsRow6();
    }     else {
  RootsRow7();
    }
  }

  /** The round constants are the digits of the cube roots of the first 64 primes. */
  lemma RoundConstants(i: nat)
    requires i < 64
    ensures |K| == |PRIMES| == 64 && CubeRootDigits(PRIMES[i], K[i])
  {
    PickedRoots(i);
    Joined(K_ROW0, K_ROW1, K_ROW2, K_ROW3, K_ROW4, K_ROW5, K_ROW6, K_ROW7, i);
    Joined(PRIMES_ROW0, PRIMES_ROW1, PRIMES_ROW2, PRIMES_ROW3,
           PRIMES_ROW4, PRIMES_ROW5, PRIMES_ROW6, PRIMES_ROW7, i);
  }

  /** The initial hash value is the digits of the square roots of the first eight. */
  lemma InitialValue()
    ensures SquareRootDigits(PRIMES_ROW0[0], H0.h0) && SquareRootDigits(PRIMES_ROW0[1], H0.h1)
    ensures SquareRootDigits(PRIMES_ROW0[2], H0.h2) && SquareRootDigits(PRIMES_ROW0[3], H0.h3)
    ensures SquareRootDigits(PRIMES_ROW0[4], H0.h4) && SquareRootDigits(PRIMES_ROW0[5], H0.h5)
    ensures SquareRootDigits(PRIMES_ROW0[6], H0.h6) && SquareRootDigits(PRIMES_ROW0[7], H0.h7)
  {
    assert Squares(PRIMES_ROW0[0], H0.h0, 1);
    assert Squares(PRIMES_ROW0[1], H0.h1, 1);
    assert Squares(PRIMES_ROW0[2], H0.h2, 2);
    assert Squares(PRIMES_ROW0[3], H0.h3, 2);
    assert Squares(PRIMES_ROW0[4], H0.h4, 3);
    assert Squares(PRIMES_ROW0[5], H0.h5, 3);
    assert Squares(PRIMES_ROW0[6], H0.h6, 4);
    assert Squares(PRIMES_ROW0[7], H0.h7, 4);
  }

  // The logical functions, bit by bit.

  lemma RotatedBit(x: word, n: nat, j: nat)
    requires 0 < n < 32 && j < 32
    ensures Bit(RotateRight(x, n), j) == Bit(x, if j + n < 32 then j + n else j + n - 32)
  {
    WordBits();
    OrBit(ShiftRight(x, n), ShiftLeft(x, 32 - n), j);
    ShiftRightBit(x, n, j);
    ShiftLeftBit(x, 32 - n, j);
    if j + n >= 32 {
      NoHighBit(x, 32, j + n);
    }
    BitIsBinary(x, j + n);
    if j + n >= 32 {
      BitIsBinary(x, j + n - 32);
    }
  }

  /** A bit of x, the position taken modulo 32. */
  function Around(x: word, j: nat): nat {
    Bit(x, j % 32)
  }

  lemma RotatedAround(x: word, n: nat, j: nat)
    requires 0 < n < 32 && j < 32
    ensures Bit(RotateRight(x, n), j) == Around(x, j + n)
  {
    RotatedBit(x, n, j);
  }

  /** Choose: where x has a one the bit is from y, elsewhere from z. */
  lemma ChBit(x: word, y: word, z: word, j: nat)
    requires j < 32
    ensures Bit(Ch(x, y, z), j) == if Bit(x, j) == 1 then Bit(y, j) else Bit(z, j)
  {
    XorBit(And(x, y), And(Not(x), z), j);
    AndBit(x, y, j);
    AndBit(Not(x), z, j);
    NotBit(x, j);
    BitIsBinary(x, j);
    BitIsBinary(y, j);
    BitIsBinary(z, j);
  }

  /** Majority: the bit that at least two of the three have. */
  lemma MajBit(x: word, y: word, z: word, j: nat)
    ensures Bit(Maj(x, y, z), j) == if Bit(x, j) + Bit(y, j) + Bit(z, j) >= 2 then 1 else 0
  {
    XorBit(Xor(And(x, y), And(x, z)), And(y, z), j);
    XorBit(And(x, y), And(x, z), j);
    AndBit(x, y, j);
    AndBit(x, z, j);
    AndBit(y, z, j);
    BitIsBinary(x, j);
    BitIsBinary(y, j);
    BitIsBinary(z, j);
  }

  lemma Parity(a: word, b: word, c: word, j: nat)
    ensures Bit(Xor(Xor(a, b), c), j) == (Bit(a, j) + Bit(b, j) + Bit(c, j)) % 2
  {
    XorBit(Xor(a, b), c, j);
    XorBit(a, b, j);
    BitIsBinary(a, j);
    BitIsBinary(b, j);
    BitIsBinary(c, j);
  }

  lemma BigSigma0Bit(x: word, j: nat)
    requires j < 32
    ensures Bit(BigSigma0(x), j) == (Around(x, j + 2) + Around(x, j + 13) + Around(x, j + 22)) % 2
  {
    Parity(RotateRight(x, 2), RotateRight(x, 13), RotateRight(x, 22), j);
    RotatedAround(x, 2, j);
    RotatedAround(x, 13, j);
    RotatedAround(x, 22, j);
  }

  lemma BigSigma1Bit(x: word, j: nat)
    requires j < 32
    ensures Bit(BigSigma1(x), j) == (Around(x, j + 6) + Around(x, j + 11) + Around(x, j + 25)) % 2
  {
    Parity(RotateRight(x, 6), RotateRight(x, 11), RotateRight(x, 25), j);
    RotatedAround(x, 6, j);
    RotatedAround(x, 11, j);
    RotatedAround(x, 25, j);
  }

  lemma SmallSigma0Bit(x: word, j: nat)
    requires j < 32
    ensures Bit(SmallSigma0(x), j) == (Around(x, j + 7) + Around(x, j + 18) + Bit(x, j + 3)) % 2
  {
    Parity(RotateRight(x, 7), RotateRight(x, 18), ShiftRight(x, 3), j);
    RotatedAround(x, 7, j);
    RotatedAround(x, 18, j);
    ShiftRightBit(x, 3, j);
  }

  lemma SmallSigma1Bit(x: word, j: nat)
    requires j < 32
    ensures Bit(SmallSigma1(x), j) == (Around(x, j + 17) + Around(x, j + 19) + Bit(x, j + 10)) % 2
  {
    Parity(RotateRight(x, 17), RotateRight(x, 19), ShiftRight(x, 10), j);
    RotatedAround(x, 17, j);
    RotatedAround(x, 19, j);
    ShiftRightBit(x, 10, j);
  }

  // The padding.

  lemma ByteRemainder(x: nat, p: nat)
    requires p > 0
    ensures x % (256 * p) == 256 * (x / 256 % p) + x % 256
  {
    var q, r := x / 256 / p, x / 256 % p;
    assert x == 256 * p * q + (256 * r + x % 256) by {
      assert x / 256 == p * q + r;
    }
    RemainderIs(x, 256 * p, q, 256 * r + x % 256);
  }

  lemma {:induction false} BytesValue(x: nat, n: nat)
    ensures Value(BytesOf(x, n)) == x % Pow2(8 * n)
  {
    if n > 0 {
      BytesValue(x / 256, n - 1);
      ByteRemainder(x, Pow2(8 * n - 8));
      var bs := BytesOf(x, n);
      assert bs[..n - 1] == BytesOf(x / 256, n - 1);
      EightMore(8 * n - 8);
    }
  }

  lemma PadTail(message: seq<byte>)
    ensures |Pad(message)| >= 8 && Pad(message)[|Pad(message)| - 8..] == BytesOf(8 * |message|, 8)
  {
    var front := message + [0x80] + seq(ZeroCount(|message|), _ => 0 as byte);
    var tail := BytesOf(8 * |message|, 8);
    assert Pad(message) == front + tail;
  }

  lemma LengthValue(size: nat)
    requires size < Pow2(64)
    ensures Value(BytesOf(size, 8)) == size
  {
    BytesValue(size, 8);
    RemainderIs(size, Pow2(64), 0, size);
  }

  /** The padded message: the message, a one bit, zeros, and the bit length in the last eight bytes. */
  lemma PaddedMessage(message: seq<byte>)
    requires 8 * |message| < Pow2(64)
    ensures
      var padded := Pad(message);
      && |padded| % 64 == 0 && |message| + 9 <= |padded| < |message| + 73
      && padded[..|message|] == message && padded[|message|] == 0x80
      && (forall i :: |message| < i < |padded| - 8 ==> padded[i] == 0)
      && Value(padded[|padded| - 8..]) == 8 * |message|
  {
    PadLength(message);
    PadTail(message);
    LengthValue(8 * |message|);
    forall i | 0 <= i < |Pad(message)|
      ensures Pad(message)[i] == PadByte(message, BytesOf(8 * |message|, 8), |Pad(message)|, i)
    {
      PadAt(message, i);
    }
  }

  // The schedule.

  lemma {:induction false} SchedulePrefix(p: Primitives, block: seq<byte>, n: nat, m: nat)
    requires |block| == 64 && m <= n
    ensures Schedule(p, block, n)[..m] == Schedule(p, block, m)
    decreases n
  {
    if m < n {
      SchedulePrefix(p, block, n - 1, m);
    }
  }

  lemma ScheduleAt(p: Primitives, block: seq<byte>, n: nat, t: nat)
    requires |block| == 64 && t < n
    ensures
      var w := Schedule(p, block, n);
      w[t] == if t < 16 then BigEndian(block[4 * t], block[4 * t + 1], block[4 * t + 2], block[4 * t + 3])
              else p.extend(w[..t])
  {
    var w := Schedule(p, block, n);
    SchedulePrefix(p, block, n, t);
    SchedulePrefix(p, block, n, t + 1);
    assert w[t] == w[..t + 1][t];
  }

  /** The recurrence of section 6.2.2. */
  ghost predicate Extends(w: seq<word>, t: nat)
    requires 16 <= t < |w|
  {
    w[t] == (SmallSigma1(w[t - 2]) + w[t - 7] + SmallSigma0(w[t - 15]) + w[t - 16]) % WRAP
  }

  lemma ExtensionSum(w: seq<word>, t: nat)
    requires 16 <= t < |w| && w[t] == Extension(w[..t])
    ensures Extends(w, t)
  {
    SumOfFour(SmallSigma1(w[t - 2]), w[t - 7], SmallSigma0(w[t - 15]), w[t - 16]);
  }

  lemma FirstWords(block: seq<byte>, t: nat)
    requires |block| == 64 && t < 16
    ensures Value(block[4 * t..4 * t + 4])
            == BigEndian(block[4 * t], block[4 * t + 1], block[4 * t + 2], block[4 * t + 3])
  {
    ValueOfFour(block[4 * t], block[4 * t + 1], block[4 * t + 2], block[4 * t + 3]);
    assert block[4 * t..4 * t + 4] == [block[4 * t], block[4 * t + 1], block[4 * t + 2], block[4 * t + 3]];
  }

  /** Sixteen big-endian words of the block, then the recurrence of section 6.2.2. */
  lemma ScheduleLaw(block: seq<byte>, n: nat, t: nat)
    requires |block| == 64 && t < n
    ensures
      var w := Schedule(FIPS, block, n);
      if t < 16 then w[t] == Value(block[4 * t..4 * t + 4]) else Extends(w, t)
  {
    ScheduleAt(FIPS, block, n, t);
    if t < 16 {
      FirstWords(block, t);
    } else {
      ExtensionSum(Schedule(FIPS, block, n), t);
    }
  }

  // The rounds.

  /** The rounds are those of section 6.2.2 with these functions. */
  ghost predicate RoundsBy(p: Primitives, l: Logic) {
    forall s, k, w :: p.round(s, k, w) == RoundBy(l, s, k, w)
  }

  /** a and e after n rounds. */
  function A(p: Primitives, s: Hash, ws: seq<word>, ks: seq<word>, n: nat): word
    requires n <= |ks| == |ws|
  {
    Rounds(p, s, ws, ks, n).h0
  }

  function E(p: Primitives, s: Hash, ws: seq<word>, ks: seq<word>, n: nat): word
    requires n <= |ks| == |ws|
  {
    Rounds(p, s, ws, ks, n).h4
  }

  /** The next e, from a four rounds ago and the last four values of e. */
  function NextE(l: Logic, a4: word, e1: word, e2: word, e3: word, e4: word, k: word, w: word): word {
    (a4 + e4 + l.bigSigma1(e1) + l.ch(e1, e2, e3) + k + w) % WRAP
  }

  /** The next a, from the last three values of a and the last four of e. */
  function NextA(l: Logic, a1: word, a2: word, a3: word, e1: word, e2: word, e3: word, e4: word, k: word, w: word)
    : word
  {
    (e4 + l.bigSigma1(e1) + l.ch(e1, e2, e3) + k + w + l.bigSigma0(a1) + l.maj(a1, a2, a3)) % WRAP
  }

  lemma SumOfFive(a: word, b: word, c: word, d: word, e: word)
    ensures Add(Add(Add(Add(a, b), c), d), e) == (a + b + c + d + e) % WRAP
  {
    SumOfFour(a, b, c, d);
    WrapAdd(a + b + c + d, e);
  }

  lemma RoundSums(h3: word, h7: word, s1: word, ch: word, k: word, w: word, s0: word, maj: word)
    ensures
      var t1 := Add(Add(Add(Add(h7, s1), ch), k), w);
      && Add(h3, t1) == (h3 + h7 + s1 + ch + k + w) % WRAP
      && Add(t1, Add(s0, maj)) == (h7 + s1 + ch + k + w + s0 + maj) % WRAP
  {
    var x := h7 + s1 + ch + k + w;
    SumOfFive(h7, s1, ch, k, w);
    WrapAdd(x, h3);
    WrapAdd(s0 + maj, x % WRAP);
    WrapAdd(x, s0 + maj);
  }

  /** One round: six variables move along and two are computed. */
  lemma OneRound(p: Primitives, l: Logic, s: Hash, ws: seq<word>, ks: seq<word>, t: nat)
    requires RoundsBy(p, l) && t < |ks| == |ws|
    ensures
      var m, n := Rounds(p, s, ws, ks, t), Rounds(p, s, ws, ks, t + 1);
      && n.h1 == m.h0 && n.h2 == m.h1 && n.h3 == m.h2 && n.h5 == m.h4 && n.h6 == m.h5 && n.h7 == m.h6
      && n.h4 == NextE(l, m.h3, m.h4, m.h5, m.h6, m.h7, ks[t], ws[t])
      && n.h0 == NextA(l, m.h0, m.h1, m.h2, m.h4, m.h5, m.h6, m.h7, ks[t], ws[t])
  {
    var m := Rounds(p, s, ws, ks, t);
    RoundSums(m.h3, m.h7, l.bigSigma1(m.h4), l.ch(m.h4, m.h5, m.h6), ks[t], ws[t],
              l.bigSigma0(m.h0), l.maj(m.h0, m.h1, m.h2));
  }

  /**
   Only a and e are computed. The other six variables are the values of a and e one, two and three
   rounds ago, so the rounds are one recurrence in a and one in e.
   */
  lemma RoundRecurrence(p: Primitives, l: Logic, s: Hash, ws: seq<word>, ks: seq<word>, t: nat)
    requires RoundsBy(p, l) && 3 <= t < |ks| == |ws|
    ensures
      && E(p, s, ws, ks, t + 1)
         == NextE(l, A(p, s, ws, ks, t - 3), E(p, s, ws, ks, t), E(p, s, ws, ks, t - 1), E(p, s, ws, ks, t - 2),
                  E(p, s, ws, ks, t - 3), ks[t], ws[t])
      && A(p, s, ws, ks, t + 1)
         == NextA(l, A(p, s, ws, ks, t), A(p, s, ws, ks, t - 1), A(p, s, ws, ks, t - 2),
                  E(p, s, ws, ks, t), E(p, s, ws, ks, t - 1), E(p, s, ws, ks, t - 2), E(p, s, ws, ks, t - 3),
                  ks[t], ws[t])
  {
    OneRound(p, l, s, ws, ks, t);
    OneRound(p, l, s, ws, ks, t - 1);
    OneRound(p, l, s, ws, ks, t - 2);
    OneRound(p, l, s, ws, ks, t - 3);
  }

  lemma FipsRounds()
    ensures RoundsBy(FIPS, Logic(BigSigma0, BigSigma1, Ch, Maj))
  {
  }

  /** What one block does to the hash value: the state after the rounds is added word by word. */
  lemma CompressionSums(p: Primitives, s: Hash, block: seq<byte>, ks: seq<word>)
    requires |block| == 64
    ensures
      var r, n := Rounds(p, s, Schedule(p, block, |ks|), ks, |ks|), Compress(p, s, block, ks);
      && n.h0 == (s.h0 + r.h0) % WRAP && n.h1 == (s.h1 + r.h1) % WRAP
      && n.h2 == (s.h2 + r.h2) % WRAP && n.h3 == (s.h3 + r.h3) % WRAP
      && n.h4 == (s.h4 + r.h4) % WRAP && n.h5 == (s.h5 + r.h5) % WRAP
      && n.h6 == (s.h6 + r.h6) % WRAP && n.h7 == (s.h7 + r.h7) % WRAP
  {
  }
}
