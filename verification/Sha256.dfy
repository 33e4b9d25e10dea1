/**
 SHA-256. The FIPS functions state the standard (FIPS 180-4): pad the whole message first, then
 hash block by block. The methods follow the program, which never builds the padded message.
 src/sha256.c.
 */
module Sha256 {
  import opened Words

  /** A sha_256_t, or the working variables a to h. */
  datatype Hash = Hash(h0: word, h1: word, h2: word, h3: word, h4: word, h5: word, h6: word, h7: word)

  const H0 := Hash(0x6a09e667, 0xbb67ae85, 0x3c6ef372, 0xa54ff53a, 0x510e527f, 0x9b05688c, 0x1f83d9ab, 0x5be0cd19)

  // The round constants, in rows of eight.
  const K_ROW0: seq<word> := [0x428a2f98, 0x71374491, 0xb5c0fbcf, 0xe9b5dba5,
                              0x3956c25b, 0x59f111f1, 0x923f82a4, 0xab1c5ed5]
  const K_ROW1: seq<word> := [0xd807aa98, 0x12835b01, 0x243185be, 0x550c7dc3,
                              0x72be5d74, 0x80deb1fe, 0x9bdc06a7, 0xc19bf174]
  const K_ROW2: seq<word> := [0xe49b69c1, 0xefbe4786, 0x0fc19dc6, 0x240ca1cc,
                              0x2de92c6f, 0x4a7484aa, 0x5cb0a9dc, 0x76f988da]
  const K_ROW3: seq<word> := [0x983e5152, 0xa831c66d, 0xb00327c8, 0xbf597fc7,
                              0xc6e00bf3, 0xd5a79147, 0x06ca6351, 0x14292967]
  const K_ROW4: seq<word> := [0x27b70a85, 0x2e1b2138, 0x4d2c6dfc, 0x53380d13,
                              0x650a7354, 0x766a0abb, 0x81c2c92e, 0x92722c85]
  const K_ROW5: seq<word> := [0xa2bfe8a1, 0xa81a664b, 0xc24b8b70, 0xc76c51a3,
                              0xd192e819, 0xd6990624, 0xf40e3585, 0x106aa070]
  const K_ROW6: seq<word> := [0x19a4c116, 0x1e376c08, 0x2748774c, 0x34b0bcb5,
                              0x391c0cb3, 0x4ed8aa4a, 0x5b9cca4f, 0x682e6ff3]
  const K_ROW7: seq<word> := [0x748f82ee, 0x78a5636f, 0x84c87814, 0x8cc70208,
                              0x90befffa, 0xa4506ceb, 0xbef9a3f7, 0xc67178f2]

  const K: seq<word> := K_ROW0 + K_ROW1 + K_ROW2 + K_ROW3 + K_ROW4 + K_ROW5 + K_ROW6 + K_ROW7

  // The standard.

  /** Section 3.2. */
  function RotateRight(x: word, n: nat): word
    requires 0 < n < 32
  {
    Or(ShiftRight(x, n), ShiftLeft(x, 32 - n))
  }

  /** Section 4.1.2. */
  function Ch(x: word, y: word, z: word): word { Xor(And(x, y), And(Not(x), z)) }

  function Maj(x: word, y: word, z: word): word { Xor(Xor(And(x, y), And(x, z)), And(y, z)) }

  function BigSigma0(x: word): word {
    Xor(Xor(RotateRight(x, 2), RotateRight(x, 13)), RotateRight(x, 22))
  }

  function BigSigma1(x: word): word {
    Xor(Xor(RotateRight(x, 6), RotateRight(x, 11)), RotateRight(x, 25))
  }

  function SmallSigma0(x: word): word {
    Xor(Xor(RotateRight(x, 7), RotateRight(x, 18)), ShiftRight(x, 3))
  }

  function SmallSigma1(x: word): word {
    Xor(Xor(RotateRight(x, 17), RotateRight(x, 19)), ShiftRight(x, 10))
  }

  function BigEndian(b0: byte, b1: byte, b2: byte, b3: byte): word
  {
    ((b0 * 256 + b1) * 256 + b2) * 256 + b3
  }

  /** Section 6.2.2, step 1: the next word of the message schedule after the first sixteen. */
  function Extension(ws: seq<word>): word {
    var t := |ws|;
    if t < 16 then 0
    else Add(Add(Add(SmallSigma1(ws[t - 2]), ws[t - 7]), SmallSigma0(ws[t - 15])), ws[t - 16])
  }

  /** The functions of section 4.1.2 that a round uses. */
  datatype Logic = Logic(
    bigSigma0: word -> word,
    bigSigma1: word -> word,
    ch: (word, word, word) -> word,
    maj: (word, word, word) -> word)

  /** Section 6.2.2, step 3: one round. */
  function RoundBy(l: Logic, s: Hash, k: word, w: word): Hash {
    var t1 := Add(Add(Add(Add(s.h7, l.bigSigma1(s.h4)), l.ch(s.h4, s.h5, s.h6)), k), w);
    var t2 := Add(l.bigSigma0(s.h0), l.maj(s.h0, s.h1, s.h2));
    Hash(Add(t1, t2), s.h0, s.h1, s.h2, Add(s.h3, t1), s.h4, s.h5, s.h6)
  }

  function Round(s: Hash, k: word, w: word): Hash {
    RoundBy(Logic(BigSigma0, BigSigma1, Ch, Maj), s, k, w)
  }

  /** The two formulas the rest of section 6.2.2 is built from. */
  datatype Primitives = Primitives(extend: seq<word> -> word, round: (Hash, word, word) -> Hash)

  const FIPS := Primitives(Extension, Round)

  /** The first n words of the schedule of a block. */
  function Schedule(p: Primitives, block: seq<byte>, n: nat): (ws: seq<word>)
    requires |block| == 64
    ensures |ws| == n
  {
    if n == 0 then [] else
      var ws, t := Schedule(p, block, n - 1), n - 1;
      ws + [if t < 16 then BigEndian(block[4 * t], block[4 * t + 1], block[4 * t + 2], block[4 * t + 3])
            else p.extend(ws)]
  }

  function Rounds(p: Primitives, s: Hash, ws: seq<word>, ks: seq<word>, t: nat): Hash
    requires t <= |ks| == |ws|
  {
    if t == 0 then s else p.round(Rounds(p, s, ws, ks, t - 1), ks[t - 1], ws[t - 1])
  }

  function Plus(a: Hash, b: Hash): Hash {
    Hash(Add(a.h0, b.h0), Add(a.h1, b.h1), Add(a.h2, b.h2), Add(a.h3, b.h3),
         Add(a.h4, b.h4), Add(a.h5, b.h5), Add(a.h6, b.h6), Add(a.h7, b.h7))
  }

  /** Section 6.2.2, steps 2 to 4, for one block. */
  function Compress(p: Primitives, s: Hash, block: seq<byte>, ks: seq<word>): Hash
    requires |block| == 64
  {
    Plus(s, Rounds(p, s, Schedule(p, block, |ks|), ks, |ks|))
  }

  /** The number of zero bytes of section 5.1.1: the least that makes the length come out even. */
  function ZeroCount(size: nat): nat {
    (55 - size) % 64
  }

  /** A number in n bytes, most significant first. */
  function BytesOf(x: nat, n: nat): (bs: seq<byte>)
    ensures |bs| == n
  {
    if n == 0 then [] else BytesOf(x / 256, n - 1) + [x % 256]
  }

  /** Section 5.1.1: a one bit, zeros, and the length in bits as a 64-bit number. */
  function Pad(message: seq<byte>): seq<byte> {
    message + [0x80] + seq(ZeroCount(|message|), _ => 0) + BytesOf(8 * |message|, 8)
  }

  /** Section 6.2.2 over the first n blocks of a padded message. */
  function Blocks(p: Primitives, padded: seq<byte>, ks: seq<word>, n: nat): Hash
    requires 64 * n <= |padded|
  {
    if n == 0 then H0 else Compress(p, Blocks(p, padded, ks, n - 1), padded[64 * (n - 1)..64 * n], ks)
  }

  function FipsHash(message: seq<byte>): Hash {
    PadLength(message);
    Blocks(FIPS, Pad(message), K, |Pad(message)| / 64)
  }

  lemma PadLength(message: seq<byte>)
    ensures |Pad(message)| == |message| + 9 + ZeroCount(|message|) && |Pad(message)| % 64 == 0
  {
    WholeBlocks(|message|);
  }

  lemma WholeBlocks(size: nat)
    ensures (size + 9 + ZeroCount(size)) % 64 == 0
  {
    var q := (55 - size) / 64;
    assert size + 9 + ZeroCount(size) == 64 * (1 - q);
  }

  // The program.

  /** new_size in wrapping 64-bit arithmetic. */
  function NewSize(size: nat): nat {
    (size + 1 + 8 + (448 - 8 * (size + 1)) % 0x1_0000_0000_0000_0000 % 512 / 8) % 0x1_0000_0000_0000_0000
  }

  /** It is the least multiple of 64 that leaves room for nine more bytes, and the padded length. */
  lemma {:induction false} NewSizeLeast(message: seq<byte>)
    requires |message| + 73 <= 0x1_0000_0000
    ensures
      var n := NewSize(|message|);
      && n % 64 == 0 && n >= |message| + 9 && n - 64 < |message| + 9
      && n == |Pad(message)| < 0x1_0000_0000
  {
    NewSizeIs(|message|);
    PadLength(message);
  }

  lemma NewSizeIs(size: nat)
    requires size + 73 <= 0x1_0000_0000
    ensures NewSize(size) == size + 9 + ZeroCount(size)
  {
    WrapKeepsRemainder(448 - 8 * (size + 1));
    PaddingBytes(size);
  }

  /** Wrapping at 2^64 does not change a remainder modulo 512. */
  lemma WrapKeepsRemainder(x: int)
    ensures x % 0x1_0000_0000_0000_0000 % 512 == x % 512
  {
    var wrap := 0x1_0000_0000_0000_0000;
    var q, r := x / wrap, x % wrap;
    assert x == wrap * q + r;
    Remainder512(r, r / 512, r % 512);
    Remainder512(x, 0x80_0000_0000_0000 * q + r / 512, r % 512);
  }

  lemma Remainder512(x: int, q: int, r: int)
    requires x == 512 * q + r && 0 <= r < 512
    ensures x % 512 == r
  {
  }

  lemma PaddingBytes(size: nat)
    ensures (448 - 8 * (size + 1)) % 512 / 8 == (55 - size) % 64
  {
    var q, r := (55 - size) / 64, (55 - size) % 64;
    assert 448 - 8 * (size + 1) == 512 * q + 8 * r;
  }

  /** The bytes of a number as the host keeps it in memory, and the number such bytes stand for. */
  function HostBytes(x: nat, n: nat, littleEndian: bool): (bs: seq<byte>)
    ensures |bs| == n
  {
    if littleEndian then Reversed(BytesOf(x, n)) else BytesOf(x, n)
  }

  function HostValue(b0: byte, b1: byte, b2: byte, b3: byte, littleEndian: bool): word {
    if littleEndian then BigEndian(b3, b2, b1, b0) else BigEndian(b0, b1, b2, b3)
  }

  function Reversed(bs: seq<byte>): (r: seq<byte>)
    ensures |r| == |bs| && forall i :: 0 <= i < |bs| ==> r[i] == bs[|bs| - 1 - i]
  {
    seq(|bs|, i requires 0 <= i < |bs| => bs[|bs| - 1 - i])
  }

  /** swap_bytes. */
  method SwapBytes(a: array<byte>, i: nat, j: nat)
    requires i < j < a.Length
    modifies a
    ensures a[..] == old(a[..])[i := old(a[j])][j := old(a[i])]
  {
    var tmp := a[i];
    a[i] := a[j];
    a[j] := tmp;
  }

  /** The bit length as it stands in memory after the conversion to big-endian. */
  method LengthBytes(size: nat, littleEndian: bool) returns (length: seq<byte>)
    ensures length == BytesOf(8 * size, 8)
  {
    var image := HostBytes(8 * size, 8, littleEndian);
    var bytes := new byte[8](i requires 0 <= i < 8 => image[i]);
    assert bytes[..] == image;
    if littleEndian {
      SwapBytes(bytes, 0, 7);
      SwapBytes(bytes, 1, 6);
      SwapBytes(bytes, 2, 5);
      SwapBytes(bytes, 3, 4);
    }
    length := bytes[..];
  }

  /** Four bytes read as a host integer and converted from big-endian. */
  method LoadWord(block: array<byte>, j: nat, littleEndian: bool) returns (w: word)
    requires j + 4 <= block.Length
    ensures w == BigEndian(block[j], block[j + 1], block[j + 2], block[j + 3])
  {
    var chunk := new byte[4](i requires 0 <= i < 4 reads block => block[j + i]);
    if littleEndian {
      SwapBytes(chunk, 0, 3);
      SwapBytes(chunk, 1, 2);
    }
    w := HostValue(chunk[0], chunk[1], chunk[2], chunk[3], littleEndian);
  }

  /** Byte p of the padded message. */
  function PadByte(message: seq<byte>, lengthBytes: seq<byte>, newSize: nat, p: nat): byte
    requires |lengthBytes| == 8 && |message| + 9 <= newSize && p < newSize
  {
    if p < |message| then message[p]
    else if p == |message| then 0x80
    else if p < newSize - 8 then 0
    else lengthBytes[p - (newSize - 8)]
  }

  lemma {:induction false} PadAt(message: seq<byte>, p: nat)
    requires p < |Pad(message)|
    ensures Pad(message)[p] == PadByte(message, BytesOf(8 * |message|, 8), |Pad(message)|, p)
  {
    var zeros, tail := seq(ZeroCount(|message|), _ => 0 as byte), BytesOf(8 * |message|, 8);
    assert Pad(message) == (message + [0x80]) + (zeros + tail);
  }

  /** The block of the padded message at i, made from the message alone. */
  method BuildBlock(message: seq<byte>, i: nat, newSize: nat, lengthBytes: seq<byte>, ghost n: nat, ghost total: nat)
    returns (block: array<byte>)
    requires |message| + 9 <= newSize < |message| + 73 && |lengthBytes| == 8
    requires i == 64 * n && newSize == 64 * total && n < total
    ensures fresh(block) && block.Length == 64
    ensures forall k :: 0 <= k < 64 ==> block[k] == PadByte(message, lengthBytes, newSize, i + k)
  {
    var size := |message|;
    block := new byte[64](_ => 0);
    if i + 64 <= size {
      forall k | 0 <= k < 64 {
        block[k] := message[i + k];
      }
    }
    if i + 64 > size && size >= i {
      forall k | 0 <= k < size % 64 {
        block[k] := message[i + k];
      }
      block[size % 64] := 0x80;
    }
    if i + 64 >= newSize {
      forall k | 56 <= k < 64 {
        block[k] := lengthBytes[k - 56];
      }
    }
  }

  /** The schedule's recurrence as the program writes it. */
  function ProgramExtension(ws: seq<word>): word {
    var j := |ws|;
    if j < 16 then 0
    else Add(Add(Add(ws[j - 16], SmallSigma0(ws[j - 15])), ws[j - 7]), SmallSigma1(ws[j - 2]))
  }

  function ProgramMaj(a: word, b: word, c: word): word {
    Xor(Xor(And(a, b), And(b, c)), And(c, a))
  }

  /** One turn of the main loop as the program writes it. */
  function TurnBy(l: Logic, s: Hash, k: word, w: word): Hash {
    var t2 := Add(l.bigSigma0(s.h0), l.maj(s.h0, s.h1, s.h2));
    var t1 := Add(Add(Add(Add(s.h7, l.bigSigma1(s.h4)), l.ch(s.h4, s.h5, s.h6)), k), w);
    Hash(Add(t2, t1), s.h0, s.h1, s.h2, Add(s.h3, t1), s.h4, s.h5, s.h6)
  }

  const PROGRAM_LOGIC := Logic(BigSigma0, BigSigma1, Ch, ProgramMaj)

  function Turn(s: Hash, k: word, w: word): Hash {
    TurnBy(PROGRAM_LOGIC, s, k, w)
  }

  const PROGRAM := Primitives(ProgramExtension, Turn)

  lemma ExtensionsAgree(ws: seq<word>)
    ensures ProgramExtension(ws) == Extension(ws)
  {
    var j := |ws|;
    if j >= 16 {
      AddOrder(ws[j - 16], SmallSigma0(ws[j - 15]), ws[j - 7], SmallSigma1(ws[j - 2]));
    }
  }

  lemma TurnByIsRoundBy(l: Logic, m: Logic, s: Hash, k: word, w: word)
    requires l.bigSigma0 == m.bigSigma0 && l.bigSigma1 == m.bigSigma1 && l.ch == m.ch
    requires l.maj(s.h0, s.h1, s.h2) == m.maj(s.h0, s.h1, s.h2)
    ensures TurnBy(l, s, k, w) == RoundBy(m, s, k, w)
  {
  }

  lemma MajsAgree(a: word, b: word, c: word)
    ensures ProgramMaj(a, b, c) == Maj(a, b, c)
  {
    MajorityOrder(a, b, c);
  }

  lemma TurnIsRound(s: Hash, k: word, w: word)
    ensures Turn(s, k, w) == Round(s, k, w)
  {
    var l, m := PROGRAM_LOGIC, Logic(BigSigma0, BigSigma1, Ch, Maj);
    assert l.maj(s.h0, s.h1, s.h2) == m.maj(s.h0, s.h1, s.h2) by {
      MajsAgree(s.h0, s.h1, s.h2);
    }
    TurnByIsRoundBy(l, m, s, k, w);
  }

  ghost predicate Agree(p: Primitives, q: Primitives) {
    && (forall ws: seq<word> :: p.extend(ws) == q.extend(ws))
    && (forall s, k, w :: p.round(s, k, w) == q.round(s, k, w))
  }

  lemma {:induction false} SchedulesAgree(p: Primitives, q: Primitives, block: seq<byte>, n: nat)
    requires Agree(p, q) && |block| == 64
    ensures Schedule(p, block, n) == Schedule(q, block, n)
  {
    if n > 0 {
      SchedulesAgree(p, q, block, n - 1);
    }
  }

  lemma {:induction false} RoundsAgree(p: Primitives, q: Primitives, s: Hash, ws: seq<word>, ks: seq<word>, t: nat)
    requires Agree(p, q) && t <= |ks| == |ws|
    ensures Rounds(p, s, ws, ks, t) == Rounds(q, s, ws, ks, t)
  {
    if t > 0 {
      RoundsAgree(p, q, s, ws, ks, t - 1);
    }
  }

  lemma {:induction false} BlocksAgree(p: Primitives, q: Primitives, padded: seq<byte>, ks: seq<word>, n: nat)
    requires Agree(p, q) && 64 * n <= |padded|
    ensures Blocks(p, padded, ks, n) == Blocks(q, padded, ks, n)
  {
    if n > 0 {
      BlocksAgree(p, q, padded, ks, n - 1);
      BlocksStep(p, padded, ks, n);
      BlocksStep(q, padded, ks, n);
      CompressionsAgree(p, q, Blocks(p, padded, ks, n - 1), padded[64 * (n - 1)..64 * n], ks);
    }
  }

  lemma BlocksStep(p: Primitives, padded: seq<byte>, ks: seq<word>, n: nat)
    requires 0 < n && 64 * n <= |padded|
    ensures Blocks(p, padded, ks, n)
         == Compress(p, Blocks(p, padded, ks, n - 1), padded[64 * (n - 1)..64 * n], ks)
  {
  }

  lemma CompressionsAgree(p: Primitives, q: Primitives, s: Hash, block: seq<byte>, ks: seq<word>)
    requires Agree(p, q) && |block| == 64
    ensures Compress(p, s, block, ks) == Compress(q, s, block, ks)
  {
    SchedulesAgree(p, q, block, |ks|);
    RoundsAgree(p, q, s, Schedule(p, block, |ks|), ks, |ks|);
  }

  lemma ProgramAgrees()
    ensures Agree(PROGRAM, FIPS)
  {
    forall ws: seq<word>
      ensures PROGRAM.extend(ws) == FIPS.extend(ws)
    {
      ExtensionsAgree(ws);
    }
    forall s, k, w
      ensures PROGRAM.round(s, k, w) == FIPS.round(s, k, w)
    {
      TurnIsRound(s, k, w);
    }
  }

  /** The first 16 words of the schedule. */
  method LoadBlock(p: Primitives, block: array<byte>, w: array<word>, littleEndian: bool)
    requires block.Length == 64 && w.Length == 64
    modifies w
    ensures w[..w.Length / 4] == Schedule(p, block[..], w.Length / 4)
  {
    ghost var bytes := block[..];
    var j := 0;
    while j < 64
      invariant 0 <= j <= 64 && j % 4 == 0
      invariant w[..j / 4] == Schedule(p, bytes, j / 4)
    {
      assert 4 * (j / 4) == j && (j + 4) / 4 == j / 4 + 1;
      var chunk := LoadWord(block, j, littleEndian);
      w[j / 4] := chunk;
      assert w[..j / 4 + 1] == w[..j / 4] + [chunk];
      j := j + 4;
    }
  }

  /** The other 48. */
  method ExtendSchedule(p: Primitives, ghost block: seq<byte>, w: array<word>)
    requires |block| == 64 && w.Length == 64
    requires w[..w.Length / 4] == Schedule(p, block, w.Length / 4)
    modifies w
    ensures w[..] == Schedule(p, block, w.Length)
  {
    var j := 16;
    while j < 64
      invariant 16 <= j <= 64
      invariant w[..j] == Schedule(p, block, j)
    {
      var next := p.extend(w[..j]);
      w[j] := next;
      assert w[..j + 1] == w[..j] + [next];
      j := j + 1;
    }
    assert w[..j] == w[..];
  }

  /** The rounds are turns with these functions. */
  ghost predicate TurnsBy(p: Primitives, l: Logic) {
    forall s, k, w :: p.round(s, k, w) == TurnBy(l, s, k, w)
  }

  /** The main loop over the eight working variables. */
  method MainLoop(l: Logic, digest: Hash, w: array<word>, ks: seq<word>, ghost p: Primitives) returns (tmp: Hash)
    requires w.Length == |ks| == 64 && TurnsBy(p, l)
    ensures tmp == Rounds(p, digest, w[..], ks, |ks|)
  {
    var h0, h1, h2, h3 := digest.h0, digest.h1, digest.h2, digest.h3;
    var h4, h5, h6, h7 := digest.h4, digest.h5, digest.h6, digest.h7;
    var j := 0;
    while j < 64
      invariant 0 <= j <= 64
      invariant Hash(h0, h1, h2, h3, h4, h5, h6, h7) == Rounds(p, digest, w[..], ks, j)
    {
      var s0 := l.bigSigma0(h0);
      var maj := l.maj(h0, h1, h2);
      var t2 := Add(s0, maj);
      var s1 := l.bigSigma1(h4);
      var ch := l.ch(h4, h5, h6);
      var t1 := Add(Add(Add(Add(h7, s1), ch), ks[j]), w[j]);
      h7 := h6;
      h6 := h5;
      h5 := h4;
      h4 := Add(h3, t1);
      h3 := h2;
      h2 := h1;
      h1 := h0;
      h0 := Add(t2, t1);
      j := j + 1;
    }
    tmp := Hash(h0, h1, h2, h3, h4, h5, h6, h7);
  }

  /** Everything done with one block. */
  method CompressBlock(p: Primitives, l: Logic, digest: Hash, block: array<byte>, ks: seq<word>, littleEndian: bool)
    returns (r: Hash)
    requires block.Length == 64 && |ks| == 64 && TurnsBy(p, l)
    ensures r == Compress(p, digest, block[..], ks)
  {
    var w := new word[64](_ => 0);
    ghost var bytes := block[..];
    LoadBlock(p, block, w, littleEndian);
    ExtendSchedule(p, bytes, w);
    var tmp := MainLoop(l, digest, w, ks, p);
    r := Plus(digest, tmp);
  }

  /** padded is the message padded to newSize bytes. */
  ghost predicate IsPadded(padded: seq<byte>, message: seq<byte>, lengthBytes: seq<byte>, newSize: nat) {
    && |lengthBytes| == 8 && |message| + 9 <= newSize < |message| + 73 && |padded| == newSize
    && forall p :: 0 <= p < newSize ==> padded[p] == PadByte(message, lengthBytes, newSize, p)
  }

  lemma {:induction false} PadIsPadded(message: seq<byte>)
    requires |message| + 73 <= 0x1_0000_0000
    ensures IsPadded(Pad(message), message, BytesOf(8 * |message|, 8), NewSize(|message|))
  {
    NewSizeLeast(message);
    forall p | 0 <= p < |Pad(message)|
      ensures Pad(message)[p] == PadByte(message, BytesOf(8 * |message|, 8), |Pad(message)|, p)
    {
      PadAt(message, p);
    }
  }

  lemma SameBlock(padded: seq<byte>, message: seq<byte>, lengthBytes: seq<byte>, newSize: nat, n: nat, block: seq<byte>)
    requires IsPadded(padded, message, lengthBytes, newSize) && 64 * n + 64 <= newSize && |block| == 64
    requires forall k :: 0 <= k < 64 ==> block[k] == PadByte(message, lengthBytes, newSize, 64 * n + k)
    ensures block == padded[64 * n..64 * (n + 1)]
  {
  }

  method NextBlock(message: seq<byte>, i: nat, newSize: nat, lengthBytes: seq<byte>, ghost padded: seq<byte>,
                   ghost n: nat, ghost total: nat)
    returns (block: array<byte>)
    requires IsPadded(padded, message, lengthBytes, newSize) && newSize == 64 * total && i == 64 * n && n < total
    ensures fresh(block) && block.Length == 64 && block[..] == padded[64 * n..64 * (n + 1)]
  {
    block := BuildBlock(message, i, newSize, lengthBytes, n, total);
    SameBlock(padded, message, lengthBytes, newSize, n, block[..]);
  }

  /** One turn of the loop over blocks. */
  method HashBlock(p: Primitives, l: Logic, digest: Hash, block: array<byte>, ks: seq<word>, littleEndian: bool,
                   ghost padded: seq<byte>, ghost n: nat)
    returns (r: Hash)
    requires |ks| == 64 && TurnsBy(p, l) && 64 * (n + 1) <= |padded|
    requires block.Length == 64 && block[..] == padded[64 * n..64 * (n + 1)] && digest == Blocks(p, padded, ks, n)
    ensures r == Blocks(p, padded, ks, n + 1)
  {
    r := CompressBlock(p, l, digest, block, ks, littleEndian);
  }

  /** The loop over blocks. */
  method HashBlocks(p: Primitives, l: Logic, message: seq<byte>, newSize: nat, lengthBytes: seq<byte>, ks: seq<word>,
                    littleEndian: bool, ghost padded: seq<byte>, ghost total: nat)
    returns (digest: Hash)
    requires IsPadded(padded, message, lengthBytes, newSize) && newSize == 64 * total && |ks| == 64
    requires TurnsBy(p, l)
    ensures digest == Blocks(p, padded, ks, total)
  {
    digest := H0;
    var i := 0;
    ghost var n := 0;
    while i < newSize
      invariant i == 64 * n && n <= total
      invariant digest == Blocks(p, padded, ks, n)
    {
      var block := NextBlock(message, i, newSize, lengthBytes, padded, n, total);
      digest := HashBlock(p, l, digest, block, ks, littleEndian, padded, n);
      i := i + 64;
      n := n + 1;
    }
    assert n == total;
  }

  /**
   sha256. The length bound keeps the padded length below 2^32, because the program's block
   index is a 32-bit number.
   */
  method Sha256(message: seq<byte>, littleEndian: bool) returns (digest: Hash)
    requires |message| + 73 <= 0x1_0000_0000
    ensures digest == FipsHash(message)
  {
    NewSizeLeast(message);
    PadIsPadded(message);
    ghost var total := |Pad(message)| / 64;
    var lengthBytes := LengthBytes(|message|, littleEndian);
    digest := HashBlocks(PROGRAM, PROGRAM_LOGIC, message, NewSize(|message|), lengthBytes, K, littleEndian,
                         Pad(message), total);
    ProgramAgrees();
    BlocksAgree(PROGRAM, FIPS, Pad(message), K, total);
  }
}
