/** SHA-256: the standard as FIPS 180-2 words it, over bits and whole messages. */
module Fips180 {
  import opened Memory

  type Word = bv32

  // ------------------------------------------------------------------ bits and bytes

  /** The low n binary digits of v, most significant first. */
  function BitsOf(v: nat, n: nat): (s: seq<bool>)
    ensures |s| == n
  {
    if n == 0 then [] else BitsOf(v / 2, n - 1) + [v % 2 == 1]
  }

  /** A byte string as a bit string, most significant bit of each byte first. */
  function Bits(s: Bytes): (t: seq<bool>)
    ensures |t| == 8 * |s|
  {
    if s == [] then [] else Bits(s[..|s| - 1]) + BitsOf(s[|s| - 1], 8)
  }

  /** The low n bytes of v, most significant first. */
  function BigEndian(v: nat, n: nat): (s: Bytes)
    ensures |s| == n
  {
    if n == 0 then [] else BigEndian(v / 256, n - 1) + [v % 256]
  }

  lemma {:induction false} BitsConcat(a: Bytes, b: Bytes)
    ensures Bits(a + b) == Bits(a) + Bits(b)
  {
    hide BitsOf;
    if b == [] {
      assert a + b == a;
    } else {
      assert (a + b)[..|a + b| - 1] == a + b[..|b| - 1];
      BitsConcat(a, b[..|b| - 1]);
    }
  }

  lemma BitsOfByte(v: nat, n: nat)
    ensures BitsOf(v, 8) == BitsOf(v % 256, 8)
    ensures BitsOf(v, n + 8) == BitsOf(v / 256, n) + BitsOf(v, 8)
  {
    HalveByte(v);
    BitsSplit(v, n, 8);
    assert Pow2(8) == 256;
    LowBits(v, v % 256, 8, v / 256);
  }

  function Pow2(n: nat): (p: nat)
    ensures p > 0
  {
    if n == 0 then 1 else 2 * Pow2(n - 1)
  }

  function Halve(v: nat, k: nat): nat {
    if k == 0 then v else Halve(v / 2, k - 1)
  }

  lemma HalveByte(v: nat)
    ensures Halve(v, 8) == v / 256
  {
    hide Halve;
    HalveTwice(v, 6);
    HalveTwice(v / 4, 4);
    HalveTwice(v / 16, 2);
    HalveTwice(v / 64, 0);
    HalveNothing(v / 256);
    assert v / 4 / 4 == v / 16;
    assert v / 16 / 4 == v / 64;
  }

  lemma HalveNothing(v: nat)
    ensures Halve(v, 0) == v
  {}

  lemma HalveTwice(v: nat, k: nat)
    ensures Halve(v, k + 2) == Halve(v / 4, k)
  {
    assert v / 2 / 2 == v / 4;
  }

  lemma {:induction false} BitsSplit(v: nat, n: nat, k: nat)
    ensures BitsOf(v, n + k) == BitsOf(Halve(v, k), n) + BitsOf(v, k)
  {
    if k > 0 {
      BitsSplit(v / 2, n, k - 1);
    }
  }

  /** Numbers that differ by a multiple of 2^n have the same low n bits. */
  lemma {:induction false} LowBits(v: nat, w: nat, n: nat, q: nat)
    requires v == w + q * Pow2(n)
    ensures BitsOf(v, n) == BitsOf(w, n)
  {
    if n > 0 {
      assert q * Pow2(n) == 2 * (q * Pow2(n - 1));
      LowBits(v / 2, w / 2, n - 1, q);
    }
  }

  lemma {:induction false} BigEndianBits(v: nat, n: nat)
    ensures Bits(BigEndian(v, n)) == BitsOf(v, 8 * n)
  {
    if n > 0 {
      var s := BigEndian(v, n);
      assert s[..n - 1] == BigEndian(v / 256, n - 1);
      BigEndianBits(v / 256, n - 1);
      BitsOfByte(v, 8 * (n - 1));
    }
  }

  // ------------------------------------------------------------------ section 5.1.1, padding

  function ZeroBits(l: nat): nat {
    (959 - l % 512) % 512
  }

  /** k is the smallest non-negative solution of l + 1 + k = 448 modulo 512. */
  lemma ZeroBitsLeast(l: nat, k: nat)
    ensures (l + 1 + ZeroBits(l)) % 512 == 448
    ensures (l + 1 + k) % 512 == 448 ==> ZeroBits(l) <= k
  {}

  function Zeros(n: nat): (s: seq<bool>)
    ensures |s| == n
  {
    seq(n, _ => false)
  }

  function ZeroBytes(n: nat): (s: Bytes)
    ensures |s| == n
  {
    seq(n, _ => 0)
  }

  /** The padded message, bit by bit: a one, k zeros, and the length in 64 bits. */
  function PaddedBits(m: seq<bool>): seq<bool> {
    m + [true] + Zeros(ZeroBits(|m|)) + BitsOf(|m|, 64)
  }

  /** Whole zero bytes after the byte that holds the one and the first seven zeros. */
  function ZeroByteCount(n: nat): (z: nat)
    ensures ZeroBits(8 * n) == 7 + 8 * z && (n + 9 + z) % 64 == 0
  {
    assert (8 * n) % 512 == 8 * (n % 64);
    (119 - n % 64) % 64
  }

  /** The length in bits; it wraps like the 64-bit counter it is taken from. */
  function LengthField(n: nat): (s: Bytes)
    ensures |s| == 8
  {
    BigEndian(8 * n % U64, 8)
  }

  /** The same on bytes. */
  function Padded(msg: Bytes): (p: Bytes)
    ensures |p| % 64 == 0 && |p| >= 64
  {
    msg + [0x80] + ZeroBytes(ZeroByteCount(|msg|)) + LengthField(|msg|)
  }

  lemma {:induction false} BitsOfZeros(n: nat)
    ensures Bits(ZeroBytes(n)) == Zeros(8 * n)
  {
    if n > 0 {
      assert ZeroBytes(n)[..n - 1] == ZeroBytes(n - 1);
      BitsOfZeros(n - 1);
      ZeroByte(8);
    }
  }

  lemma {:induction false} ZeroByte(n: nat)
    ensures BitsOf(0, n) == Zeros(n)
  {
    if n > 0 {
      ZeroByte(n - 1);
    }
  }

  lemma FirstPadByte()
    ensures Bits([0x80]) == [true] + Zeros(7)
  {
    hide BitsOf;
    BitsOf0x80();
    assert [0x80][..0] == [];
  }

  lemma BitsOf0x80()
    ensures BitsOf(0x80, 8) == [true] + Zeros(7)
  {
    hide BitsOf, Halve;
    BitsSplit(0x80, 1, 7);
    assert Pow2(7) == 128;
    LowBits(0x80, 0, 7, 1);
    ZeroByte(7);
    OneBit();
  }

  lemma OneBit()
    ensures Halve(0x80, 7) == 1 && BitsOf(1, 1) == [true]
  {}

  /** Padding bytes is padding bits, for every message whose bit length fits 64 bits. */
  lemma PaddingIsStandard(msg: Bytes)
    requires 8 * |msg| < U64
    ensures Bits(Padded(msg)) == PaddedBits(Bits(msg))
  {
    hide Bits, BitsOf, LengthField, ZeroBits, ZeroBytes, PaddedBits, Zeros, ZeroByteCount;
    var z := ZeroByteCount(|msg|);
    PaddedBitsParts(Bits(msg), z);
    BitsOfFour(msg, [0x80], ZeroBytes(z), LengthField(|msg|));
    FirstPadByte();
    BitsOfZeros(z);
    LengthBits(|msg|);
  }

  lemma LengthBits(n: nat)
    requires 8 * n < U64
    ensures Bits(LengthField(n)) == BitsOf(8 * n, 64)
  {
    hide Bits, BitsOf, BigEndian;
    assert 8 * n % U64 == 8 * n;
    BigEndianBits(8 * n, 8);
  }

  lemma PaddedBitsParts(m: seq<bool>, z: nat)
    requires ZeroBits(|m|) == 7 + 8 * z
    ensures PaddedBits(m) == m + ([true] + Zeros(7)) + Zeros(8 * z) + BitsOf(|m|, 64)
  {
    hide ZeroBits, BitsOf;
    PadAssociates(m, Zeros(7), Zeros(8 * z), BitsOf(|m|, 64));
    assert Zeros(7) + Zeros(8 * z) == Zeros(7 + 8 * z);
  }

  lemma BitsOfFour(a: Bytes, b: Bytes, c: Bytes, d: Bytes)
    ensures Bits(a + b + c + d) == Bits(a) + Bits(b) + Bits(c) + Bits(d)
  {
    BitsConcat(a + b + c, d);
    BitsConcat(a + b, c);
    BitsConcat(a, b);
  }

  lemma PadAssociates(m: seq<bool>, a: seq<bool>, b: seq<bool>, c: seq<bool>)
    ensures m + ([true] + a) + b + c == m + [true] + (a + b) + c
  {
    assert m + ([true] + a) == m + [true] + a;
    assert m + [true] + a + b == m + [true] + (a + b);
  }

  // ------------------------------------------------------------------ sections 3.2, 4.1.2, 4.2.2 and 5.3.2

  /** Addition modulo 2^32, as on C's unsigned int. */
  function Add(x: Word, y: Word): Word { x + y }

  function Ch(x: Word, y: Word, z: Word): Word { (x & y) ^ (!x & z) }

  function Maj(x: Word, y: Word, z: Word): Word { (x & y) ^ (x & z) ^ (y & z) }

  function RotR(x: Word, n: nat): Word
    requires n <= 32
  {
    x.RotateRight(n)
  }

  function BigSigma0(x: Word): Word { RotR(x, 2) ^ RotR(x, 13) ^ RotR(x, 22) }

  function BigSigma1(x: Word): Word { RotR(x, 6) ^ RotR(x, 11) ^ RotR(x, 25) }

  function SmallSigma0(x: Word): Word { RotR(x, 7) ^ RotR(x, 18) ^ (x >> 3) }

  function SmallSigma1(x: Word): Word { RotR(x, 17) ^ RotR(x, 19) ^ (x >> 10) }

  /** The constants, eight to a row. */
  const ROW0: seq<Word> := [
    0x428a2f98, 0x71374491, 0xb5c0fbcf, 0xe9b5dba5, 0x3956c25b, 0x59f111f1, 0x923f82a4, 0xab1c5ed5]
  const ROW1: seq<Word> := [
    0xd807aa98, 0x12835b01, 0x243185be, 0x550c7dc3, 0x72be5d74, 0x80deb1fe, 0x9bdc06a7, 0xc19bf174]
  const ROW2: seq<Word> := [
    0xe49b69c1, 0xefbe4786, 0x0fc19dc6, 0x240ca1cc, 0x2de92c6f, 0x4a7484aa, 0x5cb0a9dc, 0x76f988da]
  const ROW3: seq<Word> := [
    0x983e5152, 0xa831c66d, 0xb00327c8, 0xbf597fc7, 0xc6e00bf3, 0xd5a79147, 0x06ca6351, 0x14292967]
  const ROW4: seq<Word> := [
    0x27b70a85, 0x2e1b2138, 0x4d2c6dfc, 0x53380d13, 0x650a7354, 0x766a0abb, 0x81c2c92e, 0x92722c85]
  const ROW5: seq<Word> := [
    0xa2bfe8a1, 0xa81a664b, 0xc24b8b70, 0xc76c51a3, 0xd192e819, 0xd6990624, 0xf40e3585, 0x106aa070]
  const ROW6: seq<Word> := [
    0x19a4c116, 0x1e376c08, 0x2748774c, 0x34b0bcb5, 0x391c0cb3, 0x4ed8aa4a, 0x5b9cca4f, 0x682e6ff3]
  const ROW7: seq<Word> := [
    0x748f82ee, 0x78a5636f, 0x84c87814, 0x8cc70208, 0x90befffa, 0xa4506ceb, 0xbef9a3f7, 0xc67178f2]

  const K: seq<Word> := ROW0 + ROW1 + ROW2 + ROW3 + ROW4 + ROW5 + ROW6 + ROW7

  const INITIAL_HASH: seq<Word> := [
    0x6a09e667, 0xbb67ae85, 0x3c6ef372, 0xa54ff53a, 0x510e527f, 0x9b05688c, 0x1f83d9ab, 0x5be0cd19]

  function Cube(x: nat): nat { x * x * x }

  function Square(x: nat): nat { x * x }

  /** c is the integer part of the cube root of p, and w the first 32 bits of its fractional part: together they are
      the root scaled by 2^32 and rounded down. */
  predicate CubeRootOf(p: nat, c: nat, w: nat) {
    var root := c * 0x1_0000_0000 + w;
    Cube(root) <= p * Cube(0x1_0000_0000) < Cube(root + 1)
  }

  predicate SquareRootOf(p: nat, c: nat, w: nat) {
    var root := c * 0x1_0000_0000 + w;
    Square(root) <= p * Square(0x1_0000_0000) < Square(root + 1)
  }

  /** K is the table section 4.2.2 describes, from the cube roots of the first sixty-four primes. */
  lemma CubeRoots0()
    ensures CubeRootOf(2, 1, ROW0[0] as nat) && CubeRootOf(3, 1, ROW0[1] as nat)
    ensures CubeRootOf(5, 1, ROW0[2] as nat) && CubeRootOf(7, 1, ROW0[3] as nat)
    ensures CubeRootOf(11, 2, ROW0[4] as nat) && CubeRootOf(13, 2, ROW0[5] as nat)
    ensures CubeRootOf(17, 2, ROW0[6] as nat) && CubeRootOf(19, 2, ROW0[7] as nat)
  {}

  lemma CubeRoots1()
    ensures CubeRootOf(23, 2, ROW1[0] as nat) && CubeRootOf(29, 3, ROW1[1] as nat)
    ensures CubeRootOf(31, 3, ROW1[2] as nat) && CubeRootOf(37, 3, ROW1[3] as nat)
    ensures CubeRootOf(41, 3, ROW1[4] as nat) && CubeRootOf(43, 3, ROW1[5] as nat)
    ensures CubeRootOf(47, 3, ROW1[6] as nat) && CubeRootOf(53, 3, ROW1[7] as nat)
  {}

  lemma CubeRoots2()
    ensures CubeRootOf(59, 3, ROW2[0] as nat) && CubeRootOf(61, 3, ROW2[1] as nat)
    ensures CubeRootOf(67, 4, ROW2[2] as nat) && CubeRootOf(71, 4, ROW2[3] as nat)
    ensures CubeRootOf(73, 4, ROW2[4] as nat) && CubeRootOf(79, 4, ROW2[5] as nat)
    ensures CubeRootOf(83, 4, ROW2[6] as nat) && CubeRootOf(89, 4, ROW2[7] as nat)
  {}

  lemma CubeRoots3()
    ensures CubeRootOf(97, 4, ROW3[0] as nat) && CubeRootOf(101, 4, ROW3[1] as nat)
    ensures CubeRootOf(103, 4, ROW3[2] as nat) && CubeRootOf(107, 4, ROW3[3] as nat)
    ensures CubeRootOf(109, 4, ROW3[4] as nat) && CubeRootOf(113, 4, ROW3[5] as nat)
    ensures CubeRootOf(127, 5, ROW3[6] as nat) && CubeRootOf(131, 5, ROW3[7] as nat)
  {}

  lemma CubeRoots4()
    ensures CubeRootOf(137, 5, ROW4[0] as nat) && CubeRootOf(139, 5, ROW4[1] as nat)
    ensures CubeRootOf(149, 5, ROW4[2] as nat) && CubeRootOf(151, 5, ROW4[3] as nat)
    ensures CubeRootOf(157, 5, ROW4[4] as nat) && CubeRootOf(163, 5, ROW4[5] as nat)
    ensures CubeRootOf(167, 5, ROW4[6] as nat) && CubeRootOf(173, 5, ROW4[7] as nat)
  {}

  lemma CubeRoots5()
    ensures CubeRootOf(179, 5, ROW5[0] as nat) && CubeRootOf(181, 5, ROW5[1] as nat)
    ensures CubeRootOf(191, 5, ROW5[2] as nat) && CubeRootOf(193, 5, ROW5[3] as nat)
    ensures CubeRootOf(197, 5, ROW5[4] as nat) && CubeRootOf(199, 5, ROW5[5] as nat)
    ensures CubeRootOf(211, 5, ROW5[6] as nat) && CubeRootOf(223, 6, ROW5[7] as nat)
  {}

  lemma CubeRoots6()
    ensures CubeRootOf(227, 6, ROW6[0] as nat) && CubeRootOf(229, 6, ROW6[1] as nat)
    ensures CubeRootOf(233, 6, ROW6[2] as nat) && CubeRootOf(239, 6, ROW6[3] as nat)
    ensures CubeRootOf(241, 6, ROW6[4] as nat) && CubeRootOf(251, 6, ROW6[5] as nat)
    ensures CubeRootOf(257, 6, ROW6[6] as nat) && CubeRootOf(263, 6, ROW6[7] as nat)
  {}

  lemma CubeRoots7()
    ensures CubeRootOf(269, 6, ROW7[0] as nat) && CubeRootOf(271, 6, ROW7[1] as nat)
    ensures CubeRootOf(277, 6, ROW7[2] as nat) && CubeRootOf(281, 6, ROW7[3] as nat)
    ensures CubeRootOf(283, 6, ROW7[4] as nat) && CubeRootOf(293, 6, ROW7[5] as nat)
    ensures CubeRootOf(307, 6, ROW7[6] as nat) && CubeRootOf(311, 6, ROW7[7] as nat)
  {}

  /** The initial hash value is the one section 5.3.2 describes, from the square roots of the first eight primes. */
  lemma SquareRoots()
    ensures SquareRootOf(2, 1, INITIAL_HASH[0] as nat) && SquareRootOf(3, 1, INITIAL_HASH[1] as nat)
    ensures SquareRootOf(5, 2, INITIAL_HASH[2] as nat) && SquareRootOf(7, 2, INITIAL_HASH[3] as nat)
    ensures SquareRootOf(11, 3, INITIAL_HASH[4] as nat) && SquareRootOf(13, 3, INITIAL_HASH[5] as nat)
    ensures SquareRootOf(17, 4, INITIAL_HASH[6] as nat) && SquareRootOf(19, 4, INITIAL_HASH[7] as nat)
  {}

  type HashValue = h: seq<Word> | |h| == 8 witness [0, 0, 0, 0, 0, 0, 0, 0]

  type Block = b: Bytes | |b| == 64 witness seq(64, _ => 0)

  // ------------------------------------------------------------------ section 6.2.2, the computation

  /** Word t of a block, most significant byte first (section 5.2.1). */
  function WordAt(block: Block, t: nat): Word
    requires t < 16
  {
    Join(block[4 * t], block[4 * t + 1], block[4 * t + 2], block[4 * t + 3]) as Word
  }

  function Join(b0: int, b1: int, b2: int, b3: int): int {
    0x1000000 * b0 + 0x10000 * b1 + 0x100 * b2 + b3
  }

  /** Step 1: the message schedule. */
  ghost function Schedule(block: Block, t: nat): Word
    requires t < 64
  {
    if t < 16 then WordAt(block, t)
    else
      Add(Add(Add(SmallSigma1(Schedule(block, t - 2)), Schedule(block, t - 7)), SmallSigma0(Schedule(block, t - 15))),
          Schedule(block, t - 16))
  }

  datatype Vars = Vars(a: Word, b: Word, c: Word, d: Word, e: Word, f: Word, g: Word, h: Word)

  /** Step 2: the working variables. */
  function Start(hash: HashValue): Vars {
    Vars(hash[0], hash[1], hash[2], hash[3], hash[4], hash[5], hash[6], hash[7])
  }

  /** Step 3, once. */
  function Round(v: Vars, k: Word, w: Word): Vars {
    var t1 := Add(Add(Add(Add(v.h, BigSigma1(v.e)), Ch(v.e, v.f, v.g)), k), w);
    var t2 := Add(BigSigma0(v.a), Maj(v.a, v.b, v.c));
    Vars(Add(t1, t2), v.a, v.b, v.c, Add(v.d, t1), v.e, v.f, v.g)
  }

  ghost function Rounds(v: Vars, block: Block, t: nat): Vars
    requires t <= 64
  {
    if t == 0 then v else Round(Rounds(v, block, t - 1), K[t - 1], Schedule(block, t - 1))
  }

  /** Step 4: the next intermediate hash value. */
  function Plus(hash: HashValue, v: Vars): HashValue {
    [Add(hash[0], v.a), Add(hash[1], v.b), Add(hash[2], v.c), Add(hash[3], v.d),
     Add(hash[4], v.e), Add(hash[5], v.f), Add(hash[6], v.g), Add(hash[7], v.h)]
  }

  ghost function Compress(hash: HashValue, block: Block): HashValue {
    Plus(hash, Rounds(Start(hash), block, 64))
  }

  /** The hash value after all 64-byte blocks of s (section 5.2.1). */
  ghost function Hashed(s: Bytes): HashValue
    requires |s| % 64 == 0
  {
    if s == [] then INITIAL_HASH else Compress(Hashed(s[..|s| - 64]), s[|s| - 64..])
  }

  /** Byte i of a word, most significant first. */
  function ByteOf(w: Word, i: nat): byte
    requires i < 4
  {
    ByteOfValue(w as nat, i)
  }

  function ByteOfValue(v: nat, i: nat): byte
    requires i < 4
  {
    (if i == 0 then v / 0x1000000 else if i == 1 then v / 0x10000 else if i == 2 then v / 0x100 else v) % 256
  }

  function HashBytes(hash: HashValue): (s: Bytes)
    ensures |s| == 32
  {
    seq(32, i requires 0 <= i < 32 => ByteOf(hash[i / 4], i % 4))
  }

  /** The message digest. */
  ghost function Digest(msg: Bytes): (s: Bytes)
    ensures |s| == 32
  {
    HashBytes(Hashed(Padded(msg)))
  }

  /** Storing a word loses nothing: its four bytes read back as the word. */
  lemma WordBytesRoundTrip(w: Word, block: Block, t: nat)
    requires t < 16 && block[4 * t] == ByteOf(w, 0) && block[4 * t + 1] == ByteOf(w, 1)
    requires block[4 * t + 2] == ByteOf(w, 2) && block[4 * t + 3] == ByteOf(w, 3)
    ensures WordAt(block, t) == w
  {
    hide Join;
    JoinSplit(w as nat);
  }

  lemma JoinSplit(v: nat)
    requires v < U32
    ensures Join(v / 0x1000000 % 256, v / 0x10000 % 256, v / 0x100 % 256, v % 256) == v
  {
    var a, b, c := v / 0x100, v / 0x10000, v / 0x1000000;
    assert b == a / 256 && c == b / 256 && c % 256 == c;
  }
}
