/** The streaming implementation of src/sha256.c. */
module Sha256 {
  import opened Memory
  import opened Fips180

  // ------------------------------------------------------------------ macros

  function RotRight(a: Word, b: bv6): Word
    requires 0 < b < 32
  {
    (a >> b) | (a << (32 - b))
  }

  function Ep0(x: Word): Word { RotRight(x, 2) ^ RotRight(x, 13) ^ RotRight(x, 22) }

  function Ep1(x: Word): Word { RotRight(x, 6) ^ RotRight(x, 11) ^ RotRight(x, 25) }

  function Sig0(x: Word): Word { RotRight(x, 7) ^ RotRight(x, 18) ^ (x >> 3) }

  function Sig1(x: Word): Word { RotRight(x, 17) ^ RotRight(x, 19) ^ (x >> 10) }

  function ChMacro(x: Word, y: Word, z: Word): Word { (x & y) ^ (!x & z) }

  function MajMacro(x: Word, y: Word, z: Word): Word { (x & y) ^ (x & z) ^ (y & z) }

  lemma ChIsStandard(x: Word, y: Word, z: Word)
    ensures ChMacro(x, y, z) == Ch(x, y, z)
  {}

  lemma MajIsStandard(x: Word, y: Word, z: Word)
    ensures MajMacro(x, y, z) == Maj(x, y, z)
  {}

  /** The shift-and-or macro rotates, for every constant it is used with. */
  lemma RotRightRotates(x: Word)
    ensures RotRight(x, 2) == RotR(x, 2) && RotRight(x, 13) == RotR(x, 13) && RotRight(x, 22) == RotR(x, 22)
    ensures RotRight(x, 6) == RotR(x, 6) && RotRight(x, 11) == RotR(x, 11) && RotRight(x, 25) == RotR(x, 25)
    ensures RotRight(x, 7) == RotR(x, 7) && RotRight(x, 18) == RotR(x, 18)
    ensures RotRight(x, 17) == RotR(x, 17) && RotRight(x, 19) == RotR(x, 19)
  {}

  /** The macros are the functions of the standard. */
  lemma Ep0IsStandard(x: Word)
    ensures Ep0(x) == BigSigma0(x)
  {
    hide RotRight, RotR;
    RotRightRotates(x);
  }

  lemma Ep1IsStandard(x: Word)
    ensures Ep1(x) == BigSigma1(x)
  {
    hide RotRight, RotR;
    RotRightRotates(x);
  }

  lemma Sig0IsStandard(x: Word)
    ensures Sig0(x) == SmallSigma0(x)
  {
    hide RotRight, RotR;
    RotRightRotates(x);
  }

  lemma Sig1IsStandard(x: Word)
    ensures Sig1(x) == SmallSigma1(x)
  {
    hide RotRight, RotR;
    RotRightRotates(x);
  }

  // ------------------------------------------------------------------ blocks of a growing message

  /** The part of a message that fills whole blocks. */
  function Whole(n: nat): (w: nat)
    ensures w <= n < w + 64 && w % 64 == 0
  {
    n - n % 64
  }

  /** One more block. */
  lemma HashedExtends(s: Bytes, block: Bytes)
    requires |s| % 64 == 0 && |block| == 64
    ensures Hashed(s + block) == Compress(Hashed(s), block)
  {
    assert (s + block)[..|s + block| - 64] == s && (s + block)[|s + block| - 64..] == block;
  }

  /** One more byte: either the last block is still short, or it is now full. */
  lemma OneMoreByte(fed: Bytes, b: byte)
    ensures var w, next := Whole(|fed|), fed + [b];
            if |fed| - w < 63 then
              Whole(|next|) == w && next[..w] == fed[..w] && next[w..] == fed[w..] + [b]
            else
              Whole(|next|) == |next| == w + 64 && next == fed[..w] + (fed[w..] + [b])
  {}

  /** The last block of the padded message s + r, where s fills whole blocks and r leaves room for the length. */
  lemma LastBlock(s: Bytes, r: Bytes)
    requires |s| % 64 == 0 && |r| < 56
    ensures Hashed(Padded(s + r)) ==
              Compress(Hashed(s), r + [0x80] + ZeroBytes(55 - |r|) + LengthField(|s| + |r|))
  {
    hide Hashed, Compress, LengthField, ZeroByteCount, ZeroBytes, Padded;
    var z, len := ZeroBytes(55 - |r|), LengthField(|s| + |r|);
    PadCount(|s|, |r|);
    PaddedSum(s, r);
    Associates(s, r, z, len);
    HashedExtends(s, r + [0x80] + z + len);
  }

  /** The last two blocks, when it does not. */
  lemma LastTwoBlocks(s: Bytes, r: Bytes)
    requires |s| % 64 == 0 && 56 <= |r| < 64
    ensures Hashed(Padded(s + r)) ==
              Compress(Compress(Hashed(s), r + [0x80] + ZeroBytes(63 - |r|)), ZeroBytes(56) + LengthField(|s| + |r|))
  {
    hide Hashed, Compress, LengthField, ZeroByteCount, ZeroBytes, Padded;
    var first, second := r + [0x80] + ZeroBytes(63 - |r|), ZeroBytes(56) + LengthField(|s| + |r|);
    PaddedInTwo(s, r);
    HashedExtends(s, first);
    HashedExtends(s + first, second);
  }

  lemma PaddedInTwo(s: Bytes, r: Bytes)
    requires |s| % 64 == 0 && 56 <= |r| < 64
    ensures Padded(s + r) == s + (r + [0x80] + ZeroBytes(63 - |r|)) + (ZeroBytes(56) + LengthField(|s| + |r|))
  {
    hide LengthField, ZeroByteCount, ZeroBytes, Padded;
    var a, b, len := ZeroBytes(63 - |r|), ZeroBytes(56), LengthField(|s| + |r|);
    PadCount(|s|, |r|);
    PaddedSum(s, r);
    ZeroBytesConcat(63 - |r|, 56);
    Associates(s, r, a + b, len);
    AssociatesTwice(s, r, a, b, len);
  }

  lemma PaddedSum(s: Bytes, r: Bytes)
    ensures Padded(s + r) == s + r + [0x80] + ZeroBytes(ZeroByteCount(|s| + |r|)) + LengthField(|s| + |r|)
  {}

  lemma Associates(s: Bytes, r: Bytes, z: Bytes, len: Bytes)
    ensures s + r + [0x80] + z + len == s + (r + [0x80] + z + len)
  {
    assert s + r + [0x80] == s + (r + [0x80]);
    assert s + (r + [0x80]) + z == s + (r + [0x80] + z);
  }

  lemma AssociatesTwice(s: Bytes, r: Bytes, a: Bytes, b: Bytes, len: Bytes)
    ensures s + (r + [0x80] + (a + b) + len) == s + (r + [0x80] + a) + (b + len)
  {
    var front := r + [0x80];
    assert front + (a + b) == front + a + b;
    assert front + a + b + len == front + a + (b + len);
  }

  lemma ZeroBytesConcat(a: nat, b: nat)
    ensures ZeroBytes(a + b) == ZeroBytes(a) + ZeroBytes(b)
  {}

  lemma PadCount(s: nat, r: nat)
    requires s % 64 == 0 && r < 64
    ensures ZeroByteCount(s + r) == if r < 56 then 55 - r else 119 - r
  {}

  /** The length bytes, last one first, as the shifts of sha256_final produce them. */
  lemma LengthBytes(n: nat)
    ensures var bits, s := 8 * n % U64, LengthField(n);
            && s[7] == bits % 0x100 && s[6] == bits / 0x100 % 0x100 && s[5] == bits / 0x1_0000 % 0x100
            && s[4] == bits / 0x100_0000 % 0x100 && s[3] == bits / 0x1_0000_0000 % 0x100
            && s[2] == bits / 0x100_0000_0000 % 0x100 && s[1] == bits / 0x1_0000_0000_0000 % 0x100
            && s[0] == bits / 0x100_0000_0000_0000 % 0x100
  {
    var bits := 8 * n % U64;
    var half := bits / 0x100 / 0x100 / 0x100 / 0x100;
    BigEndianFour(bits, 4);
    BigEndianFour(half, 0);
    ShiftByShift(bits);
    assert BigEndian(bits, 8) == BigEndian(half, 4) + BigEndian(bits, 4);
  }

  lemma ShiftByShift(v: nat)
    ensures var half := v / 0x100 / 0x100 / 0x100 / 0x100;
            && v / 0x100 / 0x100 == v / 0x1_0000 && v / 0x100 / 0x100 / 0x100 == v / 0x100_0000
            && half == v / 0x1_0000_0000 && half / 0x100 == v / 0x100_0000_0000
            && half / 0x100 / 0x100 == v / 0x1_0000_0000_0000
            && half / 0x100 / 0x100 / 0x100 == v / 0x100_0000_0000_0000
  {}

  lemma BigEndianFour(v: nat, n: nat)
    ensures BigEndian(v, n + 4) == BigEndian(v / 0x100 / 0x100 / 0x100 / 0x100, n) + BigEndian(v, 4)
    ensures BigEndian(v, 4) == [v / 0x100 / 0x100 / 0x100 % 0x100, v / 0x100 / 0x100 % 0x100, v / 0x100 % 0x100, v % 0x100]
  {
    var a := v / 0x100;
    var b := a / 0x100;
    var c := b / 0x100;
    assert BigEndian(v, n + 4) == BigEndian(a, n + 3) + [v % 0x100];
    assert BigEndian(a, n + 3) == BigEndian(b, n + 2) + [a % 0x100];
    assert BigEndian(b, n + 2) == BigEndian(c, n + 1) + [b % 0x100];
    assert BigEndian(c, n + 1) == BigEndian(c / 0x100, n) + [c % 0x100];
    assert BigEndian(v, 4) == BigEndian(a, 3) + [v % 0x100];
    assert BigEndian(a, 3) == BigEndian(b, 2) + [a % 0x100];
    assert BigEndian(b, 2) == BigEndian(c, 1) + [b % 0x100];
    assert BigEndian(c, 1) == [c % 0x100];
  }

  lemma BlockCounted(w: nat)
    ensures (8 * w % U64 + 512) % U64 == 8 * (w + 64) % U64
  {}

  lemma RestCounted(w: nat, d: nat)
    ensures (8 * w % U64 + d * 8) % U64 == 8 * (w + d) % U64
  {}

  // ------------------------------------------------------------------ the context

  class Context {
    const data: array<byte>
    var datalen: nat
    /** unsigned long long: counts modulo 2^64. */
    var bitlen: nat
    const state: array<Word>
    /** Everything fed in since the last Init. */
    ghost var fed: Bytes

    constructor ()
      ensures fresh(data) && fresh(state) && data.Length == 64 && state.Length == 8
    {
      data := new byte[64];
      state := new Word[8];
      datalen, bitlen, fed := 0, 0, [];
    }

    ghost predicate Allocated()
      reads this
    {
      data.Length == 64 && state.Length == 8
    }

    /** The state is the hash of the whole blocks fed so far, and the buffer holds the rest. */
    ghost predicate Valid()
      reads this, data, state
    {
      var w := Whole(|fed|);
      && Allocated() && datalen == |fed| - w && data[..datalen] == fed[w..] && bitlen == 8 * w % U64
      && state[..] == Hashed(fed[..w])
    }

    /** sha256_init. */
    method Init()
      requires Allocated()
      modifies this, state
      ensures Valid() && fed == []
    {
      fed := [];
      datalen, bitlen := 0, 0;
      state[0], state[1], state[2], state[3] := 0x6a09e667, 0xbb67ae85, 0x3c6ef372, 0xa54ff53a;
      state[4], state[5], state[6], state[7] := 0x510e527f, 0x9b05688c, 0x1f83d9ab, 0x5be0cd19;
      assert state[..] == INITIAL_HASH;
    }

    /** The first loop of sha256_transform: the message schedule. */
    method Expand() returns (m: array<Word>)
      requires Allocated()
      ensures fresh(m) && m.Length == 64 && forall t :: 0 <= t < 64 ==> m[t] == Schedule(data[..], t)
    {
      hide WordAt, Sig0, Sig1, SmallSigma0, SmallSigma1, Add;
      m := new Word[64];
      ghost var block := data[..];
      var i := 0;
      while i < 16
        invariant 0 <= i <= 16
        invariant forall t :: 0 <= t < i ==> m[t] == Schedule(block, t)
      {
        m[i] := WordAt(data[..], i);
        i := i + 1;
      }
      while i < 64
        invariant 16 <= i <= 64
        invariant forall t :: 0 <= t < i ==> m[t] == Schedule(block, t)
      {
        Sig0IsStandard(m[i - 15]);
        Sig1IsStandard(m[i - 2]);
        m[i] := Add(Add(Add(Sig1(m[i - 2]), m[i - 7]), Sig0(m[i - 15])), m[i - 16]);
        i := i + 1;
      }
    }

    /** sha256_transform: the state takes in the block held in the buffer. */
    method Transform()
      requires Allocated()
      modifies state
      ensures state[..] == Compress(old(state[..]), data[..])
    {
      hide Schedule, Ep0, Ep1, BigSigma0, BigSigma1, Ch, Maj, ChMacro, MajMacro, Add;
      ghost var block := data[..];
      var m := Expand();
      var a, b, c, d := state[0], state[1], state[2], state[3];
      var e, f, g, h := state[4], state[5], state[6], state[7];
      ghost var start := Start(state[..]);
      var i := 0;
      while i < 64
        invariant 0 <= i <= 64
        invariant Vars(a, b, c, d, e, f, g, h) == Rounds(start, block, i)
        invariant state[..] == old(state[..]) && forall t :: 0 <= t < 64 ==> m[t] == Schedule(block, t)
      {
        Ep0IsStandard(a);
        Ep1IsStandard(e);
        ChIsStandard(e, f, g);
        MajIsStandard(a, b, c);
        var t1 := Add(Add(Add(Add(h, Ep1(e)), ChMacro(e, f, g)), K[i]), m[i]);
        var t2 := Add(Ep0(a), MajMacro(a, b, c));
        h := g;
        g := f;
        f := e;
        e := Add(d, t1);
        d := c;
        c := b;
        b := a;
        a := Add(t1, t2);
        i := i + 1;
      }
      AddToState(a, b, c, d, e, f, g, h);
    }

    /** The last step of sha256_transform. */
    method AddToState(a: Word, b: Word, c: Word, d: Word, e: Word, f: Word, g: Word, h: Word)
      requires Allocated()
      modifies state
      ensures state[..] == Plus(old(state[..]), Vars(a, b, c, d, e, f, g, h))
    {
      hide Add;
      state[0], state[1], state[2], state[3] := Add(state[0], a), Add(state[1], b), Add(state[2], c), Add(state[3], d);
      state[4], state[5], state[6], state[7] := Add(state[4], e), Add(state[5], f), Add(state[6], g), Add(state[7], h);
    }

    /** sha256_update. Its counter has 32 bits, so the source needs chunks shorter than 2^32 bytes. */
    method Update(chunk: Bytes)
      requires Valid() && |chunk| < U32
      modifies this, data, state
      ensures Valid() && fed == old(fed) + chunk
    {
      hide Valid;
      var i := 0;
      while i < |chunk|
        invariant 0 <= i <= |chunk|
        invariant Valid() && fed == old(fed) + chunk[..i]
      {
        Put(chunk[i]);
        i := i + 1;
      }
    }

    /** One turn of the loop of sha256_update. */
    method Put(b: byte)
      requires Valid()
      modifies this, data, state
      ensures Valid() && fed == old(fed) + [b]
    {
      hide Hashed, Compress;
      ghost var w := Whole(|fed|);
      OneMoreByte(fed, b);
      data[datalen] := b;
      datalen := datalen + 1;
      assert data[..datalen] == fed[w..] + [b];
      fed := fed + [b];
      if datalen == 64 {
        assert data[..] == data[..datalen];
        assert fed == old(fed)[..w] + data[..];
        HashedExtends(old(fed)[..w], data[..]);
        Transform();
        BlockCounted(w);
        bitlen := (bitlen + 512) % U64;
        datalen := 0;
        assert fed[..|fed|] == fed;
      }
    }

    /** sha256_final: the digest of everything fed. The context is spent afterwards. */
    method Final(hash: array<byte>)
      requires Valid() && hash.Length == 32 && hash != data
      modifies this, data, state, hash
      ensures hash[..] == Digest(old(fed))
    {
      hide Hashed, Compress, LengthField, Padded, ZeroByteCount;
      ghost var w := Whole(|fed|);
      ghost var s, r := fed[..w], fed[w..];
      assert s + r == fed;
      if |r| < 56 {
        LastBlock(s, r);
      } else {
        LastTwoBlocks(s, r);
      }
      Pad(r);
      StoreLength(|fed|);
      Transform();
      StoreHash(hash);
    }

    /** The padding branch of sha256_final: 0x80 and zeros, and one more block if the length does not fit. */
    method Pad(ghost r: Bytes)
      requires Allocated() && datalen == |r| < 64 && data[..datalen] == r
      modifies data, state
      ensures if |r| < 56 then state[..] == old(state[..]) && data[..56] == r + [0x80] + ZeroBytes(55 - |r|)
              else state[..] == Compress(old(state[..]), r + [0x80] + ZeroBytes(63 - |r|)) && data[..56] == ZeroBytes(56)
    {
      hide Hashed, Compress;
      var i := datalen;
      data[i] := 0x80;
      i := i + 1;
      if datalen < 56 {
        FillZeros(i, 56);
      } else {
        FillZeros(i, 64);
        assert data[..] == data[..64] == r + [0x80] + ZeroBytes(63 - |r|);
        Transform();
        FillZeros(0, 56);
      }
    }

    method FillZeros(from: nat, to: nat)
      requires Allocated() && from <= to <= 64
      modifies data
      ensures data[..to] == old(data[..from]) + ZeroBytes(to - from)
    {
      var i := from;
      while i < to
        invariant from <= i <= to
        invariant data[..i] == old(data[..from]) + ZeroBytes(i - from)
      {
        data[i] := 0;
        i := i + 1;
      }
    }

    /** The length goes into the last eight bytes of the buffer. */
    method StoreLength(ghost n: nat)
      requires Allocated() && datalen == n - Whole(n) && bitlen == 8 * Whole(n) % U64
      modifies this`bitlen, data
      ensures data[..] == old(data[..56]) + LengthField(n)
    {
      hide LengthField;
      hide Whole;
      RestCounted(Whole(n), datalen);
      LengthBytes(n);
      bitlen := (bitlen + datalen * 8) % U64;
      data[63] := bitlen % 0x100;
      data[62] := bitlen / 0x100 % 0x100;
      data[61] := bitlen / 0x1_0000 % 0x100;
      data[60] := bitlen / 0x100_0000 % 0x100;
      data[59] := bitlen / 0x1_0000_0000 % 0x100;
      data[58] := bitlen / 0x100_0000_0000 % 0x100;
      data[57] := bitlen / 0x1_0000_0000_0000 % 0x100;
      data[56] := bitlen / 0x100_0000_0000_0000 % 0x100;
    }

    /** The last loop of sha256_final. */
    method StoreHash(hash: array<byte>)
      requires Allocated() && hash.Length == 32
      modifies hash
      ensures hash[..] == HashBytes(state[..])
    {
      hide ByteOf;
      var i := 0;
      while i < 4
        invariant 0 <= i <= 4
        invariant forall k :: 0 <= k < 32 && k % 4 < i ==> hash[k] == ByteOf(state[k / 4], k % 4)
      {
        StoreByte(hash, i, 0);
        StoreByte(hash, i, 4);
        i := i + 1;
      }
    }

    /** Byte i of four of the eight words. */
    method StoreByte(hash: array<byte>, i: nat, from: nat)
      requires Allocated() && hash.Length == 32 && i < 4 && (from == 0 || from == 4)
      modifies hash
      ensures forall k :: 0 <= k < 32 ==>
                hash[k] == if k % 4 == i && from <= k / 4 < from + 4 then ByteOf(state[k / 4], i) else old(hash[k])
    {
      hide ByteOf;
      hash[i + 4 * from] := ByteOf(state[from], i);
      hash[i + 4 * from + 4] := ByteOf(state[from + 1], i);
      hash[i + 4 * from + 8] := ByteOf(state[from + 2], i);
      hash[i + 4 * from + 12] := ByteOf(state[from + 3], i);
    }
  }

  // ------------------------------------------------------------------ hashing a file

  ghost function Joined(pieces: seq<Bytes>): Bytes {
    if pieces == [] then [] else Joined(pieces[..|pieces| - 1]) + pieces[|pieces| - 1]
  }

  /** The worker's loop over a file: however read splits its content, the hash is the digest of the whole. */
  method HashFile(pieces: seq<Bytes>) returns (hash: array<byte>)
    requires forall i :: 0 <= i < |pieces| ==> |pieces[i]| <= 4096
    ensures hash.Length == 32 && hash[..] == Digest(Joined(pieces))
  {
    hide Context.Valid, Digest;
    var context := new Context();
    context.Init();
    var i := 0;
    while i < |pieces|
      invariant 0 <= i <= |pieces| && fresh(context) && fresh(context.data) && fresh(context.state)
      invariant context.Valid() && context.fed == Joined(pieces[..i])
    {
      context.Update(pieces[i]);
      assert pieces[..i + 1][..i] == pieces[..i];
      i := i + 1;
    }
    assert pieces[..|pieces|] == pieces;
    hash := new byte[32];
    context.Final(hash);
  }
}
