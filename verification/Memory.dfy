/** Byte strings as the programs see them: little-endian integers, C strings, and files read with pread and
    written with pwrite. */
module Memory {

  type byte = b: int | 0 <= b < 256

  type Bytes = seq<byte>

  /** One past the largest 32-bit unsigned value. */
  const U32 := 0x1_0000_0000

  /** One past the largest 64-bit unsigned value. */
  const U64 := 0x1_0000_0000_0000_0000

  function Pow256(n: nat): (p: nat)
    ensures p > 0
  {
    if n == 0 then 1 else 256 * Pow256(n - 1)
  }

  lemma Widths()
    ensures Pow256(1) == 256 && Pow256(4) == U32 && Pow256(8) == U64
  {
    assert Pow256(2) == 0x1_0000;
    assert Pow256(4) == 0x1_0000_0000;
    assert Pow256(6) == 0x1_0000_0000_0000;
  }

  /** The low n bytes of v, least significant first: what storing v into an n-byte integer leaves in memory. */
  function Encode(v: nat, n: nat): (s: Bytes)
    ensures |s| == n
  {
    if n == 0 then [] else [v % 256] + Encode(v / 256, n - 1)
  }

  function Decode(s: Bytes): (v: nat)
    ensures v < Pow256(|s|)
  {
    if s == [] then 0 else s[0] + 256 * Decode(s[1..])
  }

  lemma {:induction false} DecodeEncode(v: nat, n: nat)
    requires v < Pow256(n)
    ensures Decode(Encode(v, n)) == v
  {
    if n > 0 {
      DecodeEncode(v / 256, n - 1);
      assert Encode(v, n)[1..] == Encode(v / 256, n - 1);
    }
  }

  lemma FirstByte(b: int, rest: nat)
    requires 0 <= b < 256
    ensures (b + 256 * rest) % 256 == b && (b + 256 * rest) / 256 == rest
  {}

  lemma {:induction false} EncodeDecode(s: Bytes)
    ensures Encode(Decode(s), |s|) == s
  {
    if s != [] {
      EncodeDecode(s[1..]);
      FirstByte(s[0], Decode(s[1..]));
    }
  }

  lemma Encode32(v: nat)
    requires v < U32
    ensures Decode(Encode(v, 4)) == v
  {
    Widths();
    DecodeEncode(v, 4);
  }

  lemma Encode64(v: nat)
    requires v < U64
    ensures Decode(Encode(v, 8)) == v
  {
    Widths();
    DecodeEncode(v, 8);
  }

  /** The same 32 bits read as a signed int. */
  function Signed(v: nat): int {
    if v < 0x8000_0000 then v else v - U32
  }

  /** The characters of a C string: everything before the first NUL. */
  function CString(s: Bytes): (t: Bytes)
    ensures |t| <= |s|
  {
    if s == [] || s[0] == 0 then [] else [s[0]] + CString(s[1..])
  }

  /** What stands before the first NUL is the string, whatever follows. */
  lemma {:induction false} StringEndsAtNul(t: Bytes, rest: Bytes)
    requires 0 !in t
    ensures CString(t + [0] + rest) == t == CString(t)
  {
    if t == [] {
      assert (t + [0] + rest)[0] == 0;
    } else {
      assert (t + [0] + rest)[1..] == t[1..] + [0] + rest;
      StringEndsAtNul(t[1..], rest);
    }
  }

  /** A number written as d * q + r with a small r has remainder r. */
  lemma Quotient(v: nat, d: nat, q: nat, r: nat)
    requires d > 0 && v == d * q + r && r < d
    ensures v % d == r
  {
    var k := v / d;
    assert v == d * k + v % d;
    Distribute(d, q, k);
    if k < q {
      AtLeastOne(d, q - k);
    } else if q < k {
      AtLeastOne(d, k - q);
    }
  }

  lemma Distribute(d: nat, q: nat, k: nat)
    ensures d * (q - k) == d * q - d * k && d * (k - q) == d * k - d * q
  {}

  lemma AtLeastOne(d: nat, k: nat)
    requires k >= 1
    ensures d * k >= d
  {}

  /** Four bytes are a little-endian number ... */
  lemma FourBytes(b0: byte, b1: byte, b2: byte, b3: byte)
    ensures Decode([b0, b1, b2, b3]) == b0 as int + 0x100 * b1 as int + 0x1_0000 * b2 as int + 0x100_0000 * b3 as int
  {
    assert [b0, b1, b2, b3][1..] == [b1, b2, b3] && [b1, b2, b3][1..] == [b2, b3] && [b2, b3][1..] == [b3];
    assert [b3][1..] == [];
    assert Decode([b3]) == b3;
    assert Decode([b2, b3]) == b2 as int + 256 * Decode([b3]);
    assert Decode([b1, b2, b3]) == b1 as int + 256 * Decode([b2, b3]);
  }

  function LittleEndian(b0: int, b1: int, b2: int, b3: int): int {
    b0 + 0x100 * b1 + 0x1_0000 * b2 + 0x100_0000 * b3
  }

  /** ... and eight are two such numbers, the low one first. */
  lemma {:induction false} EightBytes(low: Bytes, high: Bytes)
    requires |low| == 4
    ensures Decode(low + high) == Decode(low) + 0x1_0000_0000 * Decode(high)
  {
    DecodeConcat(low, high);
    Widths();
  }

  lemma {:induction false} DecodeConcat(low: Bytes, high: Bytes)
    ensures Decode(low + high) == Decode(low) + Pow256(|low|) * Decode(high)
  {
    if low == [] {
      assert low + high == high;
    } else {
      assert (low + high)[1..] == low[1..] + high;
      DecodeConcat(low[1..], high);
      ScaleSum(Decode(low[1..]), Pow256(|low| - 1), Decode(high));
    }
  }

  lemma ScaleSum(a: nat, p: nat, b: nat)
    ensures 256 * (a + p * b) == 256 * a + (256 * p) * b
  {}

  // ------------------------------------------------------------------ files

  /** pread: up to n bytes from offset off, fewer at the end of the file. */
  function Pread(file: Bytes, off: nat, n: nat): (s: Bytes)
    ensures |s| <= n
  {
    if off + n <= |file| then file[off..off + n] else if off <= |file| then file[off..] else []
  }

  /** pwrite: overwrites in place; a gap past the end of the file reads as zeros. */
  function Pwrite(file: Bytes, off: nat, data: Bytes): (out: Bytes)
    ensures |out| == if off + |data| <= |file| then |file| else off + |data|
    ensures out[off..off + |data|] == data
  {
    var base := if off <= |file| then file[..off] else file + seq(off - |file|, _ => 0);
    base + data + (if off + |data| <= |file| then file[off + |data|..] else [])
  }

  /** The 32-bit value at an offset of the file. */
  function U32At(file: Bytes, off: nat): (v: nat) {
    Decode(Pread(file, off, 4))
  }

  /** Both files hold the same bytes in [lo, hi). */
  ghost predicate SameRange(f: Bytes, g: Bytes, lo: nat, hi: nat) {
    hi <= |f| && hi <= |g| && forall i :: lo <= i < hi ==> f[i] == g[i]
  }

  lemma PreadSame(f: Bytes, g: Bytes, off: nat, n: nat)
    requires SameRange(f, g, off, off + n)
    ensures Pread(f, off, n) == Pread(g, off, n)
  {}

  /** Reading part of what was read. */
  lemma PreadOfPread(file: Bytes, off: nat, n: nat, lo: nat, k: nat)
    requires off + n <= |file| && lo + k <= n
    ensures Pread(Pread(file, off, n), lo, k) == Pread(file, off + lo, k)
  {
    var part, direct := Pread(file, off, n)[lo..lo + k], file[off + lo..off + lo + k];
    assert forall i :: 0 <= i < k ==> part[i] == direct[i];
  }

  /** Equal stretches of two files have equal parts. */
  lemma SubRead(f: Bytes, a: nat, g: Bytes, b: nat, n: nat, lo: nat, k: nat)
    requires Pread(f, a, n) == Pread(g, b, n) && a + n <= |f| && b + n <= |g| && lo + k <= n
    ensures Pread(f, a + lo, k) == Pread(g, b + lo, k)
  {
    PreadOfPread(f, a, n, lo, k);
    PreadOfPread(g, b, n, lo, k);
  }

  /** Appended data is read back where it was put. */
  lemma PreadAppended(file: Bytes, data: Bytes, lo: nat, k: nat)
    requires lo + k <= |data|
    ensures Pread(file + data, |file| + lo, k) == Pread(data, lo, k)
  {
    var part, direct := (file + data)[|file| + lo..|file| + lo + k], data[lo..lo + k];
    assert forall i :: 0 <= i < k ==> part[i] == direct[i];
  }

  /** Everything before appended data is unchanged. */
  lemma AppendElsewhere(file: Bytes, data: Bytes)
    ensures SameRange(file, file + data, 0, |file|)
  {}

  /** A write inside the file leaves every byte it does not touch as it was. */
  lemma PwriteElsewhere(file: Bytes, off: nat, data: Bytes)
    requires off + |data| <= |file|
    ensures SameRange(file, Pwrite(file, off, data), 0, off)
    ensures SameRange(file, Pwrite(file, off, data), off + |data|, |file|)
  {}

  /** A 32-bit value written is the value read back. */
  lemma WriteRead32(file: Bytes, off: nat, v: nat)
    requires v < U32
    ensures U32At(Pwrite(file, off, Encode(v, 4)), off) == v
  {
    Encode32(v);
  }

  lemma IntOfBytes(file: Bytes, pos: nat, b0: byte, b1: byte, b2: byte, b3: byte)
    requires pos + 4 <= |file| && file[pos..pos + 4] == [b0, b1, b2, b3]
    ensures U32At(file, pos) == LittleEndian(b0, b1, b2, b3)
  {
    FourBytes(b0, b1, b2, b3);
  }
}
