/** The INV4 database of the manager: appending results and worker statistics, verifying it, and draining the result
    ring into it at the end. */
module Inventory {
  import opened Memory
  import opened Format
  import opened Records
  import Database
  import opened Rings

  // ------------------------------------------------------------------ struct header_db

  const VERSION_POS := 8
  const COMPLETE_POS := 12
  const FILE_RECORD_COUNT_POS := 16
  const WORKER_COUNT_POS := 20
  const FIRST_RECORD_OFFSET_POS := 24
  const FIRST_STAT_OFFSET_POS := 28
  const HEADER_DB_SIZE := 32
  const VERSION := 100
  const MAGIC: Bytes := [73, 78, 86, 52, 0]   // "INV4"

  /** One past the largest int. */
  const INT := 0x8000_0000

  /** An int field of the mapped header, or of a record. */
  function IntAt(file: Bytes, pos: nat): int {
    Signed(U32At(file, pos))
  }

  function SetInt(file: Bytes, pos: nat, v: nat): Bytes {
    Pwrite(file, pos, Encode(v, 4))
  }

  // ------------------------------------------------------------------ results

  /** struct result; the path without its NUL. */
  datatype Result = Result(path: Bytes, size: nat, mtime: nat, mode: nat, uid: nat, gid: nat, sha: Bytes)

  const PATH_MAX := 4096

  predicate Sound(res: Result) {
    && |res.path| < PATH_MAX && 0 !in res.path && |res.sha| == 32
    && res.size < U32 && res.mtime < U32 && res.mode < U32 && res.uid < U32 && res.gid < U32
  }

  /** entry_size as append_result_db computes it: path_len + 2 * sizeof(int) + sizeof(*res) - sizeof(res->abs_path). */
  function EntrySize(res: Result): nat {
    |res.path| + 1 + 8 + 52
  }

  function ResultFields(res: Result): (fs: seq<Bytes>)
    ensures |fs| == 9
  {
    [Encode(EntrySize(res), 4), Encode(|res.path| + 1, 4), res.path + [0], Encode(res.size, 4), Encode(res.mtime, 4),
     Encode(res.mode, 4), Encode(res.uid, 4), Encode(res.gid, 4), res.sha]
  }

  function Stored(res: Result): Bytes {
    Flatten(ResultFields(res))
  }

  /** The declared size is the real one, so the check in append_result_db never fires. */
  lemma StoredSize(res: Result)
    requires Sound(res)
    ensures FieldOffset(ResultFields(res), 9) == |Stored(res)| == EntrySize(res) <= 2 * PATH_MAX
    ensures FieldOffset(ResultFields(res), 2) == 8 && FieldOffset(ResultFields(res), 3) == |res.path| + 9
    ensures FieldOffset(ResultFields(res), 8) == |res.path| + 29
  {
    var fs := ResultFields(res);
    FlattenLength(fs, 9);
    assert fs[..9] == fs;
    assert FieldOffset(fs, 1) == 4;
    assert FieldOffset(fs, 2) == 8;
    assert FieldOffset(fs, 3) == |res.path| + 9;
    assert FieldOffset(fs, 4) == |res.path| + 13;
    assert FieldOffset(fs, 6) == |res.path| + 21;
    assert FieldOffset(fs, 8) == |res.path| + 29;
  }

  function Region(results: seq<Result>): Bytes {
    if results == [] then [] else Region(results[..|results| - 1]) + Stored(results[|results| - 1])
  }

  lemma RegionAppend(results: seq<Result>, res: Result)
    ensures Region(results + [res]) == Region(results) + Stored(res)
  {
    assert (results + [res])[..|results|] == results;
  }

  // ------------------------------------------------------------------ the walk of verify

  /** The condition of the loop of verify. */
  predicate Walking(file: Bytes, left: int, right: int) {
    0 <= left && left + 4 <= |file| && left < right
  }

  /** left_pos after n turns. */
  function Visit(file: Bytes, left: int, right: int, n: nat): int {
    if n == 0 then left
    else
      var p := Visit(file, left, right, n - 1);
      if Walking(file, p, right) then p + IntAt(file, p) else p
  }

  ghost predicate Ends(file: Bytes, left: int, right: int, n: nat) {
    !Walking(file, Visit(file, left, right, n), right)
    && forall m: nat :: m < n ==> Walking(file, Visit(file, left, right, m), right)
  }

  /** Every entry the walk meets has a positive size. */
  ghost predicate PositiveSizes(file: Bytes, left: int, right: int) {
    forall n: nat :: Walking(file, Visit(file, left, right, n), right) ==> IntAt(file, Visit(file, left, right, n)) > 0
  }

  /** [left, right) is exactly n entries back to back, each beginning with its positive size. */
  ghost predicate Tiles(file: Bytes, left: int, right: int, n: int)
    decreases if n < 0 then 0 else n
  {
    if n <= 0 then n == 0 && left == right
    else Walking(file, left, right) && IntAt(file, left) > 0 && Tiles(file, left + IntAt(file, left), right, n - 1)
  }

  predicate HeaderAccepted(file: Bytes) {
    HEADER_DB_SIZE <= |file| && Pread(file, 0, 5) == MAGIC && IntAt(file, VERSION_POS) == VERSION
  }

  /** The loop of verify, on any file on which it stops. */
  method Walk(file: Bytes, left: int, right: int, ghost n: nat) returns (end: int, count: nat)
    requires Ends(file, left, right, n)
    ensures count == n && end == Visit(file, left, right, n)
  {
    hide Decode, Signed;
    count, end := 0, left;
    while 0 <= end && |Pread(file, end, 4)| == 4 && end < right
      invariant count <= n && end == Visit(file, left, right, count)
      decreases n - count
    {
      assert Walking(file, end, right);
      end := end + Signed(Decode(Pread(file, end, 4)));
      count := count + 1;
    }
  }

  function RecordsBegin(file: Bytes): int { IntAt(file, FIRST_RECORD_OFFSET_POS) }

  function RecordsEnd(file: Bytes): int { IntAt(file, FIRST_STAT_OFFSET_POS) }

  /** What verify checks, when its loop has stopped after n turns: the header, that the file can be positioned at
      first_stat_offset, that the walk ended there, and that it took as many turns as there are records. */
  predicate Accepted(file: Bytes, n: nat) {
    && HeaderAccepted(file) && 0 <= RecordsEnd(file)
    && Visit(file, RecordsBegin(file), RecordsEnd(file), n) == RecordsEnd(file)
    && n == IntAt(file, FILE_RECORD_COUNT_POS)
  }

  /** An accepted header begins with "INV4" and a NUL, and its version is 100. */
  lemma HeaderBytes(file: Bytes)
    ensures HeaderAccepted(file) <==>
              32 <= |file| && file[..5] == [73, 78, 86, 52, 0] && file[8..12] == [100, 0, 0, 0]
  {
    if 32 <= |file| {
      var four := file[8..12];
      FourBytes(four[0], four[1], four[2], four[3]);
      assert four == [four[0], four[1], four[2], four[3]];
      assert Pread(file, 0, 5) == file[..5];
      NumberOfBytes(four[0], four[1], four[2], four[3]);
    }
  }

  lemma NumberOfBytes(b0: byte, b1: byte, b2: byte, b3: byte)
    ensures var v := b0 as int + 0x100 * b1 as int + 0x1_0000 * b2 as int + 0x100_0000 * b3 as int;
            Signed(v) == 100 <==> b0 == 100 && b1 == 0 && b2 == 0 && b3 == 0
  {}

  /** verify, on any file on which its loop stops, after n turns: 0 for a good file, 1 for a bad one. */
  method Verify(file: Bytes, ghost n: nat) returns (ret: int)
    requires Ends(file, RecordsBegin(file), RecordsEnd(file), n)
    ensures ret in {0, 1}
    ensures ret == 0 <==> Accepted(file, n)
    ensures |file| < 32 || file[..5] != [73, 78, 86, 52, 0] || file[8..12] != [100, 0, 0, 0] ==> ret == 1
  {
    HeaderBytes(file);
    if Pread(file, 0, 5) != MAGIC || IntAt(file, VERSION_POS) != VERSION || |file| < HEADER_DB_SIZE {
      return 1;
    }
    var right := IntAt(file, FIRST_STAT_OFFSET_POS);
    if right < 0 {
      // lseek refuses a negative offset
      return 1;
    }
    var end, count := Walk(file, IntAt(file, FIRST_RECORD_OFFSET_POS), right, n);
    ret := if end != right || count != IntAt(file, FILE_RECORD_COUNT_POS) then 1 else 0;
  }

  lemma {:induction false} VisitShift(file: Bytes, left: int, right: int, n: nat)
    requires Walking(file, left, right)
    ensures Visit(file, left, right, n + 1) == Visit(file, left + IntAt(file, left), right, n)
  {
    if n > 0 {
      VisitShift(file, left, right, n - 1);
    } else {
      assert Visit(file, left, right, 1) == left + IntAt(file, left);
    }
  }

  lemma PositiveShift(file: Bytes, left: int, right: int)
    requires PositiveSizes(file, left, right) && Walking(file, left, right)
    ensures IntAt(file, left) > 0 && PositiveSizes(file, left + IntAt(file, left), right)
  {
    assert Visit(file, left, right, 0) == left;
    var next := left + IntAt(file, left);
    forall n: nat | Walking(file, Visit(file, next, right, n), right) ensures IntAt(file, Visit(file, next, right, n)) > 0 {
      VisitShift(file, left, right, n);
      assert Visit(file, left, right, n + 1) == Visit(file, next, right, n);
    }
  }

  /** With positive sizes the loop stops, and it stops at the right place after n turns exactly if the region is n
      entries back to back. */
  lemma {:induction false} WalkFindsTiling(file: Bytes, left: int, right: int) returns (n: nat)
    requires PositiveSizes(file, left, right)
    ensures Ends(file, left, right, n)
    ensures forall k :: Tiles(file, left, right, k) <==> k == n && Visit(file, left, right, n) == right
    decreases if left < right then right - left else 0
  {
    hide PositiveSizes;
    if Walking(file, left, right) {
      PositiveShift(file, left, right);
      var next := left + IntAt(file, left);
      var m := WalkFindsTiling(file, next, right);
      n := m + 1;
      EndsShift(file, left, right, m);
      VisitShift(file, left, right, m);
      forall k ensures Tiles(file, left, right, k) <==> k == n && Visit(file, left, right, n) == right {
        assert k > 0 ==> (Tiles(file, left, right, k) <==> Tiles(file, next, right, k - 1));
      }
    } else {
      n := 0;
    }
  }

  lemma EndsShift(file: Bytes, left: int, right: int, m: nat)
    requires Walking(file, left, right) && Ends(file, left + IntAt(file, left), right, m)
    ensures Ends(file, left, right, m + 1)
  {
    VisitShift(file, left, right, m);
    forall k: nat | k < m + 1 ensures Walking(file, Visit(file, left, right, k), right) {
      if k > 0 {
        VisitShift(file, left, right, k - 1);
      }
    }
  }

  /** What acceptance means when all sizes are positive: the record region is exactly file_record_count entries. */
  lemma AcceptanceIsTiling(file: Bytes) returns (n: nat)
    requires PositiveSizes(file, RecordsBegin(file), RecordsEnd(file))
    ensures Ends(file, RecordsBegin(file), RecordsEnd(file), n)
    ensures Accepted(file, n) <==>
              && HeaderAccepted(file) && 0 <= RecordsEnd(file)
              && Tiles(file, RecordsBegin(file), RecordsEnd(file), IntAt(file, FILE_RECORD_COUNT_POS))
  {
    n := WalkFindsTiling(file, RecordsBegin(file), RecordsEnd(file));
  }

  // ------------------------------------------------------------------ when the walk ends

  lemma {:induction false} StaysEnded(file: Bytes, left: int, right: int, n: nat, m: nat)
    requires !Walking(file, Visit(file, left, right, n), right) && n <= m
    ensures Visit(file, left, right, m) == Visit(file, left, right, n)
    decreases m
  {
    if n < m {
      StaysEnded(file, left, right, n, m - 1);
    }
  }

  lemma {:induction false} Repeats(file: Bytes, left: int, right: int, i: nat, j: nat, d: nat)
    requires Visit(file, left, right, i) == Visit(file, left, right, j)
    ensures Visit(file, left, right, i + d) == Visit(file, left, right, j + d)
  {
    if d > 0 {
      Repeats(file, left, right, i, j, d - 1);
    }
  }

  /** No position is met twice on the way. */
  ghost predicate NeverTwice(file: Bytes, left: int, right: int) {
    forall i: nat, j: nat :: i < j && Walking(file, Visit(file, left, right, i), right) ==>
      Visit(file, left, right, i) != Visit(file, left, right, j)
  }

  lemma EndIsNew(file: Bytes, left: int, right: int, n: nat, m: nat)
    requires Ends(file, left, right, n) && m < n
    ensures Visit(file, left, right, m) != Visit(file, left, right, n)
  {}

  /** A position met twice is met for ever. */
  lemma TwiceIsForEver(file: Bytes, left: int, right: int, i: nat, j: nat, n: nat)
    requires i < j && Walking(file, Visit(file, left, right, i), right)
    requires Visit(file, left, right, i) == Visit(file, left, right, j)
    ensures !Ends(file, left, right, n)
  {
    hide Visit, Walking;
    if Ends(file, left, right, n) {
      if n <= i {
        StaysEnded(file, left, right, n, i);
      } else if n <= j {
        StaysEnded(file, left, right, n, j);
      } else {
        EndIsNew(file, left, right, n, i + (n - j));
        Repeats(file, left, right, i, j, n - j);
      }
    }
  }

  lemma {:induction false} DistinctCount(s: seq<int>)
    requires forall i, j :: 0 <= i < j < |s| ==> s[i] != s[j]
    ensures |set x | x in s| == |s|
  {
    var all := set x | x in s;
    if s == [] {
      assert all == {};
    } else {
      var n := |s| - 1;
      var front := set x | x in s[..n];
      DistinctCount(s[..n]);
      assert all == front + {s[n]} && s[n] !in front;
    }
  }

  lemma {:induction false} BelowCount(s: set<int>, n: nat)
    requires forall x :: x in s ==> 0 <= x < n
    ensures |s| <= n
  {
    if n == 0 {
      forall x: int ensures x !in s {}
      assert s == {};
    } else {
      BelowCount(s - {n - 1}, n - 1);
      assert s <= (s - {n - 1}) + {n - 1};
    }
  }

  /** Only n different numbers lie below n. */
  lemma Pigeonhole(s: seq<int>, n: nat)
    requires forall i, j :: 0 <= i < j < |s| ==> s[i] != s[j]
    requires forall i :: 0 <= i < |s| ==> 0 <= s[i] < n
    ensures |s| <= n
  {
    DistinctCount(s);
    BelowCount((set x | x in s), n);
  }

  lemma {:induction false} FirstEnd(file: Bytes, left: int, right: int, m: nat) returns (n: nat)
    requires !Walking(file, Visit(file, left, right, m), right)
    ensures n <= m && Ends(file, left, right, n)
  {
    if k: nat :| k < m && !Walking(file, Visit(file, left, right, k), right) {
      n := FirstEnd(file, left, right, k);
    } else {
      n := m;
    }
  }

  /** A walk that meets no position twice has stopped after as many turns as the file has bytes. */
  lemma NeverTwiceEnds(file: Bytes, left: int, right: int)
    requires NeverTwice(file, left, right)
    ensures !Walking(file, Visit(file, left, right, |file|), right)
  {
    hide Visit;
    var size := |file|;
    if Walking(file, Visit(file, left, right, size), right) {
      var s := seq(size + 1, i requires 0 <= i <= size => Visit(file, left, right, i));
      forall i: nat | i <= size ensures Walking(file, Visit(file, left, right, i), right) {
        if !Walking(file, Visit(file, left, right, i), right) {
          StaysEnded(file, left, right, i, size);
        }
      }
      Pigeonhole(s, size);
    }
  }

  /** The loop of verify ends exactly when it meets no position twice, and exactly when it has stopped after as many
      turns as the file has bytes. */
  lemma WalkEndsExactly(file: Bytes, left: int, right: int)
    ensures (exists n: nat :: Ends(file, left, right, n)) <==> NeverTwice(file, left, right)
    ensures (exists n: nat :: Ends(file, left, right, n)) <==> !Walking(file, Visit(file, left, right, |file|), right)
  {
    if n: nat :| Ends(file, left, right, n) {
      forall i: nat, j: nat | i < j && Walking(file, Visit(file, left, right, i), right)
        ensures Visit(file, left, right, i) != Visit(file, left, right, j)
      {
        if Visit(file, left, right, i) == Visit(file, left, right, j) {
          TwiceIsForEver(file, left, right, i, j, n);
        }
      }
    }
    if NeverTwice(file, left, right) {
      NeverTwiceEnds(file, left, right);
    }
    if !Walking(file, Visit(file, left, right, |file|), right) {
      var n := FirstEnd(file, left, right, |file|);
    }
  }

  /** An entry whose size field is 0 keeps the walk where it is: verify does not guard against it. */
  lemma {:induction false} ZeroSizeNeverEnds(file: Bytes, left: int, right: int, k: nat, n: nat)
    requires Walking(file, Visit(file, left, right, k), right) && IntAt(file, Visit(file, left, right, k)) == 0
    ensures k <= n ==> Visit(file, left, right, n) == Visit(file, left, right, k)
    ensures !Ends(file, left, right, n)
    decreases n
  {
    if k < n {
      ZeroSizeNeverEnds(file, left, right, k, n - 1);
    }
    assert Visit(file, left, right, k + 1) == Visit(file, left, right, k);
    TwiceIsForEver(file, left, right, k, k + 1, n);
  }

  /** A header of an INV4 file with one record and records in [32, end). */
  function HeaderUpTo(end: byte): (s: Bytes)
    ensures |s| == HEADER_DB_SIZE
  {
    [73, 78, 86, 52, 0, 0, 0, 0, 100, 0, 0, 0] + [0, 0, 0, 0, 1, 0, 0, 0, 1, 0, 0, 0] + [32, 0, 0, 0, end, 0, 0, 0]
  }

  lemma HeaderUpToIsGood(end: byte, rest: Bytes)
    ensures var file := HeaderUpTo(end) + rest;
            HeaderAccepted(file) && RecordsBegin(file) == HEADER_DB_SIZE && RecordsEnd(file) == end
  {
    hide U32At, Pread;
    var head := HeaderUpTo(end);
    var file := head + rest;
    HeaderInt(head, rest, VERSION_POS, 100);
    HeaderInt(head, rest, FIRST_RECORD_OFFSET_POS, HEADER_DB_SIZE);
    HeaderInt(head, rest, FIRST_STAT_OFFSET_POS, end);
    MagicOf(head, rest);
  }

  lemma HeaderInt(head: Bytes, rest: Bytes, pos: nat, b: byte)
    requires pos + 4 <= |head| && head[pos..pos + 4] == [b, 0, 0, 0]
    ensures IntAt(head + rest, pos) == b
  {
    hide U32At;
    assert (head + rest)[pos..pos + 4] == head[pos..pos + 4];
    IntOfBytes(head + rest, pos, b, 0, 0, 0);
  }

  lemma MagicOf(head: Bytes, rest: Bytes)
    requires 5 <= |head| && head[..5] == MAGIC
    ensures Pread(head + rest, 0, 5) == MAGIC
  {
    assert (head + rest)[0..5] == head[..5];
  }

  /** One record of size 0: verify never ends. */
  lemma ZeroSizedRecord() returns (file: Bytes)
    ensures HeaderAccepted(file) && 0 <= RecordsEnd(file)
    ensures forall n: nat :: !Ends(file, RecordsBegin(file), RecordsEnd(file), n)
  {
    hide IntAt, Ends;
    var rest: Bytes := [0, 0, 0, 0];
    file := HeaderUpTo(36) + rest;
    HeaderUpToIsGood(36, rest);
    FirstInt(HeaderUpTo(36), rest);
    assert Visit(file, 32, 36, 0) == 32;
    forall n: nat ensures !Ends(file, 32, 36, n) {
      ZeroSizeNeverEnds(file, 32, 36, 0, n);
    }
  }

  lemma FirstInt(head: Bytes, rest: Bytes)
    requires |head| == HEADER_DB_SIZE && rest == [0, 0, 0, 0]
    ensures IntAt(head + rest, 32) == 0
  {
    assert (head + rest)[32..36] == [0, 0, 0, 0];
    IntOfBytes(head + rest, 32, 0, 0, 0, 0);
  }

  /** Two records of sizes 8 and -8: it never ends either, with no size 0 anywhere. */
  lemma BackAndForth() returns (file: Bytes)
    ensures HeaderAccepted(file) && 0 <= RecordsEnd(file)
    ensures forall n: nat :: !Ends(file, RecordsBegin(file), RecordsEnd(file), n)
    ensures IntAt(file, 32) == 8 && IntAt(file, 40) == -8
  {
    var rest: Bytes := [8, 0, 0, 0, 0, 0, 0, 0, 248, 255, 255, 255];
    file := HeaderUpTo(90) + rest;
    HeaderUpToIsGood(90, rest);
    assert file[32..36] == [8, 0, 0, 0] && file[40..44] == [248, 255, 255, 255];
    IntOfBytes(file, 32, 8, 0, 0, 0);
    IntOfBytes(file, 40, 248, 255, 255, 255);
    assert Visit(file, 32, 90, 0) == 32;
    assert Visit(file, 32, 90, 1) == 40;
    assert Visit(file, 32, 90, 2) == 32;
    forall n: nat ensures !Ends(file, 32, 90, n) {
      TwiceIsForEver(file, 32, 90, 0, 2, n);
    }
  }

  // ------------------------------------------------------------------ what append_result_db leaves in the file

  /** The size field of a stored result is what the walk adds. */
  lemma StoredSizeField(res: Result)
    requires Sound(res)
    ensures |Stored(res)| == EntrySize(res) && Pread(Stored(res), 0, 4) == Encode(EntrySize(res), 4)
    ensures Signed(Decode(Pread(Stored(res), 0, 4))) == EntrySize(res)
  {
    hide Flatten;
    StoredSize(res);
    ReadField(ResultFields(res), 0);
    Encode32(EntrySize(res));
  }

  /** Every field of a result can be read back at its place in the record. */
  lemma StoredFields(res: Result)
    requires Sound(res)
    ensures Int32At(Stored(res), 4, |res.path| + 1) && Pread(Stored(res), 8, |res.path| + 1) == res.path + [0]
    ensures CString(Pread(Stored(res), 8, |res.path| + 1)) == res.path
    ensures var at := 9 + |res.path|;
            && Int32At(Stored(res), at, res.size) && Int32At(Stored(res), at + 4, res.mtime)
            && Int32At(Stored(res), at + 8, res.mode) && Int32At(Stored(res), at + 12, res.uid)
            && Int32At(Stored(res), at + 16, res.gid) && Pread(Stored(res), at + 20, 32) == res.sha
  {
    hide Flatten;
    var fs := ResultFields(res);
    StoredSize(res);
    ReadInt32(fs, 1, |res.path| + 1);
    ReadField(fs, 2);
    PathStops(res.path);
    ReadInt32(fs, 3, res.size);
    ReadInt32(fs, 4, res.mtime);
    ReadInt32(fs, 5, res.mode);
    ReadInt32(fs, 6, res.uid);
    ReadInt32(fs, 7, res.gid);
    ReadField(fs, 8);
    assert FieldOffset(fs, 1) == 4;
    assert FieldOffset(fs, 4) == FieldOffset(fs, 3) + 4;
    assert FieldOffset(fs, 5) == FieldOffset(fs, 4) + 4;
    assert FieldOffset(fs, 6) == FieldOffset(fs, 5) + 4;
    assert FieldOffset(fs, 7) == FieldOffset(fs, 6) + 4;
  }

  lemma {:induction false} PathStops(path: Bytes)
    requires 0 !in path
    ensures CString(path + [0]) == path
  {
    if path != [] {
      assert (path + [0])[1..] == path[1..] + [0];
      PathStops(path[1..]);
    }
  }

  ghost predicate AllSound(results: seq<Result>) {
    forall i :: 0 <= i < |results| ==> Sound(results[i])
  }

  /** Where result i begins. */
  ghost function ResultPos(results: seq<Result>, i: nat): nat
    requires i <= |results|
  {
    HEADER_DB_SIZE + |Region(results[..i])|
  }

  /** The region of some results starts with the region of the first i, followed by result i. */
  lemma {:induction false} ResultInRegion(results: seq<Result>, i: nat)
    requires i < |results|
    ensures |Region(results[..i])| + |Stored(results[i])| == |Region(results[..i + 1])| <= |Region(results)|
    ensures Pread(Region(results), |Region(results[..i])|, |Stored(results[i])|) == Stored(results[i])
    decreases |results|
  {
    hide Stored;
    var n := |results| - 1;
    var front := results[..n];
    assert results == front + [results[n]];
    RegionAppend(front, results[n]);
    if i == n {
      assert results[..i + 1] == results;
    } else {
      ResultInRegion(front, i);
      assert front[..i] == results[..i] && front[..i + 1] == results[..i + 1];
    }
  }

  /** In a file whose record region is the region of some results, the walk moves from each result to the next. */
  lemma WalkStep(file: Bytes, results: seq<Result>, i: nat)
    requires AllSound(results) && i < |results| && HEADER_DB_SIZE + |Region(results)| <= |file|
    requires Pread(file, HEADER_DB_SIZE, |Region(results)|) == Region(results)
    ensures var pos := ResultPos(results, i);
            && Walking(file, pos, HEADER_DB_SIZE + |Region(results)|)
            && IntAt(file, pos) == EntrySize(results[i])
            && pos + EntrySize(results[i]) == ResultPos(results, i + 1)
  {
    hide Stored, Region, Signed, EntrySize;
    var region, at := Region(results), |Region(results[..i])|;
    ResultInRegion(results, i);
    SizeOfStored(results[i]);
    PreadOfPread(file, HEADER_DB_SIZE, |region|, at, |Stored(results[i])|);
    PreadOfPread(file, HEADER_DB_SIZE + at, |Stored(results[i])|, 0, 4);
  }

  lemma SizeOfStored(res: Result)
    requires Sound(res)
    ensures |Stored(res)| == EntrySize(res) && EntrySize(res) >= 61
    ensures Signed(Decode(Pread(Stored(res), 0, 4))) == EntrySize(res)
  {
    StoredSizeField(res);
  }

  lemma {:induction false} RegionTiles(file: Bytes, results: seq<Result>, i: nat)
    requires AllSound(results) && i <= |results| && HEADER_DB_SIZE + |Region(results)| <= |file|
    requires Pread(file, HEADER_DB_SIZE, |Region(results)|) == Region(results)
    ensures Tiles(file, ResultPos(results, i), HEADER_DB_SIZE + |Region(results)|, |results| - i)
    decreases |results| - i
  {
    hide Walking, Region, EntrySize;
    if i < |results| {
      WalkStep(file, results, i);
      EntryPositive(results[i]);
      RegionTiles(file, results, i + 1);
    } else {
      assert results[..i] == results;
    }
  }

  lemma EntryPositive(res: Result)
    ensures EntrySize(res) > 0
  {}

  lemma {:induction false} WalkVisitsResults(file: Bytes, results: seq<Result>, n: nat)
    requires AllSound(results) && n <= |results| && HEADER_DB_SIZE + |Region(results)| <= |file|
    requires Pread(file, HEADER_DB_SIZE, |Region(results)|) == Region(results)
    ensures Visit(file, HEADER_DB_SIZE, HEADER_DB_SIZE + |Region(results)|, n) == ResultPos(results, n)
  {
    hide Walking, EntrySize;
    if n > 0 {
      WalkVisitsResults(file, results, n - 1);
      WalkStep(file, results, n - 1);
    } else {
      assert results[..0] == [];
    }
  }

  /** The walk over stored results ends at the right place, after as many turns as there are results. */
  lemma WalkEndsRight(file: Bytes, results: seq<Result>)
    requires AllSound(results) && HEADER_DB_SIZE + |Region(results)| <= |file|
    requires Pread(file, HEADER_DB_SIZE, |Region(results)|) == Region(results)
    ensures var right := HEADER_DB_SIZE + |Region(results)|;
            Ends(file, HEADER_DB_SIZE, right, |results|) && Visit(file, HEADER_DB_SIZE, right, |results|) == right
  {
    hide Region, EntrySize, IntAt;
    var right := HEADER_DB_SIZE + |Region(results)|;
    WalkVisitsResults(file, results, |results|);
    assert results[..|results|] == results;
    forall m: nat | m < |results| ensures Walking(file, Visit(file, HEADER_DB_SIZE, right, m), right) {
      WalkVisitsResults(file, results, m);
      WalkStep(file, results, m);
    }
  }

  // ------------------------------------------------------------------ the open database

  /** The fixed part of the header, its two moving fields, and the record region. */
  ghost predicate Holds(file: Bytes, results: seq<Result>) {
    && AllSound(results) && HEADER_DB_SIZE + |Region(results)| <= |file|
    && HeaderAccepted(file) && IntAt(file, FIRST_RECORD_OFFSET_POS) == HEADER_DB_SIZE
    && IntAt(file, FIRST_STAT_OFFSET_POS) == HEADER_DB_SIZE + |Region(results)|
    && IntAt(file, FILE_RECORD_COUNT_POS) == |results|
    && Pread(file, HEADER_DB_SIZE, |Region(results)|) == Region(results)
  }

  /** Whatever has been appended so far, verify accepts the file. */
  lemma HoldsIsAccepted(file: Bytes, results: seq<Result>)
    requires Holds(file, results)
    ensures Ends(file, RecordsBegin(file), RecordsEnd(file), |results|) && Accepted(file, |results|)
    ensures Tiles(file, RecordsBegin(file), RecordsEnd(file), |results|)
  {
    hide Region, IntAt, Ends, Visit, Tiles;
    WalkEndsRight(file, results);
    RegionTiles(file, results, 0);
    assert results[..0] == [];
    EmptyRegion();
  }

  lemma EmptyRegion()
    ensures Region([]) == []
  {}

  /** An int of the header reads back as stored; nothing else changes. */
  lemma SetIntEffect(file: Bytes, pos: nat, v: nat)
    requires 5 <= pos && pos + 4 <= HEADER_DB_SIZE <= |file| && v < INT
    ensures var g := SetInt(file, pos, v);
            && |g| == |file| && IntAt(g, pos) == v
            && (forall p: nat :: (p + 4 <= pos || pos + 4 <= p) && p + 4 <= |file| ==> IntAt(g, p) == IntAt(file, p))
            && Pread(g, 0, 5) == Pread(file, 0, 5)
            && forall n: nat :: HEADER_DB_SIZE + n <= |file| ==> Pread(g, HEADER_DB_SIZE, n) == Pread(file, HEADER_DB_SIZE, n)
  {
    hide Signed, Pwrite;
    var g := SetInt(file, pos, v);
    assert |g| == |file| by { SetIntSize(file, pos, v); }
    WriteRead32(file, pos, v);
    assert Signed(v) == v by { SmallIsSigned(v); }
    PwriteElsewhere(file, pos, Encode(v, 4));
    forall p: nat | (p + 4 <= pos || pos + 4 <= p) && p + 4 <= |file| ensures IntAt(g, p) == IntAt(file, p) {
      PreadSame(file, g, p, 4);
    }
    PreadSame(file, g, 0, 5);
    forall n: nat | HEADER_DB_SIZE + n <= |file| ensures Pread(g, HEADER_DB_SIZE, n) == Pread(file, HEADER_DB_SIZE, n) {
      PreadSame(file, g, HEADER_DB_SIZE, n);
    }
  }

  lemma SetIntSize(file: Bytes, pos: nat, v: nat)
    requires pos + 4 <= |file|
    ensures |SetInt(file, pos, v)| == |file|
  {}

  lemma SmallIsSigned(v: nat)
    requires v < INT
    ensures Signed(v) == v
  {}

  /** A header field verify does not depend on may change. */
  lemma OtherFieldSet(file: Bytes, results: seq<Result>, pos: nat, v: nat)
    requires Holds(file, results) && (pos == COMPLETE_POS || pos == WORKER_COUNT_POS) && v < INT
    ensures Holds(SetInt(file, pos, v), results) && |SetInt(file, pos, v)| == |file|
  {
    hide IntAt, SetInt, Pread, Region, AllSound;
    SetIntEffect(file, pos, v);
  }

  lemma MarkSet(file: Bytes, level: nat)
    requires HEADER_DB_SIZE <= |file| && level <= 2
    ensures var g := SetInt(file, COMPLETE_POS, level);
            IntAt(g, 12) == level && SameRange(file, g, 0, 12) && SameRange(file, g, 16, |file|)
  {
    hide IntAt;
    SetIntEffect(file, COMPLETE_POS, level);
    PwriteElsewhere(file, COMPLETE_POS, Encode(level, 4));
  }

  /** Bytes added at the end change nothing before them. */
  lemma AppendedAtEnd(file: Bytes, data: Bytes)
    ensures forall p: nat :: p + 4 <= |file| ==> IntAt(file + data, p) == IntAt(file, p)
    ensures 5 <= |file| ==> Pread(file + data, 0, 5) == Pread(file, 0, 5)
    ensures forall n: nat :: HEADER_DB_SIZE + n <= |file| ==>
                               Pread(file + data, HEADER_DB_SIZE, n) == Pread(file, HEADER_DB_SIZE, n)
  {
    AppendElsewhere(file, data);
    forall p: nat | p + 4 <= |file| ensures IntAt(file + data, p) == IntAt(file, p) {
      PreadSame(file, file + data, p, 4);
    }
    if 5 <= |file| {
      PreadSame(file, file + data, 0, 5);
    }
    forall n: nat | HEADER_DB_SIZE + n <= |file| ensures
      Pread(file + data, HEADER_DB_SIZE, n) == Pread(file, HEADER_DB_SIZE, n)
    {
      PreadSame(file, file + data, HEADER_DB_SIZE, n);
    }
  }

  /** The three writes that publish a result: the record at the end, then the two header fields. */
  function Published(file: Bytes, res: Result): Bytes
    requires IntAt(file, FIRST_STAT_OFFSET_POS) >= 0 && IntAt(file, FILE_RECORD_COUNT_POS) >= 0
  {
    var longer := file + Stored(res);
    var moved := SetInt(longer, FIRST_STAT_OFFSET_POS, IntAt(file, FIRST_STAT_OFFSET_POS) + EntrySize(res));
    SetInt(moved, FILE_RECORD_COUNT_POS, IntAt(file, FILE_RECORD_COUNT_POS) + 1)
  }

  lemma PublishHolds(file: Bytes, results: seq<Result>, res: Result)
    requires Holds(file, results) && |file| == HEADER_DB_SIZE + |Region(results)|
    requires Sound(res) && |file| + EntrySize(res) < INT
    ensures Holds(Published(file, res), results + [res])
    ensures |Published(file, res)| == HEADER_DB_SIZE + |Region(results + [res])| == |file| + EntrySize(res)
  {
    hide IntAt, SetInt, Region, Stored, Sound, EntrySize;
    var stat := IntAt(file, FIRST_STAT_OFFSET_POS) + EntrySize(res);
    var longer := file + Stored(res);
    FewResults(results);
    RegionAppend(results, res);
    SizeOfStored(res);
    AppendedAtEnd(file, Stored(res));
    SetIntEffect(longer, FIRST_STAT_OFFSET_POS, stat);
    var moved := SetInt(longer, FIRST_STAT_OFFSET_POS, stat);
    SetIntEffect(moved, FILE_RECORD_COUNT_POS, |results| + 1);
    RegionRead(file, results, res);
  }

  lemma RegionRead(file: Bytes, results: seq<Result>, res: Result)
    requires |file| == HEADER_DB_SIZE + |Region(results)| && Pread(file, HEADER_DB_SIZE, |Region(results)|) == Region(results)
    ensures var all := Region(results + [res]);
            Pread(file + Stored(res), HEADER_DB_SIZE, |all|) == all
  {
    hide Region, Stored;
    RegionAppend(results, res);
    var a, b := Region(results), Stored(res);
    assert file == file[..HEADER_DB_SIZE] + a;
    assert file + b == file[..HEADER_DB_SIZE] + (a + b);
  }

  lemma {:induction false} FewResults(results: seq<Result>)
    requires AllSound(results)
    ensures |results| <= |Region(results)|
  {
    hide Stored, EntrySize, Signed;
    if results != [] {
      FewResults(results[..|results| - 1]);
      SizeOfStored(results[|results| - 1]);
    }
  }

  /** The file as start_db leaves it. */
  lemma FreshHolds(file: Bytes, workers: nat)
    requires |file| == HEADER_DB_SIZE && workers < INT && Pread(file, 0, 5) == MAGIC
    requires IntAt(file, VERSION_POS) == VERSION && IntAt(file, FILE_RECORD_COUNT_POS) == 0
    requires IntAt(file, FIRST_RECORD_OFFSET_POS) == HEADER_DB_SIZE == IntAt(file, FIRST_STAT_OFFSET_POS)
    ensures Holds(file, [])
  {}

  class InventoryDb {
    var file: Bytes
    /** The results published so far. */
    ghost var results: seq<Result>

    ghost predicate Valid()
      reads this
    {
      Holds(file, results)
    }

    /** No statistics yet: the file ends where the records end. */
    ghost predicate Open()
      reads this
    {
      Valid() && |file| == HEADER_DB_SIZE + |Region(results)|
    }

    /** start_db. */
    constructor (workers: nat)
      requires workers <= CAPACITY
      ensures Open() && results == [] && |file| == 32 && file[..5] == [73, 78, 86, 52, 0]
      ensures IntAt(file, 8) == 100 && IntAt(file, 12) == 0 && IntAt(file, 16) == 0
      ensures IntAt(file, 20) == workers && IntAt(file, 24) == 32 == IntAt(file, 28)
    {
      new;
      file := Pwrite(seq(HEADER_DB_SIZE, _ => 0), 0, MAGIC);
      results := [];
      InitialiseFields(workers);
    }

    /** The assignments of start_db to the mapped header. */
    method InitialiseFields(workers: nat)
      requires |file| == HEADER_DB_SIZE && Pread(file, 0, 5) == MAGIC && workers <= CAPACITY && results == []
      modifies this`file
      ensures Open() && |file| == 32 && Pread(file, 0, 5) == MAGIC
      ensures IntAt(file, 8) == 100 && IntAt(file, 12) == 0 && IntAt(file, 16) == 0
      ensures IntAt(file, 20) == workers && IntAt(file, 24) == 32 == IntAt(file, 28)
    {
      hide IntAt, SetInt, Pread;
      SetIntEffect(file, VERSION_POS, VERSION);
      file := SetInt(file, VERSION_POS, VERSION);
      SetIntEffect(file, COMPLETE_POS, 0);
      file := SetInt(file, COMPLETE_POS, 0);
      SetIntEffect(file, FILE_RECORD_COUNT_POS, 0);
      file := SetInt(file, FILE_RECORD_COUNT_POS, 0);
      SetIntEffect(file, WORKER_COUNT_POS, workers);
      file := SetInt(file, WORKER_COUNT_POS, workers);
      SetIntEffect(file, FIRST_RECORD_OFFSET_POS, HEADER_DB_SIZE);
      file := SetInt(file, FIRST_RECORD_OFFSET_POS, HEADER_DB_SIZE);
      SetIntEffect(file, FIRST_STAT_OFFSET_POS, HEADER_DB_SIZE);
      file := SetInt(file, FIRST_STAT_OFFSET_POS, HEADER_DB_SIZE);
      FreshHolds(file, workers);
      EmptyRegion();
    }

    /** append_result_db: the record goes to the end of the file and first_stat_offset past it. */
    method AppendResult(res: Result) returns (ret: int)
      requires Sound(res) && HEADER_DB_SIZE <= |file| && 0 <= IntAt(file, FIRST_STAT_OFFSET_POS)
      modifies this`file
      ensures ret == 0
      ensures file == SetInt(old(file) + Stored(res), FIRST_STAT_OFFSET_POS,
                             IntAt(old(file), FIRST_STAT_OFFSET_POS) + EntrySize(res))
    {
      hide IntAt, SetInt;
      StoredSize(res);
      var buffer := new byte[2 * PATH_MAX];
      var size := Database.SerialiseFields(ResultFields(res), buffer);
      if size != EntrySize(res) {
        return -1;
      }
      AppendedAtEnd(file, Stored(res));
      file := file + buffer[..size];
      file := SetInt(file, FIRST_STAT_OFFSET_POS, IntAt(file, FIRST_STAT_OFFSET_POS) + size);
      ret := 0;
    }

    /** What both loops of the manager do with a result: append it and count it. */
    method Publish(res: Result)
      requires Open() && Sound(res) && |file| + EntrySize(res) < INT
      modifies this
      ensures Open() && results == old(results) + [res] && |file| == |old(file)| + EntrySize(res)
      ensures IntAt(old(file), FIRST_STAT_OFFSET_POS) >= 0 && IntAt(old(file), FILE_RECORD_COUNT_POS) >= 0
      ensures file == Published(old(file), res)
    {
      hide IntAt, SetInt, Sound, EntrySize, Region, Stored, AllSound;
      ghost var before := file;
      PublishHolds(file, results, res);
      CountUntouched(file, results, res);
      var ret := AppendResult(res);
      file := SetInt(file, FILE_RECORD_COUNT_POS, IntAt(file, FILE_RECORD_COUNT_POS) + 1);
      results := results + [res];
      assert file == Published(before, res);
    }

    /** hd->complete = ... */
    method MarkComplete(level: nat)
      requires Valid() && level <= 2
      modifies this`file
      ensures Valid() && |file| == |old(file)| && IntAt(file, 12) == level
      ensures SameRange(old(file), file, 0, 12) && SameRange(old(file), file, 16, |file|)
    {
      hide IntAt, SetInt, Region, AllSound;
      OtherFieldSet(file, results, COMPLETE_POS, level);
      MarkSet(file, level);
      file := SetInt(file, COMPLETE_POS, level);
    }

    /** append_stats_db: statistics go behind the records. */
    method AppendStats(stats: Bytes)
      requires Valid()
      modifies this`file
      ensures Valid() && file == old(file) + stats
    {
      hide IntAt, Region, AllSound, Pread;
      AppendedAtEnd(file, stats);
      file := file + stats;
    }

    /** The loop at the end of main: what is left in the result ring is published, oldest first, until head meets tail. */
    method Drain(ring: SharedRing<Result>)
      requires Open() && ring.slots.Length == CAPACITY && Fits(ring.Value()) && AllSound(Pending(ring.Value()))
      requires |file| + |Region(Pending(ring.Value()))| < INT
      modifies this, ring`head
      ensures Open() && results == old(results) + old(Pending(ring.Value())) && ring.head == ring.tail
    {
      hide Region, EntrySize, Sound, Holds, Pending, Stored;
      ghost var all := Pending(ring.Value());
      assert results + all == old(results) + all;
      while ring.head != ring.tail
        invariant Open() && Fits(ring.Value()) && AllSound(Pending(ring.Value()))
        invariant results + Pending(ring.Value()) == old(results) + all
        invariant |file| + |Region(Pending(ring.Value()))| < INT
        decreases Distance(ring.Value())
      {
        PendingStep(ring.Value());
        ghost var left := Pending(ring.Value());
        RegionSplit(left);
        assert Sound(left[0]);
        var res := ring.slots[ring.head];
        Publish(res);
        ring.head := (ring.head + 1) % CAPACITY;
        assert results + left[1..] == old(results) + all;
      }
      NothingPending(ring.Value());
      assert results + [] == results;
    }
  }

  lemma CountUntouched(file: Bytes, results: seq<Result>, res: Result)
    requires Holds(file, results) && Sound(res) && |file| + EntrySize(res) < INT
    ensures var g := SetInt(file + Stored(res), FIRST_STAT_OFFSET_POS, IntAt(file, FIRST_STAT_OFFSET_POS) + EntrySize(res));
            IntAt(g, FILE_RECORD_COUNT_POS) == IntAt(file, FILE_RECORD_COUNT_POS)
  {
    hide IntAt, SetInt, Region, Stored, Sound, EntrySize;
    AppendedAtEnd(file, Stored(res));
    SetIntEffect(file + Stored(res), FIRST_STAT_OFFSET_POS, IntAt(file, FIRST_STAT_OFFSET_POS) + EntrySize(res));
  }

  /** While head and tail differ there is a next item to read. */
  lemma PendingStep<T>(r: Ring<T>)
    requires Fits(r) && r.head != r.tail
    ensures Pending(r) != [] && Pending(r)[0] == First(r) && Pending(Drop(r)) == Pending(r)[1..]
    ensures Distance(Drop(r)) == Distance(r) - 1
  {
    hide Queue;
    var n := Distance(r);
    DropLeaves(r, n);
  }

  lemma NothingPending<T>(r: Ring<T>)
    requires Fits(r) && r.head == r.tail
    ensures Pending(r) == []
  {}

  lemma {:induction false} RegionSplit(results: seq<Result>)
    requires results != []
    ensures |Region(results)| == |Stored(results[0])| + |Region(results[1..])|
    ensures Sound(results[0]) ==> |Stored(results[0])| == EntrySize(results[0])
    decreases |results|
  {
    hide Stored, EntrySize, Sound;
    var n := |results| - 1;
    if n > 0 {
      RegionSplit(results[..n]);
      assert results[..n][1..] == results[1..][..n - 1];
    } else {
      assert results[..0] == [] && results[1..] == [];
    }
    if Sound(results[0]) {
      SizeOfStored(results[0]);
    }
  }

  /** Everything together: after start_db, any published results, the marks of how far it has come, and any statistics,
      verify accepts the file. */
  method PublishAll(workers: nat, all: seq<Result>, level: nat, stats: seq<Bytes>) returns (db: InventoryDb, ret: int)
    requires workers <= CAPACITY && level <= 2 && AllSound(all) && HEADER_DB_SIZE + |Region(all)| < INT
    ensures fresh(db) && db.Valid() && db.results == all && IntAt(db.file, 12) == level && ret == 0
  {
    hide Region, EntrySize, Sound, Stored, Holds, IntAt, Ends, Visit, Tiles, Accepted;
    db := new InventoryDb(workers);
    EmptyRegion();
    var i := 0;
    while i < |all|
      invariant 0 <= i <= |all| && fresh(db) && db.Open() && db.results == all[..i]
    {
      ResultInRegion(all, i);
      assert Sound(all[i]);
      SizeOfStored(all[i]);
      db.Publish(all[i]);
      assert all[..i + 1] == all[..i] + [all[i]];
      db.MarkComplete(1);
      i := i + 1;
    }
    assert all[..|all|] == all;
    db.MarkComplete(level);
    i := 0;
    while i < |stats|
      invariant 0 <= i <= |stats| && fresh(db) && db.Valid() && db.results == all
      invariant 16 <= |db.file| && IntAt(db.file, 12) == level
    {
      AppendedAtEnd(db.file, stats[i]);
      db.AppendStats(stats[i]);
      i := i + 1;
    }
    HoldsIsAccepted(db.file, all);
    ret := Verify(db.file, |all|);
  }
}
