/** The snapshot file format: the fixed header of include/db_types.h and the two record layouts. */
module Format {
  import opened Memory

  // ------------------------------------------------------------------ header

  const STATE_OPEN: byte := 79     // 'O'
  const STATE_SEALED: byte := 83   // 'S'
  const BUCKET_MARK: byte := 66    // 'B'
  const VERSION_VALUE := 100
  const BUCKET_COUNT := 256
  const EMPTY_BUCKET := 0xFFFF_FFFF
  const MAX_ENTRY_SIZE := 8192
  const TYPE_LEN_MAX := 16

  const MAGIC_OFFSET := 0
  const VERSION_OFFSET := 4
  const SNAPSHOT_ID_OFFSET := 8
  const STATE_OFFSET := 12
  const ACTIVE_WRITERS_OFFSET := 13
  const RECORD_COUNT_OFFSET := 17
  const FIRST_ENTRY_POS_OFFSET := 21
  const BUCKET_OFFSET := 25
  const BUCKET_HEAD_OFFSET := 281
  const BUCKET_TAIL_OFFSET := 1305
  const HEADER_SIZE := 2329

  type BucketId = b: nat | b < BUCKET_COUNT

  function HeadSlot(b: BucketId): nat { BUCKET_HEAD_OFFSET + 4 * b }

  function TailSlot(b: BucketId): nat { BUCKET_TAIL_OFFSET + 4 * b }

  /** The two snapshot formats, IDX1 and PRC1. */
  datatype Kind = FileIndex | ProcSnapshot

  function MagicBytes(kind: Kind): (s: Bytes)
    ensures |s| == 4
  {
    match kind
    case FileIndex => [73, 68, 88, 49]      // "IDX1"
    case ProcSnapshot => [80, 82, 67, 49]   // "PRC1"
  }

  /** The fixed fields of a fresh or re-initialised snapshot: open, one writer, no records. */
  function InitialFields(kind: Kind, id: nat): seq<Bytes> {
    [MagicBytes(kind), Encode(VERSION_VALUE, 4), Encode(id, 4), [STATE_OPEN], Encode(1, 4), Encode(0, 4),
     Encode(HEADER_SIZE, 4)]
  }

  function Repeat(b: byte, n: nat): (s: Bytes)
    ensures |s| == n
    ensures forall i :: 0 <= i < n ==> s[i] == b
  {
    seq(n, _ => b)
  }

  /** The whole initial header: every bucket is free, and every head and tail is EMPTY_BUCKET. */
  function InitialHeader(kind: Kind, id: nat): (s: Bytes)
  {
    Flatten(InitialFields(kind, id)) + Repeat(BUCKET_MARK, BUCKET_COUNT) + Repeat(255, 8 * BUCKET_COUNT)
  }

  // ------------------------------------------------------------------ records

  /** A record as its writer holds it in memory. Strings include their terminating NUL; the last field on disk,
      the link to the next record of the same bucket, is not part of the entry. */
  datatype Entry =
    | Idx(entrySize: nat, path: Bytes, fileType: Bytes, checksum: nat, sizeBytes: nat, mtime: nat, hash: nat,
          dev: nat, inode: nat)
    | Proc(entrySize: nat, pid: nat, ppid: nat, state: byte, comm: Bytes, cmdline: Bytes, rssSrc: Bytes, rss: nat,
           cpuTime: nat)

  function KindOf(e: Entry): Kind {
    if e.Idx? then FileIndex else ProcSnapshot
  }

  /** What the C structs guarantee: integers fit their fields, strings are terminated, and the record fits the
      serialisation buffer. */
  predicate Sane(e: Entry) {
    && Size(e) <= MAX_ENTRY_SIZE
    && e.entrySize < U32
    && match e
       case Idx(_, path, fileType, checksum, sizeBytes, mtime, hash, dev, inode) =>
         0 in path && |fileType| == TYPE_LEN_MAX && 0 in fileType
         && checksum < U64 && sizeBytes < U64 && mtime < U32 && hash < U64 && dev < U32 && inode < U32
       case Proc(_, pid, ppid, _, comm, cmdline, _, rss, cpuTime) =>
         pid < U32 && ppid < U32 && 0 in comm && 0 in cmdline && rss < U64 && cpuTime < U64
  }

  /** The size a complete record occupies on disk, link included. */
  function Size(e: Entry): nat {
    match e
    case Idx(_, path, _, _, _, _, _, _, _) => |path| + 64
    case Proc(_, _, _, _, comm, cmdline, rssSrc, _, _) => |comm| + |cmdline| + |rssSrc| + 45
  }

  /** An entry that append accepts: its declared size is its real one. */
  predicate WellFormed(e: Entry) {
    Sane(e) && e.entrySize == Size(e)
  }

  /** The primary key: path and stored hash for an indexed file, PID for a process. */
  datatype Key = PathKey(path: Bytes, hash: nat) | PidKey(pid: nat)

  function KeyOf(e: Entry): Key {
    match e
    case Idx(_, path, _, _, _, _, hash, _, _) => PathKey(path, hash)
    case Proc(_, pid, _, _, _, _, _, _, _) => PidKey(pid)
  }

  function BucketOf(e: Entry): BucketId {
    match e
    case Idx(_, _, _, _, _, _, hash, _, _) => hash % BUCKET_COUNT
    case Proc(_, pid, _, _, _, _, _, _, _) => pid % BUCKET_COUNT
  }

  lemma EqualKeysShareABucket(e: Entry, f: Entry)
    requires KeyOf(e) == KeyOf(f)
    ensures BucketOf(e) == BucketOf(f)
  {}

  /** The fields in the order both serialisers copy them; the link starts at 0. */
  function Fields(e: Entry): (fs: seq<Bytes>)
    ensures |fs| == if e.Idx? then 11 else 13
  {
    match e
    case Idx(entrySize, path, fileType, checksum, sizeBytes, mtime, hash, dev, inode) =>
      [Encode(entrySize, 4), Encode(|path|, 4), path, fileType, Encode(checksum, 8), Encode(sizeBytes, 8),
       Encode(mtime, 4), Encode(hash, 8), Encode(dev, 4), Encode(inode, 4), Encode(0, 4)]
    case Proc(entrySize, pid, ppid, state, comm, cmdline, rssSrc, rss, cpuTime) =>
      [Encode(entrySize, 4), Encode(pid, 4), Encode(ppid, 4), [state], Encode(|comm|, 4), comm, Encode(|cmdline|, 4),
       cmdline, Encode(|rssSrc|, 4), rssSrc, Encode(rss, 8), Encode(cpuTime, 8), Encode(0, 4)]
  }

  function Flatten(fields: seq<Bytes>): Bytes {
    if fields == [] then [] else Flatten(fields[..|fields| - 1]) + fields[|fields| - 1]
  }

  /** Where field i starts. */
  function FieldOffset(fields: seq<Bytes>, i: nat): nat
    requires i <= |fields|
  {
    if i == 0 then 0 else FieldOffset(fields, i - 1) + |fields[i - 1]|
  }

  function Serialise(e: Entry): Bytes {
    Flatten(Fields(e))
  }

  lemma {:induction false} FlattenLength(fields: seq<Bytes>, i: nat)
    requires i <= |fields|
    ensures |Flatten(fields[..i])| == FieldOffset(fields, i)
  {
    if i > 0 {
      assert fields[..i][..i - 1] == fields[..i - 1];
      FlattenLength(fields, i - 1);
    }
  }

  lemma {:induction false} FlattenPrefix(fields: seq<Bytes>, i: nat)
    requires i <= |fields|
    ensures Flatten(fields[..i]) <= Flatten(fields)
    decreases |fields| - i
  {
    if i == |fields| {
      assert fields[..i] == fields;
    } else {
      FlattenPrefix(fields, i + 1);
      assert fields[..i + 1][..i] == fields[..i];
    }
  }

  /** Every field sits where the sum of the earlier sizes says. */
  lemma {:induction false} FieldAt(fields: seq<Bytes>, i: nat)
    requires i < |fields|
    ensures FieldOffset(fields, i) + |fields[i]| <= |Flatten(fields)|
    ensures Flatten(fields)[FieldOffset(fields, i)..FieldOffset(fields, i) + |fields[i]|] == fields[i]
  {
    FlattenLength(fields, i);
    FlattenLength(fields, i + 1);
    FlattenPrefix(fields, i + 1);
    assert fields[..i + 1][..i] == fields[..i];
  }

  /** Where each field of an IDX1 record starts; the readers compute these offsets by hand. */
  lemma IdxLayout(e: Entry)
    requires e.Idx? && |e.fileType| == TYPE_LEN_MAX
    ensures var fs, n := Fields(e), |e.path|;
            && FieldOffset(fs, 1) == 4 && FieldOffset(fs, 2) == 8 && FieldOffset(fs, 3) == 8 + n
            && FieldOffset(fs, 4) == 24 + n && FieldOffset(fs, 5) == 32 + n && FieldOffset(fs, 6) == 40 + n
            && FieldOffset(fs, 7) == 44 + n && FieldOffset(fs, 8) == 52 + n && FieldOffset(fs, 9) == 56 + n
            && FieldOffset(fs, 10) == 60 + n && FieldOffset(fs, 11) == Size(e)
  {
    var fs := Fields(e);
    assert FieldOffset(fs, 1) == 4;
    assert FieldOffset(fs, 2) == 8;
    assert FieldOffset(fs, 4) == 24 + |e.path|;
    assert FieldOffset(fs, 6) == 40 + |e.path|;
    assert FieldOffset(fs, 8) == 52 + |e.path|;
    assert FieldOffset(fs, 10) == 60 + |e.path|;
  }

  /** Where each field of a PRC1 record starts. */
  lemma ProcLayout(e: Entry)
    requires e.Proc?
    ensures var fs, c, l, r := Fields(e), |e.comm|, |e.cmdline|, |e.rssSrc|;
            && FieldOffset(fs, 1) == 4 && FieldOffset(fs, 2) == 8 && FieldOffset(fs, 3) == 12
            && FieldOffset(fs, 4) == 13 && FieldOffset(fs, 5) == 17 && FieldOffset(fs, 6) == 17 + c
            && FieldOffset(fs, 7) == 21 + c && FieldOffset(fs, 8) == 21 + c + l
            && FieldOffset(fs, 9) == 25 + c + l && FieldOffset(fs, 10) == 25 + c + l + r
            && FieldOffset(fs, 11) == 33 + c + l + r && FieldOffset(fs, 12) == Size(e) - 4 && FieldOffset(fs, 13) == Size(e)
  {
    var fs, c, l, r := Fields(e), |e.comm|, |e.cmdline|, |e.rssSrc|;
    assert FieldOffset(fs, 1) == 4;
    assert FieldOffset(fs, 2) == 8;
    assert FieldOffset(fs, 4) == 13;
    assert FieldOffset(fs, 6) == 17 + c;
    assert FieldOffset(fs, 8) == 21 + c + l;
    assert FieldOffset(fs, 10) == 25 + c + l + r;
    assert FieldOffset(fs, 12) == 41 + c + l + r;
  }
}
