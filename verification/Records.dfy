/** Reading records straight from the bytes of a snapshot: the traversal of src/db_utils.c and the field-by-field
    comparators. Offsets passed between these functions count from the end of the header, as in the source, and
    wrap like the unsigned ints they are. */
module Records {
  import opened Memory
  import opened Format

  function Wrap(x: int): (w: nat)
    ensures w < U32
    ensures 0 <= x < U32 ==> w == x
  {
    x % U32
  }

  // ------------------------------------------------------------------ what is on disk

  predicate Int32At(file: Bytes, off: nat, v: nat) {
    |Pread(file, off, 4)| == 4 && Decode(Pread(file, off, 4)) == v
  }

  predicate Int64At(file: Bytes, off: nat, v: nat) {
    |Pread(file, off, 8)| == 8 && Decode(Pread(file, off, 8)) == v
  }

  /** Every field of an IDX1 record but the link, at the offsets the readers use. */
  predicate IdxFieldsAt(file: Bytes, off: nat, e: Entry)
    requires e.Idx?
  {
    var n := |e.path|;
    && Int32At(file, off, e.entrySize) && Int32At(file, off + 4, n) && Pread(file, off + 8, n) == e.path
    && Pread(file, off + 8 + n, TYPE_LEN_MAX) == e.fileType
    && Int64At(file, off + 24 + n, e.checksum) && Int64At(file, off + 32 + n, e.sizeBytes)
    && Int32At(file, off + 40 + n, e.mtime) && Int64At(file, off + 44 + n, e.hash)
    && Int32At(file, off + 52 + n, e.dev) && Int32At(file, off + 56 + n, e.inode)
  }

  /** Every field of a PRC1 record but the link, at the offsets the readers use. */
  predicate ProcFieldsAt(file: Bytes, off: nat, e: Entry)
    requires e.Proc?
  {
    ProcFrontAt(file, off, e) && ProcBackAt(file, off + 17 + |e.comm|, e)
  }

  predicate ProcFrontAt(file: Bytes, off: nat, e: Entry)
    requires e.Proc?
  {
    && Int32At(file, off, e.entrySize) && Int32At(file, off + 4, e.pid) && Int32At(file, off + 8, e.ppid)
    && Pread(file, off + 12, 1) == [e.state]
    && Int32At(file, off + 13, |e.comm|) && Pread(file, off + 17, |e.comm|) == e.comm
  }

  predicate ProcBackAt(file: Bytes, at: nat, e: Entry)
    requires e.Proc?
  {
    var l, r := |e.cmdline|, |e.rssSrc|;
    && Int32At(file, at, l) && Pread(file, at + 4, l) == e.cmdline
    && Int32At(file, at + 4 + l, r) && Pread(file, at + 8 + l, r) == e.rssSrc
    && Int64At(file, at + 8 + l + r, e.rss) && Int64At(file, at + 16 + l + r, e.cpuTime)
  }

  /** Record e occupies file[off..off + Size(e)]; only its last four bytes, the link, may have changed since it was
      written. */
  predicate RecordAt(file: Bytes, off: nat, e: Entry) {
    && WellFormed(e) && off + Size(e) <= |file|
    && if e.Idx? then IdxFieldsAt(file, off, e) else ProcFieldsAt(file, off, e)
  }

  function LinkPos(off: nat, e: Entry): nat {
    off + Size(e) - 4
  }

  /** A record is its bytes: wherever they are copied, up to the link, the record is there. */
  lemma RecordCopy(f: Bytes, a: nat, g: Bytes, b: nat, e: Entry)
    requires RecordAt(f, a, e) && b + Size(e) <= |g| && Pread(f, a, Size(e) - 4) == Pread(g, b, Size(e) - 4)
    ensures RecordAt(g, b, e)
  {
    if e.Idx? {
      IdxCopy(f, a, g, b, e);
    } else {
      ProcFrontCopy(f, a, g, b, e);
      ProcBackCopy(f, a, g, b, e);
    }
  }

  lemma IdxCopy(f: Bytes, a: nat, g: Bytes, b: nat, e: Entry)
    requires e.Idx? && IdxFieldsAt(f, a, e) && a + Size(e) <= |f| && b + Size(e) <= |g|
    requires Pread(f, a, Size(e) - 4) == Pread(g, b, Size(e) - 4)
    requires |e.fileType| == TYPE_LEN_MAX
    ensures IdxFieldsAt(g, b, e)
  {
    hide Pread;
    var n, len := |e.path|, Size(e) - 4;
    SubRead(f, a, g, b, len, 0, 4);
    SubRead(f, a, g, b, len, 4, 4);
    SubRead(f, a, g, b, len, 8, n);
    SubRead(f, a, g, b, len, 8 + n, TYPE_LEN_MAX);
    SubRead(f, a, g, b, len, 24 + n, 8);
    SubRead(f, a, g, b, len, 32 + n, 8);
    SubRead(f, a, g, b, len, 40 + n, 4);
    SubRead(f, a, g, b, len, 44 + n, 8);
    SubRead(f, a, g, b, len, 52 + n, 4);
    SubRead(f, a, g, b, len, 56 + n, 4);
  }

  lemma ProcFrontCopy(f: Bytes, a: nat, g: Bytes, b: nat, e: Entry)
    requires e.Proc? && ProcFrontAt(f, a, e) && a + Size(e) <= |f| && b + Size(e) <= |g|
    requires Pread(f, a, Size(e) - 4) == Pread(g, b, Size(e) - 4)
    ensures ProcFrontAt(g, b, e)
  {
    var len := Size(e) - 4;
    SubRead(f, a, g, b, len, 0, 4);
    SubRead(f, a, g, b, len, 4, 4);
    SubRead(f, a, g, b, len, 8, 4);
    SubRead(f, a, g, b, len, 12, 1);
    SubRead(f, a, g, b, len, 13, 4);
    SubRead(f, a, g, b, len, 17, |e.comm|);
  }

  lemma ProcBackCopy(f: Bytes, a: nat, g: Bytes, b: nat, e: Entry)
    requires e.Proc? && ProcBackAt(f, a + 17 + |e.comm|, e) && a + Size(e) <= |f| && b + Size(e) <= |g|
    requires Pread(f, a, Size(e) - 4) == Pread(g, b, Size(e) - 4)
    ensures ProcBackAt(g, b + 17 + |e.comm|, e)
  {
    hide Pread;
    var at, len, l, r := 17 + |e.comm|, Size(e) - 4, |e.cmdline|, |e.rssSrc|;
    SubRead(f, a, g, b, len, at, 4);
    SubRead(f, a, g, b, len, at + 4, l);
    SubRead(f, a, g, b, len, at + 4 + l, 4);
    SubRead(f, a, g, b, len, at + 8 + l, r);
    SubRead(f, a, g, b, len, at + 8 + l + r, 8);
    SubRead(f, a, g, b, len, at + 16 + l + r, 8);
  }

  /** A record whose bytes, up to the link, are unchanged is still there. */
  lemma RecordFrame(f: Bytes, g: Bytes, off: nat, e: Entry)
    requires RecordAt(f, off, e) && SameRange(f, g, off, LinkPos(off, e)) && LinkPos(off, e) + 4 <= |g|
    ensures RecordAt(g, off, e)
  {
    hide IdxFieldsAt, ProcFieldsAt, Pread;
    PreadSame(f, g, off, Size(e) - 4);
    RecordCopy(f, off, g, off, e);
  }

  // ------------------------------------------------------------------ what the serialisers write

  lemma ReadField(fields: seq<Bytes>, i: nat)
    requires i < |fields|
    ensures Pread(Flatten(fields), FieldOffset(fields, i), |fields[i]|) == fields[i]
  {
    FieldAt(fields, i);
  }

  lemma ReadInt32(fields: seq<Bytes>, i: nat, v: nat)
    requires i < |fields| && fields[i] == Encode(v, 4) && v < U32
    ensures Int32At(Flatten(fields), FieldOffset(fields, i), v)
  {
    ReadField(fields, i);
    Encode32(v);
  }

  lemma ReadInt64(fields: seq<Bytes>, i: nat, v: nat)
    requires i < |fields| && fields[i] == Encode(v, 8) && v < U64
    ensures Int64At(Flatten(fields), FieldOffset(fields, i), v)
  {
    ReadField(fields, i);
    Encode64(v);
  }

  lemma SerialisedIdx(e: Entry)
    requires e.Idx? && Sane(e)
    ensures IdxFieldsAt(Serialise(e), 0, e)
  {
    hide Serialise, Pread, Int32At, Int64At;
    SerialisedIdxFront(e);
    SerialisedIdxBack(e);
  }

  lemma SerialisedIdxFront(e: Entry)
    requires e.Idx? && Sane(e)
    ensures var s, n := Serialise(e), |e.path|;
            && Int32At(s, 0, e.entrySize) && Int32At(s, 4, n) && Pread(s, 8, n) == e.path
            && Pread(s, 8 + n, TYPE_LEN_MAX) == e.fileType && Int64At(s, 24 + n, e.checksum)
  {
    var fields := Fields(e);
    assert FieldOffset(fields, 0) == 0;
    hide Pread, Flatten, Int32At, Int64At, FieldOffset, Encode;
    IdxLayout(e);
    ReadInt32(fields, 0, e.entrySize);
    ReadInt32(fields, 1, |e.path|);
    ReadField(fields, 2);
    ReadField(fields, 3);
    ReadInt64(fields, 4, e.checksum);
  }

  lemma SerialisedIdxBack(e: Entry)
    requires e.Idx? && Sane(e)
    ensures var s, n := Serialise(e), |e.path|;
            && Int64At(s, 32 + n, e.sizeBytes) && Int32At(s, 40 + n, e.mtime) && Int64At(s, 44 + n, e.hash)
            && Int32At(s, 52 + n, e.dev) && Int32At(s, 56 + n, e.inode)
  {
    hide Pread, Flatten, Int32At, Int64At, FieldOffset, Encode;
    var fields := Fields(e);
    IdxLayout(e);
    ReadInt64(fields, 5, e.sizeBytes);
    ReadInt32(fields, 6, e.mtime);
    ReadInt64(fields, 7, e.hash);
    ReadInt32(fields, 8, e.dev);
    ReadInt32(fields, 9, e.inode);
  }

  lemma SerialisedProcFront(e: Entry)
    requires e.Proc? && Sane(e)
    ensures ProcFrontAt(Serialise(e), 0, e)
  {
    var fields := Fields(e);
    assert FieldOffset(fields, 0) == 0;
    hide Pread, Flatten, Int32At, Int64At, FieldOffset, Encode;
    ProcLayout(e);
    ReadInt32(fields, 0, e.entrySize);
    ReadInt32(fields, 1, e.pid);
    ReadInt32(fields, 2, e.ppid);
    ReadField(fields, 3);
    ReadInt32(fields, 4, |e.comm|);
    ReadField(fields, 5);
  }

  lemma SerialisedProcBack(e: Entry)
    requires e.Proc? && Sane(e)
    ensures ProcBackAt(Serialise(e), 17 + |e.comm|, e)
  {
    hide Pread, Flatten, Int32At, Int64At, FieldOffset, Encode;
    var fields := Fields(e);
    ProcLayout(e);
    ReadInt32(fields, 6, |e.cmdline|);
    ReadField(fields, 7);
    ReadInt32(fields, 8, |e.rssSrc|);
    ReadField(fields, 9);
    ReadInt64(fields, 10, e.rss);
    ReadInt64(fields, 11, e.cpuTime);
  }

  /** What the serialiser produces is the record, with link 0 as its last field. */
  lemma SerialisedIsRecord(e: Entry)
    requires WellFormed(e)
    ensures |Serialise(e)| == Size(e) && RecordAt(Serialise(e), 0, e)
    ensures U32At(Serialise(e), LinkPos(0, e)) == 0
  {
    SerialisedSize(e);
    if e.Idx? {
      SerialisedIdx(e);
    } else {
      SerialisedProcFront(e);
      SerialisedProcBack(e);
    }
  }

  lemma SerialisedSize(e: Entry)
    requires Sane(e)
    ensures |Serialise(e)| == Size(e) && U32At(Serialise(e), LinkPos(0, e)) == 0
  {
    var fields := Fields(e);
    FlattenLength(fields, |fields|);
    assert fields[..|fields|] == fields;
    if e.Idx? {
      IdxLayout(e);
    } else {
      ProcLayout(e);
    }
    ReadInt32(fields, |fields| - 1, 0);
  }

  /** Appending what the serialiser produces puts the record at the old end of the file, with link 0. */
  lemma AppendedRecord(file: Bytes, e: Entry)
    requires WellFormed(e)
    ensures |Serialise(e)| == Size(e) && RecordAt(file + Serialise(e), |file|, e)
    ensures U32At(file + Serialise(e), LinkPos(|file|, e)) == 0
  {
    hide Pread, Flatten, Fields;
    var data := Serialise(e);
    SerialisedIsRecord(e);
    PreadAppended(file, data, 0, Size(e) - 4);
    PreadAppended(file, data, Size(e) - 4, 4);
    RecordCopy(data, 0, file + data, |file|, e);
  }

  // ------------------------------------------------------------------ records byte by byte

  /** An IDX1 record on disk, byte by byte: sizes and path, type, checksum, size, modification time, hash, device and
      inode. */
  lemma IdxRecordBytes(f: Bytes, off: nat, e: Entry)
    requires e.Idx? && RecordAt(f, off, e)
    ensures var n := |e.path|;
            && e.entrySize == n + 64 && off + n + 64 <= |f|
            && Decode(f[off..off + 4]) == n + 64 && Decode(f[off + 4..off + 8]) == n && f[off + 8..off + 8 + n] == e.path
            && f[off + 8 + n..off + 24 + n] == e.fileType && Decode(f[off + 24 + n..off + 32 + n]) == e.checksum
            && Decode(f[off + 32 + n..off + 40 + n]) == e.sizeBytes && Decode(f[off + 40 + n..off + 44 + n]) == e.mtime
            && Decode(f[off + 44 + n..off + 52 + n]) == e.hash && Decode(f[off + 52 + n..off + 56 + n]) == e.dev
            && Decode(f[off + 56 + n..off + 60 + n]) == e.inode
  {
    hide Decode, IdxFieldsAt;
    IdxFrontBytes(f, off, e);
    IdxBackBytes(f, off + 24 + |e.path|, e);
  }

  lemma IdxFrontBytes(f: Bytes, off: nat, e: Entry)
    requires e.Idx? && IdxFieldsAt(f, off, e) && off + 24 + |e.path| <= |f|
    ensures var n := |e.path|;
            && Decode(f[off..off + 4]) == e.entrySize && Decode(f[off + 4..off + 8]) == n
            && f[off + 8..off + 8 + n] == e.path && f[off + 8 + n..off + 24 + n] == e.fileType
  {
    hide Decode, Int64At;
  }

  lemma IdxBackBytes(f: Bytes, at: nat, e: Entry)
    requires e.Idx? && at >= 24 + |e.path| && IdxFieldsAt(f, at - 24 - |e.path|, e) && at + 36 <= |f|
    ensures Decode(f[at..at + 8]) == e.checksum && Decode(f[at + 8..at + 16]) == e.sizeBytes
    ensures Decode(f[at + 16..at + 20]) == e.mtime && Decode(f[at + 20..at + 28]) == e.hash
    ensures Decode(f[at + 28..at + 32]) == e.dev && Decode(f[at + 32..at + 36]) == e.inode
  {
    hide Decode;
  }

  /** A PRC1 record on disk, byte by byte: size, PID, parent, state, and the three strings with their lengths, resident
      size and processor time. */
  lemma ProcRecordBytes(f: Bytes, off: nat, e: Entry)
    requires e.Proc? && RecordAt(f, off, e)
    ensures var a := off + 17 + |e.comm|;
            var b := a + 4 + |e.cmdline|;
            var c := b + 4 + |e.rssSrc|;
            && e.entrySize == |e.comm| + |e.cmdline| + |e.rssSrc| + 45 && c + 20 <= |f|
            && Decode(f[off..off + 4]) == e.entrySize && Decode(f[off + 4..off + 8]) == e.pid
            && Decode(f[off + 8..off + 12]) == e.ppid && f[off + 12] == e.state
            && Decode(f[off + 13..off + 17]) == |e.comm| && f[off + 17..a] == e.comm
            && Decode(f[a..a + 4]) == |e.cmdline| && f[a + 4..b] == e.cmdline
            && Decode(f[b..b + 4]) == |e.rssSrc| && f[b + 4..c] == e.rssSrc
            && Decode(f[c..c + 8]) == e.rss && Decode(f[c + 8..c + 16]) == e.cpuTime
  {
    hide Decode, ProcFrontAt, ProcBackAt;
    ProcFrontBytes(f, off, e);
    ProcBackBytes(f, off + 17 + |e.comm|, e);
  }

  lemma ProcFrontBytes(f: Bytes, off: nat, e: Entry)
    requires e.Proc? && ProcFrontAt(f, off, e) && off + 17 + |e.comm| <= |f|
    ensures Decode(f[off..off + 4]) == e.entrySize && Decode(f[off + 4..off + 8]) == e.pid
    ensures Decode(f[off + 8..off + 12]) == e.ppid && f[off + 12] == e.state
    ensures Decode(f[off + 13..off + 17]) == |e.comm| && f[off + 17..off + 17 + |e.comm|] == e.comm
  {
    hide Decode;
    assert f[off + 12] == Pread(f, off + 12, 1)[0];
  }

  lemma ProcBackBytes(f: Bytes, a: nat, e: Entry)
    requires e.Proc? && ProcBackAt(f, a, e) && a + 24 + |e.cmdline| + |e.rssSrc| <= |f|
    ensures var b := a + 4 + |e.cmdline|;
            var c := b + 4 + |e.rssSrc|;
            && Decode(f[a..a + 4]) == |e.cmdline| && f[a + 4..b] == e.cmdline
            && Decode(f[b..b + 4]) == |e.rssSrc| && f[b + 4..c] == e.rssSrc
            && Decode(f[c..c + 8]) == e.rss && Decode(f[c + 8..c + 16]) == e.cpuTime
  {
    hide Decode;
  }

  /** The bucket of a record is the last byte of its stored hash, or of its PID; little-endian, that one comes first. */
  lemma BucketIsLowByte(f: Bytes, off: nat, e: Entry)
    requires RecordAt(f, off, e)
    ensures e.Idx? ==> off + 44 + |e.path| < |f| && f[off + 44 + |e.path|] == BucketOf(e)
    ensures e.Proc? ==> off + 4 < |f| && f[off + 4] == BucketOf(e)
  {
    hide RecordAt;
    if e.Idx? {
      IdxRecordBytes(f, off, e);
      LowByte(f[off + 44 + |e.path|..off + 52 + |e.path|]);
    } else {
      ProcRecordBytes(f, off, e);
      LowByte(f[off + 4..off + 8]);
    }
  }

  lemma LowByte(s: Bytes)
    requires s != []
    ensures Decode(s) % 256 == s[0]
  {}

  /** The key of a record is its path with its hash, or its PID. */
  lemma KeyIsIdentity(e: Entry, f: Entry)
    ensures e.Idx? && f.Idx? ==> (KeyOf(e) == KeyOf(f) <==> e.path == f.path && e.hash == f.hash)
    ensures e.Proc? && f.Proc? ==> (KeyOf(e) == KeyOf(f) <==> e.pid == f.pid)
    ensures e.Idx? != f.Idx? ==> KeyOf(e) != KeyOf(f)
  {}

  // ------------------------------------------------------------------ the initial header

  lemma InitialOffsets(kind: Kind, id: nat)
    ensures var fs := InitialFields(kind, id);
            && FieldOffset(fs, 0) == MAGIC_OFFSET && FieldOffset(fs, 3) == STATE_OFFSET
            && FieldOffset(fs, 4) == ACTIVE_WRITERS_OFFSET && FieldOffset(fs, 5) == RECORD_COUNT_OFFSET
            && |Flatten(fs)| == BUCKET_OFFSET
  {
    var fs := InitialFields(kind, id);
    assert FieldOffset(fs, 1) == 4;
    assert FieldOffset(fs, 2) == 8;
    assert FieldOffset(fs, 3) == 12;
    assert FieldOffset(fs, 4) == 13;
    assert FieldOffset(fs, 5) == 17;
    assert FieldOffset(fs, 6) == 21;
    FlattenLength(fs, 7);
    assert fs[..7] == fs;
  }

  /** A fresh header: right format, open, one writer, no records, and nothing after it. */
  lemma InitialHeaderFields(kind: Kind, id: nat)
    ensures var f := InitialHeader(kind, id);
            && |f| == HEADER_SIZE && Pread(f, MAGIC_OFFSET, 4) == MagicBytes(kind)
            && Pread(f, STATE_OFFSET, 1) == [STATE_OPEN]
            && U32At(f, ACTIVE_WRITERS_OFFSET) == 1 && U32At(f, RECORD_COUNT_OFFSET) == 0
  {
    var f, fs := InitialHeader(kind, id), InitialFields(kind, id);
    var fixed := Flatten(fs);
    InitialOffsets(kind, id);
    ReadField(fs, 0);
    ReadField(fs, 3);
    ReadInt32(fs, 4, 1);
    ReadInt32(fs, 5, 0);
    InitialPrefix(kind, id);
  }

  lemma InitialPrefix(kind: Kind, id: nat)
    ensures var f, fixed := InitialHeader(kind, id), Flatten(InitialFields(kind, id));
            forall at: nat, n: nat {:trigger Pread(f, at, n)} :: at + n <= |fixed| ==> Pread(f, at, n) == Pread(fixed, at, n)
  {
    var f, fixed := InitialHeader(kind, id), Flatten(InitialFields(kind, id));
    forall at: nat, n: nat | at + n <= |fixed| ensures Pread(f, at, n) == Pread(fixed, at, n) {
      assert SameRange(fixed, f, 0, |fixed|);
      PreadSame(fixed, f, at, n);
    }
  }

  /** In a fresh header every bucket's head and tail is EMPTY_BUCKET. */
  lemma InitialSlots(kind: Kind, id: nat, at: nat)
    requires BUCKET_HEAD_OFFSET <= at <= HEADER_SIZE - 4
    ensures U32At(InitialHeader(kind, id), at) == EMPTY_BUCKET
  {
    hide Flatten, InitialFields;
    InitialOffsets(kind, id);
    var f := InitialHeader(kind, id);
    assert Pread(f, at, 4) == [255, 255, 255, 255];
    Decode255();
  }

  lemma Decode255()
    ensures Decode([255, 255, 255, 255]) == EMPTY_BUCKET
  {
    assert [255, 255, 255, 255][1..] == [255, 255, 255];
    assert [255, 255, 255][1..] == [255, 255];
    assert [255, 255][1..] == [255];
    assert Decode([255]) == 255;
  }

  // ------------------------------------------------------------------ traversal

  /** next_entry: the offset of the following record, 0 at the end, 1 on error. A link that cannot be read in full
      counts as an error. */
  function NextEntry(file: Bytes, entryOffset: nat, inBucket: bool): (next: nat)
    ensures next < U32
  {
    var offset := Wrap(HEADER_SIZE + entryOffset);
    var sizeBytes := Pread(file, offset, 4);
    var entrySize := Decode(sizeBytes);
    if entrySize > MAX_ENTRY_SIZE then 1
    else if |sizeBytes| == 0 then 0
    else if |sizeBytes| != 4 then 1
    else if !inBucket then Wrap(entrySize + entryOffset)
    else
      var at := Wrap(offset + entrySize) - 4;
      var link := if at < 0 then [] else Pread(file, at, 4);
      if |link| != 4 then 1
      else if Decode(link) == 0 then 0
      else Wrap(Decode(link) - HEADER_SIZE)
  }

  /** The first field of either layout is the record's size. */
  lemma SizeOnDisk(file: Bytes, off: nat, e: Entry)
    requires RecordAt(file, off, e)
    ensures Int32At(file, off, Size(e)) && off + Size(e) <= |file| && 45 <= Size(e) <= MAX_ENTRY_SIZE
  {
    hide Pread;
  }

  /** On a real record the next offset is exact, whatever the record's layout and string lengths, and it is
      neither of the two sentinels. */
  lemma NextOfRecord(file: Bytes, off: nat, e: Entry)
    requires RecordAt(file, off, e) && HEADER_SIZE <= off && |file| < U32
    ensures NextEntry(file, off - HEADER_SIZE, false) == off - HEADER_SIZE + Size(e) > 1 && Size(e) >= 45
    ensures var link := U32At(file, LinkPos(off, e));
            NextEntry(file, off - HEADER_SIZE, true) == if link == 0 then 0 else Wrap(link - HEADER_SIZE)
  {
    hide RecordAt, NextEntry, U32At;
    SizeOnDisk(file, off, e);
    NextOfSize(file, off, Size(e));
  }

  lemma NextOfSize(file: Bytes, off: nat, n: nat)
    requires Int32At(file, off, n) && 4 <= n <= MAX_ENTRY_SIZE && HEADER_SIZE <= off && off + n <= |file| < U32
    ensures NextEntry(file, off - HEADER_SIZE, false) == off - HEADER_SIZE + n
    ensures var link := U32At(file, off + n - 4);
            NextEntry(file, off - HEADER_SIZE, true) == if link == 0 then 0 else Wrap(link - HEADER_SIZE)
  {}

  /** At the end of the file both traversals report the end. */
  lemma NextAtEnd(file: Bytes, inBucket: bool)
    requires HEADER_SIZE <= |file| < U32
    ensures NextEntry(file, |file| - HEADER_SIZE, inBucket) == 0
  {}

  // ------------------------------------------------------------------ comparators

  /** compare_fileops_entries: 0 same key, 1 different, -1 short read. */
  function CompareFileopsEntries(file: Bytes, e: Entry, entryOffset: nat): int
    requires e.Idx?
  {
    var at := Wrap(entryOffset + HEADER_SIZE);
    var len := Pread(file, Wrap(at + 4), 4);
    if |len| != 4 then (if len == [] then 1 else -1)
    else if Decode(len) != |e.path| then 1
    else
      var hash := Pread(file, at + 44 + |e.path|, 8);
      if |hash| != 8 then -1
      else if Decode(hash) != e.hash then 1
      else
        var path := Pread(file, Wrap(at + 8), |e.path|);
        if |path| != |e.path| then -1 else if path != e.path then 1 else 0
  }

  /** compare_proc_entries: as above, except that the end of the file compares equal. */
  function CompareProcEntries(file: Bytes, e: Entry, entryOffset: nat): int
    requires e.Proc?
  {
    var at := Wrap(entryOffset + HEADER_SIZE);
    var pid := Pread(file, Wrap(at + 4), 4);
    if |pid| != 4 then (if pid == [] then 0 else -1)
    else if Decode(pid) != e.pid then 1 else 0
  }

  function CompareEntries(file: Bytes, e: Entry, entryOffset: nat): int {
    if e.Idx? then CompareFileopsEntries(file, e, entryOffset) else CompareProcEntries(file, e, entryOffset)
  }

  /** compare_fileops_fields: 0 equal, 1 modified, -1 short read. */
  function CompareFileopsFields(file: Bytes, e: Entry, entryOffset: nat): int
    requires e.Idx?
  {
    var at := Wrap(entryOffset + HEADER_SIZE);
    var len := Pread(file, Wrap(at + 4), 4);
    if |len| != 4 then (if len == [] then 1 else -1)
    else
      var afterPath := Wrap(8 + Decode(len) + TYPE_LEN_MAX + at);
      var mtime := Pread(file, afterPath + 16, 4);
      if |mtime| != 4 then -1
      else if Decode(mtime) != e.mtime then 1
      else
        var checksum := Pread(file, afterPath, 8);
        if |checksum| != 8 then -1
        else if Decode(checksum) != e.checksum then 1
        else
          var sizeBytes := Pread(file, afterPath + 8, 8);
          if |sizeBytes| != 8 then -1
          else if Decode(sizeBytes) != e.sizeBytes then 1
          else
            var fileType := Pread(file, Wrap(afterPath - TYPE_LEN_MAX), TYPE_LEN_MAX);
            if |fileType| != TYPE_LEN_MAX then -1
            else if CString(fileType) != CString(e.fileType) then 1 else 0
  }

  const RSS_THRESHOLD := 1024 * 1024

  function AbsDiff(a: nat, b: nat): nat {
    if a > b then a - b else b - a
  }

  /** compare_proc_fields: 0 equal, 1 significantly modified, -1 short read. */
  function CompareProcFields(file: Bytes, e: Entry, entryOffset: nat): int
    requires e.Proc?
  {
    var at := Wrap(entryOffset + HEADER_SIZE);
    var commSize := Pread(file, Wrap(13 + at), 4);
    if |commSize| != 4 then -1
    else if Decode(commSize) != |e.comm| then 1
    else
      var c := |e.comm|;
      var cmdlineSize := Pread(file, Wrap(13 + c) + 4 + at, 4);
      if |cmdlineSize| != 4 then -1
      else if Decode(cmdlineSize) != |e.cmdline| then 1
      else CompareProcRss(file, e, at)
  }

  /** The RSS check of compare_proc_fields, reached only when both stored lengths match. */
  function CompareProcRss(file: Bytes, e: Entry, at: nat): int
    requires e.Proc?
  {
    var n := |e.comm| + |e.cmdline|;
    var srcSize := Pread(file, Wrap(13 + n) + 8 + at, 4);
    if |srcSize| != 4 then -1
    else
      var rss := Pread(file, Wrap(13 + n + Decode(srcSize)) + 12 + at, 8);
      if |rss| != 8 then -1
      else if AbsDiff(e.rss, Decode(rss)) > RSS_THRESHOLD then 1
      else CompareProcStrings(file, e, at)
  }

  /** The last two checks of compare_proc_fields, reached only when both stored lengths match. */
  function CompareProcStrings(file: Bytes, e: Entry, at: nat): int
    requires e.Proc?
  {
    var c, l := |e.comm|, |e.cmdline|;
    var comm := Pread(file, 17 + at, c);
    if |comm| != c then -1
    else if CString(comm) != CString(e.comm) then 1
    else
      var cmdline := Pread(file, Wrap(13 + c) + 8 + at, l);
      if |cmdline| != l then -1
      else if CString(cmdline) != CString(e.cmdline) then 1 else 0
  }

  function CompareFields(file: Bytes, e: Entry, entryOffset: nat): int {
    if e.Idx? then CompareFileopsFields(file, e, entryOffset) else CompareProcFields(file, e, entryOffset)
  }

  /** The rules by which two records with the same key count as unchanged. */
  predicate SameFields(e: Entry, f: Entry) {
    match (e, f)
    case (Idx(_, _, t1, c1, s1, m1, _, _, _), Idx(_, _, t2, c2, s2, m2, _, _, _)) =>
      m1 == m2 && c1 == c2 && s1 == s2 && CString(t1) == CString(t2)
    case (Proc(_, _, _, _, comm1, cmd1, _, rss1, _), Proc(_, _, _, _, comm2, cmd2, _, rss2, _)) =>
      |comm1| == |comm2| && |cmd1| == |cmd2| && AbsDiff(rss1, rss2) <= RSS_THRESHOLD
      && CString(comm1) == CString(comm2) && CString(cmd1) == CString(cmd2)
    case _ => false
  }

  /** The byte comparator decides equality of keys on every record, for both layouts. */
  lemma CompareEntriesIsKeyEquality(file: Bytes, off: nat, e: Entry, f: Entry)
    requires RecordAt(file, off, f) && HEADER_SIZE <= off && |file| < U32
    requires KindOf(e) == KindOf(f)
    ensures CompareEntries(file, e, off - HEADER_SIZE) == if KeyOf(e) == KeyOf(f) then 0 else 1
  {
    if f.Idx? {
      CompareIdxKeys(file, off, e, f);
    } else {
      CompareProcKeys(file, off, e, f);
    }
  }

  lemma CompareIdxKeys(file: Bytes, off: nat, e: Entry, f: Entry)
    requires e.Idx? && f.Idx? && IdxFieldsAt(file, off, f)
    requires HEADER_SIZE <= off && off + Size(f) <= |file| < U32
    ensures CompareFileopsEntries(file, e, off - HEADER_SIZE) == if KeyOf(e) == KeyOf(f) then 0 else 1
  {
    hide Pread, Decode;
  }

  lemma CompareProcKeys(file: Bytes, off: nat, e: Entry, f: Entry)
    requires e.Proc? && f.Proc? && ProcFieldsAt(file, off, f)
    requires HEADER_SIZE <= off && off + Size(f) <= |file| < U32
    ensures CompareProcEntries(file, e, off - HEADER_SIZE) == if KeyOf(e) == KeyOf(f) then 0 else 1
  {
    hide Pread, Decode;
  }

  /** The byte comparator decides SameFields on every record, for both layouts. */
  lemma CompareFieldsIsSameFields(file: Bytes, off: nat, e: Entry, f: Entry)
    requires RecordAt(file, off, f) && HEADER_SIZE <= off && |file| < U32
    requires KindOf(e) == KindOf(f) && Size(e) <= MAX_ENTRY_SIZE
    ensures CompareFields(file, e, off - HEADER_SIZE) == if SameFields(e, f) then 0 else 1
  {
    if f.Idx? {
      CompareIdxFields(file, off, e, f);
    } else {
      CompareProcFieldsAgrees(file, off, e, f);
    }
  }

  lemma CompareIdxFields(file: Bytes, off: nat, e: Entry, f: Entry)
    requires e.Idx? && f.Idx? && IdxFieldsAt(file, off, f)
    requires HEADER_SIZE <= off && off + Size(f) <= |file| < U32
    ensures CompareFileopsFields(file, e, off - HEADER_SIZE) == if SameFields(e, f) then 0 else 1
  {
    hide Decode, CString;
  }

  lemma CompareProcFieldsAgrees(file: Bytes, off: nat, e: Entry, f: Entry)
    requires e.Proc? && f.Proc? && ProcFieldsAt(file, off, f)
    requires HEADER_SIZE <= off && off + Size(f) <= |file| < U32
    requires Size(e) <= MAX_ENTRY_SIZE && Size(f) <= MAX_ENTRY_SIZE
    ensures CompareProcFields(file, e, off - HEADER_SIZE) == if SameFields(e, f) then 0 else 1
  {
    CompareProcSizesAgrees(file, off, e, f);
    if |e.comm| == |f.comm| && |e.cmdline| == |f.cmdline| {
      CompareProcRssAgrees(file, off, e, f);
      CompareProcStringsAgrees(file, off, e, f);
    }
  }

  lemma CompareProcSizesAgrees(file: Bytes, off: nat, e: Entry, f: Entry)
    requires e.Proc? && f.Proc? && HEADER_SIZE <= off && off + Size(f) <= |file| < U32 && Size(f) <= MAX_ENTRY_SIZE
    requires Int32At(file, off + 13, |f.comm|) && Int32At(file, off + 17 + |f.comm|, |f.cmdline|)
    ensures CompareProcFields(file, e, off - HEADER_SIZE) ==
            if |e.comm| == |f.comm| && |e.cmdline| == |f.cmdline| then CompareProcRss(file, e, off) else 1
  {}

  lemma CompareProcRssAgrees(file: Bytes, off: nat, e: Entry, f: Entry)
    requires e.Proc? && f.Proc? && off + Size(f) <= |file| < U32 && Size(f) <= MAX_ENTRY_SIZE
    requires |e.comm| == |f.comm| && |e.cmdline| == |f.cmdline|
    requires Int32At(file, off + 21 + |f.comm| + |f.cmdline|, |f.rssSrc|)
    requires Int64At(file, off + 25 + |f.comm| + |f.cmdline| + |f.rssSrc|, f.rss)
    ensures CompareProcRss(file, e, off) ==
            if AbsDiff(e.rss, f.rss) > RSS_THRESHOLD then 1 else CompareProcStrings(file, e, off)
  {}

  lemma CompareProcStringsAgrees(file: Bytes, off: nat, e: Entry, f: Entry)
    requires e.Proc? && f.Proc? && off + Size(f) <= |file| < U32 && Size(f) <= MAX_ENTRY_SIZE
    requires |e.comm| == |f.comm| && |e.cmdline| == |f.cmdline|
    requires Pread(file, off + 17, |f.comm|) == f.comm
    requires Pread(file, off + 21 + |f.comm|, |f.cmdline|) == f.cmdline
    ensures CompareProcStrings(file, e, off) ==
            if CString(e.comm) == CString(f.comm) && CString(e.cmdline) == CString(f.cmdline) then 0 else 1
  {}

  // ------------------------------------------------------------------ parsing a record back

  /** The fields lookup_entry copies out of a record's bytes; the ones it never looks at are left blank. */
  function ParseRelevant(buffer: Bytes, kind: Kind): Entry {
    if kind.FileIndex? then
      var n := Decode(Pread(buffer, 4, 4));
      Idx(|buffer|, Pread(buffer, 8, n), Pread(buffer, 8 + n, TYPE_LEN_MAX), Decode(Pread(buffer, 24 + n, 8)),
          Decode(Pread(buffer, 32 + n, 8)), Decode(Pread(buffer, 40 + n, 4)), Decode(Pread(buffer, 44 + n, 8)), 0, 0)
    else
      var c := Decode(Pread(buffer, 13, 4));
      var l := Decode(Pread(buffer, 17 + c, 4));
      var r := Decode(Pread(buffer, 21 + c + l, 4));
      Proc(|buffer|, Decode(Pread(buffer, 4, 4)), 0, 0, Pread(buffer, 17, c), Pread(buffer, 21 + c, l), [],
           Decode(Pread(buffer, 25 + c + l + r, 8)), 0)
  }

  function Relevant(e: Entry): Entry {
    match e
    case Idx(entrySize, path, fileType, checksum, sizeBytes, mtime, hash, _, _) =>
      Idx(entrySize, path, fileType, checksum, sizeBytes, mtime, hash, 0, 0)
    case Proc(entrySize, pid, _, _, comm, cmdline, _, rss, _) =>
      Proc(entrySize, pid, 0, 0, comm, cmdline, [], rss, 0)
  }

  /** Round trip: parsing the bytes of any record on disk gives back what was serialised. */
  lemma ParseOfRecord(file: Bytes, off: nat, e: Entry)
    requires RecordAt(file, off, e)
    ensures ParseRelevant(Pread(file, off, Size(e)), KindOf(e)) == Relevant(e)
  {
    hide ParseRelevant, Relevant;
    var buffer := Pread(file, off, Size(e));
    RecordIsWhole(file, off, e);
    PreadOfPread(file, off, Size(e), 0, Size(e) - 4);
    RecordCopy(file, off, buffer, 0, e);
    if e.Idx? {
      ParseIdx(buffer, e);
    } else {
      ParseProc(buffer, e);
    }
  }

  lemma RecordIsWhole(file: Bytes, off: nat, e: Entry)
    requires RecordAt(file, off, e)
    ensures Size(e) >= 4 && off + Size(e) <= |file| && |Pread(file, off, Size(e))| == Size(e) == e.entrySize
  {}

  lemma ParseIdx(buffer: Bytes, e: Entry)
    requires e.Idx? && IdxFieldsAt(buffer, 0, e) && |buffer| == Size(e) == e.entrySize
    ensures ParseRelevant(buffer, FileIndex) == Relevant(e)
  {}

  lemma ParseProc(buffer: Bytes, e: Entry)
    requires e.Proc? && ProcFieldsAt(buffer, 0, e) && |buffer| == Size(e) == e.entrySize
    ensures ParseRelevant(buffer, ProcSnapshot) == Relevant(e)
  {}
}
