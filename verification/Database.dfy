/** One process working on a snapshot file: header fields, initialisation, and the append path of
    append_fileops_entry, append_proc_entry and write_to_db, as the sequential code they are. */
module Database {
  import opened Memory
  import opened Format
  import opened Records
  import opened Index
  import opened Writers
  import opened WriterInvariant
  import opened WriterSteps

  // ------------------------------------------------------------------ header fields

  const MAGIC := 0
  const VERSION := 1
  const SNAPSHOT_ID := 2
  const STATE := 3
  const ACTIVE_WRITERS := 4
  const RECORD_COUNT := 5
  const FIRST_ENTRY_POS := 6
  const BUCKET := 7
  const BUCKET_HEAD := 263
  const BUCKET_TAIL := 519
  const FIELD_HEADER_COUNT := 775

  type Field = f: nat | f < FIELD_HEADER_COUNT

  /** Where a header field lies. */
  function FieldPos(field: Field): nat {
    if field < STATE then 4 * field
    else if field == STATE then STATE_OFFSET
    else if field < BUCKET then ACTIVE_WRITERS_OFFSET + 4 * (field - ACTIVE_WRITERS)
    else if field < BUCKET_HEAD then BUCKET_OFFSET + (field - BUCKET)
    else BUCKET_HEAD_OFFSET + 4 * (field - BUCKET_HEAD)
  }

  function FieldWidth(field: Field): nat {
    if field == STATE || BUCKET <= field < BUCKET_HEAD then 1 else 4
  }

  /** The fields lie side by side and fill the header exactly. */
  lemma FieldsTileHeader(field: Field)
    ensures FieldPos(field) + FieldWidth(field) ==
              if field + 1 < FIELD_HEADER_COUNT then FieldPos(field + 1) else HEADER_SIZE
    ensures FieldPos(field) + FieldWidth(field) <= HEADER_SIZE
  {}

  lemma FieldsApart(f: Field, g: Field)
    requires f < g
    ensures FieldPos(f) + FieldWidth(f) <= FieldPos(g)
  {}

  /** get_header_field: the stored number; for the magic, 0 or 1; -1 for an unknown magic, an unknown field or a
      short read. */
  function GetHeaderField(file: Bytes, field: int): int {
    if field < 0 || FIELD_HEADER_COUNT <= field then -1
    else
      var data := Pread(file, FieldPos(field), FieldWidth(field));
      if |data| != FieldWidth(field) then -1
      else if field == MAGIC then
        (if data == MagicBytes(FileIndex) then 0 else if data == MagicBytes(ProcSnapshot) then 1 else -1)
      else Decode(data)
  }

  /** What get_header_field returns: -1 for a number that is no field, a file that ends before the field does, or an
      unknown magic; otherwise 0 for "IDX1", 1 for "PRC1", and the stored number for every other field. */
  lemma GetHeaderFieldIs(file: Bytes, field: int)
    ensures GetHeaderField(file, field) == -1 <==>
              || field < 0 || 775 <= field || |file| < FieldPos(field) + FieldWidth(field)
              || (field == 0 && file[..4] != [73, 68, 88, 49] && file[..4] != [80, 82, 67, 49])
    ensures GetHeaderField(file, 0) == 0 <==> 4 <= |file| && file[..4] == [73, 68, 88, 49]
    ensures GetHeaderField(file, 0) == 1 <==> 4 <= |file| && file[..4] == [80, 82, 67, 49]
    ensures 0 < field < 775 && FieldPos(field) + FieldWidth(field) <= |file| ==>
              GetHeaderField(file, field) == Decode(file[FieldPos(field)..FieldPos(field) + FieldWidth(field)])
  {
    hide Decode;
    if 0 <= field < 775 {
      ShortRead(file, FieldPos(field), FieldWidth(field));
    }
    ShortRead(file, 0, 4);
  }

  lemma ShortRead(file: Bytes, off: nat, n: nat)
    requires n > 0
    ensures |Pread(file, off, n)| == n <==> off + n <= |file|
    ensures off + n <= |file| ==> Pread(file, off, n) == file[off..off + n]
    ensures off == 0 && n == 4 && 4 <= |file| ==> Pread(file, off, n) == file[..4]
  {}

  /** What set_header_field stores: the low bytes of the value, or the magic string. */
  function FieldBytes(field: Field, value: nat): (s: Bytes)
    ensures |s| == FieldWidth(field)
  {
    if field == MAGIC then MagicBytes(if value == 0 then FileIndex else ProcSnapshot)
    else Encode(value, FieldWidth(field))
  }

  predicate Accepts(field: Field, value: nat) {
    field == STATE ==> value % 256 == STATE_OPEN || value % 256 == STATE_SEALED
  }

  /** A field reads back what was last stored in it, truncated to its width, and storing one field never changes
      another. */
  lemma GetAfterSet(file: Bytes, field: Field, value: nat, other: Field)
    requires HEADER_SIZE <= |file| && (field == MAGIC ==> value <= 1)
    ensures var g := Pwrite(file, FieldPos(field), FieldBytes(field, value));
            GetHeaderField(g, other) ==
              if other != field then GetHeaderField(file, other)
              else if field == MAGIC then value else value % Pow256(FieldWidth(field))
  {
    var pos, data := FieldPos(field), FieldBytes(field, value);
    var g := Pwrite(file, pos, data);
    FieldsTileHeader(field);
    FieldsTileHeader(other);
    if other == field {
      assert Pread(g, pos, |data|) == data;
      assert MagicBytes(FileIndex)[0] != MagicBytes(ProcSnapshot)[0];
      DecodeTruncates(value, FieldWidth(field));
    } else {
      PwriteElsewhere(file, pos, data);
      if field < other {
        FieldsApart(field, other);
      } else {
        FieldsApart(other, field);
      }
      PreadSame(file, g, FieldPos(other), FieldWidth(other));
    }
  }

  lemma {:induction false} DecodeTruncates(v: nat, n: nat)
    ensures Decode(Encode(v, n)) == v % Pow256(n)
  {
    if n > 0 {
      DecodeTruncates(v / 256, n - 1);
      assert Encode(v, n)[1..] == Encode(v / 256, n - 1);
      ModSplit(v, Pow256(n - 1));
    }
  }

  lemma ModSplit(v: nat, m: nat)
    requires m > 0
    ensures v % 256 + 256 * ((v / 256) % m) == v % (256 * m)
  {
    var q, r := v / 256, v % 256;
    var a, b := q / m, q % m;
    assert v == 256 * (a * m + b) + r;
    assert v == (256 * m) * a + (256 * b + r) by { assert 256 * (a * m) == (256 * m) * a; }
    assert 0 <= 256 * b + r < 256 * m;
    Quotient(v, 256 * m, a, 256 * b + r);
  }

  // ------------------------------------------------------------------ initialisation

  /** Each field's slice of the initial header is what set_header_field stores there. */
  function InitialValue(field: Field, kind: Kind, now: nat): nat {
    if field == MAGIC then (if kind.FileIndex? then 0 else 1)
    else if field == VERSION then VERSION_VALUE
    else if field == SNAPSHOT_ID then now
    else if field == STATE then STATE_OPEN
    else if field == ACTIVE_WRITERS then 1
    else if field == RECORD_COUNT then 0
    else if field == FIRST_ENTRY_POS then HEADER_SIZE
    else if field < BUCKET_HEAD then BUCKET_MARK
    else EMPTY_BUCKET
  }

  lemma FixedPart(kind: Kind, now: nat)
    ensures |Flatten(InitialFields(kind, now))| == BUCKET_OFFSET
    ensures FieldOffset(InitialFields(kind, now), 1) == 4 && FieldOffset(InitialFields(kind, now), 2) == 8
    ensures FieldOffset(InitialFields(kind, now), 6) == 21
  {
    var fs := InitialFields(kind, now);
    InitialOffsets(kind, now);
    assert FieldOffset(fs, 1) == 4;
    assert FieldOffset(fs, 2) == 8;
    assert FieldOffset(fs, 6) == FieldOffset(fs, 5) + 4;
  }

  lemma InitialSlice(field: Field, kind: Kind, now: nat)
    ensures Pread(InitialHeader(kind, now), FieldPos(field), FieldWidth(field)) == FieldBytes(field, InitialValue(field, kind, now))
  {
    if field < BUCKET {
      InitialFixedSlice(field, kind, now);
    } else if field < BUCKET_HEAD {
      InitialMark(field, kind, now);
    } else {
      InitialSlot(field, kind, now);
    }
  }

  lemma InitialFixedSlice(field: Field, kind: Kind, now: nat)
    requires field < BUCKET
    ensures Pread(InitialHeader(kind, now), FieldPos(field), FieldWidth(field)) == FieldBytes(field, InitialValue(field, kind, now))
  {
    hide Flatten, InitialHeader, Pread;
    var fs := InitialFields(kind, now);
    InitialOffsets(kind, now);
    FixedPart(kind, now);
    InitialPrefix(kind, now);
    ReadField(fs, field);
    FieldsTileHeader(field);
    if field == STATE {
      assert Encode(STATE_OPEN, 1) == [STATE_OPEN];
    }
  }

  lemma InitialMark(field: Field, kind: Kind, now: nat)
    requires BUCKET <= field < BUCKET_HEAD
    ensures Pread(InitialHeader(kind, now), FieldPos(field), 1) == Encode(BUCKET_MARK, 1)
  {
    hide Flatten, InitialFields;
    InitialOffsets(kind, now);
    var at := FieldPos(field);
    assert InitialHeader(kind, now)[at] == BUCKET_MARK;
    assert Encode(BUCKET_MARK, 1) == [BUCKET_MARK];
  }

  lemma InitialSlot(field: Field, kind: Kind, now: nat)
    requires BUCKET_HEAD <= field
    ensures Pread(InitialHeader(kind, now), FieldPos(field), 4) == Encode(EMPTY_BUCKET, 4)
  {
    hide Flatten, InitialFields;
    InitialOffsets(kind, now);
    var s := Pread(InitialHeader(kind, now), FieldPos(field), 4);
    assert s == [255, 255, 255, 255];
    Decode255();
    EncodeDecode(s);
  }

  /** A fresh header, byte by byte: "IDX1" or "PRC1", version 100, the time, 'O', one active writer, no records, the first
      record at 2329, 256 times 'B', and 512 slots full of ones. */
  lemma HeaderBytes(kind: Kind, now: nat)
    requires now < U32
    ensures var h := InitialHeader(kind, now);
            && |h| == 2329
            && h[0..4] == (if kind.FileIndex? then [73, 68, 88, 49] else [80, 82, 67, 49])
            && h[4..8] == [100, 0, 0, 0] && Decode(h[8..12]) == now && h[12..13] == [79] && h[13..17] == [1, 0, 0, 0]
            && h[17..21] == [0, 0, 0, 0] && h[21..25] == [25, 9, 0, 0]
    ensures forall i :: 25 <= i < 281 ==> InitialHeader(kind, now)[i] == 66
    ensures forall i :: 281 <= i < 2329 ==> InitialHeader(kind, now)[i] == 255
  {
    hide InitialHeader, Encode, Decode;
    InitialOffsets(kind, now);
    InitialSlice(MAGIC, kind, now);
    InitialSlice(VERSION, kind, now);
    InitialSlice(SNAPSHOT_ID, kind, now);
    InitialSlice(STATE, kind, now);
    InitialSlice(ACTIVE_WRITERS, kind, now);
    InitialSlice(RECORD_COUNT, kind, now);
    InitialSlice(FIRST_ENTRY_POS, kind, now);
    SmallNumbers();
    Encode32(now);
    MarksAndSlots(kind, now);
  }

  lemma SmallNumbers()
    ensures Encode(100, 4) == [100, 0, 0, 0] && Encode(79, 1) == [79] && Encode(1, 4) == [1, 0, 0, 0]
    ensures Encode(0, 4) == [0, 0, 0, 0] && Encode(2329, 4) == [25, 9, 0, 0]
  {}

  lemma MarksAndSlots(kind: Kind, now: nat)
    ensures var h := InitialHeader(kind, now);
            && |h| == 2329 && (forall i :: 25 <= i < 281 ==> h[i] == 66) && forall i :: 281 <= i < 2329 ==> h[i] == 255
  {
    hide Flatten, InitialFields;
    InitialOffsets(kind, now);
  }

  // ------------------------------------------------------------------ serialising

  /** The buffer-filling loop of both append functions: the fields end up back to back. */
  method SerialiseFields(fields: seq<Bytes>, buffer: array<byte>) returns (size: nat)
    requires FieldOffset(fields, |fields|) <= buffer.Length
    modifies buffer
    ensures size == |Flatten(fields)| <= buffer.Length && buffer[..size] == Flatten(fields)
  {
    size := 0;
    var i := 0;
    while i < |fields|
      invariant 0 <= i <= |fields| && size == FieldOffset(fields, i) <= FieldOffset(fields, |fields|)
      invariant size <= buffer.Length && buffer[..size] == Flatten(fields[..i])
    {
      OffsetsGrow(fields, i, |fields|);
      ghost var done := buffer[..size];
      var field := fields[i];
      forall k | 0 <= k < |field| {
        buffer[size + k] := field[k];
      }
      assert buffer[..size + |field|] == done + field;
      assert fields[..i + 1][..i] == fields[..i];
      size := size + |field|;
      i := i + 1;
    }
    assert fields[..|fields|] == fields;
  }

  lemma {:induction false} OffsetsGrow(fields: seq<Bytes>, i: nat, j: nat)
    requires i < j <= |fields|
    ensures FieldOffset(fields, i) + |fields[i]| <= FieldOffset(fields, j)
    decreases j
  {
    if i < j - 1 {
      OffsetsGrow(fields, i, j - 1);
    }
  }

  // ------------------------------------------------------------------ the open file

  ghost predicate NewestAt(chain: seq<Placed>, pos: nat) {
    chain != [] && chain[|chain| - 1].off == pos
  }

  class Database {
    var file: Bytes
    /** The format the process works with. */
    const kind: Kind
    /** The records in the file. */
    ghost var log: seq<Placed>

    constructor (kind: Kind)
      ensures this.kind == kind && file == [] && log == []
    {
      this.kind := kind;
      file, log := [], [];
    }

    /** The file is a complete snapshot holding exactly the records of the log. */
    ghost predicate Valid()
      reads this
    {
      Snapshot(file, log, kind)
    }

    /** set_header_field: 0 and one field overwritten, or -1 and nothing changed. */
    method SetHeaderField(field: int, value: nat) returns (ret: int)
      requires field == MAGIC ==> value <= 1
      modifies this`file
      ensures ret == if 0 <= field < FIELD_HEADER_COUNT && Accepts(field, value) then 0 else -1
      ensures ret == -1 <==> field < 0 || 775 <= field || (field == 3 && value % 256 != 79 && value % 256 != 83)
      ensures file == if ret == 0 then Pwrite(old(file), FieldPos(field), FieldBytes(field, value)) else old(file)
    {
      if field < 0 || FIELD_HEADER_COUNT <= field {
        return -1;
      }
      if field == STATE && value % 256 != STATE_OPEN && value % 256 != STATE_SEALED {
        return -1;
      }
      file := Pwrite(file, FieldPos(field), FieldBytes(field, value));
      ret := 0;
    }

    /** initialize_snapshot, on a new or truncated file: the fixed fields one by one, then the 768 bucket slots. */
    method InitializeSnapshot(now: nat) returns (ret: int)
      requires file == []
      modifies this
      ensures ret == 0 && file == InitialHeader(kind, now) && log == [] && Valid()
    {
      InitialHeaderFields(kind, now);
      FreshSnapshot(kind, now);
      hide Snapshot;
      hide Pwrite, FieldBytes, InitialHeader, MagicBytes;
      ghost var header := InitialHeader(kind, now);
      assert header[..0] == [];
      var magic := if kind.FileIndex? then 0 else 1;
      ret := SetHeaderField(MAGIC, magic);
      NextSlice(header, MAGIC, kind, now);
      var r1 := SetHeaderField(VERSION, VERSION_VALUE);
      NextSlice(header, VERSION, kind, now);
      var r2 := SetHeaderField(SNAPSHOT_ID, now);
      NextSlice(header, SNAPSHOT_ID, kind, now);
      var r3 := SetHeaderField(STATE, STATE_OPEN);
      NextSlice(header, STATE, kind, now);
      var r4 := SetHeaderField(ACTIVE_WRITERS, 1);
      NextSlice(header, ACTIVE_WRITERS, kind, now);
      var r5 := SetHeaderField(RECORD_COUNT, 0);
      NextSlice(header, RECORD_COUNT, kind, now);
      var r6 := SetHeaderField(FIRST_ENTRY_POS, HEADER_SIZE);
      NextSlice(header, FIRST_ENTRY_POS, kind, now);
      var bucket := BUCKET;
      while bucket < FIELD_HEADER_COUNT
        invariant BUCKET <= bucket <= FIELD_HEADER_COUNT
        invariant file == header[..if bucket < FIELD_HEADER_COUNT then FieldPos(bucket) else HEADER_SIZE]
      {
        ret := SetHeaderField(bucket, if bucket < BUCKET_HEAD then BUCKET_MARK else EMPTY_BUCKET);
        NextSlice(header, bucket, kind, now);
        bucket := bucket + 1;
      }
      assert header[..HEADER_SIZE] == header;
      log, ret := [], 0;
    }

    /** Bucket b has got as far as the phase says; every other bucket is settled. */
    ghost predicate Working(b: BucketId, phase: Phase)
      reads this
    {
      && Contents(file, log, kind) && Shape(file, Chain(log, b), b, phase)
      && forall c: BucketId :: c != b ==> Shape(file, Chain(log, c), c, Settled)
    }

    /** The head half of write_to_db: the first record of a bucket becomes its head. */
    method UpdateHead(bucket: BucketId, pos: nat)
      requires Working(bucket, Appended) && NewestAt(Chain(log, bucket), pos)
      modifies this`file
      ensures Working(bucket, Headed) && SameRange(old(file), file, 0, BUCKET_HEAD_OFFSET)
    {
      hide Shape, Tiled, U32At, FieldBytes, Pwrite, Chain, SameIndex, GetHeaderField;
      ghost var before := file;
      HeaderIsThere(file, log, kind);
      SlotFields(file, bucket, pos);
      var head := GetHeaderField(file, BUCKET_HEAD + bucket);
      if head == EMPTY_BUCKET {
        HeadStep(file, log, bucket);
        var ret := SetHeaderField(BUCKET_HEAD + bucket, pos);
        CarryOver(before, file, log, kind, bucket);
      } else {
        HeadStands(file, log, bucket);
      }
    }

    /** The tail half: the newest record becomes the tail, and the previous tail is handed back. */
    method UpdateTail(bucket: BucketId, pos: nat) returns (tail: int)
      requires Working(bucket, Headed) && NewestAt(Chain(log, bucket), pos)
      modifies this`file
      ensures tail == old(U32At(file, TailSlot(bucket)))
      ensures Working(bucket, if tail == EMPTY_BUCKET then Settled else Tailed)
      ensures tail != EMPTY_BUCKET ==> Previous(Chain(log, bucket), tail)
      ensures SameRange(old(file), file, 0, BUCKET_HEAD_OFFSET)
    {
      hide Shape, Tiled, U32At, FieldBytes, Pwrite, Chain, SameIndex, GetHeaderField;
      ghost var before := file;
      HeaderIsThere(file, log, kind);
      SlotFields(file, bucket, pos);
      tail := GetHeaderField(file, BUCKET_TAIL + bucket);
      TailStep(file, log, bucket, pos);
      var ret := SetHeaderField(BUCKET_TAIL + bucket, pos);
      CarryOver(before, file, log, kind, bucket);
    }

    /** The link half: the record that was the tail now points at the newest one. */
    method PatchLink(bucket: BucketId, pos: nat, tail: nat)
      requires Working(bucket, Tailed) && NewestAt(Chain(log, bucket), pos)
      requires Previous(Chain(log, bucket), tail)
      modifies this`file
      ensures Working(bucket, Settled) && SameRange(old(file), file, 0, BUCKET_HEAD_OFFSET)
    {
      hide Shape, Tiled, U32At, Pwrite, Chain, SameIndex, Pread, Size;
      ghost var before, chain := file, Chain(log, bucket);
      ContentsTiled(file, log, kind);
      SizeInChain(file, log, bucket, |chain| - 2);
      LinkStep(file, log, bucket);
      var tailSize := Decode(Pread(file, tail, 4));
      file := Pwrite(file, tail + tailSize - 4, Encode(pos, 4));
      CarryOver(before, file, log, kind, bucket);
    }

    /** write_to_db, with the bucket's lock held: the record is appended and the bucket's index completed, whatever
        records it already had. */
    method WriteToDb(buffer: Bytes, bucket: BucketId, ghost e: Entry)
      requires Valid() && WellFormed(e) && KindOf(e) == kind && bucket == BucketOf(e) && buffer == Serialise(e)
      requires NotAmong(Chain(log, bucket), |Chain(log, bucket)|, e)
      requires |file| + Size(e) < EMPTY_BUCKET
      modifies this
      ensures Valid() && log == old(log) + [Placed(|old(file)|, e)]
      ensures SameRange(old(file), file, 0, BUCKET_HEAD_OFFSET)
    {
      hide Shape, Contents, U32At, Pwrite, Chain, SameIndex, Serialise, WellFormed;
      ghost var before := file;
      ghost var p := PlaceNext(log, e);
      ContentsTiled(file, log, kind);
      AppendStep(file, log, e);
      AppendContents(file, log, kind, e);
      AppendCarry(file, file + buffer, log, p, bucket);
      file := file + buffer;
      var pos := |file| - |buffer|;
      log := log + [p];
      UpdateHead(bucket, pos);
      var tail := UpdateTail(bucket, pos);
      if tail != EMPTY_BUCKET {
        PatchLink(bucket, pos, tail);
      }
    }

    /** append_fileops_entry and append_proc_entry. A wrong declared size gives -1 for an indexed file, but 1 for a
        process, the same as a key that is already there; either way nothing changes. 0 means the record has been added
        as the last of the file. */
    method AppendEntry(e: Entry) returns (ret: int)
      requires Valid() && Sane(e) && KindOf(e) == kind && |file| + Size(e) < EMPTY_BUCKET
      modifies this
      ensures Valid()
      ensures ret == -1 <==> e.Idx? && e.entrySize != Size(e)
      ensures ret == 1 <==> if e.entrySize == Size(e) then Present(old(log), KeyOf(e)) else e.Proc?
      ensures e.Idx? && e.entrySize == Size(e) ==>
                (ret == 1 <==>
                 exists p :: p in old(log) && p.entry.Idx? && p.entry.path == e.path && p.entry.hash == e.hash)
      ensures e.Proc? && e.entrySize == Size(e) ==>
                (ret == 1 <==> exists p :: p in old(log) && p.entry.Proc? && p.entry.pid == e.pid)
      ensures ret in {-1, 0, 1}
      ensures ret == 0 ==> log == old(log) + [Placed(|old(file)|, e)] && SameRange(old(file), file, 0, BUCKET_HEAD_OFFSET)
      ensures ret != 0 ==> log == old(log) && file == old(file)
    {
      hide Shape, Contents, U32At, Chain, SameIndex, Flatten, FieldOffset, Fields, Snapshot, Pread, GetHeaderField, Present;
      var buffer := new byte[MAX_ENTRY_SIZE];
      SerialisedLength(e);
      var size := SerialiseFields(Fields(e), buffer);
      if size != e.entrySize {
        return if kind == FileIndex then -1 else 1;
      }
      PresentIs(log, e);
      var bucket := BucketOf(e);
      var found := FindDuplicate(e);
      if found {
        return 1;
      }
      WriteToDb(buffer[..size], bucket, e);
      return 0;
    }

    /** The duplicate scan, with the bucket's lock held: it walks the bucket's chain only, and finds the key exactly
        when some record of the whole file has it. */
    method FindDuplicate(e: Entry) returns (found: bool)
      requires Valid() && WellFormed(e) && KindOf(e) == kind
      ensures found <==> Present(log, KeyOf(e))
      ensures !found ==> NotAmong(Chain(log, BucketOf(e)), |Chain(log, BucketOf(e))|, e)
    {
      hide Tiled, U32At, Linked, TailIs, CompareEntries, NextEntry, GetHeaderField, WellFormed;
      var bucket := BucketOf(e);
      ghost var chain := Chain(log, bucket);
      HeaderIsThere(file, log, kind);
      SlotFields(file, bucket, 0);
      assert Shape(file, chain, bucket, Settled);
      var head := GetHeaderField(file, BUCKET_HEAD + bucket);
      found := false;
      if head != EMPTY_BUCKET {
        ChainIsBounded(file, log, bucket);
        var off := head - HEADER_SIZE;
        ghost var k: nat := 0;
        var more := true;
        while more
          invariant more ==> off >= 0 && ScanAt(chain, e, off, k) && !found
          invariant !more && !found ==> NotAmong(chain, |chain|, e)
          invariant found ==> exists p :: p in chain && KeyOf(p.entry) == KeyOf(e)
          decreases more, |chain| - k
        {
          CompareInChain(file, log, kind, e, k);
          NextInChain(file, log, bucket, k);
          if CompareEntries(file, e, off) == 0 {
            assert chain[k] in chain;
            found, more := true, false;
          } else {
            off := NextEntry(file, off, true);
            more := off != 0;
            k := k + 1;
          }
        }
      }
      ChainMembers(log, bucket);
      if !found {
        NewKeyIsNew(log, e);
      }
    }

    /** The end of build_database, with RECORD_COUNT locked: read, add, write back. */
    method AddToRecordCount(appended: nat)
      requires Valid() && RecordCount(file) + appended < U32
      modifies this`file
      ensures Valid() && RecordCount(file) == old(RecordCount(file)) + appended
      ensures |file| == |old(file)|
    {
      hide Snapshot, Pwrite, RecordCount, GetHeaderField, FieldBytes;
      CountField(file, log, kind, appended);
      var count := GetHeaderField(file, RECORD_COUNT);
      CountWritten(file, log, kind, count + appended);
      var ret := SetHeaderField(RECORD_COUNT, count + appended);
    }
  }

  /** A fresh file is a complete snapshot without records. */
  lemma FreshSnapshot(kind: Kind, now: nat)
    ensures Snapshot(InitialHeader(kind, now), [], kind)
  {
    hide InitialHeader, Shape, U32At, Pread, MagicBytes;
    var f := InitialHeader(kind, now);
    InitialHeaderFields(kind, now);
    forall b: BucketId ensures Shape(f, Chain([], b), b, Settled) {
      InitialSlots(kind, now, HeadSlot(b));
      InitialSlots(kind, now, TailSlot(b));
      EmptyShape(f, b);
    }
  }

  lemma SerialisedLength(e: Entry)
    requires Sane(e)
    ensures FieldOffset(Fields(e), |Fields(e)|) == Size(e) == |Flatten(Fields(e))|
  {
    var fields := Fields(e);
    FlattenLength(fields, |fields|);
    assert fields[..|fields|] == fields;
    if e.Idx? {
      IdxLayout(e);
    } else {
      ProcLayout(e);
    }
  }

  lemma CountField(f: Bytes, log: seq<Placed>, kind: Kind, more: nat)
    requires Snapshot(f, log, kind)
    ensures GetHeaderField(f, RECORD_COUNT) == RecordCount(f)
    ensures FieldPos(RECORD_COUNT) == RECORD_COUNT_OFFSET
    ensures FieldBytes(RECORD_COUNT, RecordCount(f) + more) == Encode(RecordCount(f) + more, 4)
  {
    HeaderIsThere(f, log, kind);
  }

  /** Writing RECORD_COUNT leaves a complete snapshot complete. */
  lemma CountWritten(f: Bytes, log: seq<Placed>, kind: Kind, n: nat)
    requires Snapshot(f, log, kind) && n < U32
    ensures var g := Pwrite(f, RECORD_COUNT_OFFSET, Encode(n, 4));
            Snapshot(g, log, kind) && RecordCount(g) == n && |g| == |f|
  {
    hide Shape, Contents, Chain, SameIndex, Pwrite, U32At;
    var g := Pwrite(f, RECORD_COUNT_OFFSET, Encode(n, 4));
    HeaderIsThere(f, log, kind);
    FieldWriteFrame(f, log, kind, RECORD_COUNT_OFFSET, Encode(n, 4));
    WriteRead32(f, RECORD_COUNT_OFFSET, n);
    forall b ensures Shape(g, Chain(log, b), b, Settled) {
      ShapeFrame(f, g, b, Chain(log, b), Settled);
    }
  }

  lemma HeaderIsThere(f: Bytes, log: seq<Placed>, kind: Kind)
    requires Contents(f, log, kind)
    ensures Tiled(f, log) && HEADER_SIZE <= |f|
    ensures forall b: BucketId, k :: 0 <= k < |Chain(log, b)| ==> Chain(log, b)[k].off < EMPTY_BUCKET
  {
    Extent(log);
    forall b: BucketId, k | 0 <= k < |Chain(log, b)| ensures Chain(log, b)[k].off < EMPTY_BUCKET {
      ChainOffsets(log, b);
    }
  }

  /** Header fields 263 + b and 519 + b are the head and tail slots of bucket b. */
  lemma SlotFields(f: Bytes, b: BucketId, v: nat)
    requires HEADER_SIZE <= |f|
    ensures GetHeaderField(f, BUCKET_HEAD + b) == U32At(f, HeadSlot(b))
    ensures GetHeaderField(f, BUCKET_TAIL + b) == U32At(f, TailSlot(b))
    ensures FieldPos(BUCKET_HEAD + b) == HeadSlot(b) && FieldPos(BUCKET_TAIL + b) == TailSlot(b)
    ensures FieldBytes(BUCKET_HEAD + b, v) == Encode(v, 4) == FieldBytes(BUCKET_TAIL + b, v)
  {}

  /** A write that advances one bucket keeps the contents and the other buckets. */
  lemma CarryOver(f: Bytes, g: Bytes, log: seq<Placed>, kind: Kind, b: BucketId)
    requires Contents(f, log, kind) && Tiled(g, log) && OthersSame(f, g, log, b) && SameRange(f, g, 0, BUCKET_HEAD_OFFSET)
    requires forall c: BucketId :: c != b ==> Shape(f, Chain(log, c), c, Settled)
    ensures Contents(g, log, kind)
    ensures forall c: BucketId :: c != b ==> Shape(g, Chain(log, c), c, Settled)
  {
    hide Shape, Tiled, Chain, SameIndex;
    FixedFieldsKept(f, g);
    forall c: BucketId | c != b ensures Shape(g, Chain(log, c), c, Settled) {
      ShapeFrame(f, g, c, Chain(log, c), Settled);
    }
  }

  lemma AppendCarry(f: Bytes, g: Bytes, log: seq<Placed>, p: Placed, b: BucketId)
    requires forall c :: SameIndex(f, g, c, Chain(log, c))
    requires forall c :: Chain(log + [p], c) == Chain(log, c) + if c == b then [p] else []
    requires forall c :: Shape(f, Chain(log, c), c, Settled)
    ensures forall c: BucketId :: c != b ==> Shape(g, Chain(log + [p], c), c, Settled)
  {
    hide Shape, Chain, SameIndex;
    forall c: BucketId | c != b ensures Shape(g, Chain(log + [p], c), c, Settled) {
      assert Chain(log + [p], c) == Chain(log, c);
      ShapeFrame(f, g, c, Chain(log, c), Settled);
    }
  }

  /** Storing the next field after a prefix of the initial header gives the next longer prefix. */
  lemma NextSlice(header: Bytes, field: Field, kind: Kind, now: nat)
    requires header == InitialHeader(kind, now) && |header| == HEADER_SIZE
    ensures var pos := FieldPos(field);
            && pos + FieldWidth(field) <= HEADER_SIZE
            && Pwrite(header[..pos], pos, FieldBytes(field, InitialValue(field, kind, now)))
                 == header[..pos + FieldWidth(field)]
            && pos + FieldWidth(field) ==
                 if field + 1 < FIELD_HEADER_COUNT then FieldPos(field + 1) else HEADER_SIZE
  {
    hide InitialHeader, FieldBytes, InitialValue;
    InitialSlice(field, kind, now);
    FieldsTileHeader(field);
    var pos, n := FieldPos(field), FieldWidth(field);
    assert header[..pos + n] == header[..pos] + header[pos..pos + n];
  }
}
