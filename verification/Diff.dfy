/** db_diff: comparing two snapshots through their indexes. */
module Diff {
  import opened Memory
  import opened Format
  import opened Records
  import opened Index

  // ------------------------------------------------------------------ what a lookup means

  /** A record of the other snapshot has e's key and no compared field differs. */
  ghost predicate Unchanged(e: Entry, log: seq<Placed>) {
    exists p :: p in log && KeyOf(p.entry) == KeyOf(e) && SameFields(e, p.entry)
  }

  /** 0 found, 1 modified, 2 not found. */
  ghost function Status(e: Entry, log: seq<Placed>): int {
    if !Present(log, KeyOf(e)) then 2 else if Unchanged(e, log) then 0 else 1
  }

  /** Looking through all records of the other file one after the other, ignoring its index. */
  function LinearLookup(e: Entry, log: seq<Placed>): int {
    if log == [] then 2
    else if KeyOf(log[0].entry) == KeyOf(e) then (if SameFields(e, log[0].entry) then 0 else 1)
    else LinearLookup(e, log[1..])
  }

  lemma {:induction false} LinearLookupIsStatus(e: Entry, log: seq<Placed>)
    requires NoDuplicates(log)
    ensures LinearLookup(e, log) == Status(e, log)
  {
    if log != [] {
      var rest := log[1..];
      assert NoDuplicates(rest);
      LinearLookupIsStatus(e, rest);
      assert forall p :: p in log <==> p == log[0] || p in rest;
      if KeyOf(log[0].entry) == KeyOf(e) {
        forall p | p in rest ensures KeyOf(p.entry) != KeyOf(e) {
          var j :| 0 <= j < |rest| && rest[j] == p;
          assert log[j + 1] == p;
        }
      }
    }
  }

  /** The same search along the chain of e's bucket. */
  lemma ChainDecides(e: Entry, log: seq<Placed>)
    ensures Present(log, KeyOf(e)) <==> Present(Chain(log, BucketOf(e)), KeyOf(e))
    ensures Unchanged(e, log) <==> Unchanged(e, Chain(log, BucketOf(e)))
  {
    ChainMembers(log, BucketOf(e));
    forall p | p in log && KeyOf(p.entry) == KeyOf(e) ensures p in Chain(log, BucketOf(e)) {
      EqualKeysShareABucket(p.entry, e);
    }
  }

  /** The chain has at most one record with a given key. */
  lemma ChainMatchIsUnique(log: seq<Placed>, e: Entry, p: Placed)
    requires NoDuplicates(log) && p in Chain(log, BucketOf(e)) && KeyOf(p.entry) == KeyOf(e)
    ensures Status(e, log) == if SameFields(e, p.entry) then 0 else 1
  {
    ChainMembers(log, BucketOf(e));
    var i :| 0 <= i < |log| && log[i] == p;
    forall q | q in log && KeyOf(q.entry) == KeyOf(e) ensures q == p {
      var j :| 0 <= j < |log| && log[j] == q;
      assert i == j;
    }
  }

  /** Blanking the fields nobody compares changes no comparison. */
  lemma RelevantIsEnough(e: Entry, f: Entry)
    ensures KeyOf(Relevant(e)) == KeyOf(e) && BucketOf(Relevant(e)) == BucketOf(e) && KindOf(Relevant(e)) == KindOf(e)
    ensures SameFields(Relevant(e), f) == SameFields(e, f)
    ensures Size(Relevant(e)) <= Size(e)
  {}

  // ------------------------------------------------------------------ lookup_entry

  /** Whether an offset, counted from the end of the header, is where a record of the log starts. */
  ghost predicate RecordOffset(log: seq<Placed>, i: nat, entryOffset: nat) {
    i < |log| && log[i].off == HEADER_SIZE + entryOffset
  }

  /** lookup_entry: the record of the first file at the given offset is copied to the buffer and looked up in the second
      file through its bucket's chain. 3 only at the end of the first file. */
  method LookupEntry(entryOffset: nat, f: Bytes, g: Bytes, kind: Kind, buffer: array<byte>,
                     ghost flog: seq<Placed>, ghost glog: seq<Placed>, ghost i: nat)
    returns (ret: int)
    requires Snapshot(f, flog, kind) && Snapshot(g, glog, kind) && buffer.Length == MAX_ENTRY_SIZE
    requires HEADER_SIZE + entryOffset == |f| || RecordOffset(flog, i, entryOffset)
    modifies buffer
    ensures HEADER_SIZE + entryOffset == |f| ==> ret == 3
    ensures HEADER_SIZE + entryOffset < |f| ==>
              && RecordOffset(flog, i, entryOffset)
              && ret == Status(flog[i].entry, glog)
              && buffer[..Size(flog[i].entry)] == Pread(f, flog[i].off, Size(flog[i].entry))
  {
    hide Snapshot, Tiled, Status, ParseRelevant, SameFields, RecordAt, Size;
    SnapshotBounds(f, flog, kind);
    var at := Wrap(entryOffset + HEADER_SIZE);
    var sizeBytes := Pread(f, at, 4);
    if |sizeBytes| == 0 {
      return 3;
    }
    ghost var e := flog[i].entry;
    RecordFacts(f, flog, kind, i);
    var entrySize := Decode(sizeBytes);
    var data := Pread(f, at, entrySize);
    forall k | 0 <= k < |data| {
      buffer[k] := data[k];
    }
    assert buffer[..entrySize] == data;
    var entry := ParseRelevant(buffer[..entrySize], kind);
    ret := FindInChain(g, entry, kind, glog);
    StatusOfRelevant(e, glog);
  }

  lemma StatusOfRelevant(e: Entry, log: seq<Placed>)
    ensures Status(Relevant(e), log) == Status(e, log)
  {
    forall p ensures SameFields(Relevant(e), p) == SameFields(e, p) {
      RelevantIsEnough(e, p);
    }
    RelevantIsEnough(e, e);
  }

  lemma SnapshotBounds(f: Bytes, log: seq<Placed>, kind: Kind)
    requires Snapshot(f, log, kind)
    ensures HEADER_SIZE <= |f| == EndOf(log) < EMPTY_BUCKET
    ensures forall i :: 0 <= i < |log| ==> HEADER_SIZE <= log[i].off < |f|
    ensures Pread(f, |f|, 4) == []
  {
    Extent(log);
    forall i | 0 <= i < |log| ensures HEADER_SIZE <= log[i].off < |f| {
      Bounds(log, i);
    }
  }

  /** What the first reads of lookup_entry get from a record. */
  lemma RecordFacts(f: Bytes, log: seq<Placed>, kind: Kind, i: nat)
    requires Snapshot(f, log, kind) && i < |log|
    ensures var p := log[i];
            && Int32At(f, p.off, Size(p.entry)) && p.off + Size(p.entry) <= |f| && Size(p.entry) <= MAX_ENTRY_SIZE
            && |Pread(f, p.off, Size(p.entry))| == Size(p.entry)
            && ParseRelevant(Pread(f, p.off, Size(p.entry)), kind) == Relevant(p.entry)
            && Size(Relevant(p.entry)) <= MAX_ENTRY_SIZE && KindOf(Relevant(p.entry)) == kind
            && WellFormed(p.entry)
  {
    hide ParseRelevant, IdxFieldsAt, ProcFieldsAt;
    var p := log[i];
    assert RecordAt(f, p.off, p.entry);
    SizeOnDisk(f, p.off, p.entry);
    ParseOfRecord(f, p.off, p.entry);
    RelevantIsEnough(p.entry, p.entry);
  }

  /** The search loop of lookup_entry, over the chain of the entry's bucket. */
  method FindInChain(g: Bytes, e: Entry, kind: Kind, ghost log: seq<Placed>) returns (ret: int)
    requires Snapshot(g, log, kind) && KindOf(e) == kind && Size(e) <= MAX_ENTRY_SIZE
    ensures ret == Status(e, log)
  {
    hide Tiled, SameFields, Status, CompareEntries, CompareFields, NextEntry, Linked, TailIs, Size, U32At;
    var bucket := BucketOf(e);
    ghost var chain := Chain(log, bucket);
    SnapshotTiled(g, log, kind);
    ChainOffsets(log, bucket);
    assert Shape(g, chain, bucket, Settled);
    var other := U32At(g, HeadSlot(bucket));
    if other == EMPTY_BUCKET {
      NoMatch(e, log);
      return 2;
    }
    other := other - HEADER_SIZE;
    ghost var k: nat := 0;
    while true
      invariant k < |chain| && other >= 0 && chain[k].off == HEADER_SIZE + other
      invariant forall j :: 0 <= j < k ==> KeyOf(chain[j].entry) != KeyOf(e)
      decreases |chain| - k
    {
      CompareAt(g, log, kind, e, k);
      if CompareEntries(g, e, other) == 0 {
        ChainMatchIsUnique(log, e, chain[k]);
        return CompareFields(g, e, other);
      }
      NextInChain(g, log, bucket, k);
      other := NextEntry(g, other, true);
      if other == 0 {
        NoMatch(e, log);
        return 2;
      }
      k := k + 1;
    }
  }

  lemma SnapshotTiled(g: Bytes, log: seq<Placed>, kind: Kind)
    requires Snapshot(g, log, kind)
    ensures Tiled(g, log) && Contiguous(log) && EndOf(log) < EMPTY_BUCKET
  {}

  lemma NoMatch(e: Entry, log: seq<Placed>)
    requires forall j :: 0 <= j < |Chain(log, BucketOf(e))| ==> KeyOf(Chain(log, BucketOf(e))[j].entry) != KeyOf(e)
    ensures Status(e, log) == 2
  {
    ChainDecides(e, log);
  }

  /** Both comparators are exact at every record of the chain. */
  lemma CompareAt(g: Bytes, log: seq<Placed>, kind: Kind, e: Entry, k: nat)
    requires Snapshot(g, log, kind) && KindOf(e) == kind && Size(e) <= MAX_ENTRY_SIZE && k < |Chain(log, BucketOf(e))|
    ensures var p := Chain(log, BucketOf(e))[k];
            && HEADER_SIZE <= p.off
            && CompareEntries(g, e, p.off - HEADER_SIZE) == (if KeyOf(e) == KeyOf(p.entry) then 0 else 1)
            && CompareFields(g, e, p.off - HEADER_SIZE) == if SameFields(e, p.entry) then 0 else 1
  {
    hide RecordAt, CompareEntries, CompareFields, SameFields, Shape;
    var p := Chain(log, BucketOf(e))[k];
    ChainMembers(log, BucketOf(e));
    var i :| 0 <= i < |log| && log[i] == p;
    Bounds(log, i);
    CompareEntriesIsKeyEquality(g, p.off, e, p.entry);
    CompareFieldsIsSameFields(g, p.off, e, p.entry);
  }

  // ------------------------------------------------------------------ the report

  datatype Tag = Modified | Deleted | Created

  datatype Change = Change(tag: Tag, record: Placed)

  /** What follows "Modificat: ", "Sters: " or "Creat: " on a line: the path up to its NUL, or the PID as a signed
      number. */
  datatype Label = Path(text: Bytes) | Pid(number: int)

  datatype Line = Line(tag: Tag, shown: Label)

  function LabelOf(e: Entry): Label {
    match e
    case Idx(_, path, _, _, _, _, _, _, _) => Path(CString(path))
    case Proc(_, pid, _, _, _, _, _, _, _) => Pid(Signed(pid))
  }

  /** Which of the two files a pass walks. */
  datatype Side = OldFile | NewFile

  /** What a pass reports for one record: in the old file, a record missing or modified in the other; in the new file,
      a record missing in the other. */
  ghost function Reported(p: Placed, other: seq<Placed>, side: Side): (cs: seq<Change>)
    ensures |cs| <= 1
    ensures cs != [] ==> cs[0].record == p
  {
    match (Status(p.entry, other), side)
    case (1, OldFile) => [Change(Modified, p)]
    case (2, OldFile) => [Change(Deleted, p)]
    case (2, NewFile) => [Change(Created, p)]
    case _ => []
  }

  /** The changes a pass over a file reports, in file order. */
  ghost function Pass(log: seq<Placed>, other: seq<Placed>, side: Side): seq<Change> {
    if log == [] then []
    else Pass(log[..|log| - 1], other, side) + Reported(log[|log| - 1], other, side)
  }

  ghost function Changes(before: seq<Placed>, after: seq<Placed>): seq<Change> {
    Pass(before, after, OldFile) + Pass(after, before, NewFile)
  }

  ghost function Lines(changes: seq<Change>): seq<Line> {
    if changes == [] then []
    else
      var c := changes[|changes| - 1];
      Lines(changes[..|changes| - 1]) + [Line(c.tag, LabelOf(c.record.entry))]
  }

  lemma {:induction false} LinesConcat(a: seq<Change>, b: seq<Change>)
    ensures Lines(a + b) == Lines(a) + Lines(b)
  {
    if b == [] {
      assert a + b == a;
    } else {
      var n := |b| - 1;
      assert (a + b)[..|a + b| - 1] == a + b[..n];
      LinesConcat(a, b[..n]);
    }
  }

  /** What is printed from the buffer lookup_entry filled. */
  function BufferLabel(buffer: Bytes, kind: Kind): Label {
    if kind.FileIndex? then Path(CString(Pread(buffer, 8, |buffer|)))
    else Pid(Signed(Decode(Pread(buffer, 4, 4))))
  }

  lemma {:induction false} CStringOfPrefix(s: Bytes, t: Bytes)
    requires 0 in s && |s| <= |t| && t[..|s|] == s
    ensures CString(t) == CString(s)
  {
    assert t[0] == s[0];
    if s[0] != 0 {
      assert t[1..][..|s| - 1] == s[1..] by { assert t[1..][..|s| - 1] == t[..|s|][1..]; }
      CStringOfPrefix(s[1..], t[1..]);
    }
  }

  /** Whatever an earlier, longer record has left behind it, the buffer prints the record's own label. */
  lemma BufferShowsRecord(f: Bytes, off: nat, e: Entry, buffer: Bytes)
    requires RecordAt(f, off, e) && |buffer| == MAX_ENTRY_SIZE
    requires buffer[..Size(e)] == Pread(f, off, Size(e))
    ensures BufferLabel(buffer, KindOf(e)) == LabelOf(e)
  {
    hide Pread;
    BufferIsRecord(f, off, e, buffer);
    if e.Idx? {
      BufferPath(buffer, e);
    }
  }

  lemma BufferIsRecord(f: Bytes, off: nat, e: Entry, buffer: Bytes)
    requires RecordAt(f, off, e) && |buffer| == MAX_ENTRY_SIZE
    requires buffer[..Size(e)] == Pread(f, off, Size(e))
    ensures RecordAt(buffer, 0, e)
  {
    hide RecordAt;
    var whole := Pread(f, off, Size(e));
    BigEnough(f, off, e);
    PreadOfPread(f, off, Size(e), 0, Size(e) - 4);
    assert Pread(buffer, 0, Size(e) - 4) == Pread(whole, 0, Size(e) - 4);
    RecordCopy(f, off, buffer, 0, e);
  }

  lemma BigEnough(f: Bytes, off: nat, e: Entry)
    requires RecordAt(f, off, e)
    ensures 45 <= Size(e) <= MAX_ENTRY_SIZE && off + Size(e) <= |f|
  {}

  lemma BufferPath(buffer: Bytes, e: Entry)
    requires e.Idx? && 0 in e.path && |buffer| == MAX_ENTRY_SIZE && 8 + |e.path| <= |buffer|
    requires Pread(buffer, 8, |e.path|) == e.path
    ensures CString(Pread(buffer, 8, |buffer|)) == CString(e.path)
  {
    var rest := Pread(buffer, 8, |buffer|);
    assert rest == buffer[8..];
    assert rest[..|e.path|] == e.path;
    CStringOfPrefix(e.path, rest);
  }

  // ------------------------------------------------------------------ the two passes of main

  /** db_diff on two complete snapshots of one format: it never stops early, and it prints exactly the changes. */
  method DbDiff(f: Bytes, g: Bytes, kind: Kind, ghost flog: seq<Placed>, ghost glog: seq<Placed>)
    returns (ret: int, out: seq<Line>)
    requires Snapshot(f, flog, kind) && Snapshot(g, glog, kind)
    ensures ret == 0 && out == Lines(Changes(flog, glog))
  {
    var buffer := new byte[MAX_ENTRY_SIZE];
    var first := PassOne(f, g, kind, buffer, flog, glog);
    var second := PassTwo(g, f, kind, buffer, glog, flog);
    LinesConcat(Pass(flog, glog, OldFile), Pass(glog, flog, NewFile));
    return 0, first + second;
  }

  /** Where the walk over the file stands after i records. */
  ghost predicate WalkAt(f: Bytes, log: seq<Placed>, i: nat, entryOffset: nat) {
    i <= |log| && HEADER_SIZE + entryOffset == if i < |log| then log[i].off else |f|
  }

  /** The first loop of main: deleted and modified records. */
  method PassOne(f: Bytes, g: Bytes, kind: Kind, buffer: array<byte>, ghost flog: seq<Placed>, ghost glog: seq<Placed>)
    returns (out: seq<Line>)
    requires Snapshot(f, flog, kind) && Snapshot(g, glog, kind) && buffer.Length == MAX_ENTRY_SIZE
    modifies buffer
    ensures out == Lines(Pass(flog, glog, OldFile))
  {
    hide Snapshot, Status, BufferLabel, NextEntry, LabelOf;
    out := [];
    var entryOffset := 0;
    ghost var i: nat := 0;
    StartOfWalk(f, flog, kind);
    var more := true;
    while more
      invariant i <= |flog| && (more ==> WalkAt(f, flog, i, entryOffset)) && (!more ==> i == |flog|)
      invariant out == Lines(Pass(flog[..i], glog, OldFile))
      decreases more, |flog| - i
    {
      var ret := LookupEntry(entryOffset, f, g, kind, buffer, flog, glog, i);
      StepOfWalk(f, flog, kind, i, entryOffset);
      if i < |flog| {
        StepOfPass(flog, glog, i, ret, OldFile);
        LabelInBuffer(f, flog, kind, i, buffer[..]);
      }
      if ret == 1 {
        out := out + [Line(Modified, BufferLabel(buffer[..], kind))];
      } else if ret == 2 {
        out := out + [Line(Deleted, BufferLabel(buffer[..], kind))];
      }
      entryOffset := NextEntry(f, entryOffset, false);
      more := entryOffset != 0;
      if more {
        i := i + 1;
      }
    }
    assert flog[..|flog|] == flog;
  }

  /** The second loop of main: created records. */
  method PassTwo(f: Bytes, g: Bytes, kind: Kind, buffer: array<byte>, ghost flog: seq<Placed>, ghost glog: seq<Placed>)
    returns (out: seq<Line>)
    requires Snapshot(f, flog, kind) && Snapshot(g, glog, kind) && buffer.Length == MAX_ENTRY_SIZE
    modifies buffer
    ensures out == Lines(Pass(flog, glog, NewFile))
  {
    hide Snapshot, Status, BufferLabel, NextEntry, LabelOf;
    out := [];
    var entryOffset := 0;
    ghost var i: nat := 0;
    StartOfWalk(f, flog, kind);
    var more := true;
    while more
      invariant i <= |flog| && (more ==> WalkAt(f, flog, i, entryOffset)) && (!more ==> i == |flog|)
      invariant out == Lines(Pass(flog[..i], glog, NewFile))
      decreases more, |flog| - i
    {
      var ret := LookupEntry(entryOffset, f, g, kind, buffer, flog, glog, i);
      StepOfWalk(f, flog, kind, i, entryOffset);
      if i < |flog| {
        StepOfPass(flog, glog, i, ret, NewFile);
        LabelInBuffer(f, flog, kind, i, buffer[..]);
      }
      if ret == 2 {
        out := out + [Line(Created, BufferLabel(buffer[..], kind))];
      }
      entryOffset := NextEntry(f, entryOffset, false);
      more := entryOffset != 0;
      if more {
        i := i + 1;
      }
    }
    assert flog[..|flog|] == flog;
  }

  lemma StartOfWalk(f: Bytes, log: seq<Placed>, kind: Kind)
    requires Snapshot(f, log, kind)
    ensures WalkAt(f, log, 0, 0) && log[..0] == []
    ensures forall i :: 0 <= i < |log| ==> HEADER_SIZE <= log[i].off < |f|
  {
    SnapshotBounds(f, log, kind);
    if log == [] {
    } else {
      assert log[0].off == HEADER_SIZE;
    }
  }

  /** next_entry takes the walk from one record to the next, then to the end of the file, then stops it. */
  lemma StepOfWalk(f: Bytes, log: seq<Placed>, kind: Kind, i: nat, entryOffset: nat)
    requires Snapshot(f, log, kind) && WalkAt(f, log, i, entryOffset)
    ensures var next := NextEntry(f, entryOffset, false);
            if i < |log| then next > 1 && WalkAt(f, log, i + 1, next) else next == 0
  {
    hide Snapshot, Tiled, Contiguous, NextEntry;
    SnapshotTiled(f, log, kind);
    SnapshotBounds(f, log, kind);
    if i < |log| {
      NextInFile(f, log, i);
    } else {
      NextAtEnd(f, false);
    }
  }

  lemma StepOfPass(log: seq<Placed>, other: seq<Placed>, i: nat, status: int, side: Side)
    requires i < |log| && status == Status(log[i].entry, other)
    ensures var e := log[i].entry;
            Lines(Pass(log[..i + 1], other, side)) == Lines(Pass(log[..i], other, side)) +
              if status == 1 && side.OldFile? then [Line(Modified, LabelOf(e))]
              else if status == 2 then [Line(if side.OldFile? then Deleted else Created, LabelOf(e))]
              else []
  {
    hide Status, LabelOf;
    var p := log[i];
    assert log[..i + 1][..i] == log[..i];
    var last := Reported(p, other, side);
    LinesConcat(Pass(log[..i], other, side), last);
    LinesOfOne(last);
  }

  lemma LinesOfOne(c: seq<Change>)
    ensures c == [] ==> Lines(c) == []
    ensures |c| == 1 ==> Lines(c) == [Line(c[0].tag, LabelOf(c[0].record.entry))]
  {
    if |c| == 1 {
      assert c[..0] == [];
    }
  }

  lemma LabelInBuffer(f: Bytes, log: seq<Placed>, kind: Kind, i: nat, buffer: Bytes)
    requires Snapshot(f, log, kind) && i < |log| && |buffer| == MAX_ENTRY_SIZE
    requires Size(log[i].entry) <= |buffer| ==>
               buffer[..Size(log[i].entry)] == Pread(f, log[i].off, Size(log[i].entry))
    ensures BufferLabel(buffer, kind) == LabelOf(log[i].entry)
  {
    hide Pread, BufferLabel, LabelOf;
    RecordFacts(f, log, kind, i);
    assert RecordAt(f, log[i].off, log[i].entry);
    BufferShowsRecord(f, log[i].off, log[i].entry, buffer);
  }
}
