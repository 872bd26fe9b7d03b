/** The records and the fixed header fields of a complete snapshot determine its every byte; so it does not matter how
    many processes wrote it, and db_diff can be applied to whatever they leave behind. */
module Canonical {
  import opened Memory
  import opened Format
  import opened Records
  import opened Index
  import opened Writers
  import opened WriterRuns
  import opened Diff

  // ------------------------------------------------------------------ bytes from values

  lemma SameBytes(f: Bytes, g: Bytes, off: nat, n: nat)
    requires Pread(f, off, n) == Pread(g, off, n) && off + n <= |f| && off + n <= |g|
    ensures SameRange(f, g, off, off + n)
  {
    forall i | off <= i < off + n ensures f[i] == g[i] {
      assert f[i] == Pread(f, off, n)[i - off] && g[i] == Pread(g, off, n)[i - off];
    }
  }

  /** Equal integers are equal bytes. */
  lemma SameInt32(f: Bytes, g: Bytes, off: nat)
    requires U32At(f, off) == U32At(g, off) && off + 4 <= |f| && off + 4 <= |g|
    ensures SameRange(f, g, off, off + 4)
  {
    EncodeDecode(Pread(f, off, 4));
    EncodeDecode(Pread(g, off, 4));
    SameBytes(f, g, off, 4);
  }

  lemma SameInt64(f: Bytes, g: Bytes, off: nat, v: nat)
    requires Int64At(f, off, v) && Int64At(g, off, v)
    ensures SameRange(f, g, off, off + 8)
  {
    EncodeDecode(Pread(f, off, 8));
    EncodeDecode(Pread(g, off, 8));
    Whole(f, off, 8);
    Whole(g, off, 8);
    SameBytes(f, g, off, 8);
  }

  lemma Whole(f: Bytes, off: nat, n: nat)
    requires |Pread(f, off, n)| == n && n > 0
    ensures off + n <= |f|
  {}

  lemma Adjoin(f: Bytes, g: Bytes, lo: nat, mid: nat, hi: nat)
    requires SameRange(f, g, lo, mid) && SameRange(f, g, mid, hi) && mid <= hi
    ensures SameRange(f, g, lo, hi)
  {}

  // ------------------------------------------------------------------ records

  /** A record has only one form on disk, but for its link. */
  lemma RecordDetermined(f: Bytes, g: Bytes, off: nat, e: Entry)
    requires RecordAt(f, off, e) && RecordAt(g, off, e)
    ensures SameRange(f, g, off, LinkPos(off, e))
  {
    hide Pread, Int32At, Int64At;
    if e.Idx? {
      IdxFront(f, g, off, e);
      IdxBack(f, g, off, e);
      Adjoin(f, g, off, off + 24 + |e.path|, LinkPos(off, e));
    } else {
      ProcFrontSame(f, g, off, e);
      ProcBackSame(f, g, off + 17 + |e.comm|, e);
      Adjoin(f, g, off, off + 17 + |e.comm|, LinkPos(off, e));
    }
  }

  lemma Both32(f: Bytes, g: Bytes, off: nat, v: nat)
    requires Int32At(f, off, v) && Int32At(g, off, v)
    ensures SameRange(f, g, off, off + 4)
  {
    Whole(f, off, 4);
    Whole(g, off, 4);
    SameInt32(f, g, off);
  }

  lemma IdxFront(f: Bytes, g: Bytes, off: nat, e: Entry)
    requires e.Idx? && IdxFieldsAt(f, off, e) && IdxFieldsAt(g, off, e) && |e.fileType| == TYPE_LEN_MAX
    requires off + Size(e) <= |f| && off + Size(e) <= |g|
    ensures SameRange(f, g, off, off + 24 + |e.path|)
  {
    hide Pread, Int32At, Int64At, SameRange;
    var n := |e.path|;
    Both32(f, g, off, e.entrySize);
    Both32(f, g, off + 4, n);
    SameBytes(f, g, off + 8, n);
    SameBytes(f, g, off + 8 + n, TYPE_LEN_MAX);
    Adjoin(f, g, off, off + 4, off + 8);
    Adjoin(f, g, off, off + 8, off + 8 + n);
    Adjoin(f, g, off, off + 8 + n, off + 24 + n);
  }

  lemma IdxBack(f: Bytes, g: Bytes, off: nat, e: Entry)
    requires e.Idx? && IdxFieldsAt(f, off, e) && IdxFieldsAt(g, off, e)
    requires off + Size(e) <= |f| && off + Size(e) <= |g|
    ensures SameRange(f, g, off + 24 + |e.path|, LinkPos(off, e))
  {
    hide Pread, Int32At, Int64At, SameRange;
    var at := off + 24 + |e.path|;
    SameInt64(f, g, at, e.checksum);
    SameInt64(f, g, at + 8, e.sizeBytes);
    Both32(f, g, at + 16, e.mtime);
    SameInt64(f, g, at + 20, e.hash);
    Both32(f, g, at + 28, e.dev);
    Both32(f, g, at + 32, e.inode);
    Adjoin(f, g, at, at + 8, at + 16);
    Adjoin(f, g, at, at + 16, at + 20);
    Adjoin(f, g, at, at + 20, at + 28);
    Adjoin(f, g, at, at + 28, at + 32);
    Adjoin(f, g, at, at + 32, at + 36);
  }

  lemma ProcFrontSame(f: Bytes, g: Bytes, off: nat, e: Entry)
    requires e.Proc? && ProcFrontAt(f, off, e) && ProcFrontAt(g, off, e)
    requires off + Size(e) <= |f| && off + Size(e) <= |g|
    ensures SameRange(f, g, off, off + 17 + |e.comm|)
  {
    hide Pread, Int32At, Int64At, SameRange;
    Both32(f, g, off, e.entrySize);
    Both32(f, g, off + 4, e.pid);
    Both32(f, g, off + 8, e.ppid);
    SameBytes(f, g, off + 12, 1);
    Both32(f, g, off + 13, |e.comm|);
    SameBytes(f, g, off + 17, |e.comm|);
    Adjoin(f, g, off, off + 4, off + 8);
    Adjoin(f, g, off, off + 8, off + 12);
    Adjoin(f, g, off, off + 12, off + 13);
    Adjoin(f, g, off, off + 13, off + 17);
    Adjoin(f, g, off, off + 17, off + 17 + |e.comm|);
  }

  lemma ProcBackSame(f: Bytes, g: Bytes, at: nat, e: Entry)
    requires e.Proc? && ProcBackAt(f, at, e) && ProcBackAt(g, at, e)
    requires at + 24 + |e.cmdline| + |e.rssSrc| <= |f| && at + 24 + |e.cmdline| + |e.rssSrc| <= |g|
    ensures SameRange(f, g, at, at + 24 + |e.cmdline| + |e.rssSrc|)
  {
    hide Pread, Int32At, Int64At, SameRange;
    var l, r := |e.cmdline|, |e.rssSrc|;
    Both32(f, g, at, l);
    SameBytes(f, g, at + 4, l);
    Both32(f, g, at + 4 + l, r);
    SameBytes(f, g, at + 8 + l, r);
    SameInt64(f, g, at + 8 + l + r, e.rss);
    SameInt64(f, g, at + 16 + l + r, e.cpuTime);
    Adjoin(f, g, at, at + 4, at + 4 + l);
    Adjoin(f, g, at, at + 4 + l, at + 8 + l);
    Adjoin(f, g, at, at + 8 + l, at + 8 + l + r);
    Adjoin(f, g, at, at + 8 + l + r, at + 16 + l + r);
    Adjoin(f, g, at, at + 16 + l + r, at + 24 + l + r);
  }

  // ------------------------------------------------------------------ whole snapshots

  ghost predicate SlotsSame(f: Bytes, g: Bytes, log: seq<Placed>) {
    && (forall b :: U32At(f, HeadSlot(b)) == U32At(g, HeadSlot(b)) && U32At(f, TailSlot(b)) == U32At(g, TailSlot(b)))
    && forall p :: p in log ==> LinkOf(f, p) == LinkOf(g, p)
  }

  /** Heads, tails and links say nothing that the records do not. */
  lemma IndexDetermined(f: Bytes, g: Bytes, log: seq<Placed>)
    requires forall b :: Shape(f, Chain(log, b), b, Settled) && Shape(g, Chain(log, b), b, Settled)
    ensures SlotsSame(f, g, log)
  {
    hide U32At, LinkOf, Chain;
    forall b: BucketId
      ensures U32At(f, HeadSlot(b)) == U32At(g, HeadSlot(b)) && U32At(f, TailSlot(b)) == U32At(g, TailSlot(b))
    {
      assert Shape(f, Chain(log, b), b, Settled) && Shape(g, Chain(log, b), b, Settled);
    }
    forall p | p in log ensures LinkOf(f, p) == LinkOf(g, p) {
      var b := BucketOf(p.entry);
      ChainMembers(log, b);
      var k :| 0 <= k < |Chain(log, b)| && Chain(log, b)[k] == p;
      assert Shape(f, Chain(log, b), b, Settled) && Shape(g, Chain(log, b), b, Settled);
      assert LinkOf(f, Chain(log, b)[k]) == After(Chain(log, b), k);
    }
  }

  /** The byte at i lies in one of the 512 slots. */
  lemma SlotByte(f: Bytes, g: Bytes, log: seq<Placed>, i: nat)
    requires SlotsSame(f, g, log) && BUCKET_HEAD_OFFSET <= i < HEADER_SIZE <= |f| && HEADER_SIZE <= |g|
    ensures f[i] == g[i]
  {
    hide U32At;
    if i < BUCKET_TAIL_OFFSET {
      var b: BucketId := (i - BUCKET_HEAD_OFFSET) / 4;
      SameInt32(f, g, HeadSlot(b));
    } else {
      var b: BucketId := (i - BUCKET_TAIL_OFFSET) / 4;
      SameInt32(f, g, TailSlot(b));
    }
  }

  lemma RecordSame(f: Bytes, g: Bytes, p: Placed)
    requires RecordAt(f, p.off, p.entry) && RecordAt(g, p.off, p.entry) && LinkOf(f, p) == LinkOf(g, p)
    ensures SameRange(f, g, p.off, p.off + Size(p.entry))
  {
    hide RecordAt, U32At;
    RecordInside(f, p);
    RecordInside(g, p);
    RecordDetermined(f, g, p.off, p.entry);
    SameInt32(f, g, LinkPos(p.off, p.entry));
    Adjoin(f, g, p.off, LinkPos(p.off, p.entry), p.off + Size(p.entry));
  }

  lemma RecordInside(f: Bytes, p: Placed)
    requires RecordAt(f, p.off, p.entry)
    ensures p.off + Size(p.entry) <= |f| && Size(p.entry) >= 45
  {}

  lemma {:induction false} RecordsSame(f: Bytes, g: Bytes, log: seq<Placed>, n: nat)
    requires Contiguous(log) && RecordsOnDisk(f, log) && RecordsOnDisk(g, log) && n <= |log|
    requires forall p :: p in log ==> LinkOf(f, p) == LinkOf(g, p)
    requires HEADER_SIZE <= |f| && HEADER_SIZE <= |g|
    ensures SameRange(f, g, HEADER_SIZE, EndOf(log[..n]))
  {
    hide RecordAt, LinkOf, SameRange;
    if n == 0 {
      NothingDiffers(f, g);
    } else {
      RecordsSame(f, g, log, n - 1);
      var p := log[n - 1];
      RecordSame(f, g, p);
      assert log[..n][n - 1] == p;
      assert n > 1 ==> log[..n - 1][n - 2] == log[n - 2];
      assert EndOf(log[..n - 1]) == p.off;
      Adjoin(f, g, HEADER_SIZE, p.off, p.off + Size(p.entry));
    }
  }

  lemma NothingDiffers(f: Bytes, g: Bytes)
    requires HEADER_SIZE <= |f| && HEADER_SIZE <= |g|
    ensures SameRange(f, g, HEADER_SIZE, HEADER_SIZE)
  {}

  /** Two complete snapshots with the same records in the same order, and the same bytes before the 512 slots, are the
      same file. */
  lemma SameRecordsSameFile(f: Bytes, g: Bytes, log: seq<Placed>, kind: Kind)
    requires Snapshot(f, log, kind) && Snapshot(g, log, kind) && SameRange(f, g, 0, BUCKET_HEAD_OFFSET)
    ensures f == g
  {
    hide Shape, RecordsOnDisk, U32At, LinkOf, SlotsSame;
    Extent(log);
    IndexDetermined(f, g, log);
    assert log[..|log|] == log;
    LinksSame(f, g, log);
    RecordsSame(f, g, log, |log|);
    forall i | 0 <= i < |f| ensures f[i] == g[i] {
      if BUCKET_HEAD_OFFSET <= i < HEADER_SIZE {
        SlotByte(f, g, log, i);
      }
    }
  }

  lemma LinksSame(f: Bytes, g: Bytes, log: seq<Placed>)
    requires SlotsSame(f, g, log)
    ensures forall p :: p in log ==> LinkOf(f, p) == LinkOf(g, p)
  {}

  // ------------------------------------------------------------------ comparing what writers leave behind

  /** Two files, each written by any number of processes that have all closed it, can be compared: db_diff prints
      exactly the changes from the records of the one to those of the other. */
  method CompareClosed(s: System, t: System) returns (ret: int, out: seq<Line>, ghost before: seq<Placed>, ghost after: seq<Placed>)
    requires Reachable(s) && s.file != [] && forall w :: 0 <= w < |s.writers| ==> s.writers[w].pc.Closed?
    requires Reachable(t) && t.file != [] && forall w :: 0 <= w < |t.writers| ==> t.writers[w].pc.Closed?
    requires s.kind == t.kind
    ensures Snapshot(s.file, before, s.kind) && Snapshot(t.file, after, s.kind)
    ensures ret == 0 && out == Lines(Changes(before, after))
  {
    hide Reachable, Snapshot, Changes, Lines;
    before := ClosedMeansComplete(s);
    after := ClosedMeansComplete(t);
    ret, out := DbDiff(s.file, t.file, s.kind, before, after);
  }
}
