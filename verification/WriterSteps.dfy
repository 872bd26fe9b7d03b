/** Every step of every process keeps the invariant. */
module WriterSteps {
  import opened Memory
  import opened Format
  import opened Records
  import opened Index
  import opened Writers
  import opened WriterInvariant

  // ------------------------------------------------------------------ steps that change no byte

  /** A step that only reads: the locks and counts of the other processes do not matter to it. */
  lemma QuietStep(s: System, log: seq<Placed>, w: nat, wr: Writer)
    requires Inv(s, log) && s.file != [] && w < |s.writers|
    requires WriterOk(s.file, log, s.kind, wr) && LockFree(s, w, Held(wr.pc))
    requires Weigh(wr) == Weigh(s.writers[w]) && !wr.pc.CloseSeal? && !s.writers[w].pc.CloseSeal?
    requires forall b :: Holds(s.writers[w], b) && !Holds(wr, b) ==> Shape(s.file, Chain(log, b), b, Settled)
    ensures Inv(System(s.file, s.kind, s.writers[w := wr]), log)
  {
    hide Contents, WriterOk, Shape, Held, U32At, LinkOf, StateOf;
    var ws := s.writers[w := wr];
    TotalUpdate(s.writers, w, wr);
    SealingKept(s.writers, w, wr);
    UnheldAfter(s.writers, w, wr);
    Reassemble(s, log, w, s.file, log, wr);
  }

  lemma SealingKept(ws: seq<Writer>, w: nat, wr: Writer)
    requires w < |ws| && !wr.pc.CloseSeal? && !ws[w].pc.CloseSeal?
    ensures Sealing(ws[w := wr]) <==> Sealing(ws)
  {
    var us := ws[w := wr];
    if Sealing(ws) {
      var v :| 0 <= v < |ws| && ws[v].pc.CloseSeal?;
      assert us[v].pc.CloseSeal?;
    }
  }

  /** A bucket free after the step was free before it, or it is the one just released. */
  lemma UnheldAfter(ws: seq<Writer>, w: nat, wr: Writer)
    requires w < |ws|
    ensures forall b: BucketId :: Unheld(ws[w := wr], b) ==> (Unheld(ws, b) || Holds(ws[w], b)) && !Holds(wr, b)
  {
    var us := ws[w := wr];
    forall b: BucketId | Unheld(us, b) ensures (Unheld(ws, b) || Holds(ws[w], b)) && !Holds(wr, b) {
      assert !Holds(us[w], b);
      forall v | 0 <= v < |ws| && v != w ensures !Holds(ws[v], b) {
        assert us[v] == ws[v];
      }
    }
  }

  // ------------------------------------------------------------------ writes to the index of the locked bucket

  /** Two processes inside append hold different buckets. */
  lemma OtherBucket(ws: seq<Writer>, v: nat, w: nat)
    requires Exclusive(ws) && v < |ws| && w < |ws| && v != w && ws[v].pc.InBucket() && ws[w].pc.InBucket()
    ensures BucketOf(ws[v].pc.e) != BucketOf(ws[w].pc.e)
  {}

  lemma IndexStep(s: System, log: seq<Placed>, w: nat, g: Bytes, wr: Writer)
    requires Inv(s, log) && s.file != [] && w < |s.writers|
    requires s.writers[w].pc.InBucket() && wr.pc.InBucket() && wr.pc.e == s.writers[w].pc.e
    requires Weigh(wr) == Weigh(s.writers[w])
    requires Advanced(s.file, g, log, BucketOf(wr.pc.e), PhaseOf(wr.pc)) && WriterOk(g, log, s.kind, wr)
    ensures Inv(System(g, s.kind, s.writers[w := wr]), log)
  {
    hide WriterOk, Shape, U32At, LinkOf, Chain, Tiled, WellFormed, Weigh, Total;
    var b := BucketOf(wr.pc.e);
    TotalUpdate(s.writers, w, wr);
    SealingKept(s.writers, w, wr);
    UnheldAfter(s.writers, w, wr);
    FixedFieldsKept(s.file, g);
    forall v | 0 <= v < |s.writers| && v != w ensures Unaffected(s.file, g, log, log, s.writers[v]) {
      if s.writers[v].pc.InBucket() {
        OtherBucket(s.writers, v, w);
      }
    }
    forall c: BucketId | Unheld(s.writers[w := wr], c) ensures Shape(g, Chain(log, c), c, Settled) {
      assert c != b;
      ShapeFrame(s.file, g, c, Chain(log, c), Settled);
    }
    Extent2(g, log);
    Reassemble(s, log, w, g, log, wr);
  }

  lemma Extent2(g: Bytes, log: seq<Placed>)
    requires Tiled(g, log)
    ensures g != [] && HEADER_SIZE <= |g|
  {
    Extent(log);
  }

  /** Files that agree up to the head slots agree on every fixed field. */
  lemma FixedFieldsKept(f: Bytes, g: Bytes)
    requires SameRange(f, g, 0, BUCKET_OFFSET)
    ensures ActiveWriters(f) == ActiveWriters(g) && RecordCount(f) == RecordCount(g) && StateOf(f) == StateOf(g)
    ensures Pread(f, MAGIC_OFFSET, 4) == Pread(g, MAGIC_OFFSET, 4)
  {
    PreadSame(f, g, MAGIC_OFFSET, 4);
    PreadSame(f, g, STATE_OFFSET, 1);
    PreadSame(f, g, ACTIVE_WRITERS_OFFSET, 4);
    PreadSame(f, g, RECORD_COUNT_OFFSET, 4);
  }

  // ------------------------------------------------------------------ the duplicate scan

  /** A process inside append, with the invariant's facts about it spelled out. */
  lemma InsideAppend(s: System, log: seq<Placed>, w: nat)
    requires Inv(s, log) && w < |s.writers| && s.writers[w].pc.InBucket()
    ensures s.file != [] && Tiled(s.file, log) && AllOfKind(log, s.kind)
    ensures BucketWork(s.file, log, s.kind, s.writers[w]) && LockFree(s, w, Held(s.writers[w].pc))
  {
    hide Shape, Tiled, LocalsOk;
  }

  lemma ReadHeadOk(s: System, log: seq<Placed>, w: nat, a: Action)
    requires Inv(s, log) && Enabled(s, w, a) && s.writers[w].pc.ReadHead?
    ensures Inv(Apply(s, w, a), log)
  {
    hide Inv, Tiled, Linked, TailIs, U32At, LockFree;
    InsideAppend(s, log, w);
    var e, wr := s.writers[w].pc.e, WriterAfter(s.file, s.writers[w], a);
    var chain := Chain(log, BucketOf(e));
    if chain != [] {
      ChainIsBounded(s.file, log, BucketOf(e));
      assert ScanAt(chain, e, chain[0].off - HEADER_SIZE, 0);
    }
    QuietStep(s, log, w, wr);
  }

  lemma ChainIsBounded(f: Bytes, log: seq<Placed>, b: BucketId)
    requires Tiled(f, log)
    ensures forall k :: 0 <= k < |Chain(log, b)| ==> HEADER_SIZE <= Chain(log, b)[k].off < EMPTY_BUCKET
  {
    ChainOffsets(log, b);
  }

  /** The comparator is exact at every record of the chain; it never reports an error. */
  lemma CompareInChain(f: Bytes, log: seq<Placed>, kind: Kind, e: Entry, k: nat)
    requires Tiled(f, log) && AllOfKind(log, kind) && KindOf(e) == kind && k < |Chain(log, BucketOf(e))|
    ensures var p := Chain(log, BucketOf(e))[k];
            HEADER_SIZE <= p.off && CompareEntries(f, e, p.off - HEADER_SIZE) == if KeyOf(e) == KeyOf(p.entry) then 0 else 1
  {
    hide RecordAt, CompareEntries;
    var p := Chain(log, BucketOf(e))[k];
    ChainMembers(log, BucketOf(e));
    var i :| 0 <= i < |log| && log[i] == p;
    Bounds(log, i);
    CompareEntriesIsKeyEquality(f, p.off, e, p.entry);
  }

  lemma CompareOk(s: System, log: seq<Placed>, w: nat, a: Action)
    requires Inv(s, log) && Enabled(s, w, a) && s.writers[w].pc.Compare?
    ensures Inv(Apply(s, w, a), log)
  {
    hide Inv, Tiled, Shape, LockFree, CompareEntries, WellFormed;
    InsideAppend(s, log, w);
    var e, off := s.writers[w].pc.e, s.writers[w].pc.off;
    var wr := WriterAfter(s.file, s.writers[w], a);
    var chain := Chain(log, BucketOf(e));
    var k: nat :| ScanAt(chain, e, off, k);
    CompareInChain(s.file, log, s.kind, e, k);
    if wr.pc.Follow? {
      assert ScanPast(chain, e, off, k);
    }
    QuietStep(s, log, w, wr);
  }

  lemma FollowOk(s: System, log: seq<Placed>, w: nat, a: Action)
    requires Inv(s, log) && Enabled(s, w, a) && s.writers[w].pc.Follow?
    ensures Inv(Apply(s, w, a), log)
  {
    hide Inv, Tiled, Shape, LockFree, NextEntry, WellFormed;
    InsideAppend(s, log, w);
    var e, off := s.writers[w].pc.e, s.writers[w].pc.off;
    var wr := WriterAfter(s.file, s.writers[w], a);
    var chain := Chain(log, BucketOf(e));
    var k: nat :| ScanPast(chain, e, off, k);
    NextInChain(s.file, log, BucketOf(e), k);
    if k + 1 < |chain| {
      assert ScanAt(chain, e, chain[k + 1].off - HEADER_SIZE, k + 1);
    }
    QuietStep(s, log, w, wr);
  }

  // ------------------------------------------------------------------ write_to_db

  /** A key absent from its own bucket is absent from the whole file. */
  lemma NewKeyIsNew(log: seq<Placed>, e: Entry)
    requires NotAmong(Chain(log, BucketOf(e)), |Chain(log, BucketOf(e))|, e)
    ensures forall i :: 0 <= i < |log| ==> KeyOf(log[i].entry) != KeyOf(e)
  {
    var chain := Chain(log, BucketOf(e));
    ChainMembers(log, BucketOf(e));
    forall i | 0 <= i < |log| ensures KeyOf(log[i].entry) != KeyOf(e) {
      if BucketOf(log[i].entry) == BucketOf(e) {
        assert log[i] in chain;
      } else if KeyOf(log[i].entry) == KeyOf(e) {
        EqualKeysShareABucket(log[i].entry, e);
      }
    }
  }

  lemma AppendContents(f: Bytes, log: seq<Placed>, kind: Kind, e: Entry)
    requires Contents(f, log, kind) && WellFormed(e) && KindOf(e) == kind && |f| + Size(e) < EMPTY_BUCKET
    requires NotAmong(Chain(log, BucketOf(e)), |Chain(log, BucketOf(e))|, e)
    ensures Contents(f + Serialise(e), log + [PlaceNext(log, e)], kind)
  {
    hide Tiled, Serialise, WellFormed, Chain;
    AppendStep(f, log, e);
    NewKeyIsNew(log, e);
    PreadSame(f, f + Serialise(e), MAGIC_OFFSET, 4);
  }

  lemma WriteOk(s: System, log: seq<Placed>, w: nat, a: Action)
    requires Inv(s, log) && Enabled(s, w, a) && s.writers[w].pc.Write?
    ensures Inv(Apply(s, w, a), log + [PlaceNext(log, s.writers[w].pc.e)])
  {
    hide Tiled, Shape, LockFree, WellFormed, Serialise, Chain, SameIndex, Total, U32At, StateOf;
    InsideAppend(s, log, w);
    var e, f := s.writers[w].pc.e, s.file;
    var p, g := PlaceNext(log, e), f + Serialise(e);
    var wr := WriterAfter(f, s.writers[w], a);
    assert wr.pc == GetHead(e, |f|);
    AppendStep(f, log, e);
    AppendContents(f, log, s.kind, e);
    FixedFieldsKept(f, g);
    TotalUpdate(s.writers, w, wr);
    SealingKept(s.writers, w, wr);
    UnheldAfter(s.writers, w, wr);
    forall v | 0 <= v < |s.writers| && v != w ensures Unaffected(f, g, log, log + [p], s.writers[v]) {
      if s.writers[v].pc.InBucket() {
        OtherBucket(s.writers, v, w);
      }
    }
    forall c: BucketId | Unheld(s.writers[w := wr], c) ensures Shape(g, Chain(log + [p], c), c, Settled) {
      assert !Holds(wr, c) && Unheld(s.writers, c);
      assert Chain(log + [p], c) == Chain(log, c);
      ShapeFrame(f, g, c, Chain(log, c), Settled);
    }
    EndIsSize(f, log);
    Reassemble(s, log, w, g, log + [p], wr);
  }

  lemma EndIsSize(f: Bytes, log: seq<Placed>)
    requires Tiled(f, log)
    ensures EndOf(log) == |f|
  {}

  lemma GetHeadOk(s: System, log: seq<Placed>, w: nat, a: Action)
    requires Inv(s, log) && Enabled(s, w, a) && s.writers[w].pc.GetHead?
    ensures Inv(Apply(s, w, a), log)
  {
    hide Inv, Tiled, HeadIs, TailIs, Linked, LockFree, WellFormed, Chain, U32At, LinkOf;
    InsideAppend(s, log, w);
    var e, wr := s.writers[w].pc.e, WriterAfter(s.file, s.writers[w], a);
    if wr.pc.GetTail? {
      HeadStands(s.file, log, BucketOf(e));
    }
    QuietStep(s, log, w, wr);
  }

  lemma SetHeadOk(s: System, log: seq<Placed>, w: nat, a: Action)
    requires Inv(s, log) && Enabled(s, w, a) && s.writers[w].pc.SetHead?
    ensures Inv(Apply(s, w, a), log)
  {
    hide Inv, Tiled, Shape, LockFree, WellFormed, Chain, U32At, LinkOf, SameIndex, Pwrite;
    InsideAppend(s, log, w);
    var e, pos, wr := s.writers[w].pc.e, s.writers[w].pc.pos, WriterAfter(s.file, s.writers[w], a);
    HeadStep(s.file, log, BucketOf(e));
    ChainIsBounded(s.file, log, BucketOf(e));
    IndexStep(s, log, w, SetWord(s.file, HeadSlot(BucketOf(e)), pos), wr);
  }

  lemma GetTailOk(s: System, log: seq<Placed>, w: nat, a: Action)
    requires Inv(s, log) && Enabled(s, w, a) && s.writers[w].pc.GetTail?
    ensures Inv(Apply(s, w, a), log)
  {
    hide Inv, Tiled, Shape, LockFree, WellFormed, Chain, U32At, LinkOf;
    InsideAppend(s, log, w);
    QuietStep(s, log, w, WriterAfter(s.file, s.writers[w], a));
  }

  lemma SetTailOk(s: System, log: seq<Placed>, w: nat, a: Action)
    requires Inv(s, log) && Enabled(s, w, a) && s.writers[w].pc.SetTail?
    ensures Inv(Apply(s, w, a), log)
  {
    hide Inv, Tiled, Shape, LockFree, WellFormed, Chain, U32At, LinkOf, SameIndex, Pwrite;
    InsideAppend(s, log, w);
    var e, pos, wr := s.writers[w].pc.e, s.writers[w].pc.pos, WriterAfter(s.file, s.writers[w], a);
    TailStep(s.file, log, BucketOf(e), pos);
    ChainIsBounded(s.file, log, BucketOf(e));
    IndexStep(s, log, w, SetWord(s.file, TailSlot(BucketOf(e)), pos), wr);
  }

  lemma GetSizeOk(s: System, log: seq<Placed>, w: nat, a: Action)
    requires Inv(s, log) && Enabled(s, w, a) && s.writers[w].pc.GetSize?
    ensures Inv(Apply(s, w, a), log)
  {
    hide Inv, Tiled, Shape, LockFree, WellFormed, Chain, U32At, LinkOf, Pread, Size;
    InsideAppend(s, log, w);
    var e, tail, wr := s.writers[w].pc.e, s.writers[w].pc.tail, WriterAfter(s.file, s.writers[w], a);
    var chain := Chain(log, BucketOf(e));
    SizeInChain(s.file, log, BucketOf(e), |chain| - 2);
    QuietStep(s, log, w, wr);
  }

  /** Reading the first four bytes of any record of a chain gives its size, and its link lies inside the file. */
  lemma SizeInChain(f: Bytes, log: seq<Placed>, b: BucketId, k: nat)
    requires Tiled(f, log) && k < |Chain(log, b)|
    ensures var p := Chain(log, b)[k];
            && Int32At(f, p.off, Size(p.entry)) && Size(p.entry) >= 4 && p.off + Size(p.entry) < U32
  {
    hide RecordAt, Int32At;
    var p := Chain(log, b)[k];
    ChainMembers(log, b);
    assert p in log;
    SizeOnDisk(f, p.off, p.entry);
  }

  lemma SetLinkOk(s: System, log: seq<Placed>, w: nat, a: Action)
    requires Inv(s, log) && Enabled(s, w, a) && s.writers[w].pc.SetLink?
    ensures Inv(Apply(s, w, a), log)
  {
    hide Inv, Tiled, Shape, LockFree, WellFormed, Chain, U32At, LinkOf, SameIndex, Pwrite;
    InsideAppend(s, log, w);
    var e, pos, at, wr := s.writers[w].pc.e, s.writers[w].pc.pos, s.writers[w].pc.at, WriterAfter(s.file, s.writers[w], a);
    LinkStep(s.file, log, BucketOf(e));
    ChainIsBounded(s.file, log, BucketOf(e));
    IndexStep(s, log, w, SetWord(s.file, at, pos), wr);
  }

  lemma UnlockOk(s: System, log: seq<Placed>, w: nat, a: Action)
    requires Inv(s, log) && Enabled(s, w, a) && s.writers[w].pc.Unlock?
    ensures Inv(Apply(s, w, a), log)
  {
    hide Inv, Tiled, Shape, LockFree, WellFormed, Chain, Sum;
    InsideAppend(s, log, w);
    SumOfBump(s.writers[w].frames, if s.writers[w].pc.duplicate then 0 else 1);
    ReleasedLock(s, w);
    QuietStep(s, log, w, WriterAfter(s.file, s.writers[w], a));
  }

  lemma ReleasedLock(s: System, w: nat)
    ensures LockFree(s, w, NoLock)
  {}

  // ------------------------------------------------------------------ writes to the fixed header fields

  /** Overwriting a fixed field after the magic leaves the records and the whole index alone. */
  lemma FieldWriteFrame(f: Bytes, log: seq<Placed>, kind: Kind, x: nat, data: Bytes)
    requires Contents(f, log, kind) && 4 <= x && x + |data| <= BUCKET_OFFSET
    ensures var g := Pwrite(f, x, data);
            && Contents(g, log, kind) && g != []
            && forall b :: SameIndex(f, g, b, Chain(log, b))
  {
    hide RecordAt, Pwrite, LinkOf, U32At;
    var g := Pwrite(f, x, data);
    Extent(log);
    HeaderWriteFrame(f, log, x, data);
    PwriteElsewhere(f, x, data);
    PreadSame(f, g, MAGIC_OFFSET, 4);
    forall b: BucketId ensures SameIndex(f, g, b, Chain(log, b)) {
      PreadSlots(f, g, x + |data|, b);
      LinksFrame(f, g, log, b);
    }
  }

  lemma PreadSlots(f: Bytes, g: Bytes, lo: nat, b: BucketId)
    requires SameRange(f, g, lo, HEADER_SIZE) && lo <= BUCKET_OFFSET
    ensures U32At(f, HeadSlot(b)) == U32At(g, HeadSlot(b)) && U32At(f, TailSlot(b)) == U32At(g, TailSlot(b))
  {
    PreadSame(f, g, HeadSlot(b), 4);
    PreadSame(f, g, TailSlot(b), 4);
  }

  /** Nobody else is about to act on a value of the field this process has locked. */
  ghost predicate OthersUnaware(f: Bytes, g: Bytes, ws: seq<Writer>, w: nat) {
    forall v :: 0 <= v < |ws| && v != w ==>
      && (ws[v].pc.CountWrite? ==> RecordCount(f) == RecordCount(g))
      && (ws[v].pc.OpenBump? || ws[v].pc.CloseWrite? ==> ActiveWriters(f) == ActiveWriters(g) && StateOf(f) == StateOf(g))
  }

  lemma FieldStep(s: System, log: seq<Placed>, w: nat, x: nat, data: Bytes, wr: Writer)
    requires Inv(s, log) && s.file != [] && w < |s.writers| && 4 <= x && x + |data| <= BUCKET_OFFSET
    requires !s.writers[w].pc.InBucket() && !wr.pc.InBucket() && LockFree(s, w, Held(wr.pc))
    requires var g, ws := Pwrite(s.file, x, data), s.writers[w := wr];
             WriterOk(g, log, s.kind, wr) && OthersUnaware(s.file, g, s.writers, w) && LifeOk(g, ws) && CountOk(g, log, ws)
    ensures Inv(System(Pwrite(s.file, x, data), s.kind, s.writers[w := wr]), log)
  {
    hide WriterOk, Contents, Shape, LifeOk, CountOk, Pwrite, SameIndex, Chain, RecordCount, ActiveWriters, StateOf, LockFree, Held;
    var g := Pwrite(s.file, x, data);
    FieldWriteFrame(s.file, log, s.kind, x, data);
    UnheldAfter(s.writers, w, wr);
    forall c: BucketId | Unheld(s.writers[w := wr], c) ensures Shape(g, Chain(log, c), c, Settled) {
      assert Unheld(s.writers, c);
      ShapeFrame(s.file, g, c, Chain(log, c), Settled);
    }
    Reassemble(s, log, w, g, log, wr);
  }

  /** Which fixed fields survive a write to one of them. */
  lemma FieldReads(f: Bytes, x: nat, data: Bytes)
    requires HEADER_SIZE <= |f| && 4 <= x && x + |data| <= BUCKET_OFFSET
    ensures var g := Pwrite(f, x, data);
            && (x + |data| <= RECORD_COUNT_OFFSET ==> RecordCount(g) == RecordCount(f))
            && (RECORD_COUNT_OFFSET <= x || x + |data| <= ACTIVE_WRITERS_OFFSET ==> ActiveWriters(g) == ActiveWriters(f))
            && (STATE_OFFSET < x ==> StateOf(g) == StateOf(f))
            && (x == STATE_OFFSET && |data| == 1 ==> StateOf(g) == data[0])
  {
    hide Pwrite;
    var g := Pwrite(f, x, data);
    PwriteElsewhere(f, x, data);
    if x + |data| <= RECORD_COUNT_OFFSET {
      PreadSame(f, g, RECORD_COUNT_OFFSET, 4);
    }
    if RECORD_COUNT_OFFSET <= x || x + |data| <= ACTIVE_WRITERS_OFFSET {
      PreadSame(f, g, ACTIVE_WRITERS_OFFSET, 4);
    }
    if STATE_OFFSET < x {
      PreadSame(f, g, STATE_OFFSET, 1);
    }
  }

  lemma FileIsThere(s: System, log: seq<Placed>, w: nat)
    requires Inv(s, log) && w < |s.writers| && !s.writers[w].pc.Closed?
    ensures s.file != [] && HEADER_SIZE <= |s.file| && |log| < U32 && |s.writers| < 0x8000_0000
    ensures Contents(s.file, log, s.kind) && WriterOk(s.file, log, s.kind, s.writers[w])
    ensures LifeOk(s.file, s.writers) && CountOk(s.file, log, s.writers)
    ensures LockFree(s, w, Held(s.writers[w].pc)) && Exclusive(s.writers)
  {
    hide Contents, WriterOk, LifeOk, CountOk;
    ContentsBounds(s.file, log, s.kind);
  }

  lemma ContentsBounds(f: Bytes, log: seq<Placed>, kind: Kind)
    requires Contents(f, log, kind)
    ensures HEADER_SIZE <= |f| < U32 && |log| < U32
  {
    hide RecordsOnDisk;
    Extent(log);
    FewRecords(log);
  }

  lemma {:induction false} FewRecords(log: seq<Placed>)
    requires Contiguous(log)
    ensures HEADER_SIZE + |log| <= EndOf(log)
  {
    if |log| > 1 {
      FewRecords(log[..|log| - 1]);
    }
  }

  // ------------------------------------------------------------------ RECORD_COUNT

  lemma CountReadOk(s: System, log: seq<Placed>, w: nat, a: Action)
    requires Inv(s, log) && Enabled(s, w, a) && s.writers[w].pc.CountRead?
    ensures Inv(Apply(s, w, a), log)
  {
    hide Inv, Contents, LifeOk, CountOk, LockFree, RecordCount;
    FileIsThere(s, log, w);
    QuietStep(s, log, w, WriterAfter(s.file, s.writers[w], a));
  }

  lemma CountWriteOk(s: System, log: seq<Placed>, w: nat, a: Action)
    requires Inv(s, log) && Enabled(s, w, a) && s.writers[w].pc.CountWrite?
    ensures Inv(Apply(s, w, a), log)
  {
    hide Inv, Contents, LockFree, Pwrite, U32At, StateOf, Total, SetWord;
    var n, frames, wr := s.writers[w].pc.n, s.writers[w].frames, WriterAfter(s.file, s.writers[w], a);
    FileIsThere(s, log, w);
    TotalUpdate(s.writers, w, wr);
    TotalCovers(s.writers, w);
    SealingKept(s.writers, w, wr);
    var sum := n + frames[|frames| - 1];
    assert SetWord(s.file, RECORD_COUNT_OFFSET, sum) == Pwrite(s.file, RECORD_COUNT_OFFSET, Encode(sum, 4)) by {
      SetWordIs(s.file, RECORD_COUNT_OFFSET, sum);
    }
    FieldReads(s.file, RECORD_COUNT_OFFSET, Encode(sum, 4));
    WriteRead32(s.file, RECORD_COUNT_OFFSET, sum);
    FieldStep(s, log, w, RECORD_COUNT_OFFSET, Encode(sum, 4), wr);
  }

  lemma SetWordIs(f: Bytes, at: nat, v: nat)
    requires v < U32
    ensures SetWord(f, at, v) == Pwrite(f, at, Encode(v, 4))
  {}

  lemma CountUnlockOk(s: System, log: seq<Placed>, w: nat, a: Action)
    requires Inv(s, log) && Enabled(s, w, a) && s.writers[w].pc.CountUnlock?
    ensures Inv(Apply(s, w, a), log)
  {
    hide Inv, Contents, LifeOk, CountOk, LockFree;
    FileIsThere(s, log, w);
    ReleasedLock(s, w);
    QuietStep(s, log, w, WriterAfter(s.file, s.writers[w], a));
  }

  // ------------------------------------------------------------------ opening an existing file

  lemma OpenBumpOk(s: System, log: seq<Placed>, w: nat, a: Action)
    requires Inv(s, log) && Enabled(s, w, a) && s.writers[w].pc.OpenBump?
    ensures Inv(Apply(s, w, a), log)
  {
    hide Inv, Contents, LockFree, Pwrite, U32At, StateOf, Total, SetWord;
    var n, wr := s.writers[w].pc.n, WriterAfter(s.file, s.writers[w], a);
    FileIsThere(s, log, w);
    TotalUpdate(s.writers, w, wr);
    TotalCovers(s.writers, w);
    SealingKept(s.writers, w, wr);
    SetWordIs(s.file, ACTIVE_WRITERS_OFFSET, n + 1);
    FieldReads(s.file, ACTIVE_WRITERS_OFFSET, Encode(n + 1, 4));
    WriteRead32(s.file, ACTIVE_WRITERS_OFFSET, n + 1);
    NobodySeals(s.writers, w);
    FieldStep(s, log, w, ACTIVE_WRITERS_OFFSET, Encode(n + 1, 4), wr);
  }

  /** While a process holds the header lock, or the lock on STATE itself, no other process is sealing. */
  lemma NobodySeals(ws: seq<Writer>, w: nat)
    requires Exclusive(ws) && w < |ws| && Overlap(Held(ws[w].pc), Lock(STATE_OFFSET, STATE_OFFSET + 5))
    ensures forall v :: 0 <= v < |ws| && v != w ==> !ws[v].pc.CloseSeal?
    ensures !ws[w].pc.CloseSeal? ==> !Sealing(ws)
  {}

  lemma OpenUnlockOk(s: System, log: seq<Placed>, w: nat, a: Action)
    requires Inv(s, log) && Enabled(s, w, a) && s.writers[w].pc.OpenUnlock?
    ensures Inv(Apply(s, w, a), log)
  {
    hide Inv, Contents, LifeOk, CountOk, LockFree;
    FileIsThere(s, log, w);
    ReleasedLock(s, w);
    QuietStep(s, log, w, WriterAfter(s.file, s.writers[w], a));
  }

  // ------------------------------------------------------------------ closing

  lemma CloseReadOk(s: System, log: seq<Placed>, w: nat, a: Action)
    requires Inv(s, log) && Enabled(s, w, a) && s.writers[w].pc.CloseRead?
    ensures Inv(Apply(s, w, a), log)
  {
    hide Inv, Contents, LifeOk, CountOk, LockFree, ActiveWriters;
    FileIsThere(s, log, w);
    QuietStep(s, log, w, WriterAfter(s.file, s.writers[w], a));
  }

  lemma CloseWriteOk(s: System, log: seq<Placed>, w: nat, a: Action)
    requires Inv(s, log) && Enabled(s, w, a) && s.writers[w].pc.CloseWrite?
    ensures Inv(Apply(s, w, a), log)
  {
    hide Inv, Contents, LockFree, Pwrite, U32At, StateOf, Total, SetWord;
    var n, wr, ws := s.writers[w].pc.n, WriterAfter(s.file, s.writers[w], a), s.writers;
    FileIsThere(s, log, w);
    TotalUpdate(ws, w, wr);
    TotalCovers(ws, w);
    NobodySeals(ws, w);
    SetWordIs(s.file, ACTIVE_WRITERS_OFFSET, n - 1);
    FieldReads(s.file, ACTIVE_WRITERS_OFFSET, Encode(n - 1, 4));
    WriteRead32(s.file, ACTIVE_WRITERS_OFFSET, n - 1);
    SealingAfter(ws, w, wr);
    FieldStep(s, log, w, ACTIVE_WRITERS_OFFSET, Encode(n - 1, 4), wr);
  }

  lemma SealingAfter(ws: seq<Writer>, w: nat, wr: Writer)
    requires w < |ws| && forall v :: 0 <= v < |ws| && v != w ==> !ws[v].pc.CloseSeal?
    ensures Sealing(ws[w := wr]) <==> wr.pc.CloseSeal?
  {
    assert ws[w := wr][w] == wr;
  }

  lemma CloseSealOk(s: System, log: seq<Placed>, w: nat, a: Action)
    requires Inv(s, log) && Enabled(s, w, a) && s.writers[w].pc.CloseSeal?
    ensures Inv(Apply(s, w, a), log)
  {
    hide Inv, Contents, LockFree, Pwrite, U32At, StateOf, Total;
    var wr, ws := WriterAfter(s.file, s.writers[w], a), s.writers;
    FileIsThere(s, log, w);
    TotalUpdate(ws, w, wr);
    NobodySeals(ws, w);
    FieldReads(s.file, STATE_OFFSET, [STATE_SEALED]);
    SealingAfter(ws, w, wr);
    FieldStep(s, log, w, STATE_OFFSET, [STATE_SEALED], wr);
  }

  lemma CloseUnlockOk(s: System, log: seq<Placed>, w: nat, a: Action)
    requires Inv(s, log) && Enabled(s, w, a) && s.writers[w].pc.CloseUnlock?
    ensures Inv(Apply(s, w, a), log)
  {
    hide Inv, Contents, LifeOk, CountOk, LockFree;
    FileIsThere(s, log, w);
    ReleasedLock(s, w);
    QuietStep(s, log, w, WriterAfter(s.file, s.writers[w], a));
  }

  // ------------------------------------------------------------------ between calls

  lemma IdleOk(s: System, log: seq<Placed>, w: nat, a: Action)
    requires Inv(s, log) && Enabled(s, w, a) && s.writers[w].pc.Idle?
    ensures Inv(Apply(s, w, a), log)
  {
    hide Inv, Contents, LifeOk, CountOk, LockFree, Chain, WellFormed, Shape;
    FileIsThere(s, log, w);
    var wr := WriterAfter(s.file, s.writers[w], a);
    assert Weigh(wr) == Weigh(s.writers[w]) by {
      assert (s.writers[w].frames + [0])[..|s.writers[w].frames|] == s.writers[w].frames;
    }
    if a.Begin? {
      FreshLock(s, log, w, a.entry);
    }
    QuietStep(s, log, w, wr);
  }

  /** A bucket whose lock is free is settled. */
  lemma FreshLock(s: System, log: seq<Placed>, w: nat, e: Entry)
    requires Inv(s, log) && w < |s.writers| && s.writers[w].pc.Idle?
    requires LockFree(s, w, Lock(BUCKET_OFFSET + BucketOf(e), BUCKET_OFFSET + BucketOf(e) + 1))
    ensures Shape(s.file, Chain(log, BucketOf(e)), BucketOf(e), Settled)
  {
    hide Contents, LifeOk, CountOk, Shape, Chain;
    assert Unheld(s.writers, BucketOf(e));
  }
}
