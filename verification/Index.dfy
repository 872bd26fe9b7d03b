/** The bucket-chained hash index inside a snapshot: how records, chain heads, chain tails and links fit together,
    and what each write of write_to_db does to them. */
module Index {
  import opened Memory
  import opened Format
  import opened Records

  /** A record and its place in the file. */
  datatype Placed = Placed(off: nat, entry: Entry)

  function EndOf(log: seq<Placed>): nat {
    if log == [] then HEADER_SIZE else log[|log| - 1].off + Size(log[|log| - 1].entry)
  }

  ghost predicate Contiguous(log: seq<Placed>) {
    && (log != [] ==> log[0].off == HEADER_SIZE)
    && forall i :: 0 <= i < |log| - 1 ==> log[i + 1].off == log[i].off + Size(log[i].entry)
  }

  ghost predicate RecordsOnDisk(file: Bytes, log: seq<Placed>) {
    forall i :: 0 <= i < |log| ==> RecordAt(file, log[i].off, log[i].entry)
  }

  /** From the end of the header to the end of the file there is nothing but the whole records of the log, back to
      back and in order. */
  ghost predicate Tiled(file: Bytes, log: seq<Placed>) {
    |file| == EndOf(log) < EMPTY_BUCKET && Contiguous(log) && RecordsOnDisk(file, log)
  }

  /** The records of bucket b in file order. */
  function Chain(log: seq<Placed>, b: BucketId): seq<Placed> {
    if log == [] then []
    else
      var last := log[|log| - 1];
      Chain(log[..|log| - 1], b) + if BucketOf(last.entry) == b then [last] else []
  }

  lemma ChainOfAppend(log: seq<Placed>, p: Placed, b: BucketId)
    ensures Chain(log + [p], b) == Chain(log, b) + if BucketOf(p.entry) == b then [p] else []
  {
    assert (log + [p])[..|log|] == log;
  }

  lemma {:induction false} ChainMembers(log: seq<Placed>, b: BucketId)
    ensures forall p :: p in Chain(log, b) <==> p in log && BucketOf(p.entry) == b
  {
    if log != [] {
      var front := log[..|log| - 1];
      ChainMembers(front, b);
      assert log == front + [log[|log| - 1]];
    }
  }

  lemma {:induction false} InOrder(log: seq<Placed>, i: nat, j: nat)
    requires Contiguous(log) && i < j < |log|
    ensures log[i].off + Size(log[i].entry) <= log[j].off
    decreases j
  {
    if i < j - 1 {
      InOrder(log, i, j - 1);
    }
  }

  lemma {:induction false} Bounds(log: seq<Placed>, i: nat)
    requires Contiguous(log) && i < |log|
    ensures HEADER_SIZE <= log[i].off && log[i].off + Size(log[i].entry) <= EndOf(log)
  {
    if i > 0 {
      InOrder(log, 0, i);
    }
    if i < |log| - 1 {
      InOrder(log, i, |log| - 1);
    }
  }

  /** Chains keep file order: a later record of the bucket lies wholly after an earlier one. */
  lemma {:induction false} ChainInOrder(log: seq<Placed>, b: BucketId, i: nat, j: nat)
    requires Contiguous(log) && i < j < |Chain(log, b)|
    ensures var c := Chain(log, b); c[i].off + Size(c[i].entry) <= c[j].off
  {
    var n := |log| - 1;
    var front := log[..n];
    if j < |Chain(front, b)| {
      ChainInOrder(front, b, i, j);
    } else {
      ChainMembers(front, b);
      var p := Chain(front, b)[i];
      var k :| 0 <= k < n && front[k] == p;
      InOrder(log, k, n);
    }
  }

  // ------------------------------------------------------------------ the shape of one bucket

  ghost predicate HeadIs(file: Bytes, b: BucketId, chain: seq<Placed>) {
    U32At(file, HeadSlot(b)) == if chain == [] then EMPTY_BUCKET else chain[0].off
  }

  ghost predicate TailIs(file: Bytes, b: BucketId, chain: seq<Placed>) {
    U32At(file, TailSlot(b)) == if chain == [] then EMPTY_BUCKET else chain[|chain| - 1].off
  }

  function LinkOf(file: Bytes, p: Placed): nat {
    U32At(file, LinkPos(p.off, p.entry))
  }

  /** Where the link of the k-th record of a chain should point: at its successor, or nowhere. */
  function After(chain: seq<Placed>, k: nat): nat {
    if k + 1 < |chain| then chain[k + 1].off else 0
  }

  /** Every link names the next record of the chain; the last one is 0. */
  ghost predicate Linked(file: Bytes, chain: seq<Placed>) {
    forall k :: 0 <= k < |chain| ==> LinkOf(file, chain[k]) == After(chain, k)
  }

  /** How far the holder of a bucket's lock has got with the newest record of the bucket. */
  datatype Phase =
    | Settled    // head, tail and links describe every record
    | Appended   // the newest record is in the file but not in the index
    | Headed     // ... and the head counts it
    | Tailed     // ... and so does the tail; only the previous record's link is missing

  ghost predicate Shape(file: Bytes, chain: seq<Placed>, b: BucketId, phase: Phase) {
    match phase
    case Settled => HeadIs(file, b, chain) && TailIs(file, b, chain) && Linked(file, chain)
    case _ =>
      chain != [] &&
      var older, newest := chain[..|chain| - 1], chain[|chain| - 1];
      && HeadIs(file, b, if phase.Appended? then older else chain)
      && TailIs(file, b, if phase.Tailed? then chain else older)
      && Linked(file, older) && LinkOf(file, newest) == 0
  }

  // ------------------------------------------------------------------ what a write leaves alone

  /** The bytes the index of a bucket consists of read the same in both files. */
  ghost predicate SameIndex(f: Bytes, g: Bytes, b: BucketId, chain: seq<Placed>) {
    && U32At(f, HeadSlot(b)) == U32At(g, HeadSlot(b))
    && U32At(f, TailSlot(b)) == U32At(g, TailSlot(b))
    && forall k :: 0 <= k < |chain| ==> LinkOf(f, chain[k]) == LinkOf(g, chain[k])
  }

  lemma ShapeFrame(f: Bytes, g: Bytes, b: BucketId, chain: seq<Placed>, phase: Phase)
    requires SameIndex(f, g, b, chain) && Shape(f, chain, b, phase)
    ensures Shape(g, chain, b, phase)
  {
    hide LinkOf, U32At;
    if !phase.Settled? {
      var older := chain[..|chain| - 1];
      assert Linked(g, older) by {
        forall k | 0 <= k < |older| ensures LinkOf(g, older[k]) == LinkOf(f, older[k]) {
          assert older[k] == chain[k];
        }
      }
    }
  }

  /** Appending a record leaves the earlier records, every link and every slot as they were. */
  lemma AppendFrame(f: Bytes, log: seq<Placed>, data: Bytes)
    requires Tiled(f, log)
    ensures RecordsOnDisk(f + data, log)
    ensures forall b :: SameIndex(f, f + data, b, Chain(log, b))
    ensures SameRange(f, f + data, 0, HEADER_SIZE)
  {
    hide RecordAt, Pread;
    var g := f + data;
    AppendElsewhere(f, data);
    Extent(log);
    forall i | 0 <= i < |log| ensures RecordAt(g, log[i].off, log[i].entry) && LinkOf(f, log[i]) == LinkOf(g, log[i]) {
      var p := log[i];
      Bounds(log, i);
      PreadSame(f, g, LinkPos(p.off, p.entry), 4);
      RecordFrame(f, g, p.off, p.entry);
    }
    forall b: BucketId ensures SameIndex(f, g, b, Chain(log, b)) {
      PreadSame(f, g, HeadSlot(b), 4);
      PreadSame(f, g, TailSlot(b), 4);
      ChainMembers(log, b);
    }
  }

  lemma Extent(log: seq<Placed>)
    requires Contiguous(log)
    ensures HEADER_SIZE <= EndOf(log)
  {
    if log != [] {
      Bounds(log, |log| - 1);
    }
  }

  /** A write inside the header leaves the records and their links as they were. */
  lemma HeaderWriteFrame(f: Bytes, log: seq<Placed>, x: nat, data: Bytes)
    requires Tiled(f, log) && x + |data| <= HEADER_SIZE
    ensures Tiled(Pwrite(f, x, data), log)
    ensures forall p :: p in log ==> LinkOf(f, p) == LinkOf(Pwrite(f, x, data), p)
  {
    hide RecordAt, Pread, Pwrite;
    var g := Pwrite(f, x, data);
    Extent(log);
    PwriteElsewhere(f, x, data);
    forall i | 0 <= i < |log| ensures RecordAt(g, log[i].off, log[i].entry) && LinkOf(f, log[i]) == LinkOf(g, log[i]) {
      var p := log[i];
      Bounds(log, i);
      PreadSame(f, g, LinkPos(p.off, p.entry), 4);
      RecordFrame(f, g, p.off, p.entry);
    }
  }

  /** A 4-byte write over one record's link leaves every record body and every other link as they were. */
  lemma LinkWriteFrame(f: Bytes, log: seq<Placed>, q: Placed, data: Bytes)
    requires Tiled(f, log) && q in log && |data| == 4
    ensures var g := Pwrite(f, LinkPos(q.off, q.entry), data);
            && Tiled(g, log) && SameRange(f, g, 0, HEADER_SIZE)
            && forall p :: p in log && p != q ==> LinkOf(f, p) == LinkOf(g, p)
  {
    var x := LinkPos(q.off, q.entry);
    var g := Pwrite(f, x, data);
    var k :| 0 <= k < |log| && log[k] == q;
    Bounds(log, k);
    PwriteElsewhere(f, x, data);
    forall i | 0 <= i < |log|
      ensures RecordAt(g, log[i].off, log[i].entry) && (log[i] != q ==> LinkOf(f, log[i]) == LinkOf(g, log[i]))
    {
      LinkWriteFrameAt(f, g, log, k, i);
    }
  }

  lemma LinkWriteFrameAt(f: Bytes, g: Bytes, log: seq<Placed>, k: nat, i: nat)
    requires Tiled(f, log) && k < |log| && i < |log| && |g| == |f|
    requires SameRange(f, g, 0, LinkPos(log[k].off, log[k].entry))
    requires LinkPos(log[k].off, log[k].entry) + 4 <= |f|
    requires SameRange(f, g, LinkPos(log[k].off, log[k].entry) + 4, |f|)
    ensures RecordAt(g, log[i].off, log[i].entry)
    ensures log[i] != log[k] ==> LinkOf(f, log[i]) == LinkOf(g, log[i])
  {
    hide RecordAt, Pread;
    var x, p := LinkPos(log[k].off, log[k].entry), log[i];
    var link := LinkPos(p.off, p.entry);
    Bounds(log, i);
    if i <= k {
      if i < k {
        InOrder(log, i, k);
        PreadSame(f, g, link, 4);
      }
    } else {
      InOrder(log, k, i);
      PreadSame(f, g, link, 4);
    }
    RecordFrame(f, g, p.off, p.entry);
  }

  // ------------------------------------------------------------------ the steps of write_to_db

  /** The newest record of the entry's bucket, were it appended now. */
  function PlaceNext(log: seq<Placed>, e: Entry): Placed {
    Placed(EndOf(log), e)
  }

  /** Step 1, the atomic append: the file still tiles, every other bucket is untouched, and the record's own bucket
      goes from settled to appended. */
  lemma AppendStep(f: Bytes, log: seq<Placed>, e: Entry)
    requires Tiled(f, log) && WellFormed(e) && |f| + Size(e) < EMPTY_BUCKET
    ensures var g, p := f + Serialise(e), PlaceNext(log, e);
            && Tiled(g, log + [p]) && SameRange(f, g, 0, HEADER_SIZE)
            && (forall b :: SameIndex(f, g, b, Chain(log, b)))
            && forall b :: Chain(log + [p], b) == Chain(log, b) + if b == BucketOf(e) then [p] else []
    ensures Shape(f, Chain(log, BucketOf(e)), BucketOf(e), Settled) ==>
              Shape(f + Serialise(e), Chain(log + [PlaceNext(log, e)], BucketOf(e)), BucketOf(e), Appended)
  {
    var g, p, b0 := f + Serialise(e), PlaceNext(log, e), BucketOf(e);
    AppendFrame(f, log, Serialise(e));
    AppendedRecord(f, e);
    assert Tiled(g, log + [p]) by { AppendTiles(f, log, e); }
    forall b ensures Chain(log + [p], b) == Chain(log, b) + if b == BucketOf(e) then [p] else [] {
      ChainOfAppend(log, p, b);
    }
    var older, chain := Chain(log, b0), Chain(log + [p], b0);
    if Shape(f, older, b0, Settled) {
      assert chain[..|chain| - 1] == older && chain[|chain| - 1] == p;
      ShapeFrame(f, g, b0, older, Settled);
    }
  }

  lemma AppendTiles(f: Bytes, log: seq<Placed>, e: Entry)
    requires Tiled(f, log) && |f| + Size(e) < EMPTY_BUCKET
    requires RecordsOnDisk(f + Serialise(e), log) && RecordAt(f + Serialise(e), |f|, e) && |Serialise(e)| == Size(e)
    ensures Tiled(f + Serialise(e), log + [PlaceNext(log, e)])
  {
    hide RecordAt, Serialise;
  }

  /** A write to a head or tail slot of bucket b leaves every other slot, every record and every link alone. */
  lemma SlotWriteFrame(f: Bytes, log: seq<Placed>, x: nat, v: nat)
    requires Tiled(f, log) && v < U32 && x % 4 == 1 && BUCKET_HEAD_OFFSET <= x && x + 4 <= HEADER_SIZE
    ensures var g := Pwrite(f, x, Encode(v, 4));
            && Tiled(g, log) && SameRange(f, g, 0, BUCKET_HEAD_OFFSET) && U32At(g, x) == v
            && (forall p :: p in log ==> LinkOf(f, p) == LinkOf(g, p))
            && (forall b: BucketId :: HeadSlot(b) != x ==> U32At(f, HeadSlot(b)) == U32At(g, HeadSlot(b)))
            && (forall b: BucketId :: TailSlot(b) != x ==> U32At(f, TailSlot(b)) == U32At(g, TailSlot(b)))
  {
    hide Pwrite, Pread, RecordAt, LinkOf, U32At;
    var g := Pwrite(f, x, Encode(v, 4));
    Extent(log);
    HeaderWriteFrame(f, log, x, Encode(v, 4));
    PwriteElsewhere(f, x, Encode(v, 4));
    WriteRead32(f, x, v);
    forall b: BucketId | HeadSlot(b) != x ensures U32At(f, HeadSlot(b)) == U32At(g, HeadSlot(b)) {
      OtherSlot(f, g, x, HeadSlot(b));
    }
    forall b: BucketId | TailSlot(b) != x ensures U32At(f, TailSlot(b)) == U32At(g, TailSlot(b)) {
      OtherSlot(f, g, x, TailSlot(b));
    }
  }

  lemma OtherSlot(f: Bytes, g: Bytes, x: nat, y: nat)
    requires x % 4 == 1 && y % 4 == 1 && y != x && y + 4 <= |f| && |f| == |g|
    requires SameRange(f, g, 0, x) && SameRange(f, g, x + 4, |f|)
    ensures U32At(f, y) == U32At(g, y)
  {
    PreadSame(f, g, y, 4);
  }

  ghost predicate OthersSame(f: Bytes, g: Bytes, log: seq<Placed>, b: BucketId) {
    forall c: BucketId :: c != b ==> SameIndex(f, g, c, Chain(log, c))
  }

  lemma OtherBucketsAfterSlotWrite(f: Bytes, g: Bytes, log: seq<Placed>, b: BucketId)
    requires forall p :: p in log ==> LinkOf(f, p) == LinkOf(g, p)
    requires forall c: BucketId :: c != b ==> U32At(f, HeadSlot(c)) == U32At(g, HeadSlot(c))
    requires forall c: BucketId :: c != b ==> U32At(f, TailSlot(c)) == U32At(g, TailSlot(c))
    ensures OthersSame(f, g, log, b)
  {
    forall c: BucketId | c != b ensures SameIndex(f, g, c, Chain(log, c)) {
      ChainMembers(log, c);
    }
  }

  /** The index of bucket b has moved on; every other bucket, every record and the fixed fields stand as before. */
  ghost predicate Advanced(f: Bytes, g: Bytes, log: seq<Placed>, b: BucketId, phase: Phase) {
    && Tiled(g, log) && Shape(g, Chain(log, b), b, phase)
    && OthersSame(f, g, log, b) && SameRange(f, g, 0, BUCKET_HEAD_OFFSET)
  }

  /** Step 2: the first record of a bucket becomes its head. */
  lemma HeadStep(f: Bytes, log: seq<Placed>, b: BucketId)
    requires Tiled(f, log) && Shape(f, Chain(log, b), b, Appended)
    requires U32At(f, HeadSlot(b)) == EMPTY_BUCKET
    ensures |Chain(log, b)| == 1
    ensures Advanced(f, Pwrite(f, HeadSlot(b), Encode(Chain(log, b)[0].off, 4)), log, b, Headed)
  {
    hide LinkOf, U32At, RecordAt, Pwrite;
    var chain := Chain(log, b);
    ChainOffsets(log, b);
    var g := Pwrite(f, HeadSlot(b), Encode(chain[0].off, 4));
    SlotWriteFrame(f, log, HeadSlot(b), chain[0].off);
    OtherBucketsAfterSlotWrite(f, g, log, b);
    LinksFrame(f, g, log, b);
  }

  /** In a bucket that already has records the head is right as it stands. */
  lemma HeadStands(f: Bytes, log: seq<Placed>, b: BucketId)
    requires Tiled(f, log) && Shape(f, Chain(log, b), b, Appended)
    requires U32At(f, HeadSlot(b)) != EMPTY_BUCKET
    ensures Shape(f, Chain(log, b), b, Headed)
  {
    hide LinkOf, U32At, RecordAt;
  }

  /** Step 3: the newest record becomes the tail; with no earlier record the bucket is settled. */
  lemma TailStep(f: Bytes, log: seq<Placed>, b: BucketId, pos: nat)
    requires Tiled(f, log) && Shape(f, Chain(log, b), b, Headed)
    requires pos == Chain(log, b)[|Chain(log, b)| - 1].off
    ensures Advanced(f, Pwrite(f, TailSlot(b), Encode(pos, 4)), log, b,
                     if U32At(f, TailSlot(b)) == EMPTY_BUCKET then Settled else Tailed)
    ensures U32At(f, TailSlot(b)) != EMPTY_BUCKET ==>
              |Chain(log, b)| > 1 && U32At(f, TailSlot(b)) == Chain(log, b)[|Chain(log, b)| - 2].off
  {
    hide LinkOf, U32At, RecordAt, Pwrite;
    var chain := Chain(log, b);
    ChainOffsets(log, b);
    var g := Pwrite(f, TailSlot(b), Encode(pos, 4));
    SlotWriteFrame(f, log, TailSlot(b), pos);
    OtherBucketsAfterSlotWrite(f, g, log, b);
    LinksFrame(f, g, log, b);
  }

  /** Links of a chain read the same in both files, so do its parts. */
  lemma LinksFrame(f: Bytes, g: Bytes, log: seq<Placed>, b: BucketId)
    requires forall p :: p in log ==> LinkOf(f, p) == LinkOf(g, p)
    ensures forall k :: 0 <= k < |Chain(log, b)| ==> LinkOf(f, Chain(log, b)[k]) == LinkOf(g, Chain(log, b)[k])
  {
    ChainMembers(log, b);
  }

  /** Offsets of a chain fit a 32-bit slot and are never the empty marker. */
  lemma ChainOffsets(log: seq<Placed>, b: BucketId)
    requires Contiguous(log) && EndOf(log) < EMPTY_BUCKET
    ensures forall k :: 0 <= k < |Chain(log, b)| ==> HEADER_SIZE <= Chain(log, b)[k].off < EMPTY_BUCKET
  {
    var chain := Chain(log, b);
    ChainMembers(log, b);
    forall k | 0 <= k < |chain| ensures HEADER_SIZE <= chain[k].off < EMPTY_BUCKET {
      var i :| 0 <= i < |log| && log[i] == chain[k];
      Bounds(log, i);
    }
  }

  /** Step 4: the previous record's link is patched in the middle of the file, which settles the bucket. */
  lemma LinkStep(f: Bytes, log: seq<Placed>, b: BucketId)
    requires Tiled(f, log) && Shape(f, Chain(log, b), b, Tailed) && |Chain(log, b)| > 1
    ensures var chain := Chain(log, b);
            var n := |chain|;
            var g := Pwrite(f, LinkPos(chain[n - 2].off, chain[n - 2].entry), Encode(chain[n - 1].off, 4));
            Advanced(f, g, log, b, Settled)
  {
    hide LinkOf, U32At, RecordAt, Pwrite;
    var chain := Chain(log, b);
    var n := |chain|;
    var q := chain[n - 2];
    var x := LinkPos(q.off, q.entry);
    var g := Pwrite(f, x, Encode(chain[n - 1].off, 4));
    ChainMembers(log, b);
    ChainOffsets(log, b);
    assert q in log;
    LinkWriteFrame(f, log, q, Encode(chain[n - 1].off, 4));
    PreadHeaderSlots(f, g);
    assert LinkOf(g, q) == chain[n - 1].off by {
      WriteRead32(f, x, chain[n - 1].off);
      LinkReads(g, q);
    }
    forall k | 0 <= k < n && k != n - 2 ensures LinkOf(f, chain[k]) == LinkOf(g, chain[k]) {
      ChainDistinct(log, b, k, n - 2);
    }
    LinkStepSettles(f, g, b, chain);
    forall c: BucketId | c != b ensures SameIndex(f, g, c, Chain(log, c)) {
      ChainMembers(log, c);
    }
  }

  lemma LinkReads(g: Bytes, q: Placed)
    ensures LinkOf(g, q) == U32At(g, LinkPos(q.off, q.entry))
  {}

  lemma LinkStepSettles(f: Bytes, g: Bytes, b: BucketId, chain: seq<Placed>)
    requires Shape(f, chain, b, Tailed) && |chain| > 1
    requires U32At(f, HeadSlot(b)) == U32At(g, HeadSlot(b)) && U32At(f, TailSlot(b)) == U32At(g, TailSlot(b))
    requires LinkOf(g, chain[|chain| - 2]) == chain[|chain| - 1].off
    requires forall k :: 0 <= k < |chain| && k != |chain| - 2 ==> LinkOf(f, chain[k]) == LinkOf(g, chain[k])
    ensures Shape(g, chain, b, Settled)
  {
    hide LinkOf, U32At;
    var older := chain[..|chain| - 1];
    forall k | 0 <= k < |chain| ensures LinkOf(g, chain[k]) == After(chain, k) {
      if k < |chain| - 2 {
        assert older[k] == chain[k] && LinkOf(f, older[k]) == After(older, k);
      }
    }
  }

  lemma ChainDistinct(log: seq<Placed>, b: BucketId, i: nat, j: nat)
    requires Contiguous(log) && i < |Chain(log, b)| && j < |Chain(log, b)| && i != j
    ensures Chain(log, b)[i] != Chain(log, b)[j]
  {
    if i < j {
      ChainInOrder(log, b, i, j);
    } else {
      ChainInOrder(log, b, j, i);
    }
  }

  /** Files that agree on the header agree on every slot. */
  lemma PreadHeaderSlots(f: Bytes, g: Bytes)
    requires SameRange(f, g, 0, HEADER_SIZE)
    ensures forall b :: U32At(f, HeadSlot(b)) == U32At(g, HeadSlot(b)) && U32At(f, TailSlot(b)) == U32At(g, TailSlot(b))
  {
    forall b: BucketId
      ensures U32At(f, HeadSlot(b)) == U32At(g, HeadSlot(b)) && U32At(f, TailSlot(b)) == U32At(g, TailSlot(b))
    {
      PreadSame(f, g, HeadSlot(b), 4);
      PreadSame(f, g, TailSlot(b), 4);
    }
  }

  // ------------------------------------------------------------------ walking the index

  /** From any record of a settled chain, next_entry leads to its successor, or to 0 after the last. */
  lemma NextInChain(f: Bytes, log: seq<Placed>, b: BucketId, k: nat)
    requires Tiled(f, log) && Shape(f, Chain(log, b), b, Settled) && k < |Chain(log, b)|
    ensures var chain := Chain(log, b);
            && HEADER_SIZE <= chain[k].off
            && NextEntry(f, chain[k].off - HEADER_SIZE, true) ==
                 (if k + 1 < |chain| then chain[k + 1].off - HEADER_SIZE else 0)
            && (k + 1 < |chain| ==> chain[k].off + 45 <= chain[k + 1].off)
  {
    hide RecordAt, RecordsOnDisk, Chain, NextEntry, LinkOf, HeadIs, TailIs;
    var chain := Chain(log, b);
    ChainOffsets(log, b);
    ChainMembers(log, b);
    NextOfPlaced(f, log, chain[k]);
    assert LinkOf(f, chain[k]) == After(chain, k);
    if k + 1 < |chain| {
      ChainInOrder(log, b, k, k + 1);
    }
  }

  lemma NextOfPlaced(f: Bytes, log: seq<Placed>, p: Placed)
    requires Tiled(f, log) && p in log && HEADER_SIZE <= p.off
    ensures NextEntry(f, p.off - HEADER_SIZE, true) == if LinkOf(f, p) == 0 then 0 else Wrap(LinkOf(f, p) - HEADER_SIZE)
    ensures Size(p.entry) >= 45
  {
    hide NextEntry, U32At, RecordAt, Size;
    NextOfRecord(f, p.off, p.entry);
  }

  /** Walking the file record by record visits the log in order and stops at the end of the file. */
  lemma NextInFile(f: Bytes, log: seq<Placed>, i: nat)
    requires Tiled(f, log) && i < |log|
    ensures HEADER_SIZE <= log[i].off
    ensures NextEntry(f, log[i].off - HEADER_SIZE, false) ==
              if i + 1 < |log| then log[i + 1].off - HEADER_SIZE else |f| - HEADER_SIZE
    ensures NextEntry(f, log[i].off - HEADER_SIZE, false) > 1
  {
    hide RecordAt, NextEntry;
    Bounds(log, i);
    NextOfRecord(f, log[i].off, log[i].entry);
  }

  // ------------------------------------------------------------------ snapshots

  ghost predicate AllOfKind(log: seq<Placed>, kind: Kind) {
    forall i :: 0 <= i < |log| ==> KindOf(log[i].entry) == kind
  }

  ghost predicate NoDuplicates(log: seq<Placed>) {
    forall i, j :: 0 <= i < j < |log| ==> KeyOf(log[i].entry) != KeyOf(log[j].entry)
  }

  ghost predicate Contents(file: Bytes, log: seq<Placed>, kind: Kind) {
    && Tiled(file, log) && AllOfKind(log, kind) && NoDuplicates(log)
    && Pread(file, MAGIC_OFFSET, 4) == MagicBytes(kind)
  }

  lemma ContentsTiled(f: Bytes, log: seq<Placed>, kind: Kind)
    requires Contents(f, log, kind)
    ensures Tiled(f, log) && EndOf(log) == |f|
  {}

  ghost predicate Present(log: seq<Placed>, key: Key) {
    exists p :: p in log && KeyOf(p.entry) == key
  }

  /** A key is present exactly if some record has that path with that hash, or that PID. */
  lemma PresentIs(log: seq<Placed>, e: Entry)
    ensures e.Idx? ==>
              (Present(log, KeyOf(e)) <==>
               exists p :: p in log && p.entry.Idx? && p.entry.path == e.path && p.entry.hash == e.hash)
    ensures e.Proc? ==> (Present(log, KeyOf(e)) <==> exists p :: p in log && p.entry.Proc? && p.entry.pid == e.pid)
  {}

  lemma EmptyShape(f: Bytes, b: BucketId)
    requires U32At(f, HeadSlot(b)) == EMPTY_BUCKET && U32At(f, TailSlot(b)) == EMPTY_BUCKET
    ensures Shape(f, Chain([], b), b, Settled)
  {}

  /** A complete snapshot: whole records of one format, no key twice, every bucket fully indexed. */
  ghost predicate Snapshot(file: Bytes, log: seq<Placed>, kind: Kind) {
    Contents(file, log, kind) && forall b :: Shape(file, Chain(log, b), b, Settled)
  }

  // ------------------------------------------------------------------ the two walks over the bytes

  /** The offsets met by reading the file record by record from off on. */
  function FileWalk(file: Bytes, off: nat): seq<nat>
    decreases |file| - off
  {
    if off < HEADER_SIZE || |file| <= off then []
    else
      var next := HEADER_SIZE + NextEntry(file, off - HEADER_SIZE, false);
      [off] + if off < next then FileWalk(file, next) else []
  }

  /** The offsets met by following the links of a bucket from off on. */
  function LinkWalk(file: Bytes, off: nat): seq<nat>
    decreases |file| - off
  {
    if off < HEADER_SIZE || |file| <= off then []
    else
      var next := HEADER_SIZE + NextEntry(file, off - HEADER_SIZE, true);
      [off] + if off < next then LinkWalk(file, next) else []
  }

  /** ... starting at the head of bucket b. */
  function BucketWalk(file: Bytes, b: BucketId): seq<nat> {
    LinkWalk(file, U32At(file, HeadSlot(b)))
  }

  /** The record stored at an offset, as far as its key and compared fields go. */
  function StoredEntry(file: Bytes, kind: Kind, off: nat): Entry {
    ParseRelevant(Pread(file, off, U32At(file, off)), kind)
  }

  /** The offsets whose record belongs to bucket b. */
  function InBucket(file: Bytes, kind: Kind, offs: seq<nat>, b: BucketId): seq<nat> {
    if offs == [] then []
    else
      var n := |offs| - 1;
      InBucket(file, kind, offs[..n], b) + if BucketOf(StoredEntry(file, kind, offs[n])) == b then [offs[n]] else []
  }

  function Offsets(log: seq<Placed>): (offs: seq<nat>)
    ensures |offs| == |log|
  {
    if log == [] then [] else [log[0].off] + Offsets(log[1..])
  }

  lemma {:induction false} OffsetsOfAppend(log: seq<Placed>, p: Placed)
    ensures Offsets(log + [p]) == Offsets(log) + [p.off]
  {
    if log != [] {
      assert (log + [p])[1..] == log[1..] + [p];
      OffsetsOfAppend(log[1..], p);
    }
  }

  lemma {:induction false} OffsetAt(log: seq<Placed>, i: nat)
    requires i < |log|
    ensures Offsets(log)[i] == log[i].off
  {
    if i > 0 {
      OffsetAt(log[1..], i - 1);
    }
  }

  lemma {:induction false} FileWalkIsLog(file: Bytes, log: seq<Placed>, i: nat)
    requires Tiled(file, log) && i < |log|
    ensures FileWalk(file, log[i].off) == Offsets(log[i..])
    decreases |log| - i
  {
    hide RecordAt, NextEntry;
    NextInFile(file, log, i);
    Bounds(log, i);
    assert log[i..][1..] == log[i + 1..];
    if i + 1 < |log| {
      InOrder(log, i, i + 1);
      FileWalkIsLog(file, log, i + 1);
    } else {
      assert FileWalk(file, |file|) == [];
    }
  }

  lemma {:induction false} LinkWalkIsChain(file: Bytes, log: seq<Placed>, b: BucketId, k: nat)
    requires Tiled(file, log) && Shape(file, Chain(log, b), b, Settled) && k < |Chain(log, b)|
    ensures LinkWalk(file, Chain(log, b)[k].off) == Offsets(Chain(log, b)[k..])
    decreases |Chain(log, b)| - k
  {
    hide Shape, Tiled, NextEntry;
    var chain := Chain(log, b);
    NextInChain(file, log, b, k);
    ChainInside(file, log, b);
    assert chain[k..][1..] == chain[k + 1..];
    if k + 1 < |chain| {
      LinkWalkIsChain(file, log, b, k + 1);
    }
  }

  lemma ChainInside(file: Bytes, log: seq<Placed>, b: BucketId)
    requires Tiled(file, log)
    ensures forall k :: 0 <= k < |Chain(log, b)| ==> HEADER_SIZE <= Chain(log, b)[k].off < |file|
  {
    hide RecordsOnDisk;
    var chain := Chain(log, b);
    ChainMembers(log, b);
    forall k | 0 <= k < |chain| ensures HEADER_SIZE <= chain[k].off < |file| {
      var i :| 0 <= i < |log| && log[i] == chain[k];
      Bounds(log, i);
    }
  }

  /** What is stored at a record's offset has its key and its bucket. */
  lemma StoredAt(file: Bytes, log: seq<Placed>, kind: Kind, i: nat)
    requires Tiled(file, log) && AllOfKind(log, kind) && i < |log|
    ensures StoredEntry(file, kind, log[i].off) == Relevant(log[i].entry)
  {
    hide RecordAt, ParseRelevant;
    SizeOnDisk(file, log[i].off, log[i].entry);
    ParseOfRecord(file, log[i].off, log[i].entry);
  }

  lemma NoChain(b: BucketId)
    ensures Chain([], b) == []
  {}

  lemma RelevantBucket(e: Entry)
    ensures BucketOf(Relevant(e)) == BucketOf(e)
  {}

  lemma {:induction false} InBucketIsChain(file: Bytes, log: seq<Placed>, kind: Kind, b: BucketId, n: nat)
    requires Tiled(file, log) && AllOfKind(log, kind) && n <= |log|
    ensures InBucket(file, kind, Offsets(log[..n]), b) == Offsets(Chain(log[..n], b))
  {
    hide Tiled, AllOfKind, StoredEntry, Chain, Relevant;
    if n == 0 {
      NoChain(b);
      assert log[..n] == [];
    } else {
      var front, p := log[..n - 1], log[n - 1];
      assert log[..n] == front + [p] && log[..n][..n - 1] == front;
      InBucketIsChain(file, log, kind, b, n - 1);
      OffsetsOfAppend(front, p);
      StoredAt(file, log, kind, n - 1);
      var offs := Offsets(log[..n]);
      assert offs[..n - 1] == Offsets(front) && offs[n - 1] == p.off;
      RelevantBucket(p.entry);
      ChainOfAppend(front, p, b);
      OffsetsOfAppend(Chain(front, b), p);
      if BucketOf(p.entry) != b {
        assert Chain(front, b) + [] == Chain(front, b);
      }
    }
  }

  /** In a settled bucket the index agrees with a plain scan of the file: following the links from the head visits
      exactly the records of the bucket, in file order. */
  lemma IndexAgreesWithScan(file: Bytes, log: seq<Placed>, kind: Kind, b: BucketId)
    requires Contents(file, log, kind) && Shape(file, Chain(log, b), b, Settled)
    ensures FileWalk(file, HEADER_SIZE) == Offsets(log)
    ensures BucketWalk(file, b) == InBucket(file, kind, FileWalk(file, HEADER_SIZE), b)
  {
    hide Tiled, NextEntry, StoredEntry, NoDuplicates, AllOfKind, Linked;
    var chain := Chain(log, b);
    ScanIsLog(file, log);
    assert log[..|log|] == log;
    InBucketIsChain(file, log, kind, b, |log|);
    if chain == [] {
      FileIsShort(file, log);
    } else {
      LinkWalkIsChain(file, log, b, 0);
      assert chain[0..] == chain;
    }
  }

  lemma FileIsShort(file: Bytes, log: seq<Placed>)
    requires Tiled(file, log)
    ensures |file| < EMPTY_BUCKET
  {}

  lemma ScanIsLog(file: Bytes, log: seq<Placed>)
    requires Tiled(file, log)
    ensures FileWalk(file, HEADER_SIZE) == Offsets(log)
  {
    hide RecordsOnDisk, NextEntry;
    if log != [] {
      FileWalkIsLog(file, log, 0);
      assert log[0..] == log;
    }
  }
}
