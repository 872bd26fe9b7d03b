/** What holds of the shared snapshot after any interleaving of its writers. The log names the records in the file. */
module WriterInvariant {
  import opened Memory
  import opened Format
  import opened Records
  import opened Index
  import opened Writers

  // ------------------------------------------------------------------ totals over all processes

  function Sum(ns: seq<nat>): nat {
    if ns == [] then 0 else Sum(ns[..|ns| - 1]) + ns[|ns| - 1]
  }

  /** How many processes hold the database open, and how many appended records RECORD_COUNT does not know yet. */
  datatype Tally = Tally(registered: nat, pending: nat)

  function Weigh(wr: Writer): Tally {
    Tally(if wr.pc.Registered() then 1 else 0, Sum(wr.frames) + if wr.pc.Uncounted() then 1 else 0)
  }

  function Total(ws: seq<Writer>): Tally {
    if ws == [] then Tally(0, 0)
    else
      var t, u := Total(ws[..|ws| - 1]), Weigh(ws[|ws| - 1]);
      Tally(t.registered + u.registered, t.pending + u.pending)
  }

  lemma {:induction false} TotalUpdate(ws: seq<Writer>, w: nat, wr: Writer)
    requires w < |ws|
    ensures Total(ws[w := wr]).registered == Total(ws).registered - Weigh(ws[w]).registered + Weigh(wr).registered
    ensures Total(ws[w := wr]).pending == Total(ws).pending - Weigh(ws[w]).pending + Weigh(wr).pending
  {
    var n := |ws| - 1;
    if w == n {
      assert ws[w := wr][..n] == ws[..n];
    } else {
      TotalUpdate(ws[..n], w, wr);
      assert ws[w := wr][..n] == ws[..n][w := wr];
    }
  }

  lemma {:induction false} TotalCovers(ws: seq<Writer>, w: nat)
    requires w < |ws|
    ensures Weigh(ws[w]).registered <= Total(ws).registered <= |ws|
    ensures Weigh(ws[w]).pending <= Total(ws).pending
  {
    var n := |ws| - 1;
    if w < n {
      TotalCovers(ws[..n], w);
    } else if n > 0 {
      TotalCovers(ws[..n], 0);
    }
  }

  lemma {:induction false} TotalCoversTwo(ws: seq<Writer>, v: nat, w: nat)
    requires v < w < |ws|
    ensures Weigh(ws[v]).registered + Weigh(ws[w]).registered <= Total(ws).registered
  {
    var n := |ws| - 1;
    if w < n {
      TotalCoversTwo(ws[..n], v, w);
    } else {
      TotalCovers(ws[..n], v);
    }
  }

  lemma {:induction false} TotalOfNobody(ws: seq<Writer>)
    requires forall w :: 0 <= w < |ws| ==> Weigh(ws[w]) == Tally(0, 0)
    ensures Total(ws) == Tally(0, 0)
  {
    if ws != [] {
      TotalOfNobody(ws[..|ws| - 1]);
    }
  }

  lemma SumOfBump(frames: seq<nat>, more: nat)
    requires frames != []
    ensures Sum(Bump(frames, more)) == Sum(frames) + more
  {
    assert Bump(frames, more)[..|frames| - 1] == frames[..|frames| - 1];
  }

  // ------------------------------------------------------------------ the invariant

  /** No record among the first k of the chain has e's key. */
  ghost predicate NotAmong(chain: seq<Placed>, k: nat, e: Entry) {
    k <= |chain| && forall j :: 0 <= j < k ==> KeyOf(chain[j].entry) != KeyOf(e)
  }

  /** The duplicate scan has reached record k, having ruled out every earlier one. */
  ghost predicate ScanAt(chain: seq<Placed>, e: Entry, off: nat, k: nat) {
    k < |chain| && chain[k].off == off + HEADER_SIZE && NotAmong(chain, k, e)
  }

  /** The duplicate scan has ruled out record k as well. */
  ghost predicate ScanPast(chain: seq<Placed>, e: Entry, off: nat, k: nat) {
    ScanAt(chain, e, off, k) && KeyOf(chain[k].entry) != KeyOf(e)
  }

  ghost predicate Newest(chain: seq<Placed>, e: Entry, pos: nat) {
    chain != [] && chain[|chain| - 1] == Placed(pos, e)
  }

  /** Whether the tail a writer has read is the record before the newest one. */
  ghost predicate Previous(chain: seq<Placed>, tail: nat) {
    |chain| > 1 && chain[|chain| - 2].off == tail
  }

  /** How far the index of the locked bucket has got, at each step of the lock holder. */
  function PhaseOf(pc: Pc): Phase {
    match pc
    case GetHead(_, _) | SetHead(_, _) => Appended
    case GetTail(_, _) | SetTail(_, _, _) => Headed
    case GetSize(_, _, _) | SetLink(_, _, _) => Tailed
    case _ => Settled
  }

  /** What the lock holder's locals mean. */
  ghost predicate LocalsOk(file: Bytes, chain: seq<Placed>, pc: Pc)
    requires pc.InBucket()
  {
    match pc
    case Compare(e, off) => exists k :: ScanAt(chain, e, off, k)
    case Follow(e, off) => exists k :: ScanPast(chain, e, off, k)
    case Write(e) => NotAmong(chain, |chain|, e)
    case GetHead(e, pos) => Newest(chain, e, pos)
    case SetHead(e, pos) => Newest(chain, e, pos) && U32At(file, HeadSlot(BucketOf(e))) == EMPTY_BUCKET
    case GetTail(e, pos) => Newest(chain, e, pos)
    case SetTail(e, pos, tail) => Newest(chain, e, pos) && U32At(file, TailSlot(BucketOf(e))) == tail
    case GetSize(e, pos, tail) => Newest(chain, e, pos) && Previous(chain, tail)
    case SetLink(e, pos, at) =>
      Newest(chain, e, pos) && |chain| > 1 && at == LinkPos(chain[|chain| - 2].off, chain[|chain| - 2].entry)
    case Unlock(e, duplicate) =>
      if duplicate then Present(chain, KeyOf(e)) else chain != [] && chain[|chain| - 1].entry == e
    case _ => true
  }

  ghost predicate BucketWork(file: Bytes, log: seq<Placed>, kind: Kind, wr: Writer)
    requires wr.pc.InBucket()
  {
    var e, b := wr.pc.e, BucketOf(wr.pc.e);
    && wr.frames != [] && WellFormed(e) && KindOf(e) == kind
    && Shape(file, Chain(log, b), b, PhaseOf(wr.pc)) && LocalsOk(file, Chain(log, b), wr.pc)
  }

  /** What holds of each process, given the file. */
  ghost predicate WriterOk(file: Bytes, log: seq<Placed>, kind: Kind, wr: Writer) {
    if wr.pc.InBucket() then BucketWork(file, log, kind, wr)
    else
      match wr.pc
      case Idle | CountUnlock => true
      case CountRead => wr.frames != []
      case CountWrite(n) => wr.frames != [] && n == RecordCount(file)
      case OpenBump(n) => wr.frames == [] && n == ActiveWriters(file) && StateOf(file) == STATE_OPEN
      case CloseWrite(n) => wr.frames == [] && n == ActiveWriters(file)
      case Failed => false
      case _ => wr.frames == []
  }

  ghost predicate WritersOk(file: Bytes, log: seq<Placed>, kind: Kind, ws: seq<Writer>) {
    forall w :: 0 <= w < |ws| ==> WriterOk(file, log, kind, ws[w])
  }

  ghost predicate Exclusive(ws: seq<Writer>) {
    forall v, w :: 0 <= v < |ws| && 0 <= w < |ws| && v != w ==> !Overlap(Held(ws[v].pc), Held(ws[w].pc))
  }

  predicate Holds(wr: Writer, b: BucketId) {
    wr.pc.InBucket() && BucketOf(wr.pc.e) == b
  }

  ghost predicate Unheld(ws: seq<Writer>, b: BucketId) {
    forall w :: 0 <= w < |ws| ==> !Holds(ws[w], b)
  }

  /** Every bucket nobody has locked is completely indexed. */
  ghost predicate FreeBucketsSettled(file: Bytes, log: seq<Placed>, ws: seq<Writer>) {
    forall b: BucketId :: Unheld(ws, b) ==> Shape(file, Chain(log, b), b, Settled)
  }

  ghost predicate Sealing(ws: seq<Writer>) {
    exists w :: 0 <= w < |ws| && ws[w].pc.CloseSeal?
  }

  /** ACTIVE_WRITERS counts the open handles; STATE says SEALED exactly when there are none, except for the moment
      between the last two writes of the last close. */
  ghost predicate LifeOk(file: Bytes, ws: seq<Writer>) {
    var n := Total(ws).registered;
    && ActiveWriters(file) == n
    && (Sealing(ws) ==> n == 0)
    && StateOf(file) == if n == 0 && !Sealing(ws) then STATE_SEALED else STATE_OPEN
  }

  /** RECORD_COUNT plus everything counted only in frames, or not yet counted at all, is the number of records. */
  ghost predicate CountOk(file: Bytes, log: seq<Placed>, ws: seq<Writer>) {
    RecordCount(file) + Total(ws).pending == |log|
  }

  ghost predicate Inv(s: System, log: seq<Placed>) {
    && |s.writers| < 0x8000_0000
    && if s.file == [] then
         log == [] && forall w :: 0 <= w < |s.writers| ==> s.writers[w] == Writer(Closed, [])
       else
         && Contents(s.file, log, s.kind) && Exclusive(s.writers) && WritersOk(s.file, log, s.kind, s.writers)
         && FreeBucketsSettled(s.file, log, s.writers) && LifeOk(s.file, s.writers) && CountOk(s.file, log, s.writers)
  }

  // ------------------------------------------------------------------ what other processes do not notice

  /** The parts of the file a process relies on read the same in both files. */
  ghost predicate Unaffected(f: Bytes, g: Bytes, log: seq<Placed>, log': seq<Placed>, wr: Writer) {
    && (wr.pc.InBucket() ==>
          var b := BucketOf(wr.pc.e);
          Chain(log', b) == Chain(log, b) && SameIndex(f, g, b, Chain(log, b)))
    && (wr.pc.CountWrite? ==> RecordCount(f) == RecordCount(g))
    && (wr.pc.OpenBump? || wr.pc.CloseWrite? ==> ActiveWriters(f) == ActiveWriters(g) && StateOf(f) == StateOf(g))
  }

  lemma WriterFrame(f: Bytes, g: Bytes, log: seq<Placed>, log': seq<Placed>, kind: Kind, wr: Writer)
    requires WriterOk(f, log, kind, wr) && Unaffected(f, g, log, log', wr)
    ensures WriterOk(g, log', kind, wr)
  {
    hide U32At, LinkOf, Shape, WellFormed;
    if wr.pc.InBucket() {
      ShapeFrame(f, g, BucketOf(wr.pc.e), Chain(log, BucketOf(wr.pc.e)), PhaseOf(wr.pc));
    }
  }

  /** Everything the invariant needs after process w has moved: its own part, and that the rest did not notice. */
  lemma Reassemble(s: System, log: seq<Placed>, w: nat, g: Bytes, log': seq<Placed>, wr: Writer)
    requires Inv(s, log) && s.file != [] && w < |s.writers| && g != []
    requires Contents(g, log', s.kind) && WriterOk(g, log', s.kind, wr)
    requires LockFree(s, w, Held(wr.pc))
    requires forall v :: 0 <= v < |s.writers| && v != w ==> Unaffected(s.file, g, log, log', s.writers[v])
    requires forall b: BucketId :: Unheld(s.writers[w := wr], b) ==> Shape(g, Chain(log', b), b, Settled)
    requires LifeOk(g, s.writers[w := wr]) && CountOk(g, log', s.writers[w := wr])
    ensures Inv(System(g, s.kind, s.writers[w := wr]), log')
  {
    hide Contents, WriterOk, Unaffected, LifeOk, CountOk, Shape, Held;
    var ws := s.writers[w := wr];
    forall v | 0 <= v < |ws| ensures WriterOk(g, log', s.kind, ws[v]) {
      if v != w {
        WriterFrame(s.file, g, log, log', s.kind, s.writers[v]);
      }
    }
  }
}
