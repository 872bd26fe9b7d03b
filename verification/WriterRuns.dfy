/** What any number of concurrent writers guarantee in every reachable state. */
module WriterRuns {
  import opened Memory
  import opened Format
  import opened Records
  import opened Index
  import opened Writers
  import opened WriterInvariant
  import opened WriterSteps

  // ------------------------------------------------------------------ creating and re-initialising

  /** Everybody but process w is out, and the header has just been written. */
  lemma FreshFile(s: System, w: nat, now: nat, pc: Pc)
    requires w < |s.writers| < 0x8000_0000 && (pc.Idle? || pc.OpenUnlock?)
    requires forall v :: 0 <= v < |s.writers| && v != w ==> s.writers[v] == Writer(Closed, [])
    ensures Inv(System(InitialHeader(s.kind, now), s.kind, s.writers[w := Writer(pc, [])]), [])
  {
    hide InitialHeader, Shape, U32At, Pread, MagicBytes, Exclusive, WritersOk, LifeOk, CountOk;
    var f, ws := InitialHeader(s.kind, now), s.writers[w := Writer(pc, [])];
    InitialHeaderFields(s.kind, now);
    StateIs(f, STATE_OPEN);
    OneIn(f, s.writers, w, s.kind, pc);
    forall b: BucketId ensures Shape(f, Chain([], b), b, Settled) {
      InitialSlots(s.kind, now, HeadSlot(b));
      InitialSlots(s.kind, now, TailSlot(b));
      EmptyShape(f, b);
    }
  }

  /** One process in, everybody else out, no records. */
  lemma OneIn(f: Bytes, before: seq<Writer>, w: nat, kind: Kind, pc: Pc)
    requires w < |before| && (pc.Idle? || pc.OpenUnlock?)
    requires forall v :: 0 <= v < |before| && v != w ==> before[v] == Writer(Closed, [])
    requires StateOf(f) == STATE_OPEN && ActiveWriters(f) == 1 && RecordCount(f) == 0
    ensures var ws := before[w := Writer(pc, [])];
            Exclusive(ws) && WritersOk(f, [], kind, ws) && LifeOk(f, ws) && CountOk(f, [], ws)
  {
    hide StateOf, ActiveWriters, RecordCount, BucketWork, Total;
    var ws, out := before[w := Writer(pc, [])], before[w := Writer(Closed, [])];
    TotalOfNobody(out);
    TotalUpdate(out, w, Writer(pc, []));
    assert out[w := Writer(pc, [])] == ws;
  }

  lemma StateIs(f: Bytes, state: byte)
    requires Pread(f, STATE_OFFSET, 1) == [state]
    ensures StateOf(f) == state
  {}

  lemma OpenOk(s: System, log: seq<Placed>, w: nat, a: Action)
    requires Inv(s, log) && Enabled(s, w, a) && s.writers[w].pc.Closed?
    ensures Inv(Apply(s, w, a), log)
  {
    hide Contents, LifeOk, CountOk, Shape, LockFree, InitialHeader;
    if s.file == [] {
      FreshFile(s, w, a.now, Idle);
    } else {
      QuietStep(s, log, w, WriterAfter(s.file, s.writers[w], a));
    }
  }

  /** Whoever finds the snapshot sealed under the header lock is alone: every other process has closed it. */
  lemma AloneWhenSealed(s: System, log: seq<Placed>, w: nat)
    requires Inv(s, log) && w < |s.writers| && s.writers[w].pc.OpenRead? && StateOf(s.file) == STATE_SEALED
    ensures forall v :: 0 <= v < |s.writers| && v != w ==> s.writers[v] == Writer(Closed, [])
  {
    hide Inv, Contents, Shape, CountOk, StateOf, Total;
    FileIsThere(s, log, w);
    NobodySeals(s.writers, w);
    forall v | 0 <= v < |s.writers| && v != w ensures s.writers[v] == Writer(Closed, []) {
      TotalCovers(s.writers, v);
      AloneStep(s, log, v, w);
    }
  }

  lemma AloneStep(s: System, log: seq<Placed>, v: nat, w: nat)
    requires Inv(s, log) && s.file != [] && v < |s.writers| && w < |s.writers| && v != w && s.writers[w].pc.OpenRead?
    requires Weigh(s.writers[v]).registered == 0
    ensures s.writers[v] == Writer(Closed, [])
  {
    hide Contents, Shape, CountOk, LifeOk, Total, BucketWork;
    assert !Overlap(Held(s.writers[v].pc), Held(s.writers[w].pc));
  }

  lemma OpenReadOk(s: System, log: seq<Placed>, w: nat, a: Action)
    requires Inv(s, log) && Enabled(s, w, a) && s.writers[w].pc.OpenRead?
    ensures Inv(Apply(s, w, a), if StateOf(s.file) == STATE_SEALED then [] else log)
  {
    hide Inv, Contents, CountOk, Shape, LockFree, InitialHeader, StateOf, Total, Pread;
    FileIsThere(s, log, w);
    var wr := WriterAfter(s.file, s.writers[w], a);
    if StateOf(s.file) == STATE_SEALED {
      AloneWhenSealed(s, log, w);
      KindStored(s.file, log, s.kind);
      FreshFile(s, w, a.now, OpenUnlock);
    } else {
      QuietStep(s, log, w, wr);
    }
  }

  lemma KindStored(f: Bytes, log: seq<Placed>, kind: Kind)
    requires Contents(f, log, kind)
    ensures KindInHeader(f) == kind
  {
    assert MagicBytes(FileIndex)[0] != MagicBytes(ProcSnapshot)[0];
  }

  // ------------------------------------------------------------------ every step, every run

  /** The records in the file after one step. */
  function LogAfter(s: System, log: seq<Placed>, w: nat): seq<Placed>
    requires w < |s.writers|
  {
    var pc := s.writers[w].pc;
    if pc.Write? then log + [PlaceNext(log, pc.e)]
    else if pc.OpenRead? && StateOf(s.file) == STATE_SEALED then []
    else log
  }

  lemma StepKeepsInv(s: System, log: seq<Placed>, w: nat, a: Action)
    requires Inv(s, log) && Enabled(s, w, a)
    ensures Inv(Apply(s, w, a), LogAfter(s, log, w))
  {
    hide Inv, Apply, Enabled, StateOf;
    assert w < |s.writers| by { WriterExists(s, w, a); }
    match s.writers[w].pc
    case Closed => OpenOk(s, log, w, a);
    case OpenRead => OpenReadOk(s, log, w, a);
    case OpenBump(_) => OpenBumpOk(s, log, w, a);
    case OpenUnlock => OpenUnlockOk(s, log, w, a);
    case Idle => IdleOk(s, log, w, a);
    case ReadHead(_) => ReadHeadOk(s, log, w, a);
    case Compare(_, _) => CompareOk(s, log, w, a);
    case Follow(_, _) => FollowOk(s, log, w, a);
    case Write(_) => WriteOk(s, log, w, a);
    case GetHead(_, _) => GetHeadOk(s, log, w, a);
    case SetHead(_, _) => SetHeadOk(s, log, w, a);
    case GetTail(_, _) => GetTailOk(s, log, w, a);
    case SetTail(_, _, _) => SetTailOk(s, log, w, a);
    case GetSize(_, _, _) => GetSizeOk(s, log, w, a);
    case SetLink(_, _, _) => SetLinkOk(s, log, w, a);
    case Unlock(_, _) => UnlockOk(s, log, w, a);
    case CountRead => CountReadOk(s, log, w, a);
    case CountWrite(_) => CountWriteOk(s, log, w, a);
    case CountUnlock => CountUnlockOk(s, log, w, a);
    case CloseRead => CloseReadOk(s, log, w, a);
    case CloseWrite(_) => CloseWriteOk(s, log, w, a);
    case CloseSeal => CloseSealOk(s, log, w, a);
    case CloseUnlock => CloseUnlockOk(s, log, w, a);
    case Failed => NoStepAfterFailure(s, w, a);
  }

  lemma WriterExists(s: System, w: nat, a: Action)
    requires Enabled(s, w, a)
    ensures w < |s.writers|
  {}

  lemma NoStepAfterFailure(s: System, w: nat, a: Action)
    requires Enabled(s, w, a)
    ensures !s.writers[w].pc.Failed?
  {}

  /** Every state of every run satisfies the invariant, for some log. */
  lemma {:induction false} RunKeepsInv(run: seq<System>, i: nat) returns (log: seq<Placed>)
    requires IsRun(run) && i < |run|
    ensures Inv(run[i], log)
  {
    if i == 0 {
      log := [];
    } else {
      var before := RunKeepsInv(run, i - 1);
      assert Next(run[i - 1], run[i - 1 + 1]);
      var w: nat, a :| Enabled(run[i - 1], w, a) && run[i] == Apply(run[i - 1], w, a);
      StepKeepsInv(run[i - 1], before, w, a);
      log := LogAfter(run[i - 1], before, w);
    }
  }

  ghost predicate Reachable(s: System) {
    exists run :: IsRun(run) && run[|run| - 1] == s
  }

  lemma ReachableInv(s: System) returns (log: seq<Placed>)
    requires Reachable(s)
    ensures Inv(s, log)
  {
    var run :| IsRun(run) && run[|run| - 1] == s;
    log := RunKeepsInv(run, |run| - 1);
  }

  // ------------------------------------------------------------------ the theorems

  /** The head slot of a bucket names the first record met by following the links, the tail slot the last one, and the
      link of that one is 0; both slots of a bucket without records are empty. */
  ghost predicate HeadToTail(file: Bytes, b: BucketId) {
    var walk := BucketWalk(file, b);
    var head, tail := U32At(file, HeadSlot(b)), U32At(file, TailSlot(b));
    if walk == [] then head == EMPTY_BUCKET == tail
    else head == walk[0] && HEADER_SIZE <= tail == walk[|walk| - 1] && NextEntry(file, tail - HEADER_SIZE, true) == 0
  }

  /** Whatever the interleaving, the records fill the file from the end of the header to its last byte, and every bucket
      nobody has locked is completely indexed: its head slot names its first record, its tail slot its last, each link
      the next, and the last link is 0. So following the links from the head visits exactly the bucket's records, in
      file order. */
  lemma UnlockedBucketsAreIndexed(s: System, b: BucketId)
    requires Reachable(s) && s.file != [] && Unheld(s.writers, b)
    ensures exists log ::
              Tiled(s.file, log) && FileWalk(s.file, HEADER_SIZE) == Offsets(log) && Shape(s.file, Chain(log, b), b, Settled)
    ensures BucketWalk(s.file, b) == InBucket(s.file, s.kind, FileWalk(s.file, HEADER_SIZE), b)
    ensures HeadToTail(s.file, b)
  {
    hide Contents, BucketWalk, FileWalk, Shape, WritersOk, Exclusive, LifeOk, CountOk, Reachable, HeadToTail, Tiled;
    var log := ReachableInv(s);
    IndexAgreesWithScan(s.file, log, s.kind, b);
    ContentsTiled(s.file, log, s.kind);
    EndsOfWalk(s.file, log, b);
  }

  /** The two slots and the last link of a complete bucket. */
  lemma EndsOfWalk(f: Bytes, log: seq<Placed>, b: BucketId)
    requires Tiled(f, log) && Shape(f, Chain(log, b), b, Settled)
    ensures HeadToTail(f, b)
  {
    hide Tiled, NextEntry, Linked, LinkWalk, U32At;
    var chain := Chain(log, b);
    if chain == [] {
      FileIsShort(f, log);
      NoWalk(f);
    } else {
      LinkWalkIsChain(f, log, b, 0);
      assert chain[0..] == chain;
      OffsetAt(chain, 0);
      OffsetAt(chain, |chain| - 1);
      NextInChain(f, log, b, |chain| - 1);
    }
  }

  lemma NoWalk(f: Bytes)
    requires |f| < EMPTY_BUCKET
    ensures LinkWalk(f, EMPTY_BUCKET) == []
  {}

  /** A locked bucket is in the intermediate shape its holder's position names: all records indexed, or the newest
      one missing from head, tail and links, from tail and links, or only from the links. */
  lemma LockedBucketShape(s: System, w: nat) returns (log: seq<Placed>)
    requires Reachable(s) && w < |s.writers| && s.writers[w].pc.InBucket()
    ensures Tiled(s.file, log)
    ensures var pc := s.writers[w].pc;
            Shape(s.file, Chain(log, BucketOf(pc.e)), BucketOf(pc.e), PhaseOf(pc))
  {
    hide Shape, Tiled, Inv, Reachable;
    log := ReachableInv(s);
    InsideAppend(s, log, w);
  }

  /** No two records of the file ever share a key: path and stored hash for an index, PID for a process snapshot. */
  lemma NoTwoRecordsShareAKey(s: System, i: nat, j: nat)
    requires Reachable(s) && s.file != [] && i < j < |FileWalk(s.file, HEADER_SIZE)|
    ensures var walk := FileWalk(s.file, HEADER_SIZE);
            KeyOf(StoredEntry(s.file, s.kind, walk[i])) != KeyOf(StoredEntry(s.file, s.kind, walk[j]))
    ensures var walk := FileWalk(s.file, HEADER_SIZE);
            var a, b := StoredEntry(s.file, s.kind, walk[i]), StoredEntry(s.file, s.kind, walk[j]);
            || (a.Idx? && b.Idx? && !(a.path == b.path && a.hash == b.hash))
            || (a.Proc? && b.Proc? && a.pid != b.pid)
  {
    hide StoredEntry, FileWalk, Tiled, WritersOk, Exclusive, LifeOk, CountOk, FreeBucketsSettled, Reachable;
    var log := ReachableInv(s);
    ScanIsLog(s.file, log);
    OffsetAt(log, i);
    OffsetAt(log, j);
    StoredAt(s.file, log, s.kind, i);
    StoredAt(s.file, log, s.kind, j);
    assert KeyOf(Relevant(log[i].entry)) == KeyOf(log[i].entry);
    assert KeyOf(Relevant(log[j].entry)) == KeyOf(log[j].entry);
    KeyIsIdentity(Relevant(log[i].entry), Relevant(log[j].entry));
  }

  function OpenHandles(s: System): set<nat> {
    set w: nat | w < |s.writers| && s.writers[w].pc.Registered()
  }

  lemma {:induction false} TotalIsCount(ws: seq<Writer>)
    ensures Total(ws).registered == |set w: nat | w < |ws| && ws[w].pc.Registered()|
  {
    var now := set w: nat | w < |ws| && ws[w].pc.Registered();
    if ws == [] {
      assert now == {};
    } else {
      var n := |ws| - 1;
      var front := ws[..n];
      var before := set w: nat | w < |front| && front[w].pc.Registered();
      TotalIsCount(front);
      assert now == before + if ws[n].pc.Registered() then {n} else {};
      assert n !in before;
    }
  }

  /** ACTIVE_WRITERS is the number of open handles, and the snapshot is SEALED exactly when there is none, but for the
      instant between the last closer's two writes. */
  lemma HandlesAreCounted(s: System)
    requires Reachable(s) && s.file != []
    ensures ActiveWriters(s.file) == |OpenHandles(s)|
    ensures !Sealing(s.writers) ==> (StateOf(s.file) == STATE_SEALED <==> OpenHandles(s) == {})
    ensures Sealing(s.writers) ==> OpenHandles(s) == {} && StateOf(s.file) == STATE_OPEN
  {
    hide Contents, WritersOk, Exclusive, CountOk, FreeBucketsSettled, ActiveWriters, StateOf, Reachable;
    var log := ReachableInv(s);
    TotalIsCount(s.writers);
  }

  /** RECORD_COUNT, plus the appends still held in recursion frames, plus those not counted yet, is the number of
      records in the file. */
  lemma RecordsAreCounted(s: System)
    requires Reachable(s) && s.file != []
    ensures RecordCount(s.file) + Total(s.writers).pending == |FileWalk(s.file, HEADER_SIZE)|
  {
    hide WritersOk, Exclusive, LifeOk, FreeBucketsSettled, RecordCount, Tiled, FileWalk, Reachable;
    var log := ReachableInv(s);
    ScanIsLog(s.file, log);
  }

  /** A step loses records only by truncating a sealed snapshot, and then no other process holds it open or holds any
      of its locks; every other step keeps the records there are, in their places. */
  lemma TruncationIsAlone(s: System, w: nat, a: Action)
    requires Reachable(s) && Enabled(s, w, a) && s.file != []
    ensures var s' := Apply(s, w, a);
            || (FileWalk(s.file, HEADER_SIZE) <= FileWalk(s'.file, HEADER_SIZE)
                && forall off :: off in FileWalk(s.file, HEADER_SIZE) ==>
                     StoredEntry(s'.file, s.kind, off) == StoredEntry(s.file, s.kind, off))
            || (s.writers[w].pc.OpenRead? && StateOf(s.file) == STATE_SEALED
                && forall v :: 0 <= v < |s.writers| && v != w ==> s.writers[v] == Writer(Closed, []))
  {
    hide Apply, FileWalk, StateOf, Inv, Reachable, StoredEntry;
    var log := ReachableInv(s);
    var s' := Apply(s, w, a);
    var log' := LogAfter(s, log, w);
    StepKeepsInv(s, log, w, a);
    if s.writers[w].pc.OpenRead? && StateOf(s.file) == STATE_SEALED {
      AloneWhenSealed(s, log, w);
    } else {
      FileStays(s, w, a);
      InvScan(s, log);
      InvScan(s', log');
      if s.writers[w].pc.Write? {
        OffsetsOfAppend(log, PlaceNext(log, s.writers[w].pc.e));
      }
      KindStays(s, w, a);
      RecordsStay(s, log, s', log');
    }
  }

  lemma KindStays(s: System, w: nat, a: Action)
    requires w < |s.writers|
    ensures Apply(s, w, a).kind == s.kind
  {}

  /** Records that are still in the log still have their contents. */
  lemma RecordsStay(s: System, log: seq<Placed>, s': System, log': seq<Placed>)
    requires Inv(s, log) && Inv(s', log') && s.file != [] && s'.file != [] && s'.kind == s.kind && log <= log'
    ensures forall off :: off in Offsets(log) ==> StoredEntry(s'.file, s.kind, off) == StoredEntry(s.file, s.kind, off)
  {
    hide Tiled, WritersOk, Exclusive, LifeOk, CountOk, FreeBucketsSettled, StoredEntry;
    var offs := Offsets(log);
    forall off | off in offs ensures StoredEntry(s'.file, s.kind, off) == StoredEntry(s.file, s.kind, off) {
      var i: nat :| i < |offs| && offs[i] == off;
      OffsetAt(log, i);
      StoredAt(s.file, log, s.kind, i);
      StoredAt(s'.file, log', s.kind, i);
    }
  }

  lemma InvScan(s: System, log: seq<Placed>)
    requires Inv(s, log) && s.file != []
    ensures FileWalk(s.file, HEADER_SIZE) == Offsets(log)
  {
    hide FileWalk, WritersOk, Exclusive, LifeOk, CountOk, FreeBucketsSettled, Tiled;
    ScanIsLog(s.file, log);
  }

  lemma FileStays(s: System, w: nat, a: Action)
    requires Enabled(s, w, a) && s.file != []
    ensures Apply(s, w, a).file != []
  {
    InitialHeaderSize(s.kind, 0);
    hide InitialHeader, Serialise, HeadSlot, TailSlot;
    InitialNotEmpty();
  }

  lemma InitialHeaderSize(kind: Kind, now: nat)
    ensures |InitialHeader(kind, now)| == HEADER_SIZE
  {
    InitialHeaderFields(kind, now);
  }

  lemma InitialNotEmpty()
    ensures forall kind, now: nat :: InitialHeader(kind, now) != []
  {
    forall kind, now: nat ensures InitialHeader(kind, now) != [] {
      InitialHeaderSize(kind, now);
    }
  }

  /** No run reaches an error return: no chain walk, comparison or size read ever goes wrong. */
  lemma NobodyFails(s: System, w: nat)
    requires Reachable(s) && w < |s.writers|
    ensures !s.writers[w].pc.Failed?
  {
    hide Contents, Exclusive, LifeOk, CountOk, FreeBucketsSettled, BucketWork, Reachable;
    var log := ReachableInv(s);
  }

  /** Once every process has closed it, the file is a complete sealed snapshot with an exact RECORD_COUNT. */
  lemma ClosedMeansComplete(s: System) returns (log: seq<Placed>)
    requires Reachable(s) && s.file != [] && forall w :: 0 <= w < |s.writers| ==> s.writers[w].pc.Closed?
    ensures Snapshot(s.file, log, s.kind)
    ensures StateOf(s.file) == STATE_SEALED && ActiveWriters(s.file) == 0
    ensures RecordCount(s.file) == |FileWalk(s.file, HEADER_SIZE)|
  {
    hide Contents, Shape, StateOf, ActiveWriters, RecordCount, FileWalk, Reachable;
    log := ReachableInv(s);
    RecordsAreCounted(s);
    AllClosed(s, log);
    forall b: BucketId ensures Unheld(s.writers, b) {}
  }

  lemma AllClosed(s: System, log: seq<Placed>)
    requires Inv(s, log) && s.file != [] && forall w :: 0 <= w < |s.writers| ==> s.writers[w].pc.Closed?
    ensures Total(s.writers) == Tally(0, 0) && !Sealing(s.writers)
  {
    hide Contents, LifeOk, CountOk, FreeBucketsSettled, Exclusive;
    TotalOfNobody(s.writers);
  }
}
