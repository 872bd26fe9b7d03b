/** Every call of a process that finds its lock free can be carried through, and what it leaves behind. */
module WriterSolo {
  import opened Memory
  import opened Format
  import opened Records
  import opened Index
  import opened Writers
  import opened WriterInvariant
  import opened WriterSteps
  import opened WriterRuns
  import opened WriterCalls

  // ------------------------------------------------------------------ steps of one process

  lemma StepReachable(s: System, w: nat, a: Action)
    requires Reachable(s) && Enabled(s, w, a)
    ensures w < |s.writers| && Reachable(Apply(s, w, a))
  {
    hide Init, Enabled, Apply, Next;
    WriterExists(s, w, a);
    var run :| IsRun(run) && run[|run| - 1] == s;
    StepIsNext(s, w, a);
    ExtendRun(run, Apply(s, w, a));
  }

  lemma StepIsNext(s: System, w: nat, a: Action)
    requires Enabled(s, w, a) && w < |s.writers|
    ensures Next(s, Apply(s, w, a))
  {
    hide Apply, Enabled;
  }

  lemma ExtendRun(run: seq<System>, s': System)
    requires IsRun(run) && Next(run[|run| - 1], s')
    ensures IsRun(run + [s'])
  {
    hide Init, Next;
    var longer := run + [s'];
    forall i | 0 <= i < |longer| - 1 ensures Next(longer[i], longer[i + 1]) {
      if i < |run| - 1 {
        assert longer[i] == run[i] && longer[i + 1] == run[i + 1];
      }
    }
  }

  /** Nothing but its own call holds up a process inside one. */
  lemma GoesOn(s: System, w: nat)
    requires w < |s.writers| && var pc := s.writers[w].pc; !pc.Closed? && !pc.Idle? && !pc.Failed?
    requires s.writers[w].pc.Write? ==> |s.file| + Size(s.writers[w].pc.e) < EMPTY_BUCKET
    ensures Enabled(s, w, Proceed(0))
  {}

  // ------------------------------------------------------------------ which locks hold up whom

  predicate Opening(pc: Pc) { pc.OpenRead? || pc.OpenBump? || pc.OpenUnlock? }

  /** A bucket's lock byte is taken by whoever works on that bucket, and by whoever has locked the whole header to open
      the file; by nobody else. */
  lemma BucketFreeExactly(s: System, w: nat, e: Entry)
    requires w < |s.writers|
    ensures LockFree(s, w, Target(s, w, Begin(e))) <==>
              forall v :: 0 <= v < |s.writers| && v != w ==>
                !Opening(s.writers[v].pc)
                && !(s.writers[v].pc.InBucket() && BucketOf(s.writers[v].pc.e) == BucketOf(e))
  {
    forall v | 0 <= v < |s.writers|
      ensures Overlap(Held(s.writers[v].pc), Target(s, w, Begin(e))) <==>
                Opening(s.writers[v].pc) || (s.writers[v].pc.InBucket() && BucketOf(s.writers[v].pc.e) == BucketOf(e))
    {}
  }

  /** The whole header is free only if nobody else is inside any call that locks. */
  lemma HeaderFreeExactly(s: System, w: nat, now: nat)
    requires w < |s.writers|
    ensures LockFree(s, w, Target(s, w, Open(now))) <==>
              forall v :: 0 <= v < |s.writers| && v != w ==>
                s.writers[v].pc.Closed? || s.writers[v].pc.Idle? || s.writers[v].pc.Failed?
  {
    forall v | 0 <= v < |s.writers|
      ensures Overlap(Held(s.writers[v].pc), Target(s, w, Open(now))) <==>
                !(s.writers[v].pc.Closed? || s.writers[v].pc.Idle? || s.writers[v].pc.Failed?)
    {}
  }

  // ------------------------------------------------------------------ an append

  /** How much of the call lies ahead. */
  function Ahead(file: Bytes, pc: Pc): nat {
    match pc
    case ReadHead(_) => 2 * |file| + 10
    case Compare(_, off) => if off <= |file| then 2 * (|file| - off) + 9 else 9
    case Follow(_, off) => if off <= |file| then 2 * (|file| - off) + 8 else 8
    case Write(_) => 7
    case GetHead(_, _) => 6
    case SetHead(_, _) => 5
    case GetTail(_, _) => 4
    case SetTail(_, _, _) => 3
    case GetSize(_, _, _) => 2
    case SetLink(_, _, _) => 1
    case _ => 0
  }

  lemma AheadFalls(s: System, log: seq<Placed>, w: nat)
    requires Inv(s, log) && w < |s.writers| && s.writers[w].pc.InBucket() && !s.writers[w].pc.Unlock?
    ensures var after := AppendStepOf(s.file, s.writers[w].pc);
            after.InBucket() ==> Ahead(FileAfter(s.file, s.kind, s.writers[w], Proceed(0)), after) < Ahead(s.file, s.writers[w].pc)
  {
    hide Inv, Shape, Tiled, CompareEntries, NextEntry, U32At, Serialise, SetWord, Chain;
    var pc := s.writers[w].pc;
    InsideAppend(s, log, w);
    if pc.Follow? {
      FollowFalls(s.file, log, pc);
    }
  }

  lemma FollowFalls(f: Bytes, log: seq<Placed>, pc: Pc)
    requires pc.Follow? && Tiled(f, log) && Shape(f, Chain(log, BucketOf(pc.e)), BucketOf(pc.e), Settled)
    requires LocalsOk(f, Chain(log, BucketOf(pc.e)), pc)
    ensures var next := NextEntry(f, pc.off, true);
            next == 0 || (pc.off < next && next <= |f| && pc.off <= |f|)
  {
    hide Tiled, Shape, NextEntry, Chain;
    var chain := Chain(log, BucketOf(pc.e));
    var k: nat :| ScanPast(chain, pc.e, pc.off, k);
    NextInChain(f, log, BucketOf(pc.e), k);
    ChainInside(f, log, BucketOf(pc.e));
  }

  /** The records the file has gained so far. */
  ghost predicate Gained(before: seq<Placed>, log: seq<Placed>, size: nat, pc: Pc)
    requires pc.InBucket()
  {
    if pc.Uncounted() then log == before + [Placed(size, pc.e)] else log == before
  }

  /** From anywhere inside its call to the point where it unlocks the bucket, a process needs nobody else. */
  lemma {:induction false} CarryOn(s: System, before: seq<Placed>, log: seq<Placed>, size: nat, w: nat)
    returns (t: System, last: seq<Placed>)
    requires Reachable(s) && Inv(s, log) && w < |s.writers| && s.writers[w].pc.InBucket()
    requires SoFar(Chain(before, BucketOf(s.writers[w].pc.e)), Chain(log, BucketOf(s.writers[w].pc.e)), s.writers[w].pc)
    requires Gained(before, log, size, s.writers[w].pc) && size + Size(s.writers[w].pc.e) < EMPTY_BUCKET
    requires !s.writers[w].pc.Uncounted() ==> |s.file| == size
    ensures Reachable(t) && Inv(t, last) && t.kind == s.kind
    ensures w < |t.writers| && t.writers == s.writers[w := t.writers[w]] && t.writers[w].frames == s.writers[w].frames
    ensures t.writers[w].pc.Unlock? && t.writers[w].pc.e == s.writers[w].pc.e
    ensures SoFar(Chain(before, BucketOf(s.writers[w].pc.e)), Chain(last, BucketOf(s.writers[w].pc.e)), t.writers[w].pc)
    ensures Gained(before, last, size, t.writers[w].pc)
    decreases Ahead(s.file, s.writers[w].pc)
  {
    hide Inv, Apply, Enabled, SoFar, Chain, BucketOf, Ahead, AppendStepOf, LogAfter, Size, FileAfter, Gained;
    if s.writers[w].pc.Unlock? {
      t, last := s, log;
    } else {
      var e := s.writers[w].pc.e;
      RoomToWrite(s, before, log, size, w);
      GoesOn(s, w);
      StepReachable(s, w, Proceed(0));
      StepKeepsInv(s, log, w, Proceed(0));
      OwnStep(s, log, w, Proceed(0), Chain(before, BucketOf(e)));
      CallStepIs(s, w, Proceed(0));
      AheadFalls(s, log, w);
      GainedStep(s, before, log, size, w);
      var s', log' := Apply(s, w, Proceed(0)), LogAfter(s, log, w);
      t, last := CarryOn(s', before, log', size, w);
      assert s'.writers[w := t.writers[w]] == s.writers[w := t.writers[w]];
    }
  }

  lemma RoomToWrite(s: System, before: seq<Placed>, log: seq<Placed>, size: nat, w: nat)
    requires w < |s.writers| && s.writers[w].pc.InBucket() && (!s.writers[w].pc.Uncounted() ==> |s.file| == size)
    requires size + Size(s.writers[w].pc.e) < EMPTY_BUCKET
    ensures s.writers[w].pc.Write? ==> |s.file| + Size(s.writers[w].pc.e) < EMPTY_BUCKET
    ensures !s.writers[w].pc.Closed? && !s.writers[w].pc.Idle? && !s.writers[w].pc.Failed?
  {}

  lemma GainedStep(s: System, before: seq<Placed>, log: seq<Placed>, size: nat, w: nat)
    requires Inv(s, log) && w < |s.writers| && s.writers[w].pc.InBucket() && !s.writers[w].pc.Unlock?
    requires Gained(before, log, size, s.writers[w].pc) && (!s.writers[w].pc.Uncounted() ==> |s.file| == size)
    requires AppendStepOf(s.file, s.writers[w].pc).InBucket()
    ensures var s' := Apply(s, w, Proceed(0));
            && s'.kind == s.kind && s'.file == FileAfter(s.file, s.kind, s.writers[w], Proceed(0))
            && AppendStepOf(s.file, s.writers[w].pc).e == s.writers[w].pc.e
            && Gained(before, LogAfter(s, log, w), size, AppendStepOf(s.file, s.writers[w].pc))
            && (!AppendStepOf(s.file, s.writers[w].pc).Uncounted() ==> |s'.file| == size)
  {
    hide Inv, Shape, Tiled, CompareEntries, NextEntry, U32At, Serialise, SetWord, Chain;
    InsideAppend(s, log, w);
    EndIsSize(s.file, log);
  }

  /** A process that has the file open, is in a directory, and finds the bucket of its entry free can append the entry
      all by itself: at the end it is idle again, all others are where they were; the file is as it was if a record with
      the same path and hash, or the same PID, was there, and otherwise it has got that one record more, at its end, and
      the innermost counter one more. */
  lemma SoloAppend(s: System, w: nat, e: Entry) returns (t: System)
    requires Reachable(s) && s.file != [] && Enabled(s, w, Begin(e)) && s.writers[w].pc.Idle?
    requires |s.file| + Size(e) < EMPTY_BUCKET
    ensures Reachable(t) && t.kind == s.kind && t.file != []
    ensures var there := exists off :: off in FileWalk(s.file, HEADER_SIZE) && HasIdentity(s.file, s.kind, off, e);
            && t.writers == s.writers[w := Writer(Idle, Bump(s.writers[w].frames, if there then 0 else 1))]
            && FileWalk(t.file, HEADER_SIZE) == FileWalk(s.file, HEADER_SIZE) + (if there then [] else [|s.file|])
            && (!there ==> RecordAt(t.file, |s.file|, e))
  {
    hide Inv, Reachable, Enabled, LockFree, SoFar, Chain, FileWalk, RecordAt, HasIdentity, Gained, Present, BucketOf, Size;
    var log := ReachableInv(s);
    StepReachable(s, w, Begin(e));
    StepKeepsInv(s, log, w, Begin(e));
    var begun := Apply(s, w, Begin(e));
    AtBegin(s, log, w, e);
    var u, last := CarryOn(begun, log, log, |s.file|, w);
    GoesOn(u, w);
    StepReachable(u, w, Proceed(0));
    t := Apply(u, w, Proceed(0));
    AtEnd(u, log, last, |s.file|, w);
    KeyInFile(s, log, e);
    InvScan(s, log);
    InvScan(u, last);
    assert t.writers == s.writers[w := t.writers[w]];
  }

  lemma AtBegin(s: System, log: seq<Placed>, w: nat, e: Entry)
    requires Inv(s, log) && s.file != [] && Enabled(s, w, Begin(e)) && s.writers[w].pc.Idle?
    ensures w < |s.writers| && s.writers[w].frames != [] && WellFormed(e) && KindOf(e) == s.kind
    ensures var begun := Apply(s, w, Begin(e));
            && begun.file == s.file && begun.kind == s.kind && LogAfter(s, log, w) == log
            && begun.writers == s.writers[w := Writer(ReadHead(e), s.writers[w].frames)]
    ensures SoFar(Chain(log, BucketOf(e)), Chain(log, BucketOf(e)), ReadHead(e)) && Gained(log, log, |s.file|, ReadHead(e))
  {
    hide Inv, LockFree;
  }

  /** What the last step before unlocking tells. */
  lemma AtEnd(u: System, log: seq<Placed>, last: seq<Placed>, size: nat, w: nat)
    requires Inv(u, last) && w < |u.writers| && u.writers[w].pc.Unlock?
    requires SoFar(Chain(log, BucketOf(u.writers[w].pc.e)), Chain(last, BucketOf(u.writers[w].pc.e)), u.writers[w].pc)
    requires Gained(log, last, size, u.writers[w].pc)
    ensures var t, e, there := Apply(u, w, Proceed(0)), u.writers[w].pc.e, u.writers[w].pc.duplicate;
            && t.file == u.file && t.kind == u.kind && u.file != []
            && t.writers == u.writers[w := Writer(Idle, Bump(u.writers[w].frames, if there then 0 else 1))]
            && last == log + (if there then [] else [Placed(size, e)])
            && Offsets(last) == Offsets(log) + (if there then [] else [size])
            && (there <==> Present(log, KeyOf(e)))
            && (!there ==> RecordAt(u.file, size, e))
  {
    hide Inv, Shape, LockFree, RecordAt, Chain, LocalsOk;
    InsideAppend(u, last, w);
    var e := u.writers[w].pc.e;
    InChainInLog(log, e);
    if !u.writers[w].pc.duplicate {
      OffsetsOfAppend(log, Placed(size, e));
      assert last[|log|] == Placed(size, e);
    }
  }

  /** A key is in the whole file exactly if it is in its bucket. */
  lemma InChainInLog(log: seq<Placed>, e: Entry)
    ensures Present(Chain(log, BucketOf(e)), KeyOf(e)) <==> Present(log, KeyOf(e))
  {
    ChainMembers(log, BucketOf(e));
    if p :| p in log && KeyOf(p.entry) == KeyOf(e) {
      EqualKeysShareABucket(p.entry, e);
      assert p in Chain(log, BucketOf(e));
    }
  }

  lemma KeyInFile(s: System, log: seq<Placed>, e: Entry)
    requires Inv(s, log) && s.file != []
    ensures Present(log, KeyOf(e)) <==>
              exists off :: off in FileWalk(s.file, HEADER_SIZE) && HasIdentity(s.file, s.kind, off, e)
  {
    hide Tiled, WritersOk, Exclusive, LifeOk, CountOk, FreeBucketsSettled, StoredEntry, FileWalk;
    InvScan(s, log);
    forall i: nat | i < |log|
      ensures Offsets(log)[i] == log[i].off
      ensures HasIdentity(s.file, s.kind, log[i].off, e) <==> KeyOf(log[i].entry) == KeyOf(e)
    {
      OffsetAt(log, i);
      StoredAt(s.file, log, s.kind, i);
      KeyIsIdentity(e, Relevant(log[i].entry));
      RelevantKey(log[i].entry);
    }
    if p :| p in log && KeyOf(p.entry) == KeyOf(e) {
      var i: nat :| i < |log| && log[i] == p;
      assert Offsets(log)[i] in Offsets(log);
    }
    if off :| off in Offsets(log) && HasIdentity(s.file, s.kind, off, e) {
      var i: nat :| i < |log| && Offsets(log)[i] == off;
      assert log[i] in log;
    }
  }

  // ------------------------------------------------------------------ opening, counting, closing

  /** The next step inside such a call, which keeps the records there are. */
  lemma GoOn(s: System, log: seq<Placed>, w: nat) returns (t: System)
    requires Reachable(s) && Inv(s, log) && w < |s.writers| && !s.writers[w].pc.InBucket()
    requires var pc := s.writers[w].pc; !pc.Closed? && !pc.Idle? && !pc.Failed?
    ensures Reachable(t) && t == Apply(s, w, Proceed(0)) && Inv(t, LogAfter(s, log, w))
    ensures t.writers == s.writers[w := WriterAfter(s.file, s.writers[w], Proceed(0))] && t.kind == s.kind
  {
    hide Reachable, Inv, Enabled, WriterAfter, FileAfter, LogAfter;
    GoesOn(s, w);
    StepReachable(s, w, Proceed(0));
    StepKeepsInv(s, log, w, Proceed(0));
    t := Apply(s, w, Proceed(0));
  }

  /** The first step of such a call. */
  lemma BeginCall(s: System, log: seq<Placed>, w: nat, a: Action) returns (t: System)
    requires Reachable(s) && Inv(s, log) && Enabled(s, w, a) && s.file != [] && !s.writers[w].pc.OpenRead?
    requires s.writers[w].pc.Closed? || s.writers[w].pc.Idle?
    ensures Reachable(t) && Inv(t, log) && t.file == s.file && t.kind == s.kind
    ensures w < |s.writers| && t.writers == s.writers[w := WriterAfter(s.file, s.writers[w], a)]
  {
    hide Reachable, Inv, Enabled, WriterAfter;
    StepReachable(s, w, a);
    StepKeepsInv(s, log, w, a);
    t := Apply(s, w, a);
  }

  lemma SealAndHandles(s: System, log: seq<Placed>)
    requires Inv(s, log) && s.file != []
    ensures ActiveWriters(s.file) == Total(s.writers).registered
    ensures RecordCount(s.file) + Total(s.writers).pending == |FileWalk(s.file, HEADER_SIZE)|
    ensures FileWalk(s.file, HEADER_SIZE) == Offsets(log)
    ensures !Sealing(s.writers) ==> StateOf(s.file) == if ActiveWriters(s.file) == 0 then 83 else 79
  {
    hide Contents, WritersOk, Exclusive, FreeBucketsSettled, FileWalk, Tiled;
    InvScan(s, log);
  }

  lemma ClosedHasNoFrames(s: System, log: seq<Placed>, w: nat)
    requires Inv(s, log) && w < |s.writers| && s.writers[w].pc.Closed?
    ensures s.writers[w].frames == []
  {
    hide Contents, Exclusive, LifeOk, CountOk, FreeBucketsSettled, BucketWork;
  }

  /** Whoever seals the file has locked the counters, so nobody opens, closes or seals beside it. */
  lemma NobodyElseSeals(s: System, log: seq<Placed>, w: nat)
    requires Inv(s, log) && s.file != [] && w < |s.writers|
    requires Opening(s.writers[w].pc) || s.writers[w].pc.CloseUnlock?
    ensures !Sealing(s.writers)
  {
    hide Contents, WritersOk, LifeOk, CountOk, FreeBucketsSettled;
    forall v | 0 <= v < |s.writers| ensures !s.writers[v].pc.CloseSeal? {
      assert v != w ==> !Overlap(Held(s.writers[v].pc), Held(s.writers[w].pc));
    }
  }

  lemma NobodySealsAfter(ws: seq<Writer>, w: nat, wr: Writer)
    requires w < |ws| && !Sealing(ws) && !wr.pc.CloseSeal?
    ensures !Sealing(ws[w := wr])
  {}

  /** A process that finds an open snapshot with its header unlocked can open it: one more active writer, and the same
      records. */
  lemma SoloOpen(s: System, w: nat) returns (t: System)
    requires Reachable(s) && s.file != [] && Enabled(s, w, Open(0)) && s.writers[w].pc.Closed?
    requires StateOf(s.file) == 79   // 'O'
    ensures Reachable(t) && t.writers == s.writers[w := Writer(Idle, [])] && t.file != []
    ensures ActiveWriters(t.file) == ActiveWriters(s.file) + 1 && StateOf(t.file) == 79
    ensures FileWalk(t.file, HEADER_SIZE) == FileWalk(s.file, HEADER_SIZE)
  {
    hide Reachable, LockFree, StateOf, ActiveWriters, FileWalk, Inv, SetWord, KindInHeader, InitialHeader, Total, RecordCount;
    var log := ReachableInv(s);
    ClosedHasNoFrames(s, log, w);
    var u := BeginCall(s, log, w, Open(0));
    u := GoOn(u, log, w);
    u := GoOn(u, log, w);
    FileThere(u, log, w);
    NobodyElseSeals(u, log, w);
    t := GoOn(u, log, w);
    NobodySealsAfter(u.writers, w, Writer(Idle, []));
    FileThere(t, log, w);
    TotalUpdate(s.writers, w, Writer(Idle, []));
    assert t.writers == s.writers[w := Writer(Idle, [])];
    SealAndHandles(s, log);
    SealAndHandles(t, log);
  }

  /** Opening a sealed snapshot starts it afresh: one active writer and no records. */
  lemma SoloReopen(s: System, w: nat) returns (t: System)
    requires Reachable(s) && s.file != [] && Enabled(s, w, Open(0)) && s.writers[w].pc.Closed?
    requires StateOf(s.file) == 83   // 'S'
    ensures Reachable(t) && t.writers == s.writers[w := Writer(Idle, [])] && t.file != []
    ensures ActiveWriters(t.file) == 1 && StateOf(t.file) == 79 && RecordCount(t.file) == 0
    ensures FileWalk(t.file, HEADER_SIZE) == []
  {
    hide Reachable, LockFree, StateOf, ActiveWriters, FileWalk, Inv, SetWord, KindInHeader, InitialHeader, Total, RecordCount;
    var log := ReachableInv(s);
    ClosedHasNoFrames(s, log, w);
    var u := BeginCall(s, log, w, Open(0));
    AloneWhenSealed(u, log, w);
    u := GoOn(u, log, w);
    FileThere(u, [], w);
    NobodyElseSeals(u, [], w);
    t := GoOn(u, [], w);
    NobodySealsAfter(u.writers, w, Writer(Idle, []));
    FileThere(t, [], w);
    OnlyOne(t.writers, w);
    SealAndHandles(t, []);
  }

  lemma OnlyOne(ws: seq<Writer>, w: nat)
    requires w < |ws| && ws[w] == Writer(Idle, [])
    requires forall v :: 0 <= v < |ws| && v != w ==> ws[v] == Writer(Closed, [])
    ensures Total(ws) == Tally(1, 0)
  {
    var out := ws[w := Writer(Closed, [])];
    TotalOfNobody(out);
    TotalUpdate(out, w, ws[w]);
    assert out[w := ws[w]] == ws;
  }

  lemma FileThere(s: System, log: seq<Placed>, w: nat)
    requires Inv(s, log) && w < |s.writers| && !s.writers[w].pc.Closed?
    ensures s.file != []
  {
    hide Contents, WritersOk, Exclusive, LifeOk, CountOk, FreeBucketsSettled;
  }

  /** At the end of a directory, a process that finds RECORD_COUNT unlocked adds its innermost counter to it. */
  lemma SoloReturn(s: System, w: nat) returns (t: System)
    requires Reachable(s) && s.file != [] && Enabled(s, w, Return) && s.writers[w].pc.Idle?
    ensures Reachable(t) && s.writers[w].frames != [] && t.file != []
    ensures var frames := s.writers[w].frames;
            && t.writers == s.writers[w := Writer(Idle, frames[..|frames| - 1])]
            && RecordCount(t.file) == RecordCount(s.file) + frames[|frames| - 1]
    ensures FileWalk(t.file, HEADER_SIZE) == FileWalk(s.file, HEADER_SIZE)
  {
    hide Reachable, LockFree, StateOf, ActiveWriters, FileWalk, Inv, SetWord, Total, RecordCount;
    var log := ReachableInv(s);
    var frames := s.writers[w].frames;
    var u := BeginCall(s, log, w, Return);
    u := GoOn(u, log, w);
    u := GoOn(u, log, w);
    t := GoOn(u, log, w);
    FileThere(t, log, w);
    var wr := Writer(Idle, frames[..|frames| - 1]);
    TotalUpdate(s.writers, w, wr);
    assert t.writers == s.writers[w := wr];
    SealAndHandles(s, log);
    SealAndHandles(t, log);
  }

  /** A process that is done and finds STATE and ACTIVE_WRITERS unlocked can close the file: one active writer fewer, the
      same records, and the file is sealed exactly if that was the last one. */
  lemma SoloClose(s: System, w: nat) returns (t: System)
    requires Reachable(s) && s.file != [] && Enabled(s, w, Close) && s.writers[w].pc.Idle?
    ensures Reachable(t) && t.writers == s.writers[w := Writer(Closed, [])] && t.file != []
    ensures ActiveWriters(t.file) == ActiveWriters(s.file) - 1
    ensures StateOf(t.file) == if ActiveWriters(t.file) == 0 then 83 else 79   // 'S', 'O'
    ensures FileWalk(t.file, HEADER_SIZE) == FileWalk(s.file, HEADER_SIZE)
  {
    hide Reachable, LockFree, StateOf, ActiveWriters, FileWalk, Inv, SetWord, Total, RecordCount;
    var log := ReachableInv(s);
    var u := BeginCall(s, log, w, Close);
    u := GoOn(u, log, w);
    u := GoOn(u, log, w);
    if u.writers[w].pc.CloseSeal? {
      u := GoOn(u, log, w);
    }
    FileThere(u, log, w);
    NobodyElseSeals(u, log, w);
    t := GoOn(u, log, w);
    NobodySealsAfter(u.writers, w, Writer(Closed, []));
    TotalUpdate(s.writers, w, Writer(Closed, []));
    assert t.writers == s.writers[w := Writer(Closed, [])];
    SealAndHandles(s, log);
    SealAndHandles(t, log);
  }
}
