/** One call of append_fileops_entry or append_proc_entry among any number of other processes: what it has done by the
    time it unlocks the bucket. */
module WriterCalls {
  import opened Memory
  import opened Format
  import opened Records
  import opened Index
  import opened Writers
  import opened WriterInvariant
  import opened WriterSteps
  import opened WriterRuns

  // ------------------------------------------------------------------ how far a call has got

  /** With the bucket holding `before` when it was locked and `now` at this point: until the write nothing has been added;
      from then on exactly the entry has, whose key was not there before; and a call that ends without a write has found
      its key. */
  ghost predicate SoFar(before: seq<Placed>, now: seq<Placed>, pc: Pc)
    requires pc.InBucket()
  {
    match pc
    case ReadHead(_) | Compare(_, _) | Follow(_, _) => now == before
    case Write(e) => now == before && !Present(before, KeyOf(e))
    case Unlock(e, duplicate) =>
      if duplicate then now == before && Present(before, KeyOf(e))
      else !Present(before, KeyOf(e)) && |now| == |before| + 1 && now[..|before|] == before && now[|before|].entry == e
    case _ => !Present(before, KeyOf(pc.e)) && now == before + [Placed(pc.pos, pc.e)]
  }

  lemma NotAmongIsAbsent(chain: seq<Placed>, e: Entry)
    ensures NotAmong(chain, |chain|, e) ==> !Present(chain, KeyOf(e))
  {}

  /** The scan goes on, finds the key, or has ruled it out. */
  lemma ScanSoFar(before: seq<Placed>, file: Bytes, pc: Pc, after: Pc)
    requires (pc.ReadHead? || pc.Compare? || pc.Follow?) && after == AppendStepOf(file, pc) && after.InBucket()
    requires SoFar(before, before, pc) && LocalsOk(file, before, after)
    ensures after.e == pc.e && SoFar(before, before, after)
  {
    hide U32At, CompareEntries, NextEntry, Present, KeyOf;
    NotAmongIsAbsent(before, pc.e);
  }

  lemma WriteSoFar(before: seq<Placed>, file: Bytes, pc: Pc, p: Placed)
    requires pc.Write? && SoFar(before, before, pc) && p == Placed(|file|, pc.e)
    ensures SoFar(before, before + [p], AppendStepOf(file, pc))
  {
    hide Present, KeyOf;
  }

  /** Updating the index changes nothing about it. */
  lemma IndexSoFar(before: seq<Placed>, now: seq<Placed>, file: Bytes, pc: Pc, after: Pc)
    requires pc.InBucket() && !pc.ReadHead? && !pc.Compare? && !pc.Follow? && !pc.Write? && !pc.Unlock?
    requires after == AppendStepOf(file, pc) && after.InBucket() && SoFar(before, now, pc)
    ensures after.e == pc.e && SoFar(before, now, after)
  {
    hide U32At, Present, KeyOf;
  }

  lemma CallStepIs(s: System, w: nat, a: Action)
    requires w < |s.writers| && s.writers[w].pc.InBucket() && !s.writers[w].pc.Unlock?
    ensures Apply(s, w, a).writers == s.writers[w := Writer(AppendStepOf(s.file, s.writers[w].pc), s.writers[w].frames)]
  {
    hide AppendStepOf, FileAfter;
  }

  /** A step of the caller itself. */
  lemma OwnStep(s: System, log: seq<Placed>, w: nat, a: Action, before: seq<Placed>)
    requires Inv(s, log) && Enabled(s, w, a) && s.writers[w].pc.InBucket() && !s.writers[w].pc.Unlock?
    requires SoFar(before, Chain(log, BucketOf(s.writers[w].pc.e)), s.writers[w].pc)
    ensures var pc := Apply(s, w, a).writers[w].pc;
            && pc.InBucket() && pc.e == s.writers[w].pc.e
            && SoFar(before, Chain(LogAfter(s, log, w), BucketOf(pc.e)), pc)
  {
    hide Inv, Shape, Apply, AppendStepOf, SoFar, Present, WellFormed, Chain, BucketOf, Enabled, LocalsOk, StateOf, LockFree;
    WriterExists(s, w, a);
    var pc, s' := s.writers[w].pc, Apply(s, w, a);
    var log', b := LogAfter(s, log, w), BucketOf(pc.e);
    CallGoesOn(s, log, w, a);
    CallStepIs(s, w, a);
    if pc.Write? {
      InsideAppend(s, log, w);
      EndIsSize(s.file, log);
      ChainOfAppend(log, PlaceNext(log, pc.e), b);
      BeforeWrite(before, Chain(log, b), pc);
      WriteSoFar(before, s.file, pc, PlaceNext(log, pc.e));
    } else if pc.ReadHead? || pc.Compare? || pc.Follow? {
      StepKeepsInv(s, log, w, a);
      InsideAppend(s', log', w);
      BeforeWrite(before, Chain(log, b), pc);
      SameFile(s, w, a);
      ScanSoFar(before, s.file, pc, s'.writers[w].pc);
    } else {
      IndexSoFar(before, Chain(log, b), s.file, pc, s'.writers[w].pc);
    }
  }

  lemma BeforeWrite(before: seq<Placed>, now: seq<Placed>, pc: Pc)
    requires (pc.ReadHead? || pc.Compare? || pc.Follow? || pc.Write?) && SoFar(before, now, pc)
    ensures now == before
  {}

  lemma SameFile(s: System, w: nat, a: Action)
    requires w < |s.writers| && (s.writers[w].pc.ReadHead? || s.writers[w].pc.Compare? || s.writers[w].pc.Follow?)
    ensures Apply(s, w, a).file == s.file
  {
    hide AppendStepOf;
  }

  lemma CallGoesOn(s: System, log: seq<Placed>, w: nat, a: Action)
    requires Inv(s, log) && Enabled(s, w, a) && s.writers[w].pc.InBucket() && !s.writers[w].pc.Unlock?
    ensures var pc := Apply(s, w, a).writers[w].pc;
            pc.InBucket() && pc.e == s.writers[w].pc.e && w < |Apply(s, w, a).writers|
  {
    hide Inv, CompareEntries, NextEntry, LockFree;
    StepKeepsInv(s, log, w, a);
    NoFailure(Apply(s, w, a), LogAfter(s, log, w), w);
  }

  lemma NoFailure(s: System, log: seq<Placed>, w: nat)
    requires Inv(s, log) && w < |s.writers|
    ensures !s.writers[w].pc.Failed?
  {
    hide Contents, Exclusive, LifeOk, CountOk, FreeBucketsSettled, BucketWork;
  }

  /** A step of another process leaves the bucket alone. */
  lemma OtherStep(s: System, log: seq<Placed>, w: nat, v: nat, a: Action)
    requires Inv(s, log) && Enabled(s, v, a) && w < |s.writers| && v != w && s.writers[w].pc.InBucket()
    ensures Apply(s, v, a).writers[w] == s.writers[w]
    ensures Chain(LogAfter(s, log, v), BucketOf(s.writers[w].pc.e)) == Chain(log, BucketOf(s.writers[w].pc.e))
  {
    hide Contents, Shape, LifeOk, CountOk, FreeBucketsSettled, LockFree, StateOf, Chain;
    if s.writers[v].pc.Write? {
      OtherBucket(s.writers, v, w);
      ChainOfAppend(log, PlaceNext(log, s.writers[v].pc.e), BucketOf(s.writers[w].pc.e));
    } else if s.writers[v].pc.OpenRead? && StateOf(s.file) == STATE_SEALED {
      AloneWhenSealed(s, log, v);
    }
  }

  // ------------------------------------------------------------------ a whole call

  /** Process w is inside one call of append from state i to state j of the run, and began it at i. */
  ghost predicate InCall(run: seq<System>, i: nat, j: nat, w: nat) {
    && IsRun(run) && i <= j < |run|
    && (forall k :: i <= k <= j ==> w < |run[k].writers| && run[k].writers[w].pc.InBucket())
    && run[i].writers[w].pc.ReadHead?
  }

  lemma {:induction false} CallSoFar(run: seq<System>, i: nat, j: nat, w: nat)
    returns (first: seq<Placed>, log: seq<Placed>)
    requires InCall(run, i, j, w)
    ensures Inv(run[i], first) && Inv(run[j], log)
    ensures var e, pc := run[i].writers[w].pc.e, run[j].writers[w].pc;
            pc.e == e && SoFar(Chain(first, BucketOf(e)), Chain(log, BucketOf(e)), pc)
    decreases j
  {
    hide Inv, SoFar, Init, Apply, BucketOf, Chain, LockFree;
    if i == j {
      first := RunKeepsInv(run, i);
      log := first;
      AtFirst(Chain(first, BucketOf(run[i].writers[w].pc.e)), run[i].writers[w].pc);
    } else {
      var before: seq<Placed>;
      first, before := CallSoFar(run, i, j - 1, w);
      assert Next(run[j - 1], run[j - 1 + 1]);
      var v: nat, a :| Enabled(run[j - 1], v, a) && run[j] == Apply(run[j - 1], v, a);
      WriterExists(run[j - 1], v, a);
      StepKeepsInv(run[j - 1], before, v, a);
      log := LogAfter(run[j - 1], before, v);
      if v == w {
        UnlockLeaves(run[j - 1], w, a);
        OwnStep(run[j - 1], before, w, a, Chain(first, BucketOf(run[i].writers[w].pc.e)));
      } else {
        OtherStep(run[j - 1], before, w, v, a);
      }
    }
  }

  lemma AtFirst(chain: seq<Placed>, pc: Pc)
    requires pc.ReadHead?
    ensures SoFar(chain, chain, pc)
  {}

  lemma UnlockLeaves(s: System, w: nat, a: Action)
    requires w < |s.writers|
    ensures s.writers[w].pc.Unlock? ==> !Apply(s, w, a).writers[w].pc.InBucket()
  {}

  /** The offset of a record with the same path and hash, or the same PID. */
  ghost predicate HasIdentity(file: Bytes, kind: Kind, off: nat, e: Entry) {
    var x := StoredEntry(file, kind, off);
    || (x.Idx? && e.Idx? && x.path == e.path && x.hash == e.hash)
    || (x.Proc? && e.Proc? && x.pid == e.pid)
  }

  /** What a call of append does, whatever other processes do meanwhile. When it is about to unlock the bucket it has
      found a duplicate exactly if a record of the bucket had the same path and hash, or the same PID, when the bucket
      was locked. Then the bucket is as it was; otherwise it has got exactly one more record, the entry, at its end. */
  lemma AppendCall(run: seq<System>, i: nat, j: nat, w: nat, e: Entry, duplicate: bool)
    requires InCall(run, i, j, w) && run[i].writers[w].pc == ReadHead(e) && run[j].writers[w].pc.Unlock?
    requires duplicate == run[j].writers[w].pc.duplicate
    ensures run[j].writers[w].pc.e == e
    ensures e.Idx? ==>
              (duplicate <==> exists off :: off in BucketWalk(run[i].file, BucketOf(e)) &&
                                            var x := StoredEntry(run[i].file, run[i].kind, off);
                                            x.Idx? && x.path == e.path && x.hash == e.hash)
    ensures e.Proc? ==>
              (duplicate <==> exists off :: off in BucketWalk(run[i].file, BucketOf(e)) &&
                                            var x := StoredEntry(run[i].file, run[i].kind, off);
                                            x.Proc? && x.pid == e.pid)
    ensures var before, after := BucketWalk(run[i].file, BucketOf(e)), BucketWalk(run[j].file, BucketOf(e));
            if duplicate then after == before
            else exists pos :: after == before + [pos] && RecordAt(run[j].file, pos, e)
  {
    hide Inv, SoFar, BucketWalk, StoredEntry, RecordAt, Present, BucketOf, Chain, Shape, IsRun, Next;
    var b := BucketOf(e);
    var first, log := CallSoFar(run, i, j, w);
    var before, after := Chain(first, b), Chain(log, b);
    HeldWalk(run[i], first, w);
    HeldWalk(run[j], log, w);
    AtUnlock(before, after, run[j].writers[w].pc);
    StoredIdentity(run[i], first, w, e);
    if duplicate {
    } else {
      assert after == before + [after[|before|]];
      OffsetsOfAppend(before, after[|before|]);
      NewestStored(run[j], log, w, after[|before|]);
    }
  }

  lemma AtUnlock(before: seq<Placed>, now: seq<Placed>, pc: Pc)
    requires pc.Unlock? && SoFar(before, now, pc)
    ensures pc.duplicate <==> Present(before, KeyOf(pc.e))
    ensures if pc.duplicate then now == before
            else |now| == |before| + 1 && now[..|before|] == before && now[|before|].entry == pc.e
  {
    hide Present;
  }

  /** At both ends of a call the bucket is complete, so its links lead through its records. */
  lemma HeldWalk(s: System, log: seq<Placed>, w: nat)
    requires Inv(s, log) && w < |s.writers| && (s.writers[w].pc.ReadHead? || s.writers[w].pc.Unlock?)
    ensures var b := BucketOf(s.writers[w].pc.e);
            BucketWalk(s.file, b) == Offsets(Chain(log, b)) && s.file != [] && KindOf(s.writers[w].pc.e) == s.kind
  {
    hide Inv, Tiled, LocalsOk, BucketWalk, AllOfKind, LockFree, Held, Chain, Shape, Offsets, WellFormed, BucketOf;
    InsideAppend(s, log, w);
    ChainWalk(s.file, log, BucketOf(s.writers[w].pc.e));
  }

  lemma ChainWalk(f: Bytes, log: seq<Placed>, b: BucketId)
    requires Tiled(f, log) && Shape(f, Chain(log, b), b, Settled)
    ensures BucketWalk(f, b) == Offsets(Chain(log, b))
  {
    hide Tiled, NextEntry, Linked, LinkWalk, U32At, TailIs;
    var chain := Chain(log, b);
    if chain == [] {
      FileIsShort(f, log);
      NoWalk(f);
    } else {
      LinkWalkIsChain(f, log, b, 0);
      assert chain[0..] == chain;
    }
  }

  /** A key is present in the bucket exactly if some record met there has that path and hash, or that PID. */
  lemma StoredIdentity(s: System, log: seq<Placed>, w: nat, e: Entry)
    requires Inv(s, log) && w < |s.writers| && s.writers[w].pc == ReadHead(e)
    ensures var chain := Chain(log, BucketOf(e));
            Present(chain, KeyOf(e)) <==> exists off :: off in Offsets(chain) && HasIdentity(s.file, s.kind, off, e)
  {
    hide Inv, Tiled, LocalsOk, Shape, StoredEntry, AllOfKind, RecordsOnDisk;
    InsideAppend(s, log, w);
    var chain := Chain(log, BucketOf(e));
    forall k: nat | k < |chain|
      ensures Offsets(chain)[k] == chain[k].off
      ensures HasIdentity(s.file, s.kind, chain[k].off, e) <==> KeyOf(chain[k].entry) == KeyOf(e)
    {
      OffsetAt(chain, k);
      ChainStored(s.file, log, s.kind, BucketOf(e), k);
      KeyIsIdentity(e, Relevant(chain[k].entry));
      RelevantKey(chain[k].entry);
    }
    if p :| p in chain && KeyOf(p.entry) == KeyOf(e) {
      var k: nat :| k < |chain| && chain[k] == p;
      assert Offsets(chain)[k] in Offsets(chain);
    }
    if off :| off in Offsets(chain) && HasIdentity(s.file, s.kind, off, e) {
      var k: nat :| k < |chain| && Offsets(chain)[k] == off;
      assert chain[k] in chain;
    }
  }

  lemma RelevantKey(e: Entry)
    ensures KeyOf(Relevant(e)) == KeyOf(e)
  {}

  lemma ChainStored(f: Bytes, log: seq<Placed>, kind: Kind, b: BucketId, k: nat)
    requires Tiled(f, log) && AllOfKind(log, kind) && k < |Chain(log, b)|
    ensures StoredEntry(f, kind, Chain(log, b)[k].off) == Relevant(Chain(log, b)[k].entry)
    ensures RecordAt(f, Chain(log, b)[k].off, Chain(log, b)[k].entry)
  {
    hide StoredEntry, RecordAt;
    ChainMembers(log, b);
    var i: nat :| i < |log| && log[i] == Chain(log, b)[k];
    StoredAt(f, log, kind, i);
  }

  lemma NewestStored(s: System, log: seq<Placed>, w: nat, p: Placed)
    requires Inv(s, log) && w < |s.writers| && s.writers[w].pc.Unlock? && p in Chain(log, BucketOf(s.writers[w].pc.e))
    ensures RecordAt(s.file, p.off, p.entry)
  {
    hide Inv, Tiled, LocalsOk, Shape, RecordAt, AllOfKind;
    InsideAppend(s, log, w);
    var b := BucketOf(s.writers[w].pc.e);
    var k: nat :| k < |Chain(log, b)| && Chain(log, b)[k] == p;
    ChainStored(s.file, log, s.kind, b, k);
  }

  /** So in every reachable state a process about to unlock has its entry's path and hash, or its PID, in the file; and if
      it found no duplicate, the last record of the bucket is its entry, every field of it. */
  lemma UnlockHasRecord(s: System, w: nat)
    requires Reachable(s) && w < |s.writers| && s.writers[w].pc.Unlock?
    ensures var e := s.writers[w].pc.e;
            exists off :: off in FileWalk(s.file, HEADER_SIZE) && HasIdentity(s.file, s.kind, off, e)
    ensures var e := s.writers[w].pc.e;
            var walk := BucketWalk(s.file, BucketOf(e));
            !s.writers[w].pc.duplicate ==> walk != [] && RecordAt(s.file, walk[|walk| - 1], e)
  {
    hide Reachable, Inv, BucketWalk, FileWalk, Tiled, AllOfKind, StoredEntry, RecordAt, Chain, Shape, LockFree, BucketOf;
    hide WellFormed, Held;
    var log := ReachableInv(s);
    var e := s.writers[w].pc.e;
    var chain := Chain(log, BucketOf(e));
    InsideAppend(s, log, w);
    HeldWalk(s, log, w);
    ScanIsLog(s.file, log);
    var k: nat :| k < |chain| && KeyOf(chain[k].entry) == KeyOf(e) && (!s.writers[w].pc.duplicate ==> k == |chain| - 1);
    OffsetAt(chain, k);
    ChainStored(s.file, log, s.kind, BucketOf(e), k);
    KeyIsIdentity(e, Relevant(chain[k].entry));
    RelevantKey(chain[k].entry);
    ChainMembers(log, BucketOf(e));
    var i: nat :| i < |log| && log[i] == chain[k];
    OffsetAt(log, i);
    assert Offsets(log)[i] in Offsets(log);
    assert HasIdentity(s.file, s.kind, chain[k].off, e);
  }
}
