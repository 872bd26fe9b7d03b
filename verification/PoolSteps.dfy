/** Every step of the pool keeps its invariant. */
module PoolSteps {
  import opened Rings
  import opened Pool
  import opened PoolInvariant

  // ------------------------------------------------------------------ the job ring and its tokens

  lemma CountsMove(ws: seq<Pc>, w: nat, pc: Pc)
    requires w < |ws|
    ensures forall f: Pc -> bool :: Count(ws[w := pc], f) == Count(ws, f) - One(f(ws[w])) + One(f(pc))
    ensures forall f: Pc -> bool :: f(ws[w]) ==> Count(ws, f) >= 1
  {
    forall f: Pc -> bool ensures Count(ws[w := pc], f) == Count(ws, f) - One(f(ws[w])) + One(f(pc)) {
      CountUpdate(ws, w, pc, f);
    }
    forall f: Pc -> bool | f(ws[w]) ensures Count(ws, f) >= 1 {
      CountZero(ws, f);
    }
  }

  /** A producer about to fill a slot finds one free; a consumer about to read one finds it filled. */
  lemma SlotReady(s: State, w: nat)
    requires JobsOk(s) && Tokens(s) && w < |s.workers|
    ensures s.workers[w].Insert? ==> s.queuedJobs < CAPACITY
    ensures s.workers[w].Pop? ==> !s.ended && s.queuedJobs > 0
    ensures s.workers[w].InMutex() || s.workers[w].Repost? || s.workers[w].Exited? ==> s.ended
  {
    CountZero(s.workers, AtInsert);
    CountZero(s.workers, AtPop);
    CountZero(s.workers, IsLate);
  }

  /** The counts the semaphores depend on, before and after one worker moves. */
  lemma JobCountsMove(ws: seq<Pc>, w: nat, pc: Pc)
    requires w < |ws|
    ensures var vs, was := ws[w := pc], ws[w];
            && Count(vs, AtInsert) == Count(ws, AtInsert) - One(was.Insert?) + One(pc.Insert?)
            && Count(vs, AtPostEmpty) == Count(ws, AtPostEmpty) - One(was.PostEmpty?) + One(pc.PostEmpty?)
            && Count(vs, IsActive) == Count(ws, IsActive) - One(was.Active()) + One(pc.Active())
            && Count(vs, AtPop) == Count(ws, AtPop) - One(was.Pop?) + One(pc.Pop?)
            && Count(vs, AtCheck) == Count(ws, AtCheck) - One(was.CheckActive?) + One(pc.CheckActive?)
            && Count(vs, AtPostFull) == Count(ws, AtPostFull) - One(was.PostFull?) + One(pc.PostFull?)
            && Count(vs, IsLate) == Count(ws, IsLate) - One(IsLate(was)) + One(IsLate(pc))
            && Count(vs, IsHolding) == Count(ws, IsHolding) - One(was.Holding()) + One(pc.Holding())
            && Count(vs, IsActive) <= Count(vs, IsHolding)
  {
    CountsMove(ws, w, pc);
    CountMonotone(ws[w := pc], IsActive, IsHolding);
  }

  /** What a step of a worker does to the semaphores and counters of the job ring. */
  ghost predicate JobMoved(s: State, pc: Pc, s': State) {
    && s'.jobEmpty == s.jobEmpty + One(pc.PostEmpty?) - One(pc.WaitEmpty?)
    && s'.jobFull == s.jobFull + One(pc.Repost? || pc.PostFull? || pc.Flood?) - One(pc.Idle?)
    && s'.queuedJobs == s.queuedJobs + One(pc.Insert?) - One(pc.Pop?)
    && s'.activeJobs == s.activeJobs + One(pc.Activate?) - One(pc.Finish?)
    && s'.ended == (s.ended || (pc.Finish? && Announces(s)))
  }

  lemma JobMoves(s: State, w: nat)
    requires Enabled(s, Worker(w))
    ensures JobMoved(s, s.workers[w], Apply(s, Worker(w)))
    ensures Apply(s, Worker(w)).workers == s.workers[w := PcAfter(s, s.workers[w])]
  {
    hide PcAfter, Announces, First, Put, Drop, MutexFree;
  }

  /** Where a worker goes, as far as the token counts can tell. */
  lemma JobPcs(s: State, pc: Pc)
    requires Fits(s.jobs)
    ensures var after := PcAfter(s, pc);
            && after.CheckActive? == pc.Idle? && after.Pop? == (pc.CheckActive? && !s.ended)
            && after.PostEmpty? == pc.Pop? && after.Insert? == pc.WaitEmpty? && after.PostFull? == pc.Insert?
            && after.Active() == (pc.Activate? || (pc.Active() && !pc.Finish?))
            && after.Holding() == (pc.Pop? || (pc.Holding() && !pc.Finish?))
            && (IsLate(after) ==> IsLate(pc) || s.ended || (pc.Finish? && Announces(s)))
  {
    hide ItemsOf, First, Announces;
  }

  lemma TokensKept(s: State, w: nat)
    requires JobsOk(s) && Tokens(s) && Enabled(s, Worker(w)) && !s.workers[w].Finish?
    ensures Tokens(Apply(s, Worker(w)))
  {
    hide Apply, PcAfter, Count, JobsOk, MutexFree, Announces;
    JobMoves(s, w);
    JobCountsMove(s.workers, w, PcAfter(s, s.workers[w]));
    JobPcs(s, s.workers[w]);
    SlotReady(s, w);
  }

  /** Leaving a directory announces the end only if nothing is queued and nobody else is active. */
  lemma FinishTokens(s: State, w: nat)
    requires JobsOk(s) && Tokens(s) && Enabled(s, Worker(w)) && s.workers[w].Finish?
    ensures Tokens(Apply(s, Worker(w)))
  {
    hide Put, Drop, First, Count, JobsOk, MutexFree;
    JobCountsMove(s.workers, w, PcAfter(s, s.workers[w]));
    QueueNotNegative(s);
  }

  lemma QueueNotNegative(s: State)
    requires JobsOk(s)
    ensures 0 <= s.queuedJobs <= CAPACITY
  {}

  function JobQueue(s: State): seq<Job>
    requires Spans(s.jobs, s.queuedJobs)
  {
    Queue(s.jobs, s.queuedJobs)
  }

  /** The job ring is a FIFO queue: a pop takes the oldest job, an insert adds at the end, no other step touches it. */
  lemma QueueMoves(s: State, w: nat)
    requires JobsOk(s) && Tokens(s) && Enabled(s, Worker(w))
    ensures var s', q := Apply(s, Worker(w)), JobQueue(s);
            && Spans(s'.jobs, s'.queuedJobs)
            && (s.workers[w].Pop? ==> q != [] && JobQueue(s') == q[1..] && PcAfter(s, s.workers[w]) == PostEmpty(q[0]))
            && (s.workers[w].Insert? ==> JobQueue(s') == q + [Child(s.workers[w].job, s.workers[w].k)])
            && (!s.workers[w].Pop? && !s.workers[w].Insert? ==> JobQueue(s') == q)
  {
    hide Put, Drop, First, Count, Tokens, Queue, ItemsOf, MutexFree, JobsOk, PcOk;
    SlotReady(s, w);
    JobsSpan(s);
    if s.workers[w].Pop? {
      DropLeaves(s.jobs, s.queuedJobs);
    } else if s.workers[w].Insert? {
      PutJoins(s.jobs, s.queuedJobs, Child(s.workers[w].job, s.workers[w].k));
    }
  }

  lemma JobsSpan(s: State)
    requires JobsOk(s)
    ensures Spans(s.jobs, s.queuedJobs)
    ensures forall job :: job in JobQueue(s) ==> JobOk(s, job)
    ensures forall w :: 0 <= w < |s.workers| ==> PcOk(s, s.workers[w])
  {}

  lemma ChildOk(s: State, job: Job, k: nat)
    requires JobOk(s, job) && job.depth < s.maxDepth && k < |ItemsOf(s.root, job.name)|
    requires ItemsOf(s.root, job.name)[k].SubDir?
    ensures JobOk(s, Child(job, k))
  {
    assert Front(Child(job, k).name) == job.name;
  }

  /** Wherever a worker goes, it knows what it needs to. */
  lemma PcKept(s: State, w: nat)
    requires JobsOk(s) && Tokens(s) && Enabled(s, Worker(w))
    ensures PcOk(s, PcAfter(s, s.workers[w]))
  {
    hide Queue, ItemsOf, IsDir, MutexFree, JobsOk, Tokens, First;
    QueueMoves(s, w);
    JobsSpan(s);
  }

  lemma JobsKept(s: State, w: nat)
    requires JobsOk(s) && Tokens(s) && Enabled(s, Worker(w))
    ensures JobsOk(Apply(s, Worker(w)))
  {
    hide Queue, Tokens, PcAfter, MutexFree, Spans, First, Put, Drop;
    var s' := Apply(s, Worker(w));
    QueueMoves(s, w);
    PcKept(s, w);
    TreeKept(s, w);
    var pc := s.workers[w];
    if pc.Insert? {
      ChildOk(s, pc.job, pc.k);
    }
    forall job | job in JobQueue(s') ensures JobOk(s', job) {
      assert job in JobQueue(s) || (pc.Insert? && job == Child(pc.job, pc.k));
    }
  }

  /** What no step of a worker changes, and where the worker itself goes. */
  lemma TreeKept(s: State, w: nat)
    requires Enabled(s, Worker(w))
    ensures var s' := Apply(s, Worker(w));
            && s'.root == s.root && s'.maxDepth == s.maxDepth && s'.manager == s.manager && s'.dead == s.dead
            && s'.workers == s.workers[w := PcAfter(s, s.workers[w])]
            && s'.appended == s.appended && s'.spoiled == s.spoiled
  {
    hide PcAfter, MutexFree, First, Put, Drop;
  }

  // ------------------------------------------------------------------ directories and files

  /** Something the pool has to deal with: a directory or regular file within the depth limit. */
  ghost predicate Wanted(s: State, x: Path) {
    (IsDir(s.root, x) || IsFile(s.root, x)) && |x| <= s.maxDepth
  }

  /** A step meets exactly the entry it inserts, and hands over what it had met when it finishes the directory. */
  lemma MetMoves(s: State, w: nat, x: Path)
    requires JobsOk(s) && Tokens(s) && Enabled(s, Worker(w)) && Wanted(s, x) && x != []
    ensures var pc := s.workers[w];
            One(Met(x)(PcAfter(s, pc))) - One(Met(x)(pc)) ==
              if (pc.Insert? || pc.InsertResult?) && x == pc.job.name + [pc.k] then 1
              else if pc.Finish? && pc.job.name == Front(x) then -1
              else 0
  {
    hide Queue, Tokens, MutexFree, Spans, First, JobsOk, ItemsOf;
    JobsSpan(s);
    var pc := s.workers[w];
    assert x == Front(x) + [Last(x)];
    if pc.Active() && pc.job.name == Front(x) {
      MetAtEntry(s, pc, x);
    }
  }

  /** ... for the worker that is reading the directory of x. */
  lemma MetAtEntry(s: State, pc: Pc, x: Path)
    requires PcOk(s, pc) && Wanted(s, x) && x != [] && pc.Active() && pc.job.name == Front(x) && Fits(s.jobs)
    ensures One(Met(x)(PcAfter(s, pc))) - One(Met(x)(pc)) ==
              if (pc.Insert? || pc.InsertResult?) && Last(x) == pc.k then 1
              else if pc.Finish? then -1
              else 0
  {
    hide ItemsOf, Fits, Announces;
  }

  lemma HoldMoves(s: State, w: nat, p: Path)
    requires JobsOk(s) && Tokens(s) && Enabled(s, Worker(w))
    ensures var pc := s.workers[w];
            One(Holds(p)(PcAfter(s, pc))) - One(Holds(p)(pc)) ==
              if pc.Pop? && JobQueue(s) != [] && JobQueue(s)[0].name == p then 1
              else if pc.Finish? && pc.job.name == p then -1
              else 0
  {
    hide Queue, Tokens, MutexFree, Spans, First, JobsOk, ItemsOf, IsDir;
    QueueMoves(s, w);
  }

  /** What a step of worker w does to the queue, the program counters and the finished directories. */
  ghost predicate Moved(s: State, w: nat, s': State)
    requires w < |s.workers| && Spans(s.jobs, s.queuedJobs)
  {
    var pc, q := s.workers[w], JobQueue(s);
    && s'.root == s.root && s'.maxDepth == s.maxDepth
    && s'.workers == s.workers[w := PcAfter(s, pc)]
    && s'.done == (if pc.Finish? then s.done + multiset{pc.job.name} else s.done)
    && Spans(s'.jobs, s'.queuedJobs)
    && (pc.Pop? ==> q != [] && JobQueue(s') == q[1..])
    && (pc.Insert? ==> JobQueue(s') == q + [Child(pc.job, pc.k)])
    && (!pc.Pop? && !pc.Insert? ==> JobQueue(s') == q)
  }

  lemma StepMoves(s: State, w: nat)
    requires JobsOk(s) && Tokens(s) && Enabled(s, Worker(w))
    ensures Moved(s, w, Apply(s, Worker(w)))
  {
    hide Queue, Tokens, MutexFree, Spans, First, JobsOk, PcAfter, Put, Drop;
    QueueMoves(s, w);
    TreeKept(s, w);
    DoneMoves(s, w);
  }

  lemma QueueCount(s: State, w: nat, s': State, p: Path)
    requires JobsOk(s) && w < |s.workers| && Moved(s, w, s')
    ensures var pc := s.workers[w];
            multiset(JobQueue(s'))[Job(p, |p|)]
              + One(pc.Pop? && JobQueue(s) != [] && JobQueue(s)[0].name == p) ==
            multiset(JobQueue(s))[Job(p, |p|)] + One(pc.Insert? && p == pc.job.name + [pc.k])
  {
    hide Queue, Spans, JobsOk, ItemsOf, IsDir, PcAfter;
    JobsSpan(s);
    var q := JobQueue(s);
    if s.workers[w].Pop? {
      assert q == [q[0]] + q[1..];
      assert q[0] in q;
    }
  }

  lemma DirsKept(s: State, w: nat)
    requires JobsOk(s) && Tokens(s) && DirsTracked(s) && Enabled(s, Worker(w))
    ensures Spans(Apply(s, Worker(w)).jobs, Apply(s, Worker(w)).queuedJobs)
    ensures DirsTracked(Apply(s, Worker(w)))
  {
    hide Queue, Tokens, MutexFree, Spans, First, JobsOk, ItemsOf, IsDir, PcAfter, Places, Meetings, Apply;
    var s' := Apply(s, Worker(w));
    StepMoves(s, w);
    JobsSpan(s);
    forall p | IsDir(s.root, p) && |p| <= s.maxDepth ensures Places(s', p) == Meetings(s', p) {
      DirKept(s, w, s', p);
    }
  }

  lemma DoneMoves(s: State, w: nat)
    requires Enabled(s, Worker(w))
    ensures Apply(s, Worker(w)).done ==
              if s.workers[w].Finish? then s.done + multiset{s.workers[w].job.name} else s.done
  {
    hide PcAfter, MutexFree;
  }

  lemma DirKept(s: State, w: nat, s': State, p: Path)
    requires JobsOk(s) && Tokens(s) && DirsTracked(s) && Enabled(s, Worker(w)) && Moved(s, w, s')
    requires IsDir(s.root, p) && |p| <= s.maxDepth
    ensures Places(s', p) == Meetings(s', p)
  {
    hide Queue, Tokens, MutexFree, Spans, First, JobsOk, ItemsOf, IsDir, PcAfter, Holds, Met, PcOk;
    var pc := s.workers[w];
    QueueCount(s, w, s', p);
    HoldMoves(s, w, p);
    CountUpdate(s.workers, w, PcAfter(s, pc), Holds(p));
    MeetingsMove(s, w, s', p);
    JobsSpan(s);
    OneEntry(s, pc, p);
  }

  /** What a step adds to the meetings of x. */
  lemma MeetingsMove(s: State, w: nat, s': State, x: Path)
    requires JobsOk(s) && Tokens(s) && Enabled(s, Worker(w)) && Moved(s, w, s') && Wanted(s, x)
    ensures var pc := s.workers[w];
            Meetings(s', x) - Meetings(s, x) ==
              if (pc.Insert? || pc.InsertResult?) && x == pc.job.name + [pc.k] then 1 else 0
  {
    hide Queue, Tokens, MutexFree, Spans, First, JobsOk, Wanted, PcAfter, Met;
    if x != [] {
      var pc := s.workers[w];
      MetMoves(s, w, x);
      CountUpdate(s.workers, w, PcAfter(s, pc), Met(x));
    }
  }

  /** A directory is not a file. */
  lemma OneEntry(s: State, pc: Pc, p: Path)
    requires PcOk(s, pc)
    ensures pc.InsertResult? && p == pc.job.name + [pc.k] ==> IsFile(s.root, p) && !IsDir(s.root, p)
    ensures pc.Insert? && p == pc.job.name + [pc.k] ==> IsDir(s.root, p) && !IsFile(s.root, p)
  {
    hide ItemsOf;
    if (pc.InsertResult? || pc.Insert?) && p == pc.job.name + [pc.k] {
      assert Front(p) == pc.job.name && Last(p) == pc.k;
    }
  }

  // ------------------------------------------------------------------ results

  lemma FilesKept(s: State, w: nat)
    requires JobsOk(s) && Tokens(s) && FilesTracked(s) && Enabled(s, Worker(w))
    ensures FilesTracked(Apply(s, Worker(w)))
  {
    hide Queue, Tokens, MutexFree, Spans, First, JobsOk, ItemsOf, IsDir, IsFile, PcAfter, Meetings, Apply;
    var s' := Apply(s, Worker(w));
    var pc := s.workers[w];
    StepMoves(s, w);
    EmittedMoves(s, w);
    JobsSpan(s);
    forall x | IsFile(s.root, x) && |x| <= s.maxDepth ensures multiset(s'.emitted)[x] == Meetings(s', x) {
      MeetingsMove(s, w, s', x);
      OneEntry(s, pc, x);
      NotBoth(s.root, x);
    }
    if pc.InsertResult? {
      OneEntry(s, pc, pc.job.name + [pc.k]);
    }
  }

  lemma NotBoth(root: seq<Item>, x: Path)
    requires IsFile(root, x)
    ensures !IsDir(root, x)
  {}

  lemma EmittedMoves(s: State, w: nat)
    requires Enabled(s, Worker(w))
    ensures var pc := s.workers[w];
            Apply(s, Worker(w)).emitted == s.emitted + if pc.InsertResult? then [pc.job.name + [pc.k]] else []
  {
    hide PcAfter, MutexFree;
  }

  lemma ResultCountsMove(ws: seq<Pc>, w: nat, pc: Pc)
    requires w < |ws|
    ensures var vs, was := ws[w := pc], ws[w];
            && Count(vs, AtInsertResult) == Count(ws, AtInsertResult) - One(was.InsertResult?) + One(pc.InsertResult?)
            && Count(vs, AtPostResult) == Count(ws, AtPostResult) - One(was.PostResult?) + One(pc.PostResult?)
            && Count(vs, IsExited) == Count(ws, IsExited) - One(was.Exited?) + One(pc.Exited?)
            && (was.InsertResult? ==> Count(ws, AtInsertResult) >= 1)
  {
    CountsMove(ws, w, pc);
  }

  /** What a step of a worker does to the semaphores, the counter and the end flag. */
  ghost predicate ResultMoved(s: State, pc: Pc, s': State) {
    && s'.resultEmpty == s.resultEmpty - One(pc.WaitRoom?)
    && s'.resultFull == s.resultFull + One(pc.PostResult?) + One(pc.PostEnd?)
    && s'.endPosts == s.endPosts + One(pc.PostEnd?)
    && s'.queuedResults == s.queuedResults + One(pc.InsertResult?)
    && (s.ended ==> s'.ended)
  }

  lemma ResultMoves(s: State, w: nat)
    requires Enabled(s, Worker(w))
    ensures ResultMoved(s, s.workers[w], Apply(s, Worker(w)))
  {
    hide PcAfter, MutexFree, First, Put, Drop;
  }

  /** Only a worker that has waited for room inserts, only one that has inserted posts, and only one that has seen the
      end exits. */
  lemma ResultPcs(s: State, pc: Pc)
    requires Fits(s.jobs)
    ensures var after := PcAfter(s, pc);
            && after.InsertResult? == pc.WaitRoom? && after.PostResult? == pc.InsertResult?
            && after.Exited? == (pc.Repost? || pc.Exited?)
  {
    hide ItemsOf, First;
  }

  lemma ResultTokensKept(s: State, w: nat)
    requires JobsOk(s) && Tokens(s) && ResultTokens(s) && Enabled(s, Worker(w))
    ensures ResultTokens(Apply(s, Worker(w)))
  {
    hide JobsOk, Tokens, MutexFree, Apply, PcAfter, Spans;
    ResultMoves(s, w);
    TreeKept(s, w);
    ResultCountsMove(s.workers, w, PcAfter(s, s.workers[w]));
    ResultPcs(s, s.workers[w]);
    SlotReady(s, w);
  }

  lemma ManagerPlaceKept(s: State, w: nat)
    requires ManagerOk(s) && Enabled(s, Worker(w))
    ensures ManagerOk(Apply(s, Worker(w))) && !s.manager.Finished?
  {
    hide MutexFree, Apply, PcAfter, Count;
    ResultMoves(s, w);
    TreeKept(s, w);
    ResultCountsMove(s.workers, w, PcAfter(s, s.workers[w]));
    ResultPcs(s, s.workers[w]);
    SomebodyMoves(s, w);
  }

  lemma SomebodyMoves(s: State, w: nat)
    requires Enabled(s, Worker(w))
    ensures !AllExited(s) && !s.workers[w].Exited?
  {}

  /** What a step of a worker does to the ring itself. */
  lemma RingMoves(s: State, w: nat)
    requires Enabled(s, Worker(w))
    ensures var pc, s' := s.workers[w], Apply(s, Worker(w));
            s'.results == if pc.InsertResult? then Put(s.results, pc.job.name + [pc.k]) else s.results
  {
    hide PcAfter, MutexFree, First, Put, Drop;
  }

  lemma SlotsKept(s: State, w: nat)
    requires SlotsOk(s) && Enabled(s, Worker(w))
    ensures SlotsOk(Apply(s, Worker(w)))
  {
    hide MutexFree, Apply, PcAfter;
    EmittedMoves(s, w);
    RingMoves(s, w);
  }

  /** A result put into the ring joins the queue: its slot was free. */
  lemma OrderKept(s: State, w: nat)
    requires ResultsInOrder(s) && ResultTokens(s) && !s.manager.Finished? && Enabled(s, Worker(w))
    ensures ResultsInOrder(Apply(s, Worker(w)))
  {
    hide Queue, MutexFree, Put, Spans, Apply, PcAfter, Count;
    var pc := s.workers[w];
    EmittedMoves(s, w);
    RingMoves(s, w);
    ResultMoves(s, w);
    TreeKept(s, w);
    var q := Queue(s.results, s.queuedResults);
    if pc.InsertResult? {
      var x := pc.job.name + [pc.k];
      RoomForResult(s, w);
      PutJoins(s.results, s.queuedResults, x);
      assert Taken(s) + (q + [x]) == Taken(s) + q + [x];
    } else {
      assert s.emitted + [] == s.emitted;
    }
  }

  lemma RoomForResult(s: State, w: nat)
    requires ResultsInOrder(s) && ResultTokens(s) && w < |s.workers| && s.workers[w].InsertResult?
    ensures 0 <= s.queuedResults < CAPACITY
  {
    CountZero(s.workers, AtInsertResult);
  }

  lemma GarbledKept(s: State, w: nat, i: nat)
    requires GarbledAt(s, i) && Enabled(s, Worker(w))
    ensures GarbledAt(Apply(s, Worker(w)), i)
  {
    hide MutexFree, Apply, PcAfter;
    EmittedMoves(s, w);
    TreeKept(s, w);
    assert Apply(s, Worker(w)).emitted[..i] == s.emitted[..i];
  }

  lemma ResultsKept(s: State, w: nat)
    requires JobsOk(s) && Tokens(s) && ResultsOk(s) && Enabled(s, Worker(w))
    ensures ResultsOk(Apply(s, Worker(w)))
  {
    hide JobsOk, Tokens, MutexFree, Apply, PcAfter, ResultTokens, ManagerOk, SlotsOk, ResultsInOrder, GarbledAt;
    ResultTokensKept(s, w);
    ManagerPlaceKept(s, w);
    SlotsKept(s, w);
    TreeKept(s, w);
    if s.spoiled {
      var i: nat :| GarbledAt(s, i);
      GarbledKept(s, w, i);
    } else {
      OrderKept(s, w);
    }
  }

  // ------------------------------------------------------------------ the manager

  /** The steps of the manager and of Reap concern only the result ring. */
  lemma ManagerFrame(s: State, s': State)
    requires JobsOk(s) && Tokens(s) && DirsTracked(s) && FilesTracked(s)
    requires s'.root == s.root && s'.maxDepth == s.maxDepth && s'.jobEmpty == s.jobEmpty && s'.jobFull == s.jobFull
    requires s'.jobs == s.jobs && s'.queuedJobs == s.queuedJobs && s'.activeJobs == s.activeJobs
    requires s'.ended == s.ended && s'.workers == s.workers && s'.done == s.done && s'.emitted == s.emitted
    ensures JobsOk(s') && Tokens(s') && DirsTracked(s') && FilesTracked(s')
  {
    hide IsDir, IsFile, ItemsOf, Count, Holds, Met, Queue, Spans;
    forall job ensures JobOk(s', job) == JobOk(s, job) {}
    forall pc ensures PcOk(s', pc) == PcOk(s, pc) {}
    forall x ensures Meetings(s', x) == Meetings(s, x) && Places(s', x) == Places(s, x) {}
  }

  lemma ManagerKept(s: State)
    requires Inv(s) && Enabled(s, Manager)
    ensures Inv(Apply(s, Manager))
  {
    hide Tokens, JobsOk, FilesTracked, DirsTracked, ResultsOk, First, Drop, Pending;
    ManagerFrame(s, Apply(s, Manager));
    if s.manager.Take? {
      ManagerPop(s);
    } else if s.manager.Waiting? {
      ManagerDrain(s);
    } else {
      ManagerQuiet(s);
    }
  }

  lemma ManagerBooks(s: State)
    requires ResultTokens(s) && ManagerOk(s) && SlotsOk(s) && Enabled(s, Manager)
    ensures var s' := Apply(s, Manager);
            ResultTokens(s') && ManagerOk(s') && SlotsOk(s')
  {
    hide MutexFree, First, Pending, Count;
  }

  /** A pop of a ring that holds something takes the oldest result; a pop of an empty one takes a leftover. */
  lemma ManagerPop(s: State)
    requires ResultsOk(s) && Enabled(s, Manager) && s.manager.Take?
    ensures ResultsOk(Apply(s, Manager))
  {
    hide Queue, MutexFree, Pending, Spans, Count, AllExited, Drop, First, ResultTokens, SlotsOk, GarbledAt, ResultsInOrder;
    ManagerBooks(s);
    PopIsSafeFor(s);
    if s.queuedResults > 0 {
      PopTakesOldest(s);
    } else {
      PopTakesLeftover(s);
    }
  }

  lemma PopIsSafeFor(s: State)
    requires ManagerOk(s) && s.manager.Take?
    ensures !s.spoiled
  {}

  lemma PopTakesOldest(s: State)
    requires ResultsInOrder(s) && Enabled(s, Manager) && s.manager.Take? && s.queuedResults > 0
    ensures ResultsInOrder(Apply(s, Manager))
  {
    hide Queue, MutexFree, Pending, Spans, Drop, First;
    DropLeaves(s.results, s.queuedResults);
    OldestMoves(s.appended, Queue(s.results, s.queuedResults));
  }

  lemma OldestMoves(a: seq<Path>, q: seq<Path>)
    requires q != []
    ensures a + [] + q == a + [q[0]] + q[1..]
  {
    assert q == [q[0]] + q[1..];
    assert a + [] == a;
  }

  lemma PopTakesLeftover(s: State)
    requires ResultsInOrder(s) && SlotsOk(s) && Enabled(s, Manager) && s.manager.Take? && s.queuedResults <= 0
    ensures GarbledAt(Apply(s, Manager), |s.emitted|)
  {
    hide MutexFree, Pending, Drop, First;
    FirstIsLeftover(s);
    assert s.appended + [] == s.appended && s.emitted == s.appended;
  }

  lemma FirstIsLeftover(s: State)
    requires SlotsOk(s)
    ensures First(s.results) == [] || First(s.results) in s.emitted
  {}

  /** The last loop gets whatever is queued, or nothing from a full ring. */
  lemma ManagerDrain(s: State)
    requires ResultsOk(s) && Enabled(s, Manager) && s.manager.Waiting?
    ensures ResultsOk(Apply(s, Manager))
  {
    hide Queue, MutexFree, Pending, Count, ResultTokens, SlotsOk, ManagerOk;
    ManagerBooks(s);
    var s' := Apply(s, Manager);
    if s.spoiled {
      var i: nat :| GarbledAt(s, i);
      assert Taken(s')[..i] == Taken(s)[..i];
      assert GarbledAt(s', i);
    } else {
      PendingIsQueue(s.results, s.queuedResults);
      assert s.appended + [] == s.appended;
    }
  }

  lemma ManagerQuiet(s: State)
    requires ResultsOk(s) && Enabled(s, Manager) && !s.manager.Take? && !s.manager.Waiting?
    ensures ResultsOk(Apply(s, Manager))
  {
    hide Queue, MutexFree, Pending, Spans, Count, AllExited, ResultTokens, SlotsOk, ManagerOk, First, Drop;
    ManagerBooks(s);
    TakenStays(s);
    var s' := Apply(s, Manager);
    if s.spoiled {
      var i: nat :| GarbledAt(s, i);
      assert GarbledAt(s', i);
    }
  }

  lemma TakenStays(s: State)
    requires Enabled(s, Manager) && !s.manager.Take? && !s.manager.Waiting?
    ensures var s' := Apply(s, Manager);
            && Taken(s') == Taken(s) && s'.emitted == s.emitted && s'.results == s.results
            && s'.queuedResults == s.queuedResults && s'.spoiled == s.spoiled && !s'.manager.Finished?
  {
    hide MutexFree, First, Drop, Pending;
    if s.manager.GiveBack? {
      assert s.appended + [s.manager.res] == s.appended + [s.manager.res] + [];
    }
  }

  /** Reaping changes nothing but the count; once it is complete, every worker has exited. */
  lemma ReapKept(s: State, n: nat)
    requires Inv(s) && Enabled(s, Reap(n))
    ensures Inv(Apply(s, Reap(n)))
  {
    hide Tokens, JobsOk, FilesTracked, DirsTracked, MutexFree, Count, Queue, Spans;
    var s' := Apply(s, Reap(n));
    ManagerFrame(s, s');
    if n == |s.workers| {
      CountAll(s.workers, IsExited);
      ExitedAreLate(s);
    }
    assert Taken(s') == Taken(s);
    if s.spoiled {
      var i: nat :| GarbledAt(s, i);
      assert GarbledAt(s', i);
    }
  }

  /** Nobody exits before the end. */
  lemma ExitedAreLate(s: State)
    requires Tokens(s) && 1 <= |s.workers| && AllExited(s)
    ensures s.ended
  {
    CountZero(s.workers, IsLate);
  }
}
