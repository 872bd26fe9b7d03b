/** When the workers can go on, and when they cannot. */
module PoolProgress {
  import opened Rings
  import opened Pool
  import opened PoolInvariant
  import opened PoolSteps
  import opened PoolRuns
  import opened PoolShortfalls
  import opened PoolListing

  // ------------------------------------------------------------------ tokens after the end

  predicate AtRepost(pc: Pc) { pc.Repost? }

  /** The tokens a worker announcing the end to n workers has still to post. */
  function Owed(pc: Pc, n: nat): nat {
    match pc
    case PostEnd => n
    case Flood(i) => if i < n then n - i else 0
    case _ => 0
  }

  function TotalOwed(ws: seq<Pc>, n: nat): nat {
    if ws == [] then 0 else TotalOwed(ws[..|ws| - 1], n) + Owed(ws[|ws| - 1], n)
  }

  lemma {:induction false} OwedUpdate(ws: seq<Pc>, w: nat, pc: Pc, n: nat)
    requires w < |ws|
    ensures TotalOwed(ws[w := pc], n) == TotalOwed(ws, n) - Owed(ws[w], n) + Owed(pc, n)
  {
    hide Owed;
    var m := |ws| - 1;
    if w == m {
      assert ws[w := pc][..m] == ws[..m];
    } else {
      OwedUpdate(ws[..m], w, pc, n);
      assert ws[w := pc][..m] == ws[..m][w := pc];
    }
  }

  lemma {:induction false} NothingOwed(ws: seq<Pc>, n: nat)
    requires forall w :: 0 <= w < |ws| ==> !ws[w].InMutex()
    ensures TotalOwed(ws, n) == 0
  {
    if ws != [] {
      NothingOwed(ws[..|ws| - 1], n);
    }
  }

  /** After the end there is a token for every worker, counting those a worker is about to put back or has still to
      post. */
  ghost predicate EndTokens(s: State) {
    s.ended ==>
      s.jobFull + Count(s.workers, AtCheck) + Count(s.workers, AtRepost) + TotalOwed(s.workers, |s.workers|) >= |s.workers|
  }

  /** Where a worker goes, as far as these tokens can tell. */
  lemma EndPcs(s: State, pc: Pc)
    requires Fits(s.jobs) && |s.workers| >= 1
    ensures var after, n := PcAfter(s, pc), |s.workers|;
            && after.CheckActive? == pc.Idle? && after.Repost? == (pc.CheckActive? && s.ended)
            && Owed(after, n) >= Owed(pc, n) - One(pc.Flood?)
            && (pc.Finish? && Announces(s) ==> Owed(after, n) == n)
  {
    hide ItemsOf, First, Announces;
  }

  lemma EndStep(s: State, w: nat)
    requires EndTokens(s) && Enabled(s, Worker(w))
    ensures EndTokens(Apply(s, Worker(w)))
  {
    hide Apply, PcAfter, Count, MutexFree, Announces, Owed, TotalOwed;
    var pc, n := s.workers[w], |s.workers|;
    var after := PcAfter(s, pc);
    JobMoves(s, w);
    EndPcs(s, pc);
    CountUpdate(s.workers, w, after, AtCheck);
    CountUpdate(s.workers, w, after, AtRepost);
    OwedUpdate(s.workers, w, after, n);
    if pc.Finish? && Announces(s) {
      OwedByOne(s.workers[w := after], w, n);
    }
  }

  lemma {:induction false} OwedByOne(ws: seq<Pc>, w: nat, n: nat)
    requires w < |ws|
    ensures TotalOwed(ws, n) >= Owed(ws[w], n)
  {
    hide Owed;
    if w < |ws| - 1 {
      OwedByOne(ws[..|ws| - 1], w, n);
    }
  }

  predicate AtPostEnd(pc: Pc) { pc.PostEnd? }

  predicate Leaving(m: ManagerPc) { m.Waiting? || m == Finished(true) }

  /** After the end the manager's semaphore gets a post for it, and one more from the manager on its way out. */
  ghost predicate EndPosted(s: State) {
    && (s.ended ==> s.endPosts + Count(s.workers, AtPostEnd) >= 1 + One(Leaving(s.manager)))
    && (Leaving(s.manager) || s.manager.PostStop? ==> s.ended)
  }

  lemma EndPostedStep(s: State, w: nat)
    requires EndPosted(s) && Enabled(s, Worker(w))
    ensures EndPosted(Apply(s, Worker(w)))
  {
    hide Apply, PcAfter, Count, MutexFree, Announces;
    var pc := s.workers[w];
    EndPostMoves(s, w);
    WhoPostsEnd(s, pc);
    CountUpdate(s.workers, w, PcAfter(s, pc), AtPostEnd);
    if pc.Finish? && Announces(s) {
      CountZero(Apply(s, Worker(w)).workers, AtPostEnd);
    }
  }

  lemma EndPostMoves(s: State, w: nat)
    requires Enabled(s, Worker(w))
    ensures var s', pc := Apply(s, Worker(w)), s.workers[w];
            && s'.workers == s.workers[w := PcAfter(s, pc)] && s'.manager == s.manager
            && s'.endPosts == s.endPosts + One(pc.PostEnd?)
            && s'.ended == (s.ended || (pc.Finish? && Announces(s)))
  {
    hide PcAfter, First, Put, Drop, MutexFree, Announces;
  }

  lemma WhoPostsEnd(s: State, pc: Pc)
    requires Fits(s.jobs)
    ensures PcAfter(s, pc).PostEnd? == (pc.Finish? && Announces(s))
  {
    hide ItemsOf, First, Announces;
  }

  lemma EndPostedByManager(s: State, t: Thread)
    requires EndPosted(s) && Enabled(s, t) && !t.Worker?
    ensures EndPosted(Apply(s, t))
  {
    hide Drop, First, Pending, MutexFree, Count;
  }

  lemma OthersKeepJobs(s: State, t: Thread)
    requires Enabled(s, t) && !t.Worker?
    ensures var s' := Apply(s, t);
            && s'.workers == s.workers && s'.jobFull == s.jobFull && s'.jobEmpty == s.jobEmpty
            && s'.queuedJobs == s.queuedJobs && s'.ended == s.ended && s'.maxDepth == s.maxDepth && s'.root == s.root
  {
    hide Drop, First, Pending, MutexFree, Count;
  }

  lemma {:induction false} EndTokensInRun(run: seq<State>, i: nat)
    requires IsRun(run) && i < |run|
    ensures EndTokens(run[i]) && EndPosted(run[i])
  {
    hide EndTokens, EndPosted, Apply, Enabled, Init;
    if i == 0 {
      NotEndedAtFirst(run[0]);
    } else {
      EndTokensInRun(run, i - 1);
      assert Next(run[i - 1], run[i - 1 + 1]);
      var t :| Enabled(run[i - 1], t) && run[i] == Apply(run[i - 1], t);
      match t
      case Worker(w) =>
        EndStep(run[i - 1], w);
        EndPostedStep(run[i - 1], w);
      case _ =>
        EndPostedByManager(run[i - 1], t);
        OthersKeepJobs(run[i - 1], t);
        SameTokens(run[i - 1], run[i]);
    }
  }

  lemma SameTokens(s: State, s': State)
    requires EndTokens(s) && s'.workers == s.workers && s'.jobFull == s.jobFull && s'.ended == s.ended
    ensures EndTokens(s')
  {}

  lemma NotEndedAtFirst(s: State)
    requires Init(s)
    ensures EndTokens(s) && EndPosted(s)
  {}

  lemma ReachableEndTokens(s: State)
    requires Reachable(s)
    ensures EndTokens(s) && EndPosted(s)
  {
    hide EndTokens, EndPosted, Next, Init;
    var run :| IsRun(run) && run[|run| - 1] == s;
    EndTokensInRun(run, |run| - 1);
  }

  /** Once all workers have exited and the manager waits for them, its semaphore has at least two tokens more than there
      are results: one from the worker that announced the end, one from itself. */
  lemma EndIsPosted(s: State)
    requires Reachable(s) && AllExited(s) && s.manager.Waiting?
    ensures s.ended && s.resultFull >= s.queuedResults + 2
  {
    hide Reachable, Inv, EndTokens, Count;
    ReachableInv(s);
    ReachableEndTokens(s);
    TokensOf(s);
    CountZero(s.workers, AtPostEnd);
    CountZero(s.workers, AtPostResult);
  }

  // ------------------------------------------------------------------ when nobody can move

  ghost predicate NoWorkerMoves(s: State) {
    forall w :: 0 <= w < |s.workers| ==> !Enabled(s, Worker(w))
  }

  /** Why a worker waits, in terms of what is in the rings: a full job ring, a full result ring, or no job before the
      end. */
  predicate Waits(s: State, pc: Pc) {
    match pc
    case Exited => true
    case WaitEmpty(_, _) => s.queuedJobs == 2048
    case WaitRoom(_, _) => s.queuedResults + |InHand(s.manager)| == 2048
    case Idle => !s.ended && s.queuedJobs == 0
    case _ => false
  }

  predicate AtRest(pc: Pc) {
    pc.Exited? || pc.WaitEmpty? || pc.WaitRoom? || pc.Idle?
  }

  lemma RestCounts(ws: seq<Pc>)
    requires forall w :: 0 <= w < |ws| ==> AtRest(ws[w])
    ensures Count(ws, AtCheck) == Count(ws, AtPop) == Count(ws, AtPostEmpty) == Count(ws, AtInsert) == 0
    ensures Count(ws, AtPostFull) == Count(ws, AtInsertResult) == Count(ws, AtPostResult) == Count(ws, AtRepost) == 0
    ensures TotalOwed(ws, |ws|) == 0
  {
    forall f: Pc -> bool | forall pc :: AtRest(pc) ==> !f(pc) ensures Count(ws, f) == 0 {
      CountZero(ws, f);
    }
    NothingOwed(ws, |ws|);
  }

  /** Somebody not at rest can move: if not that worker, then one that holds the mutex. */
  lemma RestOrMove(s: State)
    requires Fits(s.jobs) && Fits(s.results) && NoWorkerMoves(s)
    ensures forall w :: 0 <= w < |s.workers| ==> AtRest(s.workers[w])
  {
    forall w | 0 <= w < |s.workers| ensures !s.workers[w].InMutex() {
      assert !Enabled(s, Worker(w));
    }
    forall w | 0 <= w < |s.workers| ensures AtRest(s.workers[w]) {
      assert !Enabled(s, Worker(w));
    }
  }

  /** What the semaphores say when all are at rest. */
  lemma RestTokens(s: State)
    requires Reachable(s) && forall w :: 0 <= w < |s.workers| ==> AtRest(s.workers[w])
    ensures Fits(s.jobs) && Fits(s.results) && |s.workers| >= 1
    ensures s.jobEmpty + s.queuedJobs == 2048 && s.resultEmpty + s.queuedResults + |InHand(s.manager)| == 2048
    ensures if s.ended then s.jobFull >= 1 else s.jobFull == s.queuedJobs
  {
    hide Reachable, Inv, EndTokens, AtRest, Count, TotalOwed;
    ReachableInv(s);
    ReachableEndTokens(s);
    RestCounts(s.workers);
    TokensOf(s);
    if s.ended {
      EndTokensOf(s);
    }
  }

  lemma TokensOf(s: State)
    requires Inv(s)
    ensures Tokens(s) && ResultTokens(s) && Fits(s.jobs) && Fits(s.results) && |s.workers| >= 1
  {
    hide DirsTracked, FilesTracked, Queue, Tokens, ResultTokens, JobOk, PcOk, ManagerOk, ResultsInOrder;
  }

  lemma EndTokensOf(s: State)
    requires EndTokens(s) && s.ended
    ensures s.jobFull + Count(s.workers, AtCheck) + Count(s.workers, AtRepost) + TotalOwed(s.workers, |s.workers|)
            >= |s.workers|
  {}

  lemma EnabledAtRest(s: State, w: nat)
    requires Fits(s.jobs) && Fits(s.results) && w < |s.workers| && AtRest(s.workers[w])
    ensures Enabled(s, Worker(w)) <==>
              match s.workers[w] {
                case WaitEmpty(_, _) => s.jobEmpty > 0
                case WaitRoom(_, _) => s.resultEmpty > 0
                case Idle => s.jobFull > 0
                case _ => false
              }
  {}

  /** In any reachable state no worker can go on exactly if each has exited, or waits with the ring it wants to fill
      full, or waits for a job before the end with none queued. After the end, then, nobody sleeps on the job ring for
      ever: each of them is woken and leaves. */
  lemma StuckExactly(s: State)
    requires Reachable(s)
    ensures NoWorkerMoves(s) <==> forall w :: 0 <= w < |s.workers| ==> Waits(s, s.workers[w])
  {
    hide Reachable, Inv, Enabled, EndTokens, Count, TotalOwed;
    ReachableInv(s);
    TokensOf(s);
    if NoWorkerMoves(s) {
      RestOrMove(s);
      RestTokens(s);
      forall w | 0 <= w < |s.workers| ensures Waits(s, s.workers[w]) {
        EnabledAtRest(s, w);
      }
    }
    if forall w :: 0 <= w < |s.workers| ==> Waits(s, s.workers[w]) {
      RestTokens(s);
      forall w | 0 <= w < |s.workers| ensures !Enabled(s, Worker(w)) {
        EnabledAtRest(s, w);
      }
    }
  }

  /** Then all have exited, or a ring is full. */
  lemma StuckMeansFull(s: State)
    requires Reachable(s) && NoWorkerMoves(s) && !AllExited(s)
    ensures s.queuedJobs == 2048 || s.queuedResults + |InHand(s.manager)| == 2048
  {
    hide Reachable, NoWorkerMoves, Count;
    StuckExactly(s);
    if forall w :: 0 <= w < |s.workers| ==> s.workers[w].Exited? || s.workers[w].Idle? {
      if !s.ended {
        WorkRemains(s);
      }
    }
  }

  // ------------------------------------------------------------------ the deadlock

  /** Every worker still there wants to queue a job, and none can. */
  ghost predicate Deadlocked(s: State) {
    && s.queuedJobs == 2048 && !AllExited(s)
    && forall w :: 0 <= w < |s.workers| ==> s.workers[w].Exited? || s.workers[w].WaitEmpty?
  }

  /** Nothing that happens afterwards changes anything about it: no worker moves again, and the manager, who waits for
      the end or for the children, never gets out of its loop or past its wait. */
  lemma DeadlockStep(s: State, t: Thread)
    requires Reachable(s) && Deadlocked(s) && Enabled(s, t)
    ensures Deadlocked(Apply(s, t)) && Apply(s, t).workers == s.workers && !Apply(s, t).manager.Finished?
  {
    hide Reachable, Enabled, Apply, Inv;
    StuckExactly(s);
    if t.Worker? {
      InRange(s, t);
    }
    assert !t.Worker?;
    OthersKeepJobs(s, t);
    StepReachable(s, t);
    ReachableInv(Apply(s, t));
    FinishedMeansExited(Apply(s, t));
  }

  lemma InRange(s: State, t: Thread)
    requires Enabled(s, t) && t.Worker?
    ensures t.w < |s.workers|
  {}

  lemma FinishedMeansExited(s: State)
    requires Inv(s)
    ensures s.manager.Finished? ==> AllExited(s)
  {
    hide DirsTracked, FilesTracked, JobsOk, Tokens, ResultsInOrder, SlotsOk, ResultTokens, GarbledAt, AllExited;
  }

  lemma {:induction false} DeadlockIsForever(run: seq<State>, i: nat, j: nat)
    requires IsRun(run) && i <= j < |run| && Deadlocked(run[i])
    ensures Deadlocked(run[j]) && run[j].workers == run[i].workers && !run[j].manager.Finished?
    decreases j
  {
    hide Deadlocked, Inv, Apply, Enabled, Init;
    PrefixReachable(run, j);
    if i == j {
      ReachableInv(run[j]);
      FinishedMeansExited(run[j]);
      NotAllGone(run[j]);
    } else {
      DeadlockIsForever(run, i, j - 1);
      PrefixReachable(run, j - 1);
      assert Next(run[j - 1], run[j - 1 + 1]);
      var t :| Enabled(run[j - 1], t) && run[j] == Apply(run[j - 1], t);
      DeadlockStep(run[j - 1], t);
    }
  }

  lemma NotAllGone(s: State)
    requires Deadlocked(s)
    ensures !AllExited(s)
  {}

  lemma PrefixReachable(run: seq<State>, i: nat)
    requires IsRun(run) && i < |run|
    ensures Reachable(run[i])
  {
    hide Init, Next;
    var front := run[..i + 1];
    forall k | 0 <= k < |front| - 1 ensures Next(front[k], front[k + 1]) {
      assert Next(run[k], run[k + 1]);
    }
    assert IsRun(front) && front[|front| - 1] == run[i];
  }

  // ------------------------------------------------------------------ trees that are small enough

  lemma {:induction false} NoMoreThan(a: seq<Path>, b: multiset<Path>)
    requires forall p :: multiset(a)[p] <= b[p]
    ensures |a| <= |b|
  {
    if a != [] {
      var n := |a| - 1;
      var p := a[n];
      assert a == a[..n] + [p];
      assert multiset(a) == multiset(a[..n]) + multiset{p};
      assert multiset(a)[p] >= 1;
      NoMoreThan(a[..n], b - multiset{p});
    }
  }

  function Names(jobs: seq<Job>): seq<Path> {
    if jobs == [] then [] else Names(jobs[..|jobs| - 1]) + [jobs[|jobs| - 1].name]
  }

  /** The names of queued jobs, counted. */
  lemma {:induction false} NamesCount(jobs: seq<Job>, p: Path)
    requires forall job :: job in jobs ==> job.depth == |job.name|
    ensures multiset(Names(jobs))[p] == multiset(jobs)[Job(p, |p|)] && |Names(jobs)| == |jobs|
  {
    if jobs != [] {
      var n := |jobs| - 1;
      assert jobs == jobs[..n] + [jobs[n]];
      NamesCount(jobs[..n], p);
      assert multiset(Names(jobs)) == multiset(Names(jobs[..n])) + multiset{jobs[n].name};
      assert multiset(jobs) == multiset(jobs[..n]) + multiset{jobs[n]};
      assert jobs[n] == Job(p, |p|) <==> jobs[n].name == p;
    }
  }

  /** The directories of the tree within the limit, the root included. */
  function AllDirs(s: State): seq<Path> {
    [[]] + ListDirs(s.root, [], s.maxDepth)
  }

  lemma DirCounted(s: State, p: Path)
    ensures multiset(AllDirs(s))[p] == One(IsDir(s.root, p) && |p| <= s.maxDepth)
  {
    hide ListDirs, IsDir;
    DirsListed(s.root, [], s.maxDepth, p);
    DirFromTop(s.root, p);
    assert p[0..] == p;
    assert multiset(AllDirs(s)) == multiset([[]]) + multiset(ListDirs(s.root, [], s.maxDepth));
  }

  /** The directory a worker is busy with and the ones queued are all different. */
  lemma QueuedAndHeld(s: State, w: nat, p: Path)
    requires Reachable(s) && w < |s.workers| && s.workers[w].Holding() && Spans(s.jobs, s.queuedJobs)
    ensures multiset(Names(JobQueue(s)) + [s.workers[w].job.name])[p] <= multiset(AllDirs(s))[p]
    ensures |Names(JobQueue(s))| == s.queuedJobs
  {
    hide Reachable, Queue, IsDir, Undiscovered, AllDirs, Count, Names;
    var jobs, mine := JobQueue(s), s.workers[w].job.name;
    forall job | job in jobs ensures job.depth == |job.name| {
      OnlyDirectoriesAreJobs(s, job, w);
    }
    NamesCount(jobs, p);
    DirCounted(s, p);
    assert multiset(Names(jobs) + [mine]) == multiset(Names(jobs)) + multiset{mine};
    if IsDir(s.root, p) && |p| <= s.maxDepth {
      DirectoryInOnePlace(s, p);
      if p == mine {
        CountZero(s.workers, Holds(p));
        assert Holds(p)(s.workers[w]);
      }
    } else {
      OnlyDirectoriesAreJobs(s, Job(p, |p|), w);
      OnlyDirectoriesAreJobs(s, s.workers[w].job, w);
    }
  }

  /** A tree of at most 2048 directories within the depth limit never deadlocks the workers. */
  lemma SmallTreesDoNotDeadlock(s: State)
    requires Reachable(s) && Deadlocked(s)
    ensures 1 + |ListDirs(s.root, [], s.maxDepth)| > 2048
  {
    hide Reachable, Queue, ListDirs, Names, Spans, Fits;
    JobTokensConserved(s);
    var w :| 0 <= w < |s.workers| && !s.workers[w].Exited?;
    var busy := Names(JobQueue(s)) + [s.workers[w].job.name];
    forall p ensures multiset(busy)[p] <= multiset(AllDirs(s))[p] {
      QueuedAndHeld(s, w, p);
    }
    NoMoreThan(busy, multiset(AllDirs(s)));
    QueuedAndHeld(s, w, []);
  }

  // ------------------------------------------------------------------ a tree that is not

  /** A directory of n empty sub-directories and nothing else. */
  function Dirs(n: nat): seq<Item> {
    seq(n, _ => SubDir([]))
  }

  /** The only worker is at pc, before the end, with k jobs queued. */
  ghost predicate Lone(s: State, n: nat, pc: Pc, k: nat) {
    && Spans(s.jobs, s.queuedJobs) && Fits(s.results) && s.root == Dirs(n) && s.maxDepth == 1
    && s.workers == [pc] && !s.ended && s.queuedJobs == k
    && s.jobEmpty + k + One(pc.Insert? || pc.PostEmpty?) == CAPACITY
  }

  lemma LoneStart(n: nat) returns (s: State)
    ensures Reachable(s) && Lone(s, n, Idle, 1) && s.jobFull == 1 && JobQueue(s) == [ROOT]
  {
    var slots: seq<Job> := seq(CAPACITY, _ => ROOT);
    var room: seq<Path> := seq(CAPACITY, _ => []);
    s := State(Dirs(n), 1, CAPACITY - 1, 1, Ring(slots, 0, 1), 1, 0, false, CAPACITY, 0, Ring(room, 0, 0), 0,
               [Idle], Poll, 0, multiset{}, [], [], 0, false);
    assert Queue(s.jobs, 1) == [ROOT];
    assert IsRun([s]);
    assert [s][|[s]| - 1] == s;
  }

  /** The worker takes the root ... */
  lemma LoneTake(s: State, n: nat) returns (t: State)
    requires Reachable(s) && Lone(s, n, Idle, 1) && s.jobFull == 1 && JobQueue(s) == [ROOT]
    ensures Reachable(t) && Lone(t, n, PostEmpty(ROOT), 0)
  {
    hide Reachable, Queue, MutexFree, Dirs;
    t := Go(s, 0);
    t := Go(t, 0);
    NobodyInMutex(t);
    t := Go(t, 0);
  }

  /** ... and opens it. */
  lemma LoneOpen(s: State, n: nat) returns (t: State)
    requires Reachable(s) && Lone(s, n, PostEmpty(ROOT), 0)
    ensures Reachable(t) && Lone(t, n, Scan(ROOT, 0), 0)
  {
    hide Reachable, Queue, MutexFree, Dirs;
    t := Go(s, 0);
    NobodyInMutex(t);
    t := Go(t, 0);
  }

  lemma DirEntry(s: State, n: nat, k: nat)
    requires s.root == Dirs(n) && s.maxDepth == 1 && k < n
    ensures AtEntry(s, ROOT, k) == WaitEmpty(ROOT, k)
  {}

  /** One sub-directory is queued, as long as there is room. */
  lemma LoneQueue(s: State, n: nat, k: nat) returns (t: State)
    requires Reachable(s) && Lone(s, n, Scan(ROOT, k), k) && k < n && k < CAPACITY
    ensures Reachable(t) && Lone(t, n, Scan(ROOT, k + 1), k + 1)
  {
    hide Reachable, Queue, MutexFree, Dirs, AtEntry;
    DirEntry(s, n, k);
    t := Go(s, 0);
    t := Go(t, 0);
    NobodyInMutex(t);
    t := Go(t, 0);
    t := Go(t, 0);
  }

  lemma {:induction false} LoneQueueAll(s: State, n: nat, k: nat) returns (t: State)
    requires Reachable(s) && Lone(s, n, Scan(ROOT, k), k) && k <= CAPACITY < n
    ensures Reachable(t) && Lone(t, n, Scan(ROOT, CAPACITY), CAPACITY)
    decreases CAPACITY - k
  {
    hide Reachable, Lone;
    t := s;
    if k < CAPACITY {
      t := LoneQueue(t, n, k);
      t := LoneQueueAll(t, n, k + 1);
    }
  }

  /** A single worker that meets a directory of more than 2048 sub-directories fills the job ring, which nobody else
      empties, and waits for ever. */
  lemma FullJobRing(n: nat) returns (s: State)
    requires n > 2048
    ensures Reachable(s) && s.root == Dirs(n) && s.maxDepth == 1 && s.workers == [WaitEmpty(ROOT, 2048)] && Deadlocked(s)
  {
    hide Reachable, Queue, MutexFree, Dirs, AtEntry;
    s := LoneStart(n);
    s := LoneTake(s, n);
    s := LoneOpen(s, n);
    s := LoneQueueAll(s, n, 0);
    DirEntry(s, n, CAPACITY);
    s := Go(s, 0);
    assert s.workers[0] == WaitEmpty(ROOT, 2048);
  }
}
