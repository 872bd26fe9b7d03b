/** Runs in which the pool loses something, none of them with an error or a shutdown. */
module PoolShortfalls {
  import opened Rings
  import opened Pool
  import opened PoolInvariant
  import opened PoolSteps
  import opened PoolRuns

  /** A root with one sub-directory, which has another, which holds a file. */
  const NESTED: seq<Item> := [SubDir([SubDir([Regular])])]

  const ROOT := Job([], 0)
  const OUTER := Job([0], 1)
  const INNER := Job([0, 0], 2)

  /** What the runs below follow of a state: two workers, the semaphore of queued jobs, the queue, and the end flag. */
  ghost predicate At(s: State, a: Pc, b: Pc, jobFull: nat, queue: seq<Job>, active: int, ended: bool) {
    && Spans(s.jobs, s.queuedJobs) && Fits(s.results) && s.root == NESTED && s.maxDepth == 5
    && s.workers == [a, b] && s.jobFull == jobFull && JobQueue(s) == queue && s.activeJobs == active && s.ended == ended
  }

  /** One step of worker w, as far as At follows it. */
  ghost predicate Effect(s: State, w: nat, s': State)
    requires w < |s.workers| && Spans(s.jobs, s.queuedJobs)
  {
    var pc := s.workers[w];
    && Moved(s, w, s') && Fits(s'.results)
    && (pc.Pop? ==> PcAfter(s, pc) == PostEmpty(JobQueue(s)[0]))
    && JobMoved(s, pc, s') && ResultEffect(s, pc, s')
  }

  ghost predicate ResultEffect(s: State, pc: Pc, s': State) {
    && ResultMoved(s, pc, s') && s'.manager == s.manager && s'.dead == s.dead
    && s'.appended == s.appended && s'.spoiled == s.spoiled
    && s'.emitted == s.emitted + if pc.InsertResult? then [pc.job.name + [pc.k]] else []
  }

  lemma EffectOfStep(s: State, w: nat, s': State)
    requires Inv(s) && Inv(s') && Enabled(s, Worker(w)) && s' == Apply(s, Worker(w))
    ensures w < |s.workers| && Spans(s.jobs, s.queuedJobs) && Effect(s, w, s')
  {
    hide JobsOk, Tokens, ResultsOk, DirsTracked, FilesTracked, Moved, Queue, MutexFree, Apply, PcAfter, JobMoved;
    InvParts(s);
    InvParts(s');
    StepMoves(s, w);
    QueueMoves(s, w);
    JobMoves(s, w);
    ResultMoves(s, w);
    TreeKept(s, w);
    EmittedMoves(s, w);
  }

  lemma Go(s: State, w: nat) returns (s': State)
    requires Reachable(s) && Enabled(s, Worker(w))
    ensures w < |s.workers| && Spans(s.jobs, s.queuedJobs) && Effect(s, w, s') && Reachable(s')
  {
    hide Inv, Apply, Enabled, Effect;
    s' := Apply(s, Worker(w));
    StepReachable(s, Worker(w));
    ReachableInv(s');
    ReachableInv(s);
    EffectOfStep(s, w, s');
  }

  lemma InvParts(s: State)
    requires Inv(s)
    ensures JobsOk(s) && Tokens(s) && Spans(s.jobs, s.queuedJobs)
    ensures Fits(s.jobs) && Fits(s.results)
  {}

  /** There is always a free job slot in a run with so few jobs. */
  lemma RoomForAJob(s: State)
    requires Reachable(s) && |s.workers| == 2 && s.queuedJobs <= 1
    ensures s.jobEmpty > 0
  {
    hide Reachable, Inv;
    ReachableInv(s);
    InvParts(s);
    CountZero(s.workers, AtInsert);
    CountZero(s.workers, AtPostEmpty);
  }

  lemma Entries(s: State)
    requires s.root == NESTED && s.maxDepth == 5
    ensures AtEntry(s, ROOT, 0) == WaitEmpty(ROOT, 0) && AtEntry(s, ROOT, 1) == Finish(ROOT)
    ensures AtEntry(s, OUTER, 0) == WaitEmpty(OUTER, 0) && AtEntry(s, OUTER, 1) == Finish(OUTER)
    ensures Child(ROOT, 0) == OUTER && Child(OUTER, 0) == INNER
    ensures IsDir(NESTED, INNER.name)
  {
    assert Front([0]) == [] && Last([0]) == 0 && Front([0, 0]) == [0] && Last([0, 0]) == 0;
    assert ItemsOf(NESTED, []) == NESTED;
    assert ItemsOf(NESTED, [0]) == [SubDir([Regular])];
  }

  lemma MutexOfTwo(s: State)
    requires |s.workers| == 2 && !s.workers[0].InMutex() && !s.workers[1].InMutex()
    ensures MutexFree(s)
  {}

  /** Worker w takes the only queued job. */
  lemma TakeJob(s: State, w: nat, job: Job) returns (t: State)
    requires Reachable(s) && w < 2 && |s.workers| == 2 && At(s, s.workers[0], s.workers[1], 1, [job], s.activeJobs, false)
    requires s.workers[w].Idle? && !s.workers[1 - w].InMutex()
    ensures var ws := s.workers[w := PostEmpty(job)];
            Reachable(t) && At(t, ws[0], ws[1], 0, [], s.activeJobs, false)
  {
    hide Reachable, Queue, MutexFree;
    var s1 := Go(s, w);
    var s2 := Go(s1, w);
    MutexOfTwo(s2);
    t := Go(s2, w);
  }

  /** Worker w enters its job as active ... */
  lemma Enter(s: State, w: nat, job: Job, queued: nat) returns (t: State)
    requires Reachable(s) && w < 2 && |s.workers| == 2
    requires At(s, s.workers[0], s.workers[1], queued, [], s.activeJobs, s.ended)
    requires s.workers[w] == PostEmpty(job) && !s.workers[1 - w].InMutex()
    ensures var ws := s.workers[w := Scan(job, 0)];
            Reachable(t) && At(t, ws[0], ws[1], queued, [], s.activeJobs + 1, s.ended)
  {
    hide Reachable, Queue, MutexFree, AtEntry;
    var s1 := Go(s, w);
    MutexOfTwo(s1);
    t := Go(s1, w);
  }

  /** ... and gets to its first entry. */
  lemma Open(s: State, w: nat, job: Job, queued: nat) returns (t: State)
    requires Reachable(s) && w < 2 && |s.workers| == 2
    requires At(s, s.workers[0], s.workers[1], queued, [], s.activeJobs, s.ended)
    requires s.workers[w] == PostEmpty(job) && !s.workers[1 - w].InMutex() && job in {ROOT, OUTER}
    ensures var ws := s.workers[w := WaitEmpty(job, 0)];
            Reachable(t) && At(t, ws[0], ws[1], queued, [], s.activeJobs + 1, s.ended)
  {
    hide Reachable, Queue, MutexFree, AtEntry;
    var s1 := Enter(s, w, job, queued);
    Entries(s1);
    t := Go(s1, w);
  }

  /** ... takes a slot for the sub-directory it finds there ... */
  lemma Reserve(s: State, w: nat, job: Job, queued: nat) returns (t: State)
    requires Reachable(s) && w < 2 && |s.workers| == 2
    requires At(s, s.workers[0], s.workers[1], queued, [], s.activeJobs, s.ended) && s.workers[w] == WaitEmpty(job, 0)
    ensures var ws := s.workers[w := Insert(job, 0)];
            Reachable(t) && At(t, ws[0], ws[1], queued, [], s.activeJobs, s.ended)
  {
    hide Reachable, Queue, MutexFree, AtEntry;
    RoomForAJob(s);
    t := Go(s, w);
  }

  /** ... queues it ... */
  lemma Expand(s: State, w: nat, job: Job, queued: nat, child: Job) returns (t: State)
    requires Reachable(s) && w < 2 && |s.workers| == 2
    requires At(s, s.workers[0], s.workers[1], queued, [], s.activeJobs, s.ended) && s.workers[w] == WaitEmpty(job, 0)
    requires !s.workers[1 - w].InMutex() && Child(job, 0) == child
    ensures var ws := s.workers[w := PostFull(job, 0)];
            Reachable(t) && At(t, ws[0], ws[1], queued, [child], s.activeJobs, s.ended)
  {
    hide Reachable, Queue, MutexFree, AtEntry, Child;
    var s1 := Reserve(s, w, job, queued);
    MutexOfTwo(s1);
    t := Go(s1, w);
  }

  /** ... posts its token ... */
  lemma Post(s: State, w: nat, job: Job, queued: nat, child: Job) returns (t: State)
    requires Reachable(s) && w < 2 && |s.workers| == 2
    requires At(s, s.workers[0], s.workers[1], queued, [child], s.activeJobs, s.ended) && s.workers[w] == PostFull(job, 0)
    ensures var ws := s.workers[w := Scan(job, 1)];
            Reachable(t) && At(t, ws[0], ws[1], queued + 1, [child], s.activeJobs, s.ended)
  {
    hide Reachable, Queue, MutexFree, AtEntry;
    t := Go(s, w);
  }

  /** ... and reaches the end of the directory. */
  lemma Close(s: State, w: nat, job: Job, queued: nat, child: Job) returns (t: State)
    requires Reachable(s) && w < 2 && |s.workers| == 2 && job in {ROOT, OUTER}
    requires At(s, s.workers[0], s.workers[1], queued, [child], s.activeJobs, s.ended) && s.workers[w] == PostFull(job, 0)
    ensures var ws := s.workers[w := Finish(job)];
            Reachable(t) && At(t, ws[0], ws[1], queued + 1, [child], s.activeJobs, s.ended)
  {
    hide Reachable, Queue, MutexFree, AtEntry;
    var s1 := Post(s, w, job, queued, child);
    Entries(s1);
    t := Go(s1, w);
  }

  /** The other worker finishes too, but something is queued. */
  lemma FinishQuietly(s: State) returns (t: State)
    requires Reachable(s) && At(s, Idle, Finish(OUTER), 3, [INNER], 1, true)
    ensures Reachable(t) && At(t, Idle, Idle, 3, [INNER], 0, true)
  {
    hide Reachable, Queue, MutexFree;
    MutexOfTwo(s);
    t := Go(s, 1);
  }

  /** The first worker finishes its directory, believes itself the last, and announces the end. */
  lemma Announce(s: State, b: Pc) returns (t: State)
    requires Reachable(s) && At(s, Finish(ROOT), b, 0, [], 1, false) && !b.InMutex()
    ensures Reachable(t) && At(t, Idle, b, 2, [], 0, true)
  {
    hide Reachable, Queue, MutexFree;
    MutexOfTwo(s);
    var s1 := Go(s, 0);
    var s2 := Go(s1, 0);
    var s3 := Go(s2, 0);
    var s4 := Go(s3, 0);
    t := Go(s4, 0);
  }

  /** After the end a waiting worker leaves. */
  lemma Leave(s: State, w: nat, queue: seq<Job>) returns (t: State)
    requires Reachable(s) && w < 2 && |s.workers| == 2 && s.workers[w].Idle?
    requires At(s, s.workers[0], s.workers[1], 3, queue, 0, true)
    ensures var ws := s.workers[w := Exited];
            Reachable(t) && At(t, ws[0], ws[1], 3, queue, 0, true)
  {
    hide Reachable, Queue, MutexFree;
    var s1 := Go(s, w);
    var s2 := Go(s1, w);
    t := Go(s2, w);
  }

  lemma Start() returns (s: State)
    ensures Reachable(s) && At(s, Idle, Idle, 1, [ROOT], 0, false)
  {
    var slots: seq<Job> := seq(CAPACITY, _ => ROOT);
    var room: seq<Path> := seq(CAPACITY, _ => []);
    s := State(NESTED, 5, CAPACITY - 1, 1, Ring(slots, 0, 1), 1, 0, false, CAPACITY, 0, Ring(room, 0, 0), 0,
               [Idle, Idle], Poll, 0, multiset{}, [], [], 0, false);
    assert Queue(s.jobs, 1) == [ROOT];
    assert IsRun([s]);
    assert [s][|[s]| - 1] == s;
  }

  /** A directory can be lost: the worker that has just popped [0] is not counted as active, so the one that finishes
      the root announces the end; [0] then queues [0, 0], and everybody leaves. */
  lemma PrematureEnd() returns (s: State)
    ensures Reachable(s) && AllExited(s)
    ensures IsDir(s.root, [0, 0]) && 2 <= s.maxDepth && s.done[[0, 0]] == 0
    ensures IsFile(s.root, [0, 0, 0]) && 3 <= s.maxDepth && [0, 0, 0] !in s.emitted
  {
    hide Reachable, Queue;
    s := BothBusy();
    s := Announce(s, PostEmpty(OUTER));
    s := Open(s, 1, OUTER, 2);
    Entries(s);
    s := Expand(s, 1, OUTER, 2, INNER);
    s := Close(s, 1, OUTER, 2, INNER);
    s := FinishQuietly(s);
    s := Leave(s, 0, [INNER]);
    s := Leave(s, 1, [INNER]);
    Lost(s);
  }

  /** The first worker has read the root, the second has just popped [0]. */
  lemma BothBusy() returns (s: State)
    ensures Reachable(s) && At(s, Finish(ROOT), PostEmpty(OUTER), 0, [], 1, false)
  {
    hide Reachable, Queue;
    s := Start();
    s := TakeJob(s, 0, ROOT);
    s := Open(s, 0, ROOT, 0);
    Entries(s);
    s := Expand(s, 0, ROOT, 0, OUTER);
    s := Close(s, 0, ROOT, 0, OUTER);
    s := TakeJob(s, 1, OUTER);
  }

  lemma Lost(s: State)
    requires Reachable(s) && At(s, Exited, Exited, 3, [INNER], 0, true)
    ensures IsDir(s.root, [0, 0]) && s.done[[0, 0]] == 0
    ensures IsFile(s.root, [0, 0, 0]) && [0, 0, 0] !in s.emitted
  {
    hide Reachable, Queue, Inv, Meetings;
    Entries(s);
    assert multiset([INNER])[INNER] == 1;
    DirectoryInOnePlace(s, [0, 0]);
    var x := [0, 0, 0];
    assert Front(x) == [0, 0] && Last(x) == 0;
    assert ItemsOf(NESTED, [0, 0]) == [Regular] by {
      assert Front([0, 0]) == [0] && Front([0]) == [];
    }
    ReachableInv(s);
    NotEmitted(s, x);
  }

  lemma NotEmitted(s: State, x: Path)
    requires Inv(s) && IsFile(s.root, x) && |x| <= s.maxDepth && NobodyHolds(s) && s.done[Front(x)] == 0
    ensures x !in s.emitted
  {
    hide IsDir, ItemsOf, Count, Queue, JobsOk, Tokens, DirsTracked, ResultsOk;
    NothingHeld(s, x);
  }

  // ------------------------------------------------------------------ one worker, one directory of files

  /** One step of the manager. */
  lemma Manage(s: State) returns (s': State)
    requires Reachable(s) && Enabled(s, Manager)
    ensures s' == ManagerStep(s) && Reachable(s') && Fits(s'.results) && Fits(s'.jobs)
  {
    hide Reachable, Inv;
    s' := Apply(s, Manager);
    StepReachable(s, Manager);
    ReachableInv(s');
    InvParts(s');
  }

  /** A directory of n files and nothing else. */
  function Files(n: nat): seq<Item> {
    seq(n, _ => Regular)
  }

  /** The only worker is at pc, the manager is at m and has not taken any of the first k files emitted. */
  ghost predicate Solo(s: State, n: nat, pc: Pc, m: ManagerPc, k: nat) {
    && Spans(s.jobs, s.queuedJobs) && Fits(s.results) && s.root == Files(n) && s.maxDepth == 1
    && s.workers == [pc] && s.manager == m && s.dead == 0 && s.appended == [] && !s.spoiled
    && s.queuedResults == k == |s.emitted| && s.resultEmpty + k + One(pc.InsertResult?) == CAPACITY
  }

  /** ... and the job ring and its semaphore stand as given. */
  ghost predicate Jobs(s: State, jobFull: nat, queue: seq<Job>, active: int, ended: bool)
    requires Spans(s.jobs, s.queuedJobs)
  {
    s.jobFull == jobFull && JobQueue(s) == queue && s.activeJobs == active && s.ended == ended
  }

  lemma SoloStart(n: nat) returns (s: State)
    ensures Reachable(s) && Solo(s, n, Idle, Poll, 0) && Jobs(s, 1, [ROOT], 0, false)
    ensures s.resultFull == 0 && s.endPosts == 0
  {
    var slots: seq<Job> := seq(CAPACITY, _ => ROOT);
    var room: seq<Path> := seq(CAPACITY, _ => []);
    s := State(Files(n), 1, CAPACITY - 1, 1, Ring(slots, 0, 1), 1, 0, false, CAPACITY, 0, Ring(room, 0, 0), 0,
               [Idle], Poll, 0, multiset{}, [], [], 0, false);
    assert Queue(s.jobs, 1) == [ROOT];
    assert IsRun([s]);
    assert [s][|[s]| - 1] == s;
  }

  lemma NobodyInMutex(s: State)
    requires |s.workers| == 1 && !s.workers[0].InMutex()
    ensures MutexFree(s)
  {}

  /** The worker takes the root. */
  lemma SoloTake(s: State, n: nat, m: ManagerPc) returns (t: State)
    requires Reachable(s) && Solo(s, n, Idle, m, 0) && Jobs(s, 1, [ROOT], 0, false)
    ensures Reachable(t) && Solo(t, n, PostEmpty(ROOT), m, 0) && Jobs(t, 0, [], 0, false)
    ensures t.resultFull == s.resultFull && t.endPosts == s.endPosts
  {
    hide Reachable, Queue, MutexFree, Files;
    t := Go(s, 0);
    t := Go(t, 0);
    NobodyInMutex(t);
    t := Go(t, 0);
  }

  /** ... and opens it. */
  lemma SoloOpen(s: State, n: nat, m: ManagerPc) returns (t: State)
    requires Reachable(s) && Solo(s, n, PostEmpty(ROOT), m, 0) && Jobs(s, 0, [], 0, false)
    ensures Reachable(t) && Solo(t, n, Scan(ROOT, 0), m, 0) && Jobs(t, 0, [], 1, false)
    ensures t.resultFull == s.resultFull && t.endPosts == s.endPosts
  {
    hide Reachable, Queue, MutexFree, Files;
    t := Go(s, 0);
    NobodyInMutex(t);
    t := Go(t, 0);
  }

  lemma FileEntry(s: State, n: nat, k: nat)
    requires s.root == Files(n) && s.maxDepth == 1 && k <= n
    ensures AtEntry(s, ROOT, k) == if k < n then WaitRoom(ROOT, k) else Finish(ROOT)
  {}

  /** One file is emitted, as long as there is room. */
  lemma SoloEmit(s: State, n: nat, m: ManagerPc, k: nat) returns (t: State)
    requires Reachable(s) && Solo(s, n, Scan(ROOT, k), m, k) && Jobs(s, 0, [], 1, false) && k < n && k < CAPACITY
    ensures Reachable(t) && Solo(t, n, Scan(ROOT, k + 1), m, k + 1) && Jobs(t, 0, [], 1, false)
  {
    hide Reachable, Queue, MutexFree, Files, AtEntry;
    FileEntry(s, n, k);
    t := Go(s, 0);
    t := Go(t, 0);
    t := Go(t, 0);
    t := Go(t, 0);
  }

  lemma {:induction false} SoloEmitAll(s: State, n: nat, m: ManagerPc, k: nat) returns (t: State)
    requires Reachable(s) && Solo(s, n, Scan(ROOT, k), m, k) && Jobs(s, 0, [], 1, false) && k <= n <= CAPACITY
    ensures Reachable(t) && Solo(t, n, Scan(ROOT, n), m, n) && Jobs(t, 0, [], 1, false)
    decreases n - k
  {
    hide Reachable, Solo;
    t := s;
    if k < n {
      SoloSpans(t, n, m, k);
      t := SoloEmit(t, n, m, k);
      SoloSpans(t, n, m, k + 1);
      t := SoloEmitAll(t, n, m, k + 1);
    }
  }

  lemma SoloSpans(s: State, n: nat, m: ManagerPc, k: nat)
    requires Solo(s, n, Scan(ROOT, k), m, k)
    ensures Spans(s.jobs, s.queuedJobs)
  {}

  /** The worker announces the end ... */
  lemma SoloAnnounce(s: State, n: nat, m: ManagerPc, k: nat) returns (t: State)
    requires Reachable(s) && Solo(s, n, Finish(ROOT), m, k) && Jobs(s, 0, [], 1, false)
    ensures Reachable(t) && Solo(t, n, Flood(0), m, k) && Jobs(t, 0, [], 0, true)
    ensures t.resultFull == s.resultFull + 1 && t.endPosts == s.endPosts + 1
  {
    hide Reachable, Queue, MutexFree, Files;
    NobodyInMutex(s);
    t := Go(s, 0);
    t := Go(t, 0);
  }

  /** ... and leaves. */
  lemma SoloLeave(s: State, n: nat, m: ManagerPc, k: nat) returns (t: State)
    requires Reachable(s) && Solo(s, n, Flood(0), m, k) && Jobs(s, 0, [], 0, true)
    ensures Reachable(t) && Solo(t, n, Exited, m, k) && Jobs(t, 1, [], 0, true)
  {
    hide Reachable, Queue, MutexFree, Files;
    t := Go(s, 0);
    t := Go(t, 0);
    t := Go(t, 0);
    t := Go(t, 0);
    t := Go(t, 0);
  }

  /** From the start to the exit of the worker: all n files are in the result ring, while the manager stays where it
      is. */
  lemma SoloRun(s: State, n: nat, m: ManagerPc) returns (t: State)
    requires Reachable(s) && Solo(s, n, Idle, m, 0) && Jobs(s, 1, [ROOT], 0, false) && n <= CAPACITY
    ensures Reachable(t) && Solo(t, n, Exited, m, n) && Jobs(t, 1, [], 0, true)
  {
    hide Reachable, Queue, Files, AtEntry, MutexFree;
    t := SoloTake(s, n, m);
    t := SoloOpen(t, n, m);
    t := SoloEmitAll(t, n, m, 0);
    FileEntry(t, n, n);
    t := Go(t, 0);
    t := SoloAnnounce(t, n, m, n);
    t := SoloLeave(t, n, m, n);
  }

  // ------------------------------------------------------------------ the end of the manager

  /** Results can be left in the ring: the manager finds nothing to take, the only worker then emits all its files,
      announces the end and exits, and the manager reaps it and leaves its loop without reading the ring out. */
  lemma ReapedTooEarly(n: nat) returns (s: State)
    requires 1 <= n <= CAPACITY
    ensures Reachable(s) && s.manager == Finished(false) && !s.spoiled && s.queuedJobs == 0
    ensures |s.emitted| == n && s.appended == [] && !ExactlyTheFiles(s, s.appended)
  {
    hide Reachable, Queue, Files, MutexFree, ExactlyTheFiles;
    s := SoloStart(n);
    s := Manage(s);
    s := Manage(s);
    s := SoloRun(s, n, Body);
    OneExited(s);
    var t := Apply(s, Reap(1));
    StepReachable(s, Reap(1));
    FinishedInventory(t);
    s := t;
  }

  lemma OneExited(s: State)
    requires s.workers == [Exited]
    ensures Count(s.workers, IsExited) == 1
  {
    assert s.workers[..0] == [];
  }

  /** A result ring that is full at the end is taken for empty. */
  lemma FullRingLost() returns (s: State)
    ensures Reachable(s) && s.manager == Finished(true) && !s.spoiled && s.queuedJobs == 0
    ensures |s.emitted| == 2048 && s.appended == [] && !ExactlyTheFiles(s, s.appended)
  {
    hide Reachable, Queue, Files, MutexFree, ExactlyTheFiles;
    s := SoloStart(CAPACITY);
    s := SoloRun(s, CAPACITY, Poll);
    OrderOf(s);
    PendingIsQueue(s.results, CAPACITY);
    s := Manage(s);
    s := Manage(s);
    s := Manage(s);
    FinishedInventory(s);
  }

  /** One result fewer, and all of them reach the database. */
  lemma NearlyFullRingDelivered(n: nat) returns (s: State)
    requires n < CAPACITY
    ensures Reachable(s) && s.manager == Finished(true) && Delivered(s) && s.queuedJobs == 0
    ensures |s.emitted| == n && s.appended == s.emitted && ExactlyTheFiles(s, s.appended)
  {
    hide Reachable, Queue, Files, MutexFree, ExactlyTheFiles;
    s := SoloStart(n);
    s := SoloRun(s, n, Poll);
    s := Manage(s);
    s := Manage(s);
    s := Manage(s);
    FinishedInventory(s);
  }

  lemma OrderOf(s: State)
    requires Reachable(s) && !s.manager.Finished? && !s.spoiled
    ensures Spans(s.results, s.queuedResults)
  {
    ResultsArriveInOrder(s);
  }

  /** The manager may take the token that announces the end for a result, and pop an empty ring: it checks for the end
      before its trywait, not after. */
  lemma PopOfNothing() returns (s: State)
    ensures Reachable(s) && s.spoiled && s.queuedResults == -1 && s.manager.GiveBack?
  {
    hide Reachable, Queue, Files, AtEntry, MutexFree;
    s := SoloStart(0);
    s := Manage(s);
    s := SoloTake(s, 0, TryWait);
    s := SoloOpen(s, 0, TryWait);
    FileEntry(s, 0, 0);
    s := Go(s, 0);
    s := SoloAnnounce(s, 0, TryWait, 0);
    s := Manage(s);
    s := Manage(s);
  }
}
