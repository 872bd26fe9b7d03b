/** What the pool guarantees in every run, and where it falls short. */
module PoolRuns {
  import opened Rings
  import opened Pool
  import opened PoolInvariant
  import opened PoolSteps

  // ------------------------------------------------------------------ every reachable state

  lemma InitInv(s: State)
    requires Init(s)
    ensures Inv(s)
  {
    hide Queue, Spans, IsDir, IsFile, ItemsOf, Count;
    SpanOfOne(s);
    forall f: Pc -> bool | !f(Idle) ensures Count(s.workers, f) == 0 {
      CountZero(s.workers, f);
    }
    assert s.workers[0] == Idle;
    RootIsDir(s.root);
    EmptyResults(s);
    forall p ensures Places(s, p) == One(p == []) && Meetings(s, p) == One(p == []) {
      CountZero(s.workers, Holds(p));
      CountZero(s.workers, Met(p));
    }
  }

  lemma RootIsDir(root: seq<Item>)
    ensures IsDir(root, []) && !IsFile(root, [])
  {}

  lemma SpanOfOne(s: State)
    requires Init(s)
    ensures JobQueue(s) == [Job([], 0)] && Spans(s.jobs, s.queuedJobs)
  {}

  lemma EmptyResults(s: State)
    requires Init(s)
    ensures Spans(s.results, s.queuedResults) && Queue(s.results, s.queuedResults) == [] && Fits(s.results)
  {}

  lemma WorkerKept(s: State, w: nat)
    requires Inv(s) && Enabled(s, Worker(w))
    ensures Inv(Apply(s, Worker(w)))
  {
    hide Tokens, JobsOk, FilesTracked, DirsTracked, ResultsOk, Apply, Spans;
    if s.workers[w].Finish? {
      FinishTokens(s, w);
    } else {
      TokensKept(s, w);
    }
    JobsKept(s, w);
    DirsKept(s, w);
    FilesKept(s, w);
    ResultsKept(s, w);
    TreeKept(s, w);
  }

  lemma StepKeepsInv(s: State, t: Thread)
    requires Inv(s) && Enabled(s, t)
    ensures Inv(Apply(s, t))
  {
    hide Inv, Apply, Enabled;
    match t
    case Manager => ManagerKept(s);
    case Reap(n) => ReapKept(s, n);
    case Worker(w) => WorkerKept(s, w);
  }

  lemma {:induction false} RunKeepsInv(run: seq<State>, i: nat)
    requires IsRun(run) && i < |run|
    ensures Inv(run[i])
  {
    hide Inv, Apply, Enabled, Init;
    if i == 0 {
      InitInv(run[0]);
    } else {
      RunKeepsInv(run, i - 1);
      assert Next(run[i - 1], run[i - 1 + 1]);
      var t :| Enabled(run[i - 1], t) && run[i] == Apply(run[i - 1], t);
      StepKeepsInv(run[i - 1], t);
    }
  }

  lemma ReachableInv(s: State)
    requires Reachable(s)
    ensures Inv(s)
  {
    hide Inv, Next, Init;
    var run :| IsRun(run) && run[|run| - 1] == s;
    RunKeepsInv(run, |run| - 1);
  }

  // ------------------------------------------------------------------ the rings

  /** In every run, before and after the end is announced: the job ring holds a queue of at most CAPACITY jobs; free
      slots, producers about to fill one, queued jobs and consumers about to give one back add up to CAPACITY. */
  lemma JobTokensConserved(s: State)
    requires Reachable(s)
    ensures Spans(s.jobs, s.queuedJobs)
    ensures s.jobEmpty + Count(s.workers, AtInsert) + s.queuedJobs + Count(s.workers, AtPostEmpty) == CAPACITY
  {
    hide Spans, Count, DirsTracked, FilesTracked, ResultsOk, Reachable;
    ReachableInv(s);
  }

  /** No run ever reads an empty job slot or overwrites a full one, whatever posts termination adds: the workers past
      the end check never outnumber the queued jobs, and a producer past its wait has a free slot. */
  lemma SlotsNeverMisused(s: State, w: nat)
    requires Reachable(s) && w < |s.workers|
    ensures Count(s.workers, AtPop) <= s.queuedJobs
    ensures s.workers[w].Pop? ==> s.queuedJobs > 0
    ensures s.workers[w].Insert? ==> s.queuedJobs < CAPACITY
  {
    hide Queue, Count, DirsTracked, FilesTracked, ResultsOk, Reachable, JobOk, PcOk;
    ReachableInv(s);
    SlotReady(s, w);
  }

  /** The ring works as a FIFO queue: a pop hands out the oldest job, an insert adds one at the end, and no other step
      changes it. */
  lemma JobRingIsFifo(s: State, w: nat)
    requires Reachable(s) && Enabled(s, Worker(w)) && Spans(s.jobs, s.queuedJobs)
    ensures var s', q, pc := Apply(s, Worker(w)), JobQueue(s), s.workers[w];
            && Spans(s'.jobs, s'.queuedJobs)
            && JobQueue(s') == (if pc.Pop? then q[if q == [] then 0 else 1..]
                                else if pc.Insert? then q + [Child(pc.job, pc.k)] else q)
            && (pc.Pop? ==> q != [] && s'.workers[w] == PostEmpty(q[0]))
  {
    hide Queue, Spans, Tokens, JobsOk, DirsTracked, FilesTracked, ResultsOk, Reachable, MutexFree, First, Put, Drop;
    ReachableInv(s);
    QueueMoves(s, w);
    TreeKept(s, w);
  }

  /** In every run, whatever the manager pops: the slots of the result ring are free, taken by a producer, queued or about
      to be given back, and each of its tokens stands for a queued result or for the end. */
  lemma ResultTokensConserved(s: State)
    requires Reachable(s)
    ensures s.resultEmpty + Count(s.workers, AtInsertResult) + s.queuedResults + |InHand(s.manager)| == CAPACITY
    ensures s.resultFull + Count(s.workers, AtPostResult) + One(s.manager.Take?) == s.queuedResults + s.endPosts
    ensures !s.ended ==> s.endPosts == 0
  {
    hide Spans, Count, DirsTracked, FilesTracked, Reachable, JobsOk, Tokens, ManagerOk, SlotsOk, ResultsInOrder;
    ReachableInv(s);
  }

  /** Until the manager pops an empty ring, the result ring is a FIFO queue, and results reach the database in the order
      they were emitted. Until the end is announced, it never does. */
  lemma ResultsArriveInOrder(s: State)
    requires Reachable(s)
    ensures !s.ended ==> !s.spoiled && !s.manager.Finished?
    ensures !s.spoiled ==> Spans(s.results, s.queuedResults)
    ensures !s.spoiled && !s.manager.Finished? ==>
              s.emitted == s.appended + InHand(s.manager) + Queue(s.results, s.queuedResults)
  {
    hide Spans, Queue, Count, DirsTracked, FilesTracked, Reachable, JobsOk, Tokens, SlotsOk, ResultTokens;
    ReachableInv(s);
  }

  /** A pop finds the ring empty exactly when the posts for the end outnumber by one the tokens still about: those left
      in the semaphore and those of producers yet to post. Then, and only then, does it spoil the order; otherwise it
      takes the oldest result. A pop whose trywait came before the end always finds a result. */
  lemma PopIsEmptyExactly(s: State)
    requires Reachable(s) && s.manager.Take? && Enabled(s, Manager)
    ensures var missing := s.resultFull + Count(s.workers, AtPostResult) + 1 == s.endPosts;
            && (s.queuedResults == 0 <==> missing)
            && (Apply(s, Manager).spoiled <==> missing)
            && (!missing ==> Spans(s.results, s.queuedResults) && s.queuedResults > 0
                             && Apply(s, Manager).manager == GiveBack(Queue(s.results, s.queuedResults)[0]))
    ensures s.manager.beforeEnd ==> s.queuedResults >= 1
    ensures !s.manager.beforeEnd ==> s.ended
  {
    hide Queue, Count, DirsTracked, FilesTracked, Reachable, JobsOk, Tokens, SlotsOk, First, Drop, MutexFree;
    ReachableInv(s);
    if s.queuedResults > 0 {
      DropLeaves(s.results, s.queuedResults);
    }
  }

  /** A token found by the manager's trywait brings the oldest result into the database in three steps, unless the tokens
      still about are all for the end. */
  lemma TokenBringsResult(s: State)
    requires Reachable(s) && s.manager.TryWait? && s.resultFull > 0 && Enabled(s, Manager)
    requires s.resultFull + Count(s.workers, AtPostResult) != s.endPosts
    ensures Spans(s.results, s.queuedResults) && s.queuedResults > 0
    ensures var s1 := ManagerStep(s);
            var s2 := ManagerStep(s1);
            var s3 := ManagerStep(s2);
            && s1.manager.Take? && s1.resultFull == s.resultFull - 1
            && s2.queuedResults == s.queuedResults - 1
            && s3.manager.Body? && s3.appended == s.appended + [Queue(s.results, s.queuedResults)[0]]
            && s3.resultEmpty == s.resultEmpty + 1
  {
    hide Queue, Count, DirsTracked, FilesTracked, Reachable, JobsOk, Tokens, SlotsOk, MutexFree, Pending;
    ReachableInv(s);
    DropLeaves(s.results, s.queuedResults);
  }

  /** A worker waits for a job slot exactly as long as all 2048 are filled, being filled, or being emptied; for a result
      slot, exactly as long as all 2048 are filled, being filled, or in the manager's hand; and until the end, for a job
      exactly as long as every queued job is spoken for. */
  lemma BlockedExactly(s: State, w: nat)
    requires Reachable(s) && w < |s.workers|
    ensures s.workers[w].WaitEmpty? ==>
              (!Enabled(s, Worker(w)) <==>
               s.queuedJobs + Count(s.workers, AtInsert) + Count(s.workers, AtPostEmpty) == 2048)
    ensures s.workers[w].WaitRoom? ==>
              (!Enabled(s, Worker(w)) <==>
               s.queuedResults + Count(s.workers, AtInsertResult) + |InHand(s.manager)| == 2048)
    ensures s.workers[w].Idle? && !s.ended ==>
              (!Enabled(s, Worker(w)) <==>
               s.queuedJobs == Count(s.workers, AtCheck) + Count(s.workers, AtPop) + Count(s.workers, AtPostFull))
  {
    hide Queue, Count, DirsTracked, FilesTracked, Reachable, JobOk, PcOk, MutexFree, ManagerOk, ResultsInOrder;
    ReachableInv(s);
  }

  // ------------------------------------------------------------------ each directory once

  lemma ParentIsDir(s: State, x: Path)
    requires Wanted(s, x) && x != []
    ensures IsDir(s.root, Front(x)) && |Front(x)| < s.maxDepth
  {}

  lemma DirBooks(s: State, p: Path)
    requires Inv(s) && IsDir(s.root, p) && |p| <= s.maxDepth
    ensures Spans(s.jobs, s.queuedJobs) && Places(s, p) == Meetings(s, p)
  {
    hide Spans, Count, FilesTracked, Tokens, ResultsOk, IsDir, IsFile, ItemsOf, Meetings, Places;
  }

  lemma {:induction false} MetAtMostOnce(s: State, x: Path)
    requires Inv(s) && Wanted(s, x)
    ensures Meetings(s, x) <= 1
    ensures x != [] ==> s.done[Front(x)] + Count(s.workers, Holds(Front(x))) <= 1
    decreases |x|
  {
    hide Inv, Spans, Queue, Count, IsDir, IsFile, ItemsOf;
    if x != [] {
      var d := Front(x);
      ParentIsDir(s, x);
      MetAtMostOnce(s, d);
      DirBooks(s, d);
      MetImpliesHeld(s.workers, x);
    }
  }

  lemma MetImpliesHeld(ws: seq<Pc>, x: Path)
    requires x != []
    ensures Count(ws, Met(x)) <= Count(ws, Holds(Front(x)))
  {
    CountMonotone(ws, Met(x), Holds(Front(x)));
  }

  /** Nobody has come across directory p yet: the one it is in is not done, and no worker has got past p there. */
  ghost predicate Undiscovered(s: State, p: Path) {
    p != [] && Front(p) !in s.done && forall w :: 0 <= w < |s.workers| ==> !Met(p)(s.workers[w])
  }

  lemma UndiscoveredIsUnmet(s: State, p: Path)
    ensures Undiscovered(s, p) <==> Meetings(s, p) == 0
  {
    CountZero(s.workers, Met(p));
  }

  /** Every directory within the depth limit is, at every moment of every run, in exactly one of four places:
      undiscovered, queued, held by one worker, or done; and each only once. */
  lemma DirectoryInOnePlace(s: State, p: Path)
    requires Reachable(s) && IsDir(s.root, p) && |p| <= s.maxDepth && Spans(s.jobs, s.queuedJobs)
    ensures One(Undiscovered(s, p)) + multiset(JobQueue(s))[Job(p, |p|)] + Count(s.workers, Holds(p)) + s.done[p] == 1
  {
    hide Inv, Spans, Queue, Count, Reachable, IsDir, IsFile, ItemsOf, Meetings, Undiscovered;
    ReachableInv(s);
    MetAtMostOnce(s, p);
    DirBooks(s, p);
    UndiscoveredIsUnmet(s, p);
  }

  /** Nothing but such directories is ever queued, held or done. */
  lemma OnlyDirectoriesAreJobs(s: State, job: Job, w: nat)
    requires Reachable(s) && Spans(s.jobs, s.queuedJobs)
    ensures job in JobQueue(s) ==> JobOk(s, job)
    ensures w < |s.workers| && s.workers[w].Holding() ==> JobOk(s, s.workers[w].job)
    ensures job.name in s.done ==> IsDir(s.root, job.name) && |job.name| <= s.maxDepth
  {
    hide Queue, Count, FilesTracked, Tokens, ResultsOk, Reachable, IsDir, IsFile, ItemsOf, Places;
    ReachableInv(s);
  }

  // ------------------------------------------------------------------ completeness

  ghost predicate AllDone(s: State) {
    forall p :: IsDir(s.root, p) && |p| <= s.maxDepth ==> s.done[p] == 1
  }

  /** Every regular file whose directory lies above the depth limit, once each, and nothing else. */
  ghost predicate ExactlyTheFiles(s: State, out: seq<Path>) {
    && (forall x :: IsFile(s.root, x) && |Front(x)| < s.maxDepth ==> multiset(out)[x] == 1)
    && forall x :: x in out ==> IsFile(s.root, x) && |Front(x)| < s.maxDepth
  }

  ghost predicate NobodyHolds(s: State) {
    forall w :: 0 <= w < |s.workers| ==> !s.workers[w].Holding()
  }

  lemma NothingHeld(s: State, p: Path)
    requires NobodyHolds(s)
    ensures Count(s.workers, Holds(p)) == 0 && Count(s.workers, Met(p)) == 0
  {
    CountZero(s.workers, Holds(p));
    CountZero(s.workers, Met(p));
  }

  lemma {:induction false} DoneFromAbove(s: State, p: Path)
    requires Inv(s) && s.queuedJobs == 0 && NobodyHolds(s) && IsDir(s.root, p) && |p| <= s.maxDepth
    ensures s.done[p] == 1
    decreases |p|
  {
    hide Inv, Count, IsDir, ItemsOf, NobodyHolds;
    NothingHeld(s, p);
    DirBooks(s, p);
    if p != [] {
      ParentIsDir(s, p);
      DoneFromAbove(s, Front(p));
    }
  }

  /** Once the job ring is empty and no worker holds a job, every directory within the limit has been done, once, and
      exactly the files they hold have been emitted, each once. */
  lemma DrainedMeansDone(s: State)
    requires Reachable(s) && s.queuedJobs == 0 && NobodyHolds(s)
    ensures AllDone(s) && ExactlyTheFiles(s, s.emitted)
  {
    hide Reachable, Inv, NobodyHolds, IsDir, IsFile;
    ReachableInv(s);
    forall p | IsDir(s.root, p) && |p| <= s.maxDepth ensures s.done[p] == 1 {
      DoneFromAbove(s, p);
    }
    forall x | IsFile(s.root, x) && |x| <= s.maxDepth ensures multiset(s.emitted)[x] == 1 {
      FileFromAbove(s, x);
    }
    OnlyFilesEmitted(s);
  }

  lemma OnlyFilesEmitted(s: State)
    requires Inv(s)
    ensures forall x :: x in s.emitted ==> IsFile(s.root, x) && |Front(x)| < s.maxDepth
  {
    hide Spans, Queue, Count, JobsOk, Tokens, ResultsOk, IsDir, ItemsOf, Meetings, DirsTracked;
  }

  lemma FileFromAbove(s: State, x: Path)
    requires Inv(s) && s.queuedJobs == 0 && NobodyHolds(s) && IsFile(s.root, x) && |x| <= s.maxDepth
    ensures multiset(s.emitted)[x] == 1
  {
    hide Spans, Queue, Count, DirsTracked, JobsOk, Tokens, ResultsOk, ItemsOf, NobodyHolds, IsDir;
    NothingHeld(s, x);
    DoneFromAbove(s, Front(x));
  }

  // ------------------------------------------------------------------ termination

  /** Until the end is announced there is work: something is queued or held. */
  lemma WorkRemains(s: State)
    requires Reachable(s) && !s.ended
    ensures s.queuedJobs > 0 || !NobodyHolds(s)
  {
    hide Queue, Count, DirsTracked, FilesTracked, ResultsOk, Reachable, JobsOk;
    ReachableInv(s);
    CountZero(s.workers, IsHolding);
  }

  /** So the workers can never all be waiting on an empty job ring: if all wait, each may go ahead. */
  lemma NeverAllStarved(s: State, w: nat)
    requires Reachable(s) && !s.ended && w < |s.workers|
    requires forall v :: 0 <= v < |s.workers| ==> s.workers[v].Idle?
    ensures Enabled(s, Worker(w))
  {
    hide Queue, Count, DirsTracked, FilesTracked, Reachable, JobOk, PcOk, ResultsInOrder;
    ReachableInv(s);
    CountZero(s.workers, AtCheck);
    CountZero(s.workers, AtPop);
    CountZero(s.workers, AtPostFull);
    WorkRemains(s);
  }

  /** At the step that announces the end the job ring is empty, and whatever is unfinished is held by workers that have
      popped it but not yet entered it in active_jobs. */
  lemma UnfinishedIsInWindow(s: State, w: nat, v: nat)
    requires Reachable(s) && Enabled(s, Worker(w)) && s.workers[w].Finish? && !s.ended
    requires Apply(s, Worker(w)).ended && v < |s.workers|
    ensures var s' := Apply(s, Worker(w));
            s'.queuedJobs == 0 && (s'.workers[v].Holding() ==> s'.workers[v].InWindow())
  {
    hide Queue, Count, DirsTracked, FilesTracked, Reachable, JobsOk, ResultsOk, MutexFree;
    ReachableInv(s);
    FinishTokens(s, w);
    CountZero(Apply(s, Worker(w)).workers, IsActive);
  }

  /** The end is announced rightly, with all directories done, exactly when no worker is in that window. */
  lemma AnnouncedRightly(s: State, w: nat)
    requires Reachable(s) && Enabled(s, Worker(w)) && s.workers[w].Finish? && !s.ended
    requires Apply(s, Worker(w)).ended
    ensures var s' := Apply(s, Worker(w));
            AllDone(s') <==> forall v :: 0 <= v < |s.workers| ==> !s.workers[v].InWindow()
  {
    hide Reachable, Inv, Apply, IsDir, Enabled, PcAfter;
    var s' := Apply(s, Worker(w));
    ReachableInv(s);
    StepKeepsInv(s, Worker(w));
    StepReachable(s, Worker(w));
    WorkersAfterFinish(s, w);
    if v: nat :| v < |s.workers| && s.workers[v].InWindow() {
      HeldIsNotDone(s', v);
    } else {
      forall v | 0 <= v < |s.workers| ensures !s'.workers[v].Holding() {
        UnfinishedIsInWindow(s, w, v);
      }
      UnfinishedIsInWindow(s, w, w);
      DrainedMeansDone(s');
    }
  }

  lemma WorkersAfterFinish(s: State, w: nat)
    requires Enabled(s, Worker(w)) && s.workers[w].Finish?
    ensures var s' := Apply(s, Worker(w));
            w < |s.workers| && |s'.workers| == |s.workers| && !s'.workers[w].Holding()
            && forall v :: 0 <= v < |s.workers| && v != w ==> s'.workers[v] == s.workers[v]
  {}

  /** A directory somebody holds is not done. */
  lemma HeldIsNotDone(s: State, v: nat)
    requires Inv(s) && v < |s.workers| && s.workers[v].Holding()
    ensures var p := s.workers[v].job.name;
            IsDir(s.root, p) && |p| <= s.maxDepth && s.done[p] == 0
  {
    hide Spans, Queue, Count, FilesTracked, Tokens, ResultsOk, IsDir, IsFile, ItemsOf, Meetings;
    var p := s.workers[v].job.name;
    assert PcOk(s, s.workers[v]);
    MetAtMostOnce(s, p);
    DirBooks(s, p);
    CountZero(s.workers, Holds(p));
    assert Holds(p)(s.workers[v]);
  }

  lemma StepReachable(s: State, t: Thread)
    requires Reachable(s) && Enabled(s, t)
    ensures Reachable(Apply(s, t))
  {
    hide Init, Next;
    var run :| IsRun(run) && run[|run| - 1] == s;
    StepIsNext(s, t);
    ExtendRun(run, Apply(s, t));
  }

  lemma StepIsNext(s: State, t: Thread)
    requires Enabled(s, t)
    ensures Next(s, Apply(s, t))
  {
    hide Apply, Enabled;
  }

  lemma ExtendRun(run: seq<State>, s': State)
    requires IsRun(run) && Next(run[|run| - 1], s')
    ensures IsRun(run + [s'])
  {
    hide Init, Next;
    var longer := run + [s'];
    forall i | 0 <= i < |longer| - 1 ensures Next(longer[i], longer[i + 1]) {
      if i < |run| - 1 {
        assert longer[i] == run[i] && longer[i + 1] == run[i + 1];
      }
    }
  }

  /** The whole run: when the manager has finished, every worker has exited, and all directories were done exactly if
      the job ring is empty. */
  lemma FinishedDirectories(s: State)
    requires Reachable(s) && s.manager.Finished?
    ensures AllDone(s) <==> s.queuedJobs == 0
  {
    hide Reachable, Inv, IsDir, IsFile, ItemsOf;
    ReachableInv(s);
    FinishedState(s);
    if s.queuedJobs == 0 {
      DrainedMeansDone(s);
    } else {
      QueuedIsNotDone(s);
    }
  }

  lemma FinishedState(s: State)
    requires Inv(s) && s.manager.Finished?
    ensures AllExited(s) && NobodyHolds(s) && s.ended
  {
    hide Spans, Queue, Count, FilesTracked, Tokens, IsDir, IsFile, ItemsOf, Meetings, ResultsInOrder;
  }

  lemma QueuedIsNotDone(s: State)
    requires Inv(s) && s.queuedJobs != 0
    ensures exists p :: IsDir(s.root, p) && |p| <= s.maxDepth && s.done[p] == 0
  {
    hide Queue, Count, FilesTracked, Tokens, ResultsOk, IsDir, IsFile, ItemsOf, Meetings;
    var q := JobQueue(s);
    var job := q[0];
    assert job in q;
    assert JobOk(s, job);
    MetAtMostOnce(s, job.name);
    DirBooks(s, job.name);
    assert multiset(q)[job] >= 1;
  }

  lemma TwiceInSequence(q: seq<Path>, i: nat, j: nat)
    requires i < j < |q| && q[i] == q[j]
    ensures multiset(q)[q[i]] >= 2
  {
    var front, rest := q[..j], q[j..];
    assert q == front + rest && front[i] == q[i] && rest[0] == q[j];
    assert q[i] in front && q[i] in rest;
    assert multiset(q) == multiset(front) + multiset(rest);
  }

  /** Nothing is emitted twice, and only files are. */
  lemma EmittedOnce(s: State, x: Path)
    requires Inv(s) && x in s.emitted
    ensures multiset(s.emitted)[x] == 1 && IsFile(s.root, x) && |Front(x)| < s.maxDepth && x != []
  {
    hide JobsOk, Tokens, DirsTracked, ResultsOk, IsDir, ItemsOf, Count;
    assert Wanted(s, x);
    MetAtMostOnce(s, x);
    assert multiset(s.emitted)[x] == Meetings(s, x);
    assert multiset(s.emitted)[x] > 0;
  }

  /** A result taken from an empty ring is never the one emitted in its place. */
  lemma GarbledIsWrong(s: State, i: nat)
    requires Inv(s) && GarbledAt(s, i) && InHand(s.manager) == []
    ensures s.appended != s.emitted && !ExactlyTheFiles(s, s.appended)
  {
    hide Inv, IsDir, IsFile, ItemsOf;
    assert Taken(s) == s.appended;
    var junk := s.appended[i];
    if junk == [] {
      assert junk in s.appended;
      if s.appended == s.emitted {
        EmittedOnce(s, junk);
      }
      NoFileIsRoot(s.root);
    } else {
      var k :| 0 <= k < i && s.emitted[..i][k] == junk;
      assert s.appended[k] == s.appended[..i][k] == junk;
      TwiceInSequence(s.appended, k, i);
      EmittedOnce(s, junk);
    }
  }

  lemma NoFileIsRoot(root: seq<Item>)
    ensures !IsFile(root, [])
  {}

  /** Results left behind are missing from the database. */
  lemma LeftBehindIsMissing(s: State, left: seq<Path>)
    requires Inv(s) && s.emitted == s.appended + left && left != []
    ensures s.appended != s.emitted && !ExactlyTheFiles(s, s.appended)
  {
    hide Inv, IsDir, IsFile, ItemsOf;
    var n := |s.appended|;
    var x := s.emitted[n];
    EmittedOnce(s, x);
    assert x in left && multiset(s.emitted) == multiset(s.appended) + multiset(left);
  }

  /** Everything that was queued has reached the database, in order: the manager never popped an empty ring, and it left
      its loop because of the end and found the ring not completely full, or left it with the ring empty because every
      child had been reaped. */
  predicate Delivered(s: State)
    requires s.manager.Finished?
  {
    !s.spoiled && if s.manager.drained then s.queuedResults < CAPACITY else s.queuedResults == 0
  }

  /** When the manager has finished, the database lists what was emitted, in that order, exactly if everything was
      delivered; and if no job is left in the ring, exactly then does it list the regular files, once each. */
  lemma FinishedInventory(s: State)
    requires Reachable(s) && s.manager.Finished?
    ensures s.appended == s.emitted <==> Delivered(s)
    ensures s.queuedJobs == 0 ==> (ExactlyTheFiles(s, s.appended) <==> Delivered(s))
  {
    hide Reachable, Inv, ExactlyTheFiles, GarbledAt, Queue;
    ReachableInv(s);
    FinishedState(s);
    FinishedResults(s);
    if s.spoiled {
      var i: nat :| GarbledAt(s, i);
      GarbledIsWrong(s, i);
    } else if !Delivered(s) {
      LeftBehindIsMissing(s, Queue(s.results, s.queuedResults));
    } else if s.queuedJobs == 0 {
      DrainedMeansDone(s);
    }
  }

  lemma FinishedResults(s: State)
    requires Inv(s) && s.manager.Finished?
    ensures InHand(s.manager) == []
    ensures s.spoiled ==> exists i :: GarbledAt(s, i)
    ensures !s.spoiled && Delivered(s) ==> s.emitted == s.appended
    ensures !s.spoiled && !Delivered(s) ==>
              && Spans(s.results, s.queuedResults) && s.queuedResults > 0
              && s.emitted == s.appended + Queue(s.results, s.queuedResults)
  {
    hide JobsOk, Tokens, DirsTracked, FilesTracked, ManagerOk, SlotsOk, ResultTokens, GarbledAt;
    if !s.spoiled {
      assert s.appended + [] == s.appended;
    }
  }
}
