/** What holds of the pool in every reachable state. */
module PoolInvariant {
  import opened Rings
  import opened Pool

  // ------------------------------------------------------------------ counting workers

  function One(b: bool): nat { if b then 1 else 0 }

  lemma {:induction false} CountUpdate(ws: seq<Pc>, w: nat, pc: Pc, f: Pc -> bool)
    requires w < |ws|
    ensures Count(ws[w := pc], f) == Count(ws, f) - One(f(ws[w])) + One(f(pc))
  {
    var n := |ws| - 1;
    if w == n {
      assert ws[w := pc][..n] == ws[..n];
    } else {
      CountUpdate(ws[..n], w, pc, f);
      assert ws[w := pc][..n] == ws[..n][w := pc];
    }
  }

  /** Nobody is counted exactly when nobody qualifies. */
  lemma {:induction false} CountZero(ws: seq<Pc>, f: Pc -> bool)
    ensures Count(ws, f) == 0 <==> forall w :: 0 <= w < |ws| ==> !f(ws[w])
    ensures Count(ws, f) <= |ws|
  {
    if ws != [] {
      CountZero(ws[..|ws| - 1], f);
      assert f(ws[|ws| - 1]) || forall w :: 0 <= w < |ws| - 1 ==> ws[w] == ws[..|ws| - 1][w];
    }
  }

  /** Everybody is counted only if everybody qualifies. */
  lemma {:induction false} CountAll(ws: seq<Pc>, f: Pc -> bool)
    requires Count(ws, f) >= |ws|
    ensures forall w :: 0 <= w < |ws| ==> f(ws[w])
  {
    if ws != [] {
      CountZero(ws[..|ws| - 1], f);
      CountAll(ws[..|ws| - 1], f);
      assert forall w :: 0 <= w < |ws| - 1 ==> ws[w] == ws[..|ws| - 1][w];
    }
  }

  /** Whoever satisfies f satisfies g. */
  lemma {:induction false} CountMonotone(ws: seq<Pc>, f: Pc -> bool, g: Pc -> bool)
    requires forall pc :: f(pc) ==> g(pc)
    ensures Count(ws, f) <= Count(ws, g)
  {
    if ws != [] {
      CountMonotone(ws[..|ws| - 1], f, g);
    }
  }

  predicate AtCheck(pc: Pc) { pc.CheckActive? }
  predicate AtPop(pc: Pc) { pc.Pop? }
  predicate AtPostEmpty(pc: Pc) { pc.PostEmpty? }
  predicate AtInsert(pc: Pc) { pc.Insert? }
  predicate AtPostFull(pc: Pc) { pc.PostFull? }
  predicate AtInsertResult(pc: Pc) { pc.InsertResult? }
  predicate AtPostResult(pc: Pc) { pc.PostResult? }
  predicate IsHolding(pc: Pc) { pc.Holding() }
  predicate IsActive(pc: Pc) { pc.Active() }

  /** Can only be reached after the end was announced. */
  predicate IsLate(pc: Pc) { pc.Repost? || pc.Exited? || pc.InMutex() }

  /** The worker has directory p. */
  function Holds(p: Path): Pc -> bool {
    (pc: Pc) => pc.Holding() && pc.job.name == p
  }

  /** The worker is reading the directory of x and has handled x. */
  function Met(x: Path): Pc -> bool {
    (pc: Pc) => x != [] && pc.Active() && pc.job.name == Front(x) && pc.Past(Last(x))
  }

  // ------------------------------------------------------------------ the invariant

  /** The job semaphores. Free slots, producers that took one and not yet filled it, queued jobs, and consumers that
      have not yet given their slot back make up the ring; until the end, every queued job has one token: with the
      semaphore, with a consumer on its way, or still with its producer. */
  ghost predicate Tokens(s: State) {
    && s.jobEmpty + Count(s.workers, AtInsert) + s.queuedJobs + Count(s.workers, AtPostEmpty) == CAPACITY
    && s.activeJobs == Count(s.workers, IsActive)
    && (if s.ended then Count(s.workers, AtPop) == 0
        else
          && s.jobFull + Count(s.workers, AtCheck) + Count(s.workers, AtPop) + Count(s.workers, AtPostFull) == s.queuedJobs
          && Count(s.workers, IsLate) == 0
          && s.queuedJobs + Count(s.workers, IsHolding) >= 1)
  }

  ghost predicate JobOk(s: State, job: Job) {
    IsDir(s.root, job.name) && job.depth == |job.name| <= s.maxDepth
  }

  ghost predicate PcOk(s: State, pc: Pc) {
    && (pc.Holding() ==> JobOk(s, pc.job))
    && (pc.WaitEmpty? || pc.Insert? || pc.PostFull? ==>
          pc.job.depth < s.maxDepth && pc.k < |ItemsOf(s.root, pc.job.name)|
          && ItemsOf(s.root, pc.job.name)[pc.k].SubDir?)
    && (pc.WaitRoom? || pc.InsertResult? || pc.PostResult? ==>
          pc.job.depth < s.maxDepth && pc.k < |ItemsOf(s.root, pc.job.name)|
          && ItemsOf(s.root, pc.job.name)[pc.k].Regular?)
  }

  ghost predicate JobsOk(s: State) {
    && Spans(s.jobs, s.queuedJobs)
    && (forall job :: job in Queue(s.jobs, s.queuedJobs) ==> JobOk(s, job))
    && forall w :: 0 <= w < |s.workers| ==> PcOk(s, s.workers[w])
  }

  /** How often directory p is queued, held or done. */
  ghost function Places(s: State, p: Path): nat
    requires Spans(s.jobs, s.queuedJobs)
  {
    multiset(Queue(s.jobs, s.queuedJobs))[Job(p, |p|)] + Count(s.workers, Holds(p)) + s.done[p]
  }

  /** How often an entry has been met: its directory is done, or some worker has got past it there. The root counts as
      met from the start. */
  ghost function Meetings(s: State, x: Path): nat {
    if x == [] then 1 else s.done[Front(x)] + Count(s.workers, Met(x))
  }

  /** Every directory within the depth limit is queued, held or done as often as it has been met. */
  ghost predicate DirsTracked(s: State)
    requires Spans(s.jobs, s.queuedJobs)
  {
    && (forall p :: IsDir(s.root, p) && |p| <= s.maxDepth ==> Places(s, p) == Meetings(s, p))
    && forall p :: p in s.done ==> IsDir(s.root, p) && |p| <= s.maxDepth
  }

  /** Every file within the depth limit has been emitted as often as it has been met, and nothing else was emitted. */
  ghost predicate FilesTracked(s: State) {
    && (forall x :: IsFile(s.root, x) && |x| <= s.maxDepth ==> multiset(s.emitted)[x] == Meetings(s, x))
    && forall x :: x in s.emitted ==> IsFile(s.root, x) && |x| <= s.maxDepth
  }

  function InHand(m: ManagerPc): seq<Path> {
    if m.GiveBack? then [m.res] else []
  }

  /** The semaphores of the result ring, in every run: its slots are free, taken by a producer, queued, or about to be
      given back by the manager; its tokens stand for queued results or for the end. */
  ghost predicate ResultTokens(s: State) {
    && s.resultEmpty + Count(s.workers, AtInsertResult) + s.queuedResults + |InHand(s.manager)| == CAPACITY
    && s.resultFull + Count(s.workers, AtPostResult) + One(s.manager.Take?) == s.queuedResults + s.endPosts
    && (!s.ended ==> s.endPosts == 0)
  }

  /** Where the manager can be. */
  ghost predicate ManagerOk(s: State) {
    && (!s.ended ==> !s.spoiled && !s.manager.PostStop? && !s.manager.Waiting? && !s.manager.Finished?)
    && (s.manager.Take? ==> if s.manager.beforeEnd then s.queuedResults >= 1 else s.ended)
    && (s.spoiled ==> !s.manager.TryWait? && !s.manager.Take?)
    && (s.manager.Finished? ==> AllExited(s))
    && s.dead <= Count(s.workers, IsExited)
  }

  /** What has left the ring, in order. */
  function Taken(s: State): seq<Path> {
    s.appended + InHand(s.manager)
  }

  /** The contents of the result ring, as long as the manager has not popped it when empty. */
  ghost predicate ResultsInOrder(s: State) {
    && Spans(s.results, s.queuedResults)
    && s.emitted ==
         if s.manager == Finished(true) && s.queuedResults < CAPACITY then s.appended
         else Taken(s) + Queue(s.results, s.queuedResults)
  }

  /** A slot holds the empty path it started with, or something emitted. */
  ghost predicate SlotsOk(s: State) {
    Fits(s.results) && forall i :: 0 <= i < CAPACITY ==> s.results.slots[i] == [] || s.results.slots[i] in s.emitted
  }

  /** Result i was taken from an empty ring: it is a leftover of something before. */
  ghost predicate GarbledAt(s: State, i: nat) {
    i < |Taken(s)| && i <= |s.emitted| && Taken(s)[..i] == s.emitted[..i]
    && (Taken(s)[i] == [] || Taken(s)[i] in s.emitted[..i])
  }

  ghost predicate ResultsOk(s: State) {
    && ResultTokens(s) && ManagerOk(s) && SlotsOk(s)
    && if s.spoiled then exists i :: GarbledAt(s, i) else ResultsInOrder(s)
  }

  ghost predicate Inv(s: State) {
    1 <= |s.workers| && 1 <= s.maxDepth
    && JobsOk(s) && Tokens(s) && DirsTracked(s) && FilesTracked(s) && ResultsOk(s)
  }
}
