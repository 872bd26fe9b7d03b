/** The manager and its workers: a state machine whose steps are one semaphore operation or one critical section each.
    It runs over a fixed directory tree, without errors or signals. */
module Pool {
  import opened Rings

  // ------------------------------------------------------------------ the directory tree

  /** A directory entry other than "." and ".."; Other is whatever is neither a directory nor a regular file. */
  datatype Item = SubDir(items: seq<Item>) | Regular | Other

  /** An absolute path, as the position of each component among its directory's entries; the root is []. */
  type Path = seq<nat>

  function Front(p: Path): Path
    requires p != []
  {
    p[..|p| - 1]
  }

  function Last(p: Path): nat
    requires p != []
  {
    p[|p| - 1]
  }

  predicate IsDir(root: seq<Item>, p: Path)
    decreases |p|
  {
    p == [] || (IsDir(root, Front(p)) && Last(p) < |ItemsOf(root, Front(p))|
                && ItemsOf(root, Front(p))[Last(p)].SubDir?)
  }

  /** The entries of a directory, in readdir order. */
  function ItemsOf(root: seq<Item>, p: Path): seq<Item>
    decreases |p|
  {
    if p == [] then root
    else
      var siblings := ItemsOf(root, Front(p));
      if Last(p) < |siblings| && siblings[Last(p)].SubDir? then siblings[Last(p)].items else []
  }

  predicate IsFile(root: seq<Item>, p: Path) {
    p != [] && IsDir(root, Front(p)) && Last(p) < |ItemsOf(root, Front(p))|
    && ItemsOf(root, Front(p))[Last(p)].Regular?
  }

  // ------------------------------------------------------------------ the state

  datatype Job = Job(name: Path, depth: nat)

  datatype Pc =
    // dequeue_job
    | Idle | CheckActive | Pop | PostEmpty(job: Job) | Repost | Exited
    // the job has been taken out of the ring but is not yet counted as active
    | Activate(job: Job)
    // the entries of the directory, from entry k on
    | Scan(job: Job, k: nat)
    // enqueue_job for the sub-directory at k, enqueue_result for the file at k
    | WaitEmpty(job: Job, k: nat) | Insert(job: Job, k: nat) | PostFull(job: Job, k: nat)
    | WaitRoom(job: Job, k: nat) | InsertResult(job: Job, k: nat) | PostResult(job: Job, k: nat)
    // active_jobs--, and the announcement of the end, still inside the critical section
    | Finish(job: Job) | PostEnd | Flood(i: nat) | Release
  {
    /** Has a job it has not finished. */
    predicate Holding() {
      PostEmpty? || Activate? || Active()
    }

    /** Has entered its job in active_jobs. */
    predicate Active() {
      Scan? || WaitEmpty? || Insert? || PostFull? || WaitRoom? || InsertResult? || PostResult? || Finish?
    }

    /** Between taking a job out of the ring and counting it in active_jobs. */
    predicate InWindow() {
      PostEmpty? || Activate?
    }

    /** Holds job_mutex across a step. */
    predicate InMutex() {
      PostEnd? || Flood? || Release?
    }

    /** Has handled entry i of the directory of its job. */
    predicate Past(i: nat) {
      match this
      case Scan(_, k) => i < k
      case WaitEmpty(_, k) => i < k
      case Insert(_, k) => i < k
      case PostFull(_, k) => i <= k
      case WaitRoom(_, k) => i < k
      case InsertResult(_, k) => i < k
      case PostResult(_, k) => i <= k
      case Finish(_) => true
      case _ => false
    }
  }

  /** dequeue_result, the append to the database, the rest of the loop body, and the end of main. `beforeEnd` records
      whether the trywait of a pop came before the end was announced, `drained` whether the loop was left because of the
      end, so that the result ring was read out, or because every child had been reaped. */
  datatype ManagerPc =
    | Poll | TryWait | Take(beforeEnd: bool) | GiveBack(res: Path) | Body | PostStop | Waiting | Finished(drained: bool)

  /** The shared memory, everybody's program counter, and workers_dead. The last five fields are history: the finished
      jobs, the results put into the ring and those appended to the database, in order, the posts of result_full that
      stand for the end and not for a result, and whether the manager ever popped an empty result ring. */
  datatype State = State(
    root: seq<Item>, maxDepth: nat,
    jobEmpty: nat, jobFull: nat, jobs: Ring<Job>, queuedJobs: int, activeJobs: int, ended: bool,
    resultEmpty: nat, resultFull: nat, results: Ring<Path>, queuedResults: int,
    workers: seq<Pc>, manager: ManagerPc, dead: nat,
    done: multiset<Path>, emitted: seq<Path>, appended: seq<Path>, endPosts: nat, spoiled: bool)

  /** After start_ipc, which zeroes the shared memory, and the manager's enqueue_job of the root. */
  predicate Init(s: State) {
    && 1 <= |s.workers| <= CAPACITY && 1 <= s.maxDepth
    && s.jobEmpty == CAPACITY - 1 && s.jobFull == 1 && s.queuedJobs == 1 && s.activeJobs == 0 && !s.ended
    && Spans(s.jobs, 1) && Queue(s.jobs, 1) == [Job([], 0)]
    && s.resultEmpty == CAPACITY && s.resultFull == 0 && s.queuedResults == 0 && Spans(s.results, 0)
    && (forall i :: 0 <= i < CAPACITY ==> s.results.slots[i] == [])
    && (forall w :: 0 <= w < |s.workers| ==> s.workers[w].Idle?) && s.manager.Poll? && s.dead == 0
    && s.done == multiset{} && s.emitted == [] && s.appended == [] && s.endPosts == 0 && !s.spoiled
  }

  // ------------------------------------------------------------------ steps

  /** Whose step it is. Reap(n) is the manager at the end of its loop body, after SIGCHLD: n children have been reaped
      by then. */
  datatype Thread = Worker(w: nat) | Manager | Reap(n: nat)

  function Count(ws: seq<Pc>, f: Pc -> bool): nat {
    if ws == [] then 0 else Count(ws[..|ws| - 1], f) + if f(ws[|ws| - 1]) then 1 else 0
  }

  predicate IsExited(pc: Pc) { pc.Exited? }

  predicate MutexFree(s: State) {
    forall w :: 0 <= w < |s.workers| ==> !s.workers[w].InMutex()
  }

  predicate AllExited(s: State) {
    forall w :: 0 <= w < |s.workers| ==> s.workers[w].Exited?
  }

  predicate Enabled(s: State, t: Thread) {
    Fits(s.jobs) && Fits(s.results) &&
    match t
    case Manager => (s.manager.Waiting? ==> AllExited(s)) && !s.manager.Finished?
    case Reap(n) => s.manager.Body? && s.dead <= n <= Count(s.workers, IsExited)
    case Worker(w) =>
      w < |s.workers| &&
      match s.workers[w]
      case Idle => s.jobFull > 0
      case WaitEmpty(_, _) => s.jobEmpty > 0
      case WaitRoom(_, _) => s.resultEmpty > 0
      case Pop | Activate(_) | Insert(_, _) | Finish(_) => MutexFree(s)
      case Exited => false
      case _ => true
  }

  /** What the scan of a directory does at entry k. */
  function AtEntry(s: State, job: Job, k: nat): Pc {
    var items := ItemsOf(s.root, job.name);
    if |items| <= k then Finish(job)
    else if items[k].SubDir? && job.depth < s.maxDepth then WaitEmpty(job, k)
    else if items[k].Regular? && job.depth < s.maxDepth then WaitRoom(job, k)
    else Scan(job, k + 1)
  }

  function Child(job: Job, k: nat): Job {
    Job(job.name + [k], job.depth + 1)
  }

  /** Whether finishing now announces the end. */
  predicate Announces(s: State) {
    s.activeJobs - 1 == 0 && s.queuedJobs == 0
  }

  function PcAfter(s: State, pc: Pc): Pc
    requires Fits(s.jobs)
  {
    match pc
    case Idle => CheckActive
    case CheckActive => if s.ended then Repost else Pop
    case Pop => PostEmpty(First(s.jobs))
    case PostEmpty(job) => Activate(job)
    case Repost => Exited
    case Exited => Exited
    case Activate(job) => Scan(job, 0)
    case Scan(job, k) => AtEntry(s, job, k)
    case WaitEmpty(job, k) => Insert(job, k)
    case Insert(job, k) => PostFull(job, k)
    case PostFull(job, k) => Scan(job, k + 1)
    case WaitRoom(job, k) => InsertResult(job, k)
    case InsertResult(job, k) => PostResult(job, k)
    case PostResult(job, k) => Scan(job, k + 1)
    case Finish(_) => if Announces(s) then PostEnd else Idle
    case PostEnd => Flood(0)
    case Flood(i) => if i + 1 < |s.workers| then Flood(i + 1) else Release
    case Release => Idle
  }

  function Apply(s: State, t: Thread): State
    requires Enabled(s, t)
  {
    match t
    case Manager => ManagerStep(s)
    // with every child reaped the loop is left, and what is in the result ring stays there
    case Reap(n) => s.(dead := n, manager := if n == |s.workers| then Finished(false) else Poll)
    case Worker(w) => WorkerStep(s, w)
  }

  function WorkerStep(s: State, w: nat): State
    requires Enabled(s, Worker(w))
  {
    var n := s.(workers := s.workers[w := PcAfter(s, s.workers[w])]);
    match s.workers[w]
    case Idle => n.(jobFull := s.jobFull - 1)
    case Pop => n.(jobs := Drop(s.jobs), queuedJobs := s.queuedJobs - 1)
    case PostEmpty(_) => n.(jobEmpty := s.jobEmpty + 1)
    case Repost => n.(jobFull := s.jobFull + 1)
    case Activate(_) => n.(activeJobs := s.activeJobs + 1)
    case WaitEmpty(_, _) => n.(jobEmpty := s.jobEmpty - 1)
    case Insert(job, k) => n.(jobs := Put(s.jobs, Child(job, k)), queuedJobs := s.queuedJobs + 1)
    case PostFull(_, _) => n.(jobFull := s.jobFull + 1)
    case WaitRoom(_, _) => n.(resultEmpty := s.resultEmpty - 1)
    case InsertResult(job, k) =>
      n.(results := Put(s.results, job.name + [k]), queuedResults := s.queuedResults + 1,
         emitted := s.emitted + [job.name + [k]])
    case PostResult(_, _) => n.(resultFull := s.resultFull + 1)
    case Finish(job) =>
      n.(activeJobs := s.activeJobs - 1, ended := s.ended || Announces(s), done := s.done + multiset{job.name})
    case PostEnd => n.(resultFull := s.resultFull + 1, endPosts := s.endPosts + 1)
    case Flood(_) => n.(jobFull := s.jobFull + 1)
    case _ => n
  }

  function ManagerStep(s: State): State
    requires Fits(s.results) && !s.manager.Finished?
  {
    match s.manager
    case Poll => s.(manager := if s.ended then PostStop else TryWait)
    case TryWait =>
      if s.resultFull == 0 then s.(manager := Body)
      else s.(resultFull := s.resultFull - 1, manager := Take(!s.ended))
    case Take(_) =>
      s.(results := Drop(s.results), queuedResults := s.queuedResults - 1, manager := GiveBack(First(s.results)),
         spoiled := s.spoiled || s.queuedResults <= 0)
    case GiveBack(res) => s.(resultEmpty := s.resultEmpty + 1, appended := s.appended + [res], manager := Body)
    case Body => s.(manager := Poll)
    case PostStop => s.(resultFull := s.resultFull + 1, endPosts := s.endPosts + 1, manager := Waiting)
    // every worker has exited: the loop over what is left in the result ring
    case Waiting => s.(appended := s.appended + Pending(s.results), manager := Finished(true))
  }

  ghost predicate Next(s: State, s': State) {
    exists t :: Enabled(s, t) && s' == Apply(s, t)
  }

  ghost predicate IsRun(run: seq<State>) {
    run != [] && Init(run[0]) && forall i :: 0 <= i < |run| - 1 ==> Next(run[i], run[i + 1])
  }

  ghost predicate Reachable(s: State) {
    exists run :: IsRun(run) && run[|run| - 1] == s
  }
}
