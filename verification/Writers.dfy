/** Any number of processes writing one snapshot at once. Each process is a program counter with its locals; every step
    is one system call of open_database, append_fileops_entry or append_proc_entry, write_to_db, the RECORD_COUNT
    update of build_database, or close_database: a pread, a pwrite, an atomic append, or taking or dropping an fcntl
    range lock. Creating a file and initialising its header, and truncating and re-initialising it under the header
    lock, are single steps. */
module Writers {
  import opened Memory
  import opened Format
  import opened Records

  datatype Pc =
    | Closed
    // open_database on an existing file, holding the lock on the whole header
    | OpenRead | OpenBump(n: nat) | OpenUnlock
    | Idle
    // append_*_entry, holding the lock byte of the entry's bucket: the duplicate scan ...
    | ReadHead(e: Entry) | Compare(e: Entry, off: nat) | Follow(e: Entry, off: nat)
    // ... and write_to_db
    | Write(e: Entry) | GetHead(e: Entry, pos: nat) | SetHead(e: Entry, pos: nat)
    | GetTail(e: Entry, pos: nat) | SetTail(e: Entry, pos: nat, tail: nat)
    | GetSize(e: Entry, pos: nat, tail: nat) | SetLink(e: Entry, pos: nat, at: nat)
    | Unlock(e: Entry, duplicate: bool)
    // the end of build_database, holding the lock on RECORD_COUNT
    | CountRead | CountWrite(n: nat) | CountUnlock
    // close_database, holding the lock on STATE and ACTIVE_WRITERS
    | CloseRead | CloseWrite(n: nat) | CloseSeal | CloseUnlock
    // an error return
    | Failed
  {
    /** Inside append_*_entry, between taking and dropping the bucket lock. */
    predicate InBucket() {
      ReadHead? || Compare? || Follow? || Write? || GetHead? || SetHead? || GetTail? || SetTail? || GetSize?
      || SetLink? || Unlock?
    }

    /** The entry is in the file but its caller has not counted it yet. */
    predicate Uncounted() {
      GetHead? || SetHead? || GetTail? || SetTail? || GetSize? || SetLink? || (Unlock? && !duplicate)
    }

    /** The process holds the database open: it has entered ACTIVE_WRITERS and not yet left it. */
    predicate Registered() {
      !(Closed? || OpenRead? || OpenBump? || CloseSeal? || CloseUnlock? || Failed?)
    }
  }

  /** One process: where it is, and the appended_records of every live recursion frame of build_database. */
  datatype Writer = Writer(pc: Pc, frames: seq<nat>)

  /** The file (empty until somebody creates it), the format it is for, and the processes. */
  datatype System = System(file: Bytes, kind: Kind, writers: seq<Writer>)

  // ------------------------------------------------------------------ fcntl range locks

  datatype Range = NoLock | Lock(lo: nat, hi: nat)

  predicate Overlap(a: Range, b: Range) {
    a.Lock? && b.Lock? && a.lo < b.hi && b.lo < a.hi
  }

  /** The byte range a process has locked. */
  function Held(pc: Pc): Range {
    match pc
    case Closed | Idle | Failed => NoLock
    case OpenRead | OpenBump(_) | OpenUnlock => Lock(0, HEADER_SIZE)
    case CountRead | CountWrite(_) | CountUnlock => Lock(RECORD_COUNT_OFFSET, RECORD_COUNT_OFFSET + 4)
    case CloseRead | CloseWrite(_) | CloseSeal | CloseUnlock =>
      Lock(ACTIVE_WRITERS_OFFSET - 1, ACTIVE_WRITERS_OFFSET + 4)
    case _ => Lock(BUCKET_OFFSET + BucketOf(pc.e), BUCKET_OFFSET + BucketOf(pc.e) + 1)
  }

  predicate LockFree(s: System, w: nat, range: Range) {
    forall v :: 0 <= v < |s.writers| && v != w ==> !Overlap(Held(s.writers[v].pc), range)
  }

  // ------------------------------------------------------------------ steps

  /** What a process may do next: open, start another directory, append some entry, finish a directory, close, or
      carry on with the call it is in. Clock readings and the choice of entries come from outside. */
  datatype Action = Open(now: nat) | Call | Begin(entry: Entry) | Return | Close | Proceed(now: nat)

  function Target(s: System, w: nat, a: Action): Range
    requires w < |s.writers|
  {
    match a
    case Open(_) => Lock(0, HEADER_SIZE)
    case Begin(e) => Lock(BUCKET_OFFSET + BucketOf(e), BUCKET_OFFSET + BucketOf(e) + 1)
    case Return => Lock(RECORD_COUNT_OFFSET, RECORD_COUNT_OFFSET + 4)
    case Close => Lock(ACTIVE_WRITERS_OFFSET - 1, ACTIVE_WRITERS_OFFSET + 4)
    case _ => NoLock
  }

  predicate Enabled(s: System, w: nat, a: Action) {
    w < |s.writers| &&
    var wr := s.writers[w];
    LockFree(s, w, Target(s, w, a)) &&
    match a
    case Open(now) => wr.pc.Closed? && now < U32
    case Call => wr.pc.Idle?
    case Begin(e) => wr.pc.Idle? && wr.frames != [] && WellFormed(e) && KindOf(e) == s.kind
    case Return => wr.pc.Idle? && wr.frames != []
    case Close => wr.pc.Idle? && wr.frames == []
    case Proceed(now) =>
      && !wr.pc.Closed? && !wr.pc.Idle? && !wr.pc.Failed? && now < U32
      && (wr.pc.Write? ==> |s.file| + Size(wr.pc.e) < EMPTY_BUCKET)
  }

  function StateOf(file: Bytes): int {
    var state := Pread(file, STATE_OFFSET, 1);
    if |state| == 1 then state[0] else -1
  }

  /** The format named by the magic bytes; any snapshot here is one of the two. */
  function KindInHeader(file: Bytes): Kind {
    if Pread(file, MAGIC_OFFSET, 4) == MagicBytes(ProcSnapshot) then ProcSnapshot else FileIndex
  }

  function ActiveWriters(file: Bytes): nat {
    U32At(file, ACTIVE_WRITERS_OFFSET)
  }

  function RecordCount(file: Bytes): nat {
    U32At(file, RECORD_COUNT_OFFSET)
  }

  /** The 4-byte slots of the header, written in place. */
  function SetWord(file: Bytes, at: nat, v: int): Bytes {
    Pwrite(file, at, Encode(Wrap(v), 4))
  }

  /** Adds to the counter of the innermost frame. */
  function Bump(frames: seq<nat>, more: nat): seq<nat> {
    if frames == [] then [] else frames[..|frames| - 1] + [frames[|frames| - 1] + more]
  }

  /** The file after process wr's next step. */
  function FileAfter(file: Bytes, kind: Kind, wr: Writer, a: Action): Bytes {
    match wr.pc
    case Closed => if a.Open? && file == [] then InitialHeader(kind, a.now) else file
    case OpenRead => if a.Proceed? && StateOf(file) == STATE_SEALED then InitialHeader(KindInHeader(file), a.now) else file
    case OpenBump(n) => SetWord(file, ACTIVE_WRITERS_OFFSET, n + 1)
    case Write(e) => file + Serialise(e)
    case SetHead(e, pos) => SetWord(file, HeadSlot(BucketOf(e)), pos)
    case SetTail(e, pos, _) => SetWord(file, TailSlot(BucketOf(e)), pos)
    case SetLink(_, pos, at) => SetWord(file, at, pos)
    case CountWrite(n) => if wr.frames == [] then file
                          else SetWord(file, RECORD_COUNT_OFFSET, n + wr.frames[|wr.frames| - 1])
    case CloseWrite(n) => SetWord(file, ACTIVE_WRITERS_OFFSET, n - 1)
    case CloseSeal => Pwrite(file, STATE_OFFSET, [STATE_SEALED])
    case _ => file
  }

  /** Where process wr is after its next step. */
  function WriterAfter(file: Bytes, wr: Writer, a: Action): Writer {
    match wr.pc
    case Closed => Writer(if file == [] then Idle else OpenRead, wr.frames)
    case OpenRead => Writer(if StateOf(file) == STATE_OPEN then OpenBump(ActiveWriters(file)) else OpenUnlock, wr.frames)
    case OpenBump(_) => Writer(OpenUnlock, wr.frames)
    case OpenUnlock => Writer(Idle, wr.frames)
    case Idle =>
      (match a
       case Call => Writer(Idle, wr.frames + [0])
       case Begin(e) => Writer(ReadHead(e), wr.frames)
       case Return => Writer(CountRead, wr.frames)
       case Close => Writer(CloseRead, wr.frames)
       case _ => wr)
    case CountRead => Writer(CountWrite(RecordCount(file)), wr.frames)
    case CountWrite(_) => Writer(CountUnlock, if wr.frames == [] then [] else wr.frames[..|wr.frames| - 1])
    case CountUnlock => Writer(Idle, wr.frames)
    case CloseRead => Writer(CloseWrite(ActiveWriters(file)), wr.frames)
    case CloseWrite(n) => Writer(if n == 1 then CloseSeal else CloseUnlock, wr.frames)
    case CloseSeal => Writer(CloseUnlock, wr.frames)
    case CloseUnlock => Writer(Closed, wr.frames)
    case Unlock(_, duplicate) => Writer(Idle, Bump(wr.frames, if duplicate then 0 else 1))
    case _ => Writer(AppendStepOf(file, wr.pc), wr.frames)
  }

  /** The control flow of append_*_entry and write_to_db. */
  function AppendStepOf(file: Bytes, pc: Pc): Pc {
    match pc
    case ReadHead(e) =>
      var head := U32At(file, HeadSlot(BucketOf(e)));
      if head == EMPTY_BUCKET then Write(e) else Compare(e, Wrap(head - HEADER_SIZE))
    case Compare(e, off) =>
      var r := CompareEntries(file, e, off);
      if r == -1 then Failed else if r == 0 then Unlock(e, true) else Follow(e, off)
    case Follow(e, off) =>
      var next := NextEntry(file, off, true);
      if next == 1 then Failed else if next == 0 then Write(e) else Compare(e, next)
    case Write(e) => GetHead(e, |file|)
    case GetHead(e, pos) => if U32At(file, HeadSlot(BucketOf(e))) == EMPTY_BUCKET then SetHead(e, pos) else GetTail(e, pos)
    case SetHead(e, pos) => GetTail(e, pos)
    case GetTail(e, pos) => SetTail(e, pos, U32At(file, TailSlot(BucketOf(e))))
    case SetTail(e, pos, tail) => if tail == EMPTY_BUCKET then Unlock(e, false) else GetSize(e, pos, tail)
    case GetSize(e, pos, tail) =>
      var size := Pread(file, tail, 4);
      if |size| != 4 then Failed else SetLink(e, pos, Wrap(tail + Decode(size) - 4))
    case SetLink(e, _, _) => Unlock(e, false)
    case _ => pc
  }

  function Apply(s: System, w: nat, a: Action): System
    requires w < |s.writers|
  {
    var wr := s.writers[w];
    s.(file := FileAfter(s.file, s.kind, wr, a), writers := s.writers[w := WriterAfter(s.file, wr, a)])
  }

  ghost predicate Next(s: System, s': System) {
    exists w: nat, a :: Enabled(s, w, a) && s' == Apply(s, w, a)
  }

  /** No file yet, and nobody has opened it. */
  ghost predicate Init(s: System) {
    s.file == [] && |s.writers| < 0x8000_0000 && forall w :: 0 <= w < |s.writers| ==> s.writers[w] == Writer(Closed, [])
  }

  ghost predicate IsRun(run: seq<System>) {
    run != [] && Init(run[0]) && forall i :: 0 <= i < |run| - 1 ==> Next(run[i], run[i + 1])
  }
}
