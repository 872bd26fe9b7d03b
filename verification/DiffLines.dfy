/** What the lines printed by db_diff say, field by field. */
module DiffLines {
  import opened Memory
  import opened Format
  import opened Records
  import opened Index
  import opened Diff
  import opened DiffMeaning

  // ------------------------------------------------------------------ lines and changes

  /** The lines are the changes, one for one and in order. */
  lemma {:induction false} LineAt(changes: seq<Change>, i: nat)
    requires i < |changes|
    ensures |Lines(changes)| == |changes|
    ensures Lines(changes)[i] == Line(changes[i].tag, LabelOf(changes[i].record.entry))
  {
    var n := |changes| - 1;
    LinesLength(changes);
    if i < n {
      LineAt(changes[..n], i);
    }
  }

  lemma {:induction false} LinesLength(changes: seq<Change>)
    ensures |Lines(changes)| == |changes|
  {
    if changes != [] {
      LinesLength(changes[..|changes| - 1]);
    }
  }

  lemma LineOfChange(changes: seq<Change>, line: Line)
    ensures line in Lines(changes) <==>
              exists c :: c in changes && c.tag == line.tag && LabelOf(c.record.entry) == line.shown
  {
    LinesLength(changes);
    if line in Lines(changes) {
      var i :| 0 <= i < |changes| && Lines(changes)[i] == line;
      LineAt(changes, i);
      assert changes[i] in changes;
    }
    if c :| c in changes && c.tag == line.tag && LabelOf(c.record.entry) == line.shown {
      var i :| 0 <= i < |changes| && changes[i] == c;
      LineAt(changes, i);
      assert Lines(changes)[i] in Lines(changes);
    }
  }

  /** Which records a line can come from. */
  lemma ModifiedLines(before: seq<Placed>, after: seq<Placed>, shown: Label)
    ensures Line(Modified, shown) in Lines(Changes(before, after)) <==>
              exists p :: p in before && LabelOf(p.entry) == shown && Status(p.entry, after) == 1
  {
    hide Status, LabelOf, Lines;
    LineOfChange(Changes(before, after), Line(Modified, shown));
    if c :| c in Changes(before, after) && c.tag == Modified && LabelOf(c.record.entry) == shown {
      PassMembers(before, after, OldFile, c);
      PassMembers(after, before, NewFile, c);
    }
    if p :| p in before && LabelOf(p.entry) == shown && Status(p.entry, after) == 1 {
      PassMembers(before, after, OldFile, Change(Modified, p));
      assert Change(Modified, p) in Changes(before, after);
    }
  }

  lemma DeletedLines(before: seq<Placed>, after: seq<Placed>, shown: Label)
    ensures Line(Deleted, shown) in Lines(Changes(before, after)) <==>
              exists p :: p in before && LabelOf(p.entry) == shown && Status(p.entry, after) == 2
  {
    hide Status, LabelOf, Lines;
    LineOfChange(Changes(before, after), Line(Deleted, shown));
    if c :| c in Changes(before, after) && c.tag == Deleted && LabelOf(c.record.entry) == shown {
      PassMembers(before, after, OldFile, c);
      PassMembers(after, before, NewFile, c);
    }
    if p :| p in before && LabelOf(p.entry) == shown && Status(p.entry, after) == 2 {
      PassMembers(before, after, OldFile, Change(Deleted, p));
      assert Change(Deleted, p) in Changes(before, after);
    }
  }

  lemma CreatedLines(before: seq<Placed>, after: seq<Placed>, shown: Label)
    ensures Line(Created, shown) in Lines(Changes(before, after)) <==>
              exists q :: q in after && LabelOf(q.entry) == shown && Status(q.entry, before) == 2
  {
    hide Status, LabelOf, Lines;
    LineOfChange(Changes(before, after), Line(Created, shown));
    if c :| c in Changes(before, after) && c.tag == Created && LabelOf(c.record.entry) == shown {
      PassMembers(before, after, OldFile, c);
      PassMembers(after, before, NewFile, c);
    }
    if q :| q in after && LabelOf(q.entry) == shown && Status(q.entry, before) == 2 {
      PassMembers(after, before, NewFile, Change(Created, q));
      assert Change(Created, q) in Changes(before, after);
    }
  }

  // ------------------------------------------------------------------ what a status means for one format

  lemma FileStatus(log: seq<Placed>, e: Entry)
    requires e.Idx? && NoDuplicates(log)
    ensures Status(e, log) == 2 <==>
              forall q :: q in log ==> !(q.entry.Idx? && q.entry.path == e.path && q.entry.hash == e.hash)
    ensures Status(e, log) == 1 <==>
              exists q :: q in log && q.entry.Idx? && q.entry.path == e.path && q.entry.hash == e.hash
                          && (q.entry.mtime != e.mtime || q.entry.checksum != e.checksum
                              || q.entry.sizeBytes != e.sizeBytes || CString(q.entry.fileType) != CString(e.fileType))
  {
    hide NoDuplicates, CString;
    OneRecordPerKey(log);
  }

  lemma ProcessStatus(log: seq<Placed>, e: Entry)
    requires e.Proc? && NoDuplicates(log)
    ensures Status(e, log) == 2 <==> forall q :: q in log ==> !(q.entry.Proc? && q.entry.pid == e.pid)
    ensures Status(e, log) == 1 <==>
              exists q :: q in log && q.entry.Proc? && q.entry.pid == e.pid
                          && (|q.entry.comm| != |e.comm| || CString(q.entry.comm) != CString(e.comm)
                              || |q.entry.cmdline| != |e.cmdline| || CString(q.entry.cmdline) != CString(e.cmdline)
                              || q.entry.rss > e.rss + 1048576 || e.rss > q.entry.rss + 1048576)
  {
    hide NoDuplicates, CString;
    OneRecordPerKey(log);
  }

  // ------------------------------------------------------------------ what is printed about a path

  /** Comparing two indexes, "Modificat: t" is printed exactly if some path that reads t, with its stored hash, is in both
      files with a different modification time, checksum, size or type. */
  lemma FileModified(before: seq<Placed>, after: seq<Placed>, t: Bytes)
    requires NoDuplicates(after)
    ensures Line(Modified, Path(t)) in Lines(Changes(before, after)) <==>
              exists p, q :: p in before && q in after && p.entry.Idx? && q.entry.Idx? && CString(p.entry.path) == t
                             && q.entry.path == p.entry.path && q.entry.hash == p.entry.hash
                             && (q.entry.mtime != p.entry.mtime || q.entry.checksum != p.entry.checksum
                                 || q.entry.sizeBytes != p.entry.sizeBytes
                                 || CString(q.entry.fileType) != CString(p.entry.fileType))
  {
    hide Status, Lines, Changes, NoDuplicates, CString;
    ModifiedLines(before, after, Path(t));
    if p :| p in before && LabelOf(p.entry) == Path(t) && Status(p.entry, after) == 1 {
      FileStatus(after, p.entry);
    }
    if p, q :| p in before && q in after && p.entry.Idx? && q.entry.Idx? && CString(p.entry.path) == t
               && q.entry.path == p.entry.path && q.entry.hash == p.entry.hash
               && (q.entry.mtime != p.entry.mtime || q.entry.checksum != p.entry.checksum
                   || q.entry.sizeBytes != p.entry.sizeBytes || CString(q.entry.fileType) != CString(p.entry.fileType))
    {
      FileStatus(after, p.entry);
      assert LabelOf(p.entry) == Path(t);
    }
  }

  /** "Sters: t" is printed exactly if some path that reads t is in the old file only. */
  lemma FileDeleted(before: seq<Placed>, after: seq<Placed>, t: Bytes)
    requires NoDuplicates(after)
    ensures Line(Deleted, Path(t)) in Lines(Changes(before, after)) <==>
              exists p :: p in before && p.entry.Idx? && CString(p.entry.path) == t
                          && forall q :: q in after ==>
                               !(q.entry.Idx? && q.entry.path == p.entry.path && q.entry.hash == p.entry.hash)
  {
    hide Status, Lines, Changes, NoDuplicates, CString;
    DeletedLines(before, after, Path(t));
    forall p | p in before && p.entry.Idx?
      ensures Status(p.entry, after) == 2 <==>
                forall q :: q in after ==> !(q.entry.Idx? && q.entry.path == p.entry.path && q.entry.hash == p.entry.hash)
    {
      FileStatus(after, p.entry);
    }
  }

  /** "Creat: t" is printed exactly if some path that reads t is in the new file only. */
  lemma FileCreated(before: seq<Placed>, after: seq<Placed>, t: Bytes)
    requires NoDuplicates(before)
    ensures Line(Created, Path(t)) in Lines(Changes(before, after)) <==>
              exists q :: q in after && q.entry.Idx? && CString(q.entry.path) == t
                          && forall p :: p in before ==>
                               !(p.entry.Idx? && p.entry.path == q.entry.path && p.entry.hash == q.entry.hash)
  {
    hide Status, Lines, Changes, NoDuplicates, CString;
    CreatedLines(before, after, Path(t));
    forall q | q in after && q.entry.Idx?
      ensures Status(q.entry, before) == 2 <==>
                forall p :: p in before ==> !(p.entry.Idx? && p.entry.path == q.entry.path && p.entry.hash == q.entry.hash)
    {
      FileStatus(before, q.entry);
    }
  }

  // ------------------------------------------------------------------ what is printed about a process

  /** A 32-bit number as %d prints it. */
  lemma PrintedPid(pid: nat)
    requires pid < U32
    ensures Signed(pid) % 0x1_0000_0000 == pid && -0x8000_0000 <= Signed(pid) < 0x8000_0000
  {}

  /** Comparing two process snapshots, "Modificat: PID = n" is printed exactly if a process with that PID is in both with
      a different name or command line, or a resident size more than 1048576 apart. */
  lemma ProcessModified(before: seq<Placed>, after: seq<Placed>, n: int)
    requires NoDuplicates(after)
    ensures Line(Modified, Pid(n)) in Lines(Changes(before, after)) <==>
              exists p, q :: p in before && q in after && p.entry.Proc? && q.entry.Proc? && Signed(p.entry.pid) == n
                             && q.entry.pid == p.entry.pid
                             && (|q.entry.comm| != |p.entry.comm| || CString(q.entry.comm) != CString(p.entry.comm)
                                 || |q.entry.cmdline| != |p.entry.cmdline|
                                 || CString(q.entry.cmdline) != CString(p.entry.cmdline)
                                 || q.entry.rss > p.entry.rss + 1048576 || p.entry.rss > q.entry.rss + 1048576)
  {
    hide Status, Lines, Changes, NoDuplicates, CString, Signed;
    ModifiedLines(before, after, Pid(n));
    if p :| p in before && LabelOf(p.entry) == Pid(n) && Status(p.entry, after) == 1 {
      ProcessStatus(after, p.entry);
    }
    if p, q :| p in before && q in after && p.entry.Proc? && q.entry.Proc? && Signed(p.entry.pid) == n
               && q.entry.pid == p.entry.pid
               && (|q.entry.comm| != |p.entry.comm| || CString(q.entry.comm) != CString(p.entry.comm)
                   || |q.entry.cmdline| != |p.entry.cmdline| || CString(q.entry.cmdline) != CString(p.entry.cmdline)
                   || q.entry.rss > p.entry.rss + 1048576 || p.entry.rss > q.entry.rss + 1048576)
    {
      ProcessStatus(after, p.entry);
      assert LabelOf(p.entry) == Pid(n);
    }
  }

  /** "Sters: PID = n" is printed exactly if that process is in the old file only. */
  lemma ProcessDeleted(before: seq<Placed>, after: seq<Placed>, n: int)
    requires NoDuplicates(after)
    ensures Line(Deleted, Pid(n)) in Lines(Changes(before, after)) <==>
              exists p :: p in before && p.entry.Proc? && Signed(p.entry.pid) == n
                          && forall q :: q in after ==> !(q.entry.Proc? && q.entry.pid == p.entry.pid)
  {
    hide Status, Lines, Changes, NoDuplicates, CString, Signed;
    DeletedLines(before, after, Pid(n));
    forall p | p in before && p.entry.Proc?
      ensures Status(p.entry, after) == 2 <==> forall q :: q in after ==> !(q.entry.Proc? && q.entry.pid == p.entry.pid)
    {
      ProcessStatus(after, p.entry);
    }
  }

  /** "Creat: PID = n" is printed exactly if it is in the new file only. */
  lemma ProcessCreated(before: seq<Placed>, after: seq<Placed>, n: int)
    requires NoDuplicates(before)
    ensures Line(Created, Pid(n)) in Lines(Changes(before, after)) <==>
              exists q :: q in after && q.entry.Proc? && Signed(q.entry.pid) == n
                          && forall p :: p in before ==> !(p.entry.Proc? && p.entry.pid == q.entry.pid)
  {
    hide Status, Lines, Changes, NoDuplicates, CString, Signed;
    CreatedLines(before, after, Pid(n));
    forall q | q in after && q.entry.Proc?
      ensures Status(q.entry, before) == 2 <==> forall p :: p in before ==> !(p.entry.Proc? && p.entry.pid == q.entry.pid)
    {
      ProcessStatus(before, q.entry);
    }
  }

  // ------------------------------------------------------------------ db_diff

  lemma SnapshotKeys(f: Bytes, log: seq<Placed>, kind: Kind)
    requires Snapshot(f, log, kind)
    ensures NoDuplicates(log)
  {}

  /** db_diff on two indexes, for any path t. */
  method DiffFiles(f: Bytes, g: Bytes, ghost before: seq<Placed>, ghost after: seq<Placed>, ghost t: Bytes)
    returns (ret: int, out: seq<Line>)
    requires Snapshot(f, before, FileIndex) && Snapshot(g, after, FileIndex)
    ensures ret == 0
    ensures Line(Modified, Path(t)) in out <==>
              exists p, q :: p in before && q in after && p.entry.Idx? && q.entry.Idx? && CString(p.entry.path) == t
                             && q.entry.path == p.entry.path && q.entry.hash == p.entry.hash
                             && (q.entry.mtime != p.entry.mtime || q.entry.checksum != p.entry.checksum
                                 || q.entry.sizeBytes != p.entry.sizeBytes
                                 || CString(q.entry.fileType) != CString(p.entry.fileType))
    ensures Line(Deleted, Path(t)) in out <==>
              exists p :: p in before && p.entry.Idx? && CString(p.entry.path) == t
                          && forall q :: q in after ==>
                               !(q.entry.Idx? && q.entry.path == p.entry.path && q.entry.hash == p.entry.hash)
    ensures Line(Created, Path(t)) in out <==>
              exists q :: q in after && q.entry.Idx? && CString(q.entry.path) == t
                          && forall p :: p in before ==>
                               !(p.entry.Idx? && p.entry.path == q.entry.path && p.entry.hash == q.entry.hash)
  {
    hide Snapshot, NoDuplicates, Changes, Lines, CString;
    ret, out := DbDiff(f, g, FileIndex, before, after);
    SnapshotKeys(f, before, FileIndex);
    SnapshotKeys(g, after, FileIndex);
    FileModified(before, after, t);
    FileDeleted(before, after, t);
    FileCreated(before, after, t);
  }

  /** db_diff on two process snapshots, for any number n. */
  method DiffProcesses(f: Bytes, g: Bytes, ghost before: seq<Placed>, ghost after: seq<Placed>, ghost n: int)
    returns (ret: int, out: seq<Line>)
    requires Snapshot(f, before, ProcSnapshot) && Snapshot(g, after, ProcSnapshot)
    ensures ret == 0
    ensures Line(Modified, Pid(n)) in out <==>
              exists p, q :: p in before && q in after && p.entry.Proc? && q.entry.Proc? && Signed(p.entry.pid) == n
                             && q.entry.pid == p.entry.pid
                             && (|q.entry.comm| != |p.entry.comm| || CString(q.entry.comm) != CString(p.entry.comm)
                                 || |q.entry.cmdline| != |p.entry.cmdline|
                                 || CString(q.entry.cmdline) != CString(p.entry.cmdline)
                                 || q.entry.rss > p.entry.rss + 1048576 || p.entry.rss > q.entry.rss + 1048576)
    ensures Line(Deleted, Pid(n)) in out <==>
              exists p :: p in before && p.entry.Proc? && Signed(p.entry.pid) == n
                          && forall q :: q in after ==> !(q.entry.Proc? && q.entry.pid == p.entry.pid)
    ensures Line(Created, Pid(n)) in out <==>
              exists q :: q in after && q.entry.Proc? && Signed(q.entry.pid) == n
                          && forall p :: p in before ==> !(p.entry.Proc? && p.entry.pid == q.entry.pid)
  {
    hide Snapshot, NoDuplicates, Changes, Lines, CString, Signed;
    ret, out := DbDiff(f, g, ProcSnapshot, before, after);
    SnapshotKeys(f, before, ProcSnapshot);
    SnapshotKeys(g, after, ProcSnapshot);
    ProcessModified(before, after, n);
    ProcessDeleted(before, after, n);
    ProcessCreated(before, after, n);
  }
}
