/** The files and directories of a tree listed from the top, and the pool's output compared with that list. */
module PoolListing {
  import opened Rings
  import opened Pool
  import opened PoolInvariant
  import opened PoolSteps
  import opened PoolRuns

  // ------------------------------------------------------------------ listing a tree

  /** The regular files among these entries and, for as many levels as the limit allows, in the sub-directories among
      them, in order. */
  function ListFiles(items: seq<Item>, at: Path, levels: nat): seq<Path>
    decreases items
  {
    if items == [] || levels == 0 then []
    else
      var k := |items| - 1;
      ListFiles(items[..k], at, levels) + FilesOf(items[k], at + [k], levels - 1)
  }

  /** ... the entry at p by itself. */
  function FilesOf(item: Item, p: Path, levels: nat): seq<Path>
    decreases item
  {
    match item
    case Regular => [p]
    case SubDir(sub) => ListFiles(sub, p, levels)
    case Other => []
  }

  /** The same for the sub-directories themselves. */
  function ListDirs(items: seq<Item>, at: Path, levels: nat): seq<Path>
    decreases items
  {
    if items == [] || levels == 0 then []
    else
      var k := |items| - 1;
      ListDirs(items[..k], at, levels) +
      (if items[k].SubDir? then [at + [k]] + ListDirs(items[k].items, at + [k], levels - 1) else [])
  }

  // ------------------------------------------------------------------ paths from the top

  /** Looking up a path component by component from the root. */
  predicate FileAt(items: seq<Item>, p: Path)
    decreases |p|
  {
    p != [] && p[0] < |items| &&
    if |p| == 1 then items[p[0]].Regular? else items[p[0]].SubDir? && FileAt(items[p[0]].items, p[1..])
  }

  predicate DirAt(items: seq<Item>, p: Path)
    decreases |p|
  {
    p == [] || (p[0] < |items| && items[p[0]].SubDir? && DirAt(items[p[0]].items, p[1..]))
  }

  /** The entries of a directory are those of the rest of its path below its first component. */
  lemma {:induction false} ItemsFromTop(items: seq<Item>, i: nat, p: Path)
    requires i < |items| && items[i].SubDir?
    ensures ItemsOf(items, [i] + p) == ItemsOf(items[i].items, p)
    ensures IsDir(items, [i] + p) <==> IsDir(items[i].items, p)
    decreases |p|
  {
    var q := [i] + p;
    if p == [] {
      assert q == [i] && Front(q) == [] && Last(q) == i;
      assert ItemsOf(items, []) == items;
    } else {
      assert Front(q) == [i] + Front(p) && Last(q) == Last(p);
      ItemsFromTop(items, i, Front(p));
    }
  }

  /** Nothing lies below an entry that is not a directory. */
  lemma {:induction false} NothingBelow(items: seq<Item>, i: nat, p: Path)
    requires i >= |items| || !items[i].SubDir?
    ensures !IsDir(items, [i] + p)
    decreases |p|
  {
    var q := [i] + p;
    if p == [] {
      assert Front(q) == [] && Last(q) == i;
      assert ItemsOf(items, []) == items;
    } else {
      assert Front(q) == [i] + Front(p);
      NothingBelow(items, i, Front(p));
    }
  }

  lemma {:induction false} DirFromTop(items: seq<Item>, p: Path)
    ensures IsDir(items, p) <==> DirAt(items, p)
    decreases |p|
  {
    if p != [] {
      assert p == [p[0]] + p[1..];
      if p[0] < |items| && items[p[0]].SubDir? {
        ItemsFromTop(items, p[0], p[1..]);
        DirFromTop(items[p[0]].items, p[1..]);
      } else {
        NothingBelow(items, p[0], p[1..]);
      }
    }
  }

  lemma {:induction false} FileFromTop(items: seq<Item>, p: Path)
    ensures IsFile(items, p) <==> FileAt(items, p)
    decreases |p|
  {
    if |p| == 1 {
      assert Front(p) == [] && Last(p) == p[0];
      assert ItemsOf(items, []) == items;
    } else if |p| > 1 {
      var i, rest := p[0], p[1..];
      assert p == [i] + rest && Front(p) == [i] + Front(rest) && Last(p) == Last(rest);
      if i < |items| && items[i].SubDir? {
        ItemsFromTop(items, i, Front(rest));
        FileFromTop(items[i].items, rest);
      } else {
        NothingBelow(items, i, Front(rest));
      }
    }
  }

  // ------------------------------------------------------------------ what the lists hold

  /** x lies below at, and how it goes on from there. */
  predicate Below(at: Path, x: Path) {
    |at| < |x| && x[..|at|] == at
  }

  /** x is a file of this tree within the limit. */
  predicate FileWithin(items: seq<Item>, at: Path, levels: nat, x: Path) {
    Below(at, x) && FileAt(items, x[|at|..]) && |x| - |at| <= levels
  }

  predicate DirWithin(items: seq<Item>, at: Path, levels: nat, x: Path) {
    Below(at, x) && DirAt(items, x[|at|..]) && |x| - |at| <= levels
  }

  /** x is the entry at p itself, or a file below it. */
  predicate FileIn(item: Item, p: Path, levels: nat, x: Path) {
    match item
    case Regular => x == p
    case SubDir(sub) => FileWithin(sub, p, levels, x)
    case Other => false
  }

  /** A path below at goes through an earlier entry or through the last one. */
  lemma FileByLast(items: seq<Item>, at: Path, levels: nat, x: Path)
    requires items != [] && levels > 0
    ensures var k := |items| - 1;
            One(FileWithin(items, at, levels, x)) ==
              One(FileWithin(items[..k], at, levels, x)) + One(FileIn(items[k], at + [k], levels - 1, x))
  {
    var k := |items| - 1;
    if Below(at, x) {
      GoingOn(at, x, k);
    } else {
      NotBelow(at, x, k);
    }
  }

  lemma DirByLast(items: seq<Item>, at: Path, levels: nat, x: Path)
    requires items != [] && levels > 0
    ensures var k := |items| - 1;
            One(DirWithin(items, at, levels, x)) == One(DirWithin(items[..k], at, levels, x)) +
              if items[k].SubDir? then One(x == at + [k]) + One(DirWithin(items[k].items, at + [k], levels - 1, x)) else 0
  {
    var k := |items| - 1;
    if Below(at, x) {
      var q := x[|at|..];
      GoingOn(at, x, k);
      assert DirAt(items, q) <==> q[0] <= k && items[q[0]].SubDir? && DirAt(items[q[0]].items, q[1..]);
      if |q| == 1 {
        assert q[1..] == [];
      }
    } else {
      NotBelow(at, x, k);
    }
  }

  lemma GoingOn(at: Path, x: Path, k: nat)
    requires Below(at, x)
    ensures var q := x[|at|..];
            && (x == at + [k] <==> q[0] == k && |q| == 1)
            && (Below(at + [k], x) <==> q[0] == k && |q| > 1)
            && (q[0] == k ==> x[|at| + 1..] == q[1..])
            && (|q| == 1 ==> q[1..] == [])
  {
    var q := x[|at|..];
    assert x == at + q && q[0] == x[|at|];
    if q[0] == k {
      assert x[..|at| + 1] == at + [k];
      assert |q| == 1 ==> q == [k];
    } else if |x| > |at| + 1 {
      assert x[..|at| + 1][|at|] == q[0];
    }
  }

  lemma NotBelow(at: Path, x: Path, k: nat)
    requires !Below(at, x)
    ensures x != at + [k] && !Below(at + [k], x)
  {}

  /** Every file within the limit is listed, once, and nothing else. */
  lemma {:induction false} FilesListed(items: seq<Item>, at: Path, levels: nat, x: Path)
    ensures multiset(ListFiles(items, at, levels))[x] == One(FileWithin(items, at, levels, x))
    decreases items
  {
    hide FileWithin, FileIn, FilesOf;
    if items == [] || levels == 0 {
      NoFileWithin(items, at, levels, x);
    } else {
      var k := |items| - 1;
      FilesListed(items[..k], at, levels, x);
      FileByLast(items, at, levels, x);
      FileListed(items[k], at + [k], levels - 1, x);
      CountTwo(ListFiles(items[..k], at, levels), FilesOf(items[k], at + [k], levels - 1), x);
    }
  }

  lemma {:induction false} FileListed(item: Item, p: Path, levels: nat, x: Path)
    ensures multiset(FilesOf(item, p, levels))[x] == One(FileIn(item, p, levels, x))
    decreases item
  {
    hide FileWithin;
    if item.SubDir? {
      FilesListed(item.items, p, levels, x);
    }
  }

  lemma NoFileWithin(items: seq<Item>, at: Path, levels: nat, x: Path)
    requires items == [] || levels == 0
    ensures !FileWithin(items, at, levels, x) && !DirWithin(items, at, levels, x)
  {}

  lemma {:induction false} DirsListed(items: seq<Item>, at: Path, levels: nat, x: Path)
    ensures multiset(ListDirs(items, at, levels))[x] == One(DirWithin(items, at, levels, x))
    decreases items
  {
    hide DirWithin;
    if items == [] || levels == 0 {
      NoFileWithin(items, at, levels, x);
    } else {
      var k := |items| - 1;
      DirsListed(items[..k], at, levels, x);
      DirByLast(items, at, levels, x);
      if items[k].SubDir? {
        DirsListed(items[k].items, at + [k], levels - 1, x);
        CountThree(ListDirs(items[..k], at, levels), at + [k], ListDirs(items[k].items, at + [k], levels - 1), x);
      }
    }
  }

  lemma CountTwo(a: seq<Path>, b: seq<Path>, x: Path)
    ensures multiset(a + b)[x] == multiset(a)[x] + multiset(b)[x]
  {
    assert multiset(a + b) == multiset(a) + multiset(b);
  }

  lemma CountThree(a: seq<Path>, p: Path, b: seq<Path>, x: Path)
    ensures multiset(a + ([p] + b))[x] == multiset(a)[x] + One(x == p) + multiset(b)[x]
  {
    assert multiset(a + ([p] + b)) == multiset(a) + (multiset{p} + multiset(b));
  }

  // ------------------------------------------------------------------ the pool against the list

  /** Being exactly the files is being the list, in some order. */
  lemma ExactlyTheList(s: State, out: seq<Path>)
    ensures ExactlyTheFiles(s, out) <==> multiset(out) == multiset(ListFiles(s.root, [], s.maxDepth))
  {
    hide IsFile, FileAt, ListFiles;
    var list := ListFiles(s.root, [], s.maxDepth);
    forall x ensures multiset(list)[x] == One(IsFile(s.root, x) && |x| <= s.maxDepth) {
      FilesListed(s.root, [], s.maxDepth, x);
      FileFromTop(s.root, x);
      assert x[0..] == x;
      FileHasName(s.root, x);
    }
    if ExactlyTheFiles(s, out) {
      forall x ensures multiset(out)[x] == multiset(list)[x] {
        FileHasName(s.root, x);
        assert x in out <==> multiset(out)[x] > 0;
      }
      assert multiset(out) == multiset(list);
    }
    if multiset(out) == multiset(list) {
      forall x | x in out ensures x != [] && IsFile(s.root, x) && |Front(x)| < s.maxDepth {
        assert multiset(out)[x] > 0;
        FileHasName(s.root, x);
      }
    }
  }

  lemma FileHasName(root: seq<Item>, x: Path)
    ensures IsFile(root, x) ==> x != []
  {}

  /** Once the job ring is empty and no worker holds a job, what was emitted is the list of the files of the tree down to
      the depth limit, and what was done is the root and the list of its sub-directories, each in some order. */
  lemma DrainedIsList(s: State)
    requires Reachable(s) && s.queuedJobs == 0 && NobodyHolds(s)
    ensures multiset(s.emitted) == multiset(ListFiles(s.root, [], s.maxDepth))
    ensures s.done == multiset([[]] + ListDirs(s.root, [], s.maxDepth))
  {
    hide Reachable, NobodyHolds, ListFiles, ListDirs, IsDir, ExactlyTheFiles;
    DrainedMeansDone(s);
    ExactlyTheList(s, s.emitted);
    var dirs := [[]] + ListDirs(s.root, [], s.maxDepth);
    forall p ensures s.done[p] == multiset(dirs)[p] {
      DirsListed(s.root, [], s.maxDepth, p);
      DirFromTop(s.root, p);
      assert p[0..] == p;
      assert multiset(dirs) == multiset([[]]) + multiset(ListDirs(s.root, [], s.maxDepth));
      DoneOnlyDirs(s, p);
    }
  }

  lemma DoneOnlyDirs(s: State, p: Path)
    requires Reachable(s)
    ensures p in s.done ==> IsDir(s.root, p) && |p| <= s.maxDepth
    ensures IsDir(s.root, [])
  {
    hide Reachable, IsFile, ItemsOf;
    ReachableInv(s);
    OnlyDirsDone(s);
  }

  lemma OnlyDirsDone(s: State)
    requires Inv(s)
    ensures forall p :: p in s.done ==> IsDir(s.root, p) && |p| <= s.maxDepth
  {
    hide Tokens, FilesTracked, ResultsOk, IsDir, Places, Meetings;
  }

  /** When the manager has finished and no job is left over, the database is that list exactly if everything was
      delivered. */
  lemma FinishedIsList(s: State)
    requires Reachable(s) && s.manager.Finished? && s.queuedJobs == 0
    ensures multiset(s.appended) == multiset(ListFiles(s.root, [], s.maxDepth)) <==> Delivered(s)
  {
    hide Reachable, ListFiles, ExactlyTheFiles;
    FinishedInventory(s);
    ExactlyTheList(s, s.appended);
  }
}
