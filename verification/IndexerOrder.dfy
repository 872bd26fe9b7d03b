/** Which entries build_database offers, and in which order, said of the tree from the top. */
module IndexerOrder {
  import opened Memory
  import opened Format
  import opened Index
  import opened Indexer

  /** The position of an entry, and of each directory it lies in, among its siblings. */
  type Path = seq<nat>

  /** Looking up a path component by component. */
  predicate EntryAt(items: seq<Item>, p: Path, e: Entry)
    decreases |p|
  {
    p != [] && p[0] < |items| &&
    if |p| == 1 then items[p[0]].entry == e else items[p[0]].SubDir? && EntryAt(items[p[0]].items, p[1..], e)
  }

  /** A directory comes before what is in it, and that before its later siblings. */
  predicate Before(p: Path, q: Path)
    decreases |p|
  {
    q != [] && (p == [] || p[0] < q[0] || (p[0] == q[0] && Before(p[1..], q[1..])))
  }

  ghost predicate InOrder(ps: seq<Path>) {
    forall i, j :: 0 <= i < j < |ps| ==> Before(ps[i], ps[j])
  }

  function Inside(p: Path): Path { [0] + p }

  function Later(p: Path): Path {
    if p == [] then [] else [p[0] + 1] + p[1..]
  }

  function AllInside(ps: seq<Path>): (qs: seq<Path>)
    ensures [] !in qs
    ensures |qs| == |ps| && forall i :: 0 <= i < |ps| ==> qs[i] == Inside(ps[i])
  {
    seq(|ps|, i requires 0 <= i < |ps| => Inside(ps[i]))
  }

  function AllLater(ps: seq<Path>): (qs: seq<Path>)
    ensures [] !in ps ==> [] !in qs
    ensures |qs| == |ps| && forall i :: 0 <= i < |ps| ==> qs[i] == Later(ps[i])
  {
    seq(|ps|, i requires 0 <= i < |ps| => Later(ps[i]))
  }

  /** The paths of a tree, in the order its entries are offered. */
  function Paths(items: seq<Item>): (ps: seq<Path>)
    ensures [] !in ps
  {
    if items == [] then []
    else
      [[0]] + ((if items[0].SubDir? then AllInside(Paths(items[0].items)) else []) + AllLater(Paths(items[1..])))
  }

  lemma OneStep(items: seq<Item>, p: Path, e: Entry)
    requires items != [] && p != []
    ensures EntryAt(items, [0], items[0].entry)
    ensures EntryAt(items, Inside(p), e) <==> items[0].SubDir? && EntryAt(items[0].items, p, e)
    ensures EntryAt(items, Later(p), e) <==> EntryAt(items[1..], p, e)
  {
    assert Inside(p)[1..] == p;
    assert Later(p)[1..] == p[1..];
  }

  lemma {:induction false} AsManyPaths(items: seq<Item>)
    ensures |Paths(items)| == |EntriesOf(items)|
    decreases items
  {
    if items != [] {
      if items[0].SubDir? {
        AsManyPaths(items[0].items);
      }
      AsManyPaths(items[1..]);
    }
  }

  /** The i-th entry offered is the one at the i-th path. */
  lemma {:induction false} EntryAtPath(items: seq<Item>, i: nat)
    requires i < |Paths(items)|
    ensures |Paths(items)| == |EntriesOf(items)| && EntryAt(items, Paths(items)[i], EntriesOf(items)[i])
    decreases items
  {
    hide EntryAt, Inside, Later, Paths, EntriesOf;
    AsManyPaths(items);
    Split(items);
    var n := if items[0].SubDir? then |Paths(items[0].items)| else 0;
    if i == 0 {
      OneStep(items, [0], items[0].entry);
    } else if i < 1 + n {
      EntryAtPath(items[0].items, i - 1);
      InsidePath(items, i - 1);
      OffsetInside(items, i - 1);
      OneStep(items, Paths(items[0].items)[i - 1], EntriesOf(items[0].items)[i - 1]);
    } else {
      var k := i - 1 - n;
      EntryAtPath(items[1..], k);
      LaterPath(items, k, n);
      OffsetEntry(items, k, n);
      OneStep(items, Paths(items[1..])[k], EntriesOf(items[1..])[k]);
    }
  }

  lemma Split(items: seq<Item>)
    requires Paths(items) != []
    ensures items != [] && Paths(items)[0] == [0] && EntriesOf(items) != [] && EntriesOf(items)[0] == items[0].entry
    ensures |Paths(items)| == 1 + (if items[0].SubDir? then |Paths(items[0].items)| else 0) + |Paths(items[1..])|
    ensures items[0].SubDir? ==> |Paths(items[0].items)| == |EntriesOf(items[0].items)|
    ensures |Paths(items[1..])| == |EntriesOf(items[1..])|
  {
    AsManyPaths(items[1..]);
    if items[0].SubDir? {
      AsManyPaths(items[0].items);
    }
  }

  lemma Unfolded(items: seq<Item>)
    requires items != []
    ensures var inside: seq<Path> := if items[0].SubDir? then AllInside(Paths(items[0].items)) else [];
            Paths(items) == [[0]] + (inside + AllLater(Paths(items[1..])))
  {}

  lemma Pick(inside: seq<Path>, later: seq<Path>)
    ensures var all := [[0]] + (inside + later);
            && (forall i :: 0 <= i < |inside| ==> all[1 + i] == inside[i])
            && forall k :: 0 <= k < |later| ==> all[1 + |inside| + k] == later[k]
  {}

  lemma InsidePath(items: seq<Item>, i: nat)
    requires items != [] && items[0].SubDir? && i < |Paths(items[0].items)|
    ensures 1 + i < |Paths(items)| && Paths(items)[1 + i] == Inside(Paths(items[0].items)[i])
  {
    hide Inside, Later, Paths;
    Unfolded(items);
    Pick(AllInside(Paths(items[0].items)), AllLater(Paths(items[1..])));
  }

  lemma LaterPath(items: seq<Item>, k: nat, n: nat)
    requires items != [] && n == if items[0].SubDir? then |Paths(items[0].items)| else 0
    requires k < |Paths(items[1..])|
    ensures 1 + n + k < |Paths(items)| && Paths(items)[1 + n + k] == Later(Paths(items[1..])[k])
    ensures Paths(items[1..])[k] in Paths(items[1..])
  {
    hide Inside, Later, Paths;
    Unfolded(items);
    Pick(if items[0].SubDir? then AllInside(Paths(items[0].items)) else [], AllLater(Paths(items[1..])));
  }

  lemma OffsetInside(items: seq<Item>, i: nat)
    requires items != [] && items[0].SubDir? && i < |EntriesOf(items[0].items)|
    ensures 1 + i < |EntriesOf(items)| && EntriesOf(items)[1 + i] == EntriesOf(items[0].items)[i]
  {
    assert EntriesOf(items) == [items[0].entry] + EntriesOf(items[0].items) + EntriesOf(items[1..]);
  }

  lemma OffsetEntry(items: seq<Item>, k: nat, n: nat)
    requires items != [] && n == if items[0].SubDir? then |EntriesOf(items[0].items)| else 0
    requires k < |EntriesOf(items[1..])|
    ensures 1 + n + k < |EntriesOf(items)| && EntriesOf(items)[1 + n + k] == EntriesOf(items[1..])[k]
  {
    var sub: seq<Entry> := if items[0].SubDir? then EntriesOf(items[0].items) else [];
    assert EntriesOf(items) == [items[0].entry] + sub + EntriesOf(items[1..]);
  }

  /** Every path of the tree is there. */
  lemma {:induction false} PathListed(items: seq<Item>, p: Path, e: Entry)
    requires EntryAt(items, p, e)
    ensures p in Paths(items)
    decreases items
  {
    if p[0] == 0 {
      if |p| == 1 {
        assert p == [0] && Paths(items)[0] == [0];
      } else {
        PathListed(items[0].items, p[1..], e);
        var k :| 0 <= k < |Paths(items[0].items)| && Paths(items[0].items)[k] == p[1..];
        assert p == Inside(p[1..]) && AllInside(Paths(items[0].items))[k] == p;
      }
    } else {
      var q := [p[0] - 1] + p[1..];
      assert q[1..] == p[1..] && Later(q) == p;
      OneStep(items, q, e);
      PathListed(items[1..], q, e);
      var k :| 0 <= k < |Paths(items[1..])| && Paths(items[1..])[k] == q;
      assert AllLater(Paths(items[1..]))[k] == p;
    }
  }

  lemma BeforeLifts(p: Path, q: Path)
    requires q != []
    ensures Before([0], Inside(q)) && Before([0], Later(q))
    ensures Before(p, q) ==> Before(Inside(p), Inside(q))
    ensures p != [] && Before(p, q) ==> Before(Later(p), Later(q))
    ensures Before(Inside(p), Later(q))
  {
    assert Inside(p)[1..] == p && Inside(q)[1..] == q && Later(q)[1..] == q[1..];
    if p != [] {
      assert Later(p)[1..] == p[1..];
    }
  }

  lemma {:induction false} PathsInOrder(items: seq<Item>)
    ensures InOrder(Paths(items))
    decreases items
  {
    hide Before;
    if items != [] {
      var sub: seq<Path> := if items[0].SubDir? then Paths(items[0].items) else [];
      if items[0].SubDir? {
        PathsInOrder(items[0].items);
      }
      PathsInOrder(items[1..]);
      Pieces(sub, Paths(items[1..]));
    }
  }

  lemma Pieces(sub: seq<Path>, rest: seq<Path>)
    requires InOrder(sub) && InOrder(rest) && [] !in sub && [] !in rest
    ensures InOrder([[0]] + (AllInside(sub) + AllLater(rest)))
  {
    hide Before, Inside, Later;
    var all := [[0]] + (AllInside(sub) + AllLater(rest));
    var n := 1 + |sub|;
    forall i, j | 0 <= i < j < |all| ensures Before(all[i], all[j]) {
      assert j < n ==> all[j] == Inside(sub[j - 1]) && sub[j - 1] in sub;
      assert n <= j ==> all[j] == Later(rest[j - n]) && rest[j - n] in rest;
      assert 1 <= i < n ==> all[i] == Inside(sub[i - 1]);
      assert n <= i ==> all[i] == Later(rest[i - n]) && rest[i - n] in rest;
      var q := if j < n then sub[j - 1] else rest[j - n];
      BeforeLifts(if i == 0 then [] else if i < n then sub[i - 1] else rest[i - n], q);
    }
  }

  /** What build_database offers is the entry at every path of the tree, each directory before its contents and siblings
      in their order. */
  lemma OfferedInOrder(items: seq<Item>) returns (ps: seq<Path>)
    ensures |ps| == |EntriesOf(items)| && InOrder(ps)
    ensures forall i :: 0 <= i < |ps| ==> EntryAt(items, ps[i], EntriesOf(items)[i])
    ensures forall p: Path, e :: EntryAt(items, p, e) ==> p in ps
  {
    ps := Paths(items);
    AsManyPaths(items);
    PathsInOrder(items);
    forall i | 0 <= i < |ps| ensures EntryAt(items, ps[i], EntriesOf(items)[i]) {
      EntryAtPath(items, i);
    }
    forall p: Path, e | EntryAt(items, p, e) ensures p in ps {
      PathListed(items, p, e);
    }
  }

  lemma {:induction false} OneEntry(items: seq<Item>, p: Path, e: Entry, f: Entry)
    requires EntryAt(items, p, e) && EntryAt(items, p, f)
    ensures e == f
    decreases |p|
  {
    if |p| > 1 {
      OneEntry(items[p[0]].items, p[1..], e, f);
    }
  }

  lemma OfferedExactly(items: seq<Item>, e: Entry)
    ensures e in EntriesOf(items) <==> exists p: Path :: EntryAt(items, p, e)
  {
    hide EntriesOf, EntryAt;
    var ps := OfferedInOrder(items);
    if e in EntriesOf(items) {
      var i :| 0 <= i < |ps| && EntriesOf(items)[i] == e;
      assert EntryAt(items, ps[i], e);
    }
    if p: Path :| EntryAt(items, p, e) {
      assert p in ps;
      var i :| 0 <= i < |ps| && ps[i] == p;
      OneEntry(items, p, e, EntriesOf(items)[i]);
      assert EntriesOf(items)[i] in EntriesOf(items);
      assert exists q: Path :: EntryAt(items, q, e);
    }
  }

  /** After indexing a tree a path with a stored hash is in the snapshot exactly if it was before, or some entry anywhere
      in the tree has it. */
  lemma IndexedTree(log: seq<Placed>, items: seq<Item>, key: Key)
    ensures Present(Indexed(log, EntriesOf(items)), key) <==>
              Present(log, key) || exists p: Path, e :: EntryAt(items, p, e) && KeyOf(e) == key
  {
    hide Indexed, EntriesOf, EntryAt, Present, KeyOf;
    var entries := EntriesOf(items);
    IndexedKeys(log, entries, key);
    if e :| e in entries && KeyOf(e) == key {
      OfferedExactly(items, e);
      var p: Path :| EntryAt(items, p, e);
    }
    if p: Path, e: Entry :| EntryAt(items, p, e) && KeyOf(e) == key {
      OfferedExactly(items, e);
      assert exists q: Path :: EntryAt(items, q, e);
      assert e in entries;
    }
  }
}
