/** build_database: indexing a directory tree recursively into one snapshot. */
module Indexer {
  import opened Memory
  import opened Format
  import opened Index
  import opened Writers
  import opened WriterSteps
  import opened Database

  /** A directory entry with the record built for it; sub-directories carry their own entries, in readdir order. */
  datatype Item = File(entry: Entry) | SubDir(entry: Entry, items: seq<Item>)

  /** The records of a tree in the order build_database meets them. */
  function EntriesOf(items: seq<Item>): seq<Entry> {
    if items == [] then []
    else
      [items[0].entry] + (if items[0].SubDir? then EntriesOf(items[0].items) else []) + EntriesOf(items[1..])
  }

  function TotalSize(entries: seq<Entry>): nat {
    if entries == [] then 0 else Size(entries[0]) + TotalSize(entries[1..])
  }

  /** The records after offering one entry: added at the end unless its key is there. */
  ghost function Added(log: seq<Placed>, e: Entry): seq<Placed> {
    if Present(log, KeyOf(e)) then log else log + [Placed(EndOf(log), e)]
  }

  /** ... and after offering all of them in turn. */
  ghost function Indexed(log: seq<Placed>, entries: seq<Entry>): seq<Placed>
    decreases entries
  {
    if entries == [] then log else Indexed(Added(log, entries[0]), entries[1..])
  }

  /** Entries of an index that the serialiser accepts as they stand. */
  ghost predicate Indexable(entries: seq<Entry>) {
    forall e :: e in entries ==> e.Idx? && Sane(e)
  }

  ghost predicate SizesDeclared(entries: seq<Entry>) {
    forall e :: e in entries ==> e.entrySize == Size(e)
  }

  lemma {:induction false} IndexedConcat(log: seq<Placed>, a: seq<Entry>, b: seq<Entry>)
    ensures Indexed(log, a + b) == Indexed(Indexed(log, a), b)
    decreases a
  {
    if a == [] {
      assert a + b == b;
    } else {
      assert (a + b)[1..] == a[1..] + b;
      IndexedConcat(Added(log, a[0]), a[1..], b);
    }
  }

  lemma {:induction false} TotalSizeConcat(a: seq<Entry>, b: seq<Entry>)
    ensures TotalSize(a + b) == TotalSize(a) + TotalSize(b)
  {
    if a == [] {
      assert a + b == b;
    } else {
      assert (a + b)[1..] == a[1..] + b;
      TotalSizeConcat(a[1..], b);
    }
  }

  lemma {:induction false} IndexedGrows(log: seq<Placed>, entries: seq<Entry>)
    ensures |log| <= |Indexed(log, entries)| <= |log| + |entries|
    ensures EndOf(Indexed(log, entries)) <= EndOf(log) + TotalSize(entries)
    decreases entries
  {
    if entries != [] {
      IndexedGrows(Added(log, entries[0]), entries[1..]);
    }
  }

  /** Indexing a tree makes exactly its keys present, on top of those there before. */
  lemma {:induction false} IndexedKeys(log: seq<Placed>, entries: seq<Entry>, key: Key)
    ensures Present(Indexed(log, entries), key) <==> Present(log, key) || exists e :: e in entries && KeyOf(e) == key
    decreases entries
  {
    if entries != [] {
      var e, rest := entries[0], entries[1..];
      var next := Added(log, e);
      IndexedKeys(next, rest, key);
      assert Present(next, key) <==> Present(log, key) || KeyOf(e) == key by {
        AddedKeys(log, e, key);
      }
      assert forall f :: f in entries <==> f == e || f in rest;
    }
  }

  lemma AddedKeys(log: seq<Placed>, e: Entry, key: Key)
    ensures Present(Added(log, e), key) <==> Present(log, key) || KeyOf(e) == key
  {
    var next := Added(log, e);
    if Present(log, key) {
      var p :| p in log && KeyOf(p.entry) == key;
      assert p in next;
    }
    if KeyOf(e) == key && !Present(log, key) {
      assert next[|log|] in next;
    }
  }

  /** Indexing the same tree again adds nothing. */
  lemma {:induction false} IndexedTwice(log: seq<Placed>, entries: seq<Entry>)
    requires forall e :: e in entries ==> Present(log, KeyOf(e))
    ensures Indexed(log, entries) == log
  {
    if entries != [] {
      IndexedTwice(log, entries[1..]);
    }
  }

  lemma IndexingIsIdempotent(log: seq<Placed>, entries: seq<Entry>)
    ensures Indexed(Indexed(log, entries), entries) == Indexed(log, entries)
  {
    forall e | e in entries ensures Present(Indexed(log, entries), KeyOf(e)) {
      IndexedKeys(log, entries, KeyOf(e));
    }
    IndexedTwice(Indexed(log, entries), entries);
  }

  lemma Unfold(items: seq<Item>, i: nat)
    requires i < |items|
    ensures var it := items[i];
            EntriesOf(items[i..]) ==
              [it.entry] + ((if it.SubDir? then EntriesOf(it.items) else []) + EntriesOf(items[i + 1..]))
  {
    assert items[i..][1..] == items[i + 1..] && items[i..][0] == items[i];
  }

  /** One entry, then a sub-tree, then the rest: how sizes and records add up. */
  lemma OfferItem(log: seq<Placed>, e: Entry, sub: seq<Entry>, rest: seq<Entry>)
    ensures Indexed(log, [e] + (sub + rest)) == Indexed(Indexed(Added(log, e), sub), rest)
    ensures TotalSize([e] + (sub + rest)) == Size(e) + TotalSize(sub) + TotalSize(rest)
  {
    var all := [e] + (sub + rest);
    assert all[0] == e && all[1..] == sub + rest;
    IndexedConcat(Added(log, e), sub, rest);
    TotalSizeConcat(sub, rest);
  }

  /** The part of RECORD_COUNT's books a call must keep: records not yet counted, as a difference. */
  ghost function Uncounted(db: Database): int
    reads db
  {
    |db.log| - RecordCount(db.file)
  }

  /** One turn of the loop of build_database: the entry itself, then its sub-tree. `added` tells whether the entry was
      new. */
  method IndexItem(db: Database, item: Item) returns (ret: int, added: nat)
    requires db.Valid() && db.kind == FileIndex && Indexable(EntriesOf([item]))
    requires |db.file| + TotalSize(EntriesOf([item])) < EMPTY_BUCKET && Uncounted(db) >= 0
    modifies db
    ensures db.Valid()
    ensures ret == 0 <==> SizesDeclared(EntriesOf([item]))
    ensures ret == 0 ==> db.log == Indexed(old(db.log), EntriesOf([item])) && Uncounted(db) == old(Uncounted(db)) + added
    decreases item
  {
    hide Snapshot, RecordCount, Size, Sane, Present;
    ghost var before := db.log;
    ghost var sub := if item.SubDir? then EntriesOf(item.items) else [];
    Unfold([item], 0);
    assert [item][0..] == [item] && [item][1..] == [];
    OfferItem(db.log, item.entry, sub, []);
    OfferMembers(item.entry, sub, []);
    FileEnds(db);
    ret := AppendOne(db, item.entry);
    added := if ret == 0 then 1 else 0;
    if ret == -1 {
      return;
    }
    ret := 0;
    FileEnds(db);
    if item.SubDir? {
      ret := BuildDatabase(db, item.items);
    }
  }

  /** append_fileops_entry in the terms used here. */
  method AppendOne(db: Database, e: Entry) returns (ret: int)
    requires db.Valid() && db.kind == FileIndex && e.Idx? && Sane(e) && |db.file| + Size(e) < EMPTY_BUCKET
    modifies db
    ensures db.Valid() && (ret == -1 <==> e.entrySize != Size(e)) && ret in {-1, 0, 1}
    ensures ret != -1 ==> db.log == Added(old(db.log), e)
    ensures RecordCount(db.file) == old(RecordCount(db.file)) && |db.log| == |old(db.log)| + if ret == 0 then 1 else 0
  {
    hide Snapshot, Size, Sane, U32At;
    ghost var before := db.file;
    FileEnds(db);
    ret := db.AppendEntry(e);
    if ret == 0 {
      FixedFieldsKept(before, db.file);
    }
  }

  /** build_database: on success the snapshot holds the old records followed by every new key of the tree, once each,
      and RECORD_COUNT has grown by exactly the number of records added. It fails exactly when some record's declared
      size is wrong, and then stops early without counting. */
  method BuildDatabase(db: Database, items: seq<Item>) returns (ret: int)
    requires db.Valid() && db.kind == FileIndex && Indexable(EntriesOf(items))
    requires |db.file| + TotalSize(EntriesOf(items)) < EMPTY_BUCKET && Uncounted(db) >= 0
    modifies db
    ensures db.Valid()
    ensures ret == 0 <==> SizesDeclared(EntriesOf(items))
    ensures ret == 0 ==> db.log == Indexed(old(db.log), EntriesOf(items)) && Uncounted(db) == old(Uncounted(db))
    decreases items
  {
    hide Snapshot, RecordCount, Size, Sane, Present, Indexable, SizesDeclared;
    var appended := 0;
    var i := 0;
    assert items[0..] == items;
    while i < |items|
      invariant 0 <= i <= |items| && db.Valid()
      invariant Indexable(EntriesOf(items[i..]))
      invariant SizesDeclared(EntriesOf(items)) <==> SizesDeclared(EntriesOf(items[i..]))
      invariant Indexed(db.log, EntriesOf(items[i..])) == Indexed(old(db.log), EntriesOf(items))
      invariant |db.file| + TotalSize(EntriesOf(items[i..])) < EMPTY_BUCKET
      invariant Uncounted(db) == old(Uncounted(db)) + appended
    {
      ghost var rest := EntriesOf(items[i + 1..]);
      SplitItem(items, i);
      OfferTree(db.log, EntriesOf([items[i]]), rest);
      FileEnds(db);
      var r, added := IndexItem(db, items[i]);
      if r != 0 {
        return r;
      }
      FileEnds(db);
      appended := appended + added;
      i := i + 1;
    }
    NothingLeft(items, db.log);
    FileEnds(db);
    db.AddToRecordCount(appended);
    ret := 0;
  }

  lemma NothingLeft(items: seq<Item>, log: seq<Placed>)
    ensures EntriesOf(items[|items|..]) == [] && Indexed(log, []) == log && SizesDeclared([])
  {}

  lemma SplitItem(items: seq<Item>, i: nat)
    requires i < |items|
    ensures EntriesOf(items[i..]) == EntriesOf([items[i]]) + EntriesOf(items[i + 1..])
  {
    Unfold(items, i);
    Unfold([items[i]], 0);
    assert [items[i]][0..] == [items[i]] && [items[i]][1..] == [];
  }

  /** A sub-tree, then the rest. */
  lemma OfferTree(log: seq<Placed>, a: seq<Entry>, b: seq<Entry>)
    ensures Indexed(log, a + b) == Indexed(Indexed(log, a), b) && TotalSize(a + b) == TotalSize(a) + TotalSize(b)
    ensures EndOf(Indexed(log, a)) <= EndOf(log) + TotalSize(a)
    ensures Indexable(a + b) <==> Indexable(a) && Indexable(b)
    ensures SizesDeclared(a + b) <==> SizesDeclared(a) && SizesDeclared(b)
  {
    IndexedConcat(log, a, b);
    TotalSizeConcat(a, b);
    IndexedGrows(log, a);
    assert forall f :: f in a + b <==> f in a || f in b;
  }

  lemma OfferMembers(e: Entry, sub: seq<Entry>, rest: seq<Entry>)
    ensures Indexable([e] + (sub + rest)) <==> e.Idx? && Sane(e) && Indexable(sub) && Indexable(rest)
    ensures SizesDeclared([e] + (sub + rest)) <==> e.entrySize == Size(e) && SizesDeclared(sub) && SizesDeclared(rest)
  {
    var all := [e] + (sub + rest);
    assert forall f :: f in all <==> f == e || f in sub || f in rest;
  }

  lemma FileEnds(db: Database)
    requires db.Valid()
    ensures EndOf(db.log) == |db.file| < EMPTY_BUCKET && |db.log| <= |db.file|
  {
    ContentsTiled(db.file, db.log, db.kind);
    FewRecords(db.log);
  }
}
