/** What a report of db_diff says about the two snapshots. */
module DiffMeaning {
  import opened Format
  import opened Records
  import opened Index
  import opened Diff

  // ------------------------------------------------------------------ what is reported

  ghost predicate Reports(changes: seq<Change>, tag: Tag, key: Key) {
    exists c :: c in changes && c.tag == tag && KeyOf(c.record.entry) == key
  }

  /** Both snapshots have the key, in records some compared field of which differs. */
  ghost predicate Differs(before: seq<Placed>, after: seq<Placed>, key: Key) {
    exists p, q :: p in before && q in after && KeyOf(p.entry) == key && KeyOf(q.entry) == key
                   && !SameFields(p.entry, q.entry)
  }

  lemma {:induction false} PassMembers(log: seq<Placed>, other: seq<Placed>, side: Side, c: Change)
    ensures c in Pass(log, other, side) <==> c.record in log && c in Reported(c.record, other, side)
  {
    hide Reported;
    if log != [] {
      var front, p := log[..|log| - 1], log[|log| - 1];
      PassMembers(front, other, side, c);
      assert log == front + [p];
      ReportedRecord(p, other, side);
    }
  }

  lemma ReportedRecord(p: Placed, other: seq<Placed>, side: Side)
    ensures forall c :: c in Reported(p, other, side) ==> c.record == p
  {
    var cs := Reported(p, other, side);
    assert cs == [] || cs == [cs[0]];
  }

  /** With no key twice, "modified" is the symmetric statement that the two records with the key differ. */
  lemma DiffersIsStatus(before: seq<Placed>, after: seq<Placed>, p: Placed)
    requires NoDuplicates(before) && NoDuplicates(after) && p in before
    ensures Differs(before, after, KeyOf(p.entry)) <==> Status(p.entry, after) == 1
  {
    hide SameFields;
    OneRecordPerKey(before);
    OneRecordPerKey(after);
    var key := KeyOf(p.entry);
    if Status(p.entry, after) == 1 {
      var q :| q in after && KeyOf(q.entry) == key;
      assert !SameFields(p.entry, q.entry);
    }
  }

  lemma OneRecordPerKey(log: seq<Placed>)
    requires NoDuplicates(log)
    ensures forall p, q :: p in log && q in log && KeyOf(p.entry) == KeyOf(q.entry) ==> p == q
  {
    forall p, q | p in log && q in log && KeyOf(p.entry) == KeyOf(q.entry) ensures p == q {
      var i :| 0 <= i < |log| && log[i] == p;
      var j :| 0 <= j < |log| && log[j] == q;
      if i < j {
        assert false;
      } else if j < i {
        assert false;
      }
    }
  }

  /** The report in terms of the two sets of records: a key is reported as modified exactly when both snapshots have it
      with some compared field different, as deleted exactly when only the old one has it, and as created exactly when
      only the new one has it. */
  lemma ReportMeaning(before: seq<Placed>, after: seq<Placed>, key: Key)
    requires NoDuplicates(before) && NoDuplicates(after)
    ensures Reports(Changes(before, after), Modified, key) <==> Differs(before, after, key)
    ensures Reports(Changes(before, after), Deleted, key) <==> Present(before, key) && !Present(after, key)
    ensures Reports(Changes(before, after), Created, key) <==> !Present(before, key) && Present(after, key)
  {
    hide Status, Present, Differs;
    ReportedModified(before, after, key);
    ReportedDeleted(before, after, key);
    ReportedCreated(before, after, key);
  }

  lemma ReportedModified(before: seq<Placed>, after: seq<Placed>, key: Key)
    requires NoDuplicates(before) && NoDuplicates(after)
    ensures Reports(Changes(before, after), Modified, key) <==> Differs(before, after, key)
  {
    hide Status, SameFields;
    var changes := Changes(before, after);
    if Reports(changes, Modified, key) {
      var c :| c in changes && c.tag == Modified && KeyOf(c.record.entry) == key;
      PassMembers(before, after, OldFile, c);
      PassMembers(after, before, NewFile, c);
      DiffersIsStatus(before, after, c.record);
    }
    if Differs(before, after, key) {
      var p :| p in before && KeyOf(p.entry) == key;
      DiffersIsStatus(before, after, p);
      PassMembers(before, after, OldFile, Change(Modified, p));
      assert Change(Modified, p) in changes;
    }
  }

  lemma ReportedDeleted(before: seq<Placed>, after: seq<Placed>, key: Key)
    ensures Reports(Changes(before, after), Deleted, key) <==> Present(before, key) && !Present(after, key)
  {
    hide Unchanged;
    var changes := Changes(before, after);
    if Reports(changes, Deleted, key) {
      var c :| c in changes && c.tag == Deleted && KeyOf(c.record.entry) == key;
      PassMembers(before, after, OldFile, c);
      PassMembers(after, before, NewFile, c);
    }
    if Present(before, key) && !Present(after, key) {
      var p :| p in before && KeyOf(p.entry) == key;
      PassMembers(before, after, OldFile, Change(Deleted, p));
      assert Change(Deleted, p) in changes;
    }
  }

  lemma ReportedCreated(before: seq<Placed>, after: seq<Placed>, key: Key)
    ensures Reports(Changes(before, after), Created, key) <==> !Present(before, key) && Present(after, key)
  {
    hide Unchanged;
    var changes := Changes(before, after);
    if Reports(changes, Created, key) {
      var c :| c in changes && c.tag == Created && KeyOf(c.record.entry) == key;
      PassMembers(before, after, OldFile, c);
      PassMembers(after, before, NewFile, c);
    }
    if !Present(before, key) && Present(after, key) {
      var q :| q in after && KeyOf(q.entry) == key;
      PassMembers(after, before, NewFile, Change(Created, q));
      assert Change(Created, q) in changes;
    }
  }

  // ------------------------------------------------------------------ order

  /** The changed records of one pass, oldest first. */
  ghost predicate InFileOrder(changes: seq<Change>) {
    forall i, j :: 0 <= i < j < |changes| ==> changes[i].record.off < changes[j].record.off
  }

  lemma {:induction false} PassInOrder(log: seq<Placed>, other: seq<Placed>, side: Side, n: nat)
    requires Contiguous(log) && n <= |log|
    ensures InFileOrder(Pass(log[..n], other, side))
    ensures forall c :: c in Pass(log[..n], other, side) ==> c.record in log[..n]
  {
    hide Reported, Contiguous;
    if n > 0 {
      PassInOrder(log, other, side, n - 1);
      var front, p := log[..n - 1], log[n - 1];
      assert log[..n][..n - 1] == front && log[..n] == front + [p];
      EarlierIsBefore(log, n - 1);
      ReportedRecord(p, other, side);
      OrderExtends(Pass(front, other, side), Reported(p, other, side), p);
    }
  }

  lemma OrderExtends(a: seq<Change>, b: seq<Change>, p: Placed)
    requires InFileOrder(a) && |b| <= 1
    requires (forall c :: c in a ==> c.record.off < p.off) && (forall c :: c in b ==> c.record == p)
    ensures InFileOrder(a + b)
  {
    var all := a + b;
    forall i, j | 0 <= i < j < |all| ensures all[i].record.off < all[j].record.off {
      assert all[i] == a[i] && (j < |a| || all[j] == b[0]);
    }
  }

  lemma EarlierIsBefore(log: seq<Placed>, n: nat)
    requires Contiguous(log) && n < |log|
    ensures forall p :: p in log[..n] ==> p.off < log[n].off
  {
    forall p | p in log[..n] ensures p.off < log[n].off {
      var i :| 0 <= i < n && log[i] == p;
      InOrder(log, i, n);
    }
  }

  /** Deleted and modified records come first, in the order of the old file; created ones follow in the order of the new
      file; and no key is reported twice. */
  lemma ReportOrder(before: seq<Placed>, after: seq<Placed>)
    requires Contiguous(before) && Contiguous(after) && NoDuplicates(before) && NoDuplicates(after)
    ensures InFileOrder(Pass(before, after, OldFile)) && InFileOrder(Pass(after, before, NewFile))
    ensures var changes := Changes(before, after);
            forall i, j :: 0 <= i < j < |changes| ==> KeyOf(changes[i].record.entry) != KeyOf(changes[j].record.entry)
  {
    hide Status, Contiguous, NoDuplicates;
    PassInOrder(before, after, OldFile, |before|);
    PassInOrder(after, before, NewFile, |after|);
    assert before[..|before|] == before && after[..|after|] == after;
    OneRecordPerKey(before);
    OneRecordPerKey(after);
    var a, b := Pass(before, after, OldFile), Pass(after, before, NewFile);
    forall c, d | c in a && d in b ensures KeyOf(c.record.entry) != KeyOf(d.record.entry) {
      PassMembers(before, after, OldFile, c);
      PassMembers(after, before, NewFile, d);
      CreatedIsNew(before, c.record, d.record.entry);
    }
  }

  lemma CreatedIsNew(before: seq<Placed>, p: Placed, e: Entry)
    requires p in before && Status(e, before) == 2
    ensures KeyOf(p.entry) != KeyOf(e)
  {}

  // ------------------------------------------------------------------ laws

  /** Neither rule for unchanged records, the RSS threshold included, depends on which file is the old one. */
  lemma SameFieldsSymmetric(e: Entry, f: Entry)
    ensures SameFields(e, f) == SameFields(f, e)
    ensures SameFields(e, e)
  {}

  /** Swapping the two snapshots swaps deleted and created keys and keeps the modified ones. */
  lemma SwapSides(before: seq<Placed>, after: seq<Placed>, key: Key)
    requires NoDuplicates(before) && NoDuplicates(after)
    ensures Reports(Changes(before, after), Deleted, key) <==> Reports(Changes(after, before), Created, key)
    ensures Reports(Changes(before, after), Created, key) <==> Reports(Changes(after, before), Deleted, key)
    ensures Reports(Changes(before, after), Modified, key) <==> Reports(Changes(after, before), Modified, key)
  {
    hide Present, Reports, SameFields;
    ReportMeaning(before, after, key);
    ReportMeaning(after, before, key);
    forall e, f ensures SameFields(e, f) == SameFields(f, e) {
      SameFieldsSymmetric(e, f);
    }
  }

  /** Every record of one snapshot is also in the other, wherever it lies there. */
  ghost predicate Holds(log: seq<Placed>, e: Entry) {
    exists p :: p in log && p.entry == e
  }

  /** Two files with the same records, in whatever order they were appended, have nothing to report. */
  lemma SameRecordsNothingToReport(before: seq<Placed>, after: seq<Placed>)
    requires forall e :: Holds(before, e) <==> Holds(after, e)
    ensures Changes(before, after) == []
  {
    hide Status, SameFields, NoDuplicates;
    if Changes(before, after) != [] {
      var c := Changes(before, after)[0];
      PassMembers(before, after, OldFile, c);
      PassMembers(after, before, NewFile, c);
      var e := c.record.entry;
      assert Holds(before, e) && Holds(after, e);
      FoundUnchanged(before, e);
      FoundUnchanged(after, e);
    }
  }

  lemma FoundUnchanged(log: seq<Placed>, e: Entry)
    requires Holds(log, e)
    ensures Status(e, log) == 0
  {
    SameFieldsSymmetric(e, e);
  }

  /** A snapshot compared with itself prints nothing. */
  lemma SelfDiffEmpty(log: seq<Placed>)
    ensures Lines(Changes(log, log)) == []
  {
    SameRecordsNothingToReport(log, log);
  }

  /** The RSS rule makes "unchanged" intransitive: two comparisons may both print nothing when the direct one does not. */
  lemma UnchangedIsNotTransitive(e: Entry, f: Entry, g: Entry)
    requires e.Proc? && f == e.(rss := e.rss + RSS_THRESHOLD) && g == f.(rss := f.rss + RSS_THRESHOLD)
    ensures SameFields(e, f) && SameFields(f, g) && !SameFields(e, g)
  {}

  // ------------------------------------------------------------------ what the counts add up to

  ghost function Count(changes: seq<Change>, tag: Tag): nat {
    if changes == [] then 0
    else Count(changes[..|changes| - 1], tag) + if changes[|changes| - 1].tag == tag then 1 else 0
  }

  ghost function CommonKeys(log: seq<Placed>, other: seq<Placed>): set<Key> {
    set p | p in log && Present(other, KeyOf(p.entry)) :: KeyOf(p.entry)
  }

  lemma {:induction false} CountConcat(a: seq<Change>, b: seq<Change>, tag: Tag)
    ensures Count(a + b, tag) == Count(a, tag) + Count(b, tag)
  {
    if b == [] {
      assert a + b == a;
    } else {
      assert (a + b)[..|a + b| - 1] == a + b[..|b| - 1];
      CountConcat(a, b[..|b| - 1], tag);
    }
  }

  /** The tag a pass gives to records the other file does not have. */
  function MissingTag(side: Side): Tag {
    if side.OldFile? then Deleted else Created
  }

  /** Each record of a pass is either reported as missing on the other side or one of the common keys. */
  lemma {:induction false} MissingAndCommon(log: seq<Placed>, other: seq<Placed>, side: Side, n: nat)
    requires NoDuplicates(log) && n <= |log|
    ensures Count(Pass(log[..n], other, side), MissingTag(side)) + |CommonKeys(log[..n], other)| == n
    ensures Count(Pass(log[..n], other, side), MissingTag(if side.OldFile? then NewFile else OldFile)) == 0
  {
    hide Reported, NoDuplicates, CommonKeys;
    if n == 0 {
      NothingInCommon(other);
      assert log[..0] == [];
    } else {
      MissingAndCommon(log, other, side, n - 1);
      var p, cs := log[n - 1], Reported(log[n - 1], other, side);
      assert log[..n][..n - 1] == log[..n - 1];
      OneMore(log, other, n);
      CountConcat(Pass(log[..n - 1], other, side), cs, Deleted);
      CountConcat(Pass(log[..n - 1], other, side), cs, Created);
      CountOfReported(p, other, side);
    }
  }

  lemma NothingInCommon(other: seq<Placed>)
    ensures CommonKeys([], other) == {}
  {}

  lemma CountOfReported(p: Placed, other: seq<Placed>, side: Side)
    ensures var cs := Reported(p, other, side);
            && Count(cs, MissingTag(side)) == (if Present(other, KeyOf(p.entry)) then 0 else 1)
            && Count(cs, MissingTag(if side.OldFile? then NewFile else OldFile)) == 0
  {
    var cs := Reported(p, other, side);
    if cs != [] {
      assert cs == [cs[0]] && cs[..0] == [];
    }
  }

  lemma OneMore(log: seq<Placed>, other: seq<Placed>, n: nat)
    requires NoDuplicates(log) && 0 < n <= |log|
    ensures |CommonKeys(log[..n], other)| ==
              |CommonKeys(log[..n - 1], other)| + if Present(other, KeyOf(log[n - 1].entry)) then 1 else 0
  {
    hide Present;
    var front, p := log[..n - 1], log[n - 1];
    assert log[..n] == front + [p];
    var key := KeyOf(p.entry);
    assert key !in CommonKeys(front, other) by {
      forall q | q in front ensures KeyOf(q.entry) != key {
        var i :| 0 <= i < n - 1 && log[i] == q;
      }
    }
    assert CommonKeys(log[..n], other) == CommonKeys(front, other) + if Present(other, key) then {key} else {};
  }

  /** The report accounts for the sizes of the two files: records only grow by created keys and shrink by deleted ones. */
  lemma ReportBalances(before: seq<Placed>, after: seq<Placed>)
    requires NoDuplicates(before) && NoDuplicates(after)
    ensures |after| == |before| - Count(Changes(before, after), Deleted) + Count(Changes(before, after), Created)
  {
    MissingAndCommon(before, after, OldFile, |before|);
    MissingAndCommon(after, before, NewFile, |after|);
    assert before[..|before|] == before && after[..|after|] == after;
    CountConcat(Pass(before, after, OldFile), Pass(after, before, NewFile), Deleted);
    CountConcat(Pass(before, after, OldFile), Pass(after, before, NewFile), Created);
    assert CommonKeys(before, after) == CommonKeys(after, before);
  }
}
