// A scan of the whole database (db/db_impl.cc: NewInternalIterator, NewIterator; db/version_set.cc:
// AddIterators): the database iterator over the merged runs of the store, and what it lists.
module Scans {
  import opened Wrappers
  import opened Coding
  import opened DbFormat
  import opened Reads
  import opened Tables
  import opened Builder
  import opened CompactionSetup
  import opened CompactionWork
  import opened Lsm
  import opened Merger
  import Database
  import opened DbIterator

  // ------------------------------------------------------------- one run of a level

  /** Walking through a sorted level file by file: the concatenating iterator. */
  method ConcatenateLevel(files: seq<File>) returns (es: seq<Entry>)
    requires LevelSorted(files)
    ensures Sorted(es) && Members(es) == LevelEntries(files)
  {
    es := [];
    for i := 0 to |files|
      invariant es == ConcatEntries(files[..i])
    {
      assert files[..i + 1][..i] == files[..i];
      es := es + files[i].entries;
    }
    assert files[..|files|] == files;
    ConcatMembers(files);
    ConcatSorted(files);
  }

  lemma {:induction false} ConcatSorted(files: seq<File>)
    requires LevelSorted(files)
    ensures Sorted(ConcatEntries(files))
  {
    if files == [] {
    } else {
      var n := |files| - 1;
      var front, last := ConcatEntries(files[..n]), files[n].entries;
      ConcatSorted(files[..n]);
      ConcatMembers(files[..n]);
      assert WellFormed(files[n]);
      forall i, j | 0 <= i < |front| && 0 <= j < |last|
        ensures Precedes(front[i].key, last[j].key)
      {
        assert front[i] in Members(front);
        var f :| f in files[..n] && front[i] in f.entries;
        assert f in files && last[j] in last;
        EntryInRange(f, front[i]);
        EntryInRange(files[n], last[j]);
      }
      assert forall i | 0 <= i < |front| + |last| ::
             (front + last)[i] == if i < |front| then front[i] else last[i - |front|];
    }
  }

  // ------------------------------------------------------------- adding a run to the list

  ghost predicate ApartFrom(some: set<Entry>, es: set<Entry>) {
    forall a, b | a in some && b in es :: a.key.user != b.key.user || a.key.sequence != b.key.sequence
  }

  lemma RunAdded(list: seq<seq<Entry>>, es: seq<Entry>)
    requires RunsApart(list) && RunsSorted(list) && Sorted(es) && ApartFrom(RunMembers(list), Members(es))
    ensures RunsApart(list + [es]) && RunsSorted(list + [es])
    ensures RunMembers(list + [es]) == RunMembers(list) + Members(es)
  {
    hide Sorted;
    var more := list + [es];
    forall i, j, a: Entry, b: Entry | 0 <= i < j < |more| && a in more[i] && b in more[j]
      ensures a.key.user != b.key.user || a.key.sequence != b.key.sequence
    {
      if j == |list| {
        assert a in list[i] && a in RunMembers(list) && b in Members(es);
      }
    }
    forall e
      ensures e in RunMembers(more) <==> e in RunMembers(list) || e in Members(es)
    {
      if e in RunMembers(list) {
        var i :| 0 <= i < |list| && e in list[i];
        assert e in more[i];
      }
      if e in Members(es) {
        assert e in more[|list|];
      }
      if e in RunMembers(more) {
        var i :| 0 <= i < |more| && e in more[i];
        assert i < |list| ==> e in list[i];
      }
    }
  }

  /** The entries in the memtables and in the first levels. */
  ghost function Upto(st: Store, level: nat): set<Entry>
    requires level <= |st.levels|
  {
    MemEntries(st) + Stored(st.levels[..level])
  }

  lemma UptoNext(st: Store, level: nat)
    requires level < |st.levels|
    ensures Upto(st, level + 1) == Upto(st, level) + LevelEntries(st.levels[level])
  {
    forall e
      ensures e in Stored(st.levels[..level + 1])
              <==> e in Stored(st.levels[..level]) || e in LevelEntries(st.levels[level])
    {
      if e in Stored(st.levels[..level]) {
        var i, f :| 0 <= i < level && f in st.levels[..level][i] && e in f.entries;
        assert f in st.levels[..level + 1][i];
      }
      if e in LevelEntries(st.levels[level]) {
        var f :| f in st.levels[level] && e in f.entries;
        assert f in st.levels[..level + 1][level];
      }
      if e in Stored(st.levels[..level + 1]) {
        var i, f :| 0 <= i < level + 1 && f in st.levels[..level + 1][i] && e in f.entries;
        assert i < level ==> f in st.levels[..level][i];
      }
    }
  }

  /** What lies above a file is apart from it. */
  lemma AboveApart(st: Store, level: nat, f: File)
    requires StoreInvariant(st) && level < |st.levels| && f in st.levels[level]
    ensures ApartFrom(Upto(st, level), Members(f.entries))
  {
    hide LevelsShape, NumbersUnique, Sorted;
    forall a, b | a in Upto(st, level) && b in Members(f.entries) && a.key.user == b.key.user
      ensures a.key.sequence != b.key.sequence
    {
      if a in st.mem {
        assert NewerRun(st.mem, f.entries);
      } else if a in ImmEntries(st.imm) {
        assert NewerRun(ImmEntries(st.imm), f.entries);
      } else {
        var i, g :| 0 <= i < level && g in st.levels[..level][i] && a in g.entries;
        assert g in st.levels[i] && Newer(g, f);
      }
    }
  }

  lemma LevelApart(st: Store, level: nat)
    requires StoreInvariant(st) && level < |st.levels|
    ensures ApartFrom(Upto(st, level), LevelEntries(st.levels[level]))
  {
    hide StoreInvariant, Upto;
    forall a, b | a in Upto(st, level) && b in LevelEntries(st.levels[level])
      ensures a.key.user != b.key.user || a.key.sequence != b.key.sequence
    {
      var f :| f in st.levels[level] && b in f.entries;
      AboveApart(st, level, f);
      assert b in Members(f.entries);
    }
  }

  /** The files of level 0 are apart from one another. */
  lemma LevelZeroApart(st: Store, i: nat)
    requires StoreInvariant(st) && i < |st.levels[0]|
    ensures ApartFrom(Upto(st, 0) + LevelEntries(st.levels[0][..i]), Members(st.levels[0][i].entries))
  {
    var f := st.levels[0][i];
    AboveApart(st, 0, f);
    hide Upto, Sorted;
    forall a, b | a in LevelEntries(st.levels[0][..i]) && b in Members(f.entries) && a.key.user == b.key.user
      ensures a.key.sequence != b.key.sequence
    {
      var g :| g in st.levels[0][..i] && a in g.entries;
      var j :| 0 <= j < i && st.levels[0][j] == g;
      assert BySmallest(st.levels[0][j], st.levels[0][i]) && g != f;
      assert g.number != f.number;
      assert Newer(g, f) || Newer(f, g);
    }
  }

  lemma LevelEntriesNext(files: seq<File>, i: nat)
    requires i < |files|
    ensures LevelEntries(files[..i + 1]) == LevelEntries(files[..i]) + Members(files[i].entries)
  {
    assert files[..i + 1] == files[..i] + [files[i]];
  }

  // ------------------------------------------------------------------- the iterators

  /** NewInternalIterator: memtable, immutable memtable, every file of level 0, one run a deeper
      level, all merged. */
  method NewInternalIterator(st: Store) returns (entries: seq<Entry>)
    requires StoreInvariant(st)
    ensures Sorted(entries) && Members(entries) == Contents(st)
  {
    hide StoreInvariant, Sorted, RunsApart, RunsSorted, RunMembers, Upto, LevelSorted, Members, LevelEntries,
         ApartFrom, Contents, Stored;
    StoreParts(st);
    var list: seq<seq<Entry>> := [];
    EmptyList(st);
    RunAdded(list, st.mem);
    list := list + [st.mem];
    if st.imm.Some? {
      RunAdded(list, st.imm.value);
      list := list + [st.imm.value];
    }
    list := AddIterators(st, list);
    entries := MergeAll(list);
  }

  /** AddIterators: the files of level 0 one by one, and then one run for every deeper level. */
  method AddIterators(st: Store, list: seq<seq<Entry>>) returns (list': seq<seq<Entry>>)
    requires StoreInvariant(st) && RunsApart(list) && RunsSorted(list) && RunMembers(list) == Upto(st, 0)
    ensures RunsApart(list') && RunsSorted(list') && RunMembers(list') == Contents(st)
  {
    hide StoreInvariant, Sorted, RunsApart, RunsSorted, RunMembers, Upto, LevelSorted, Members, LevelEntries,
         ApartFrom, Contents, Stored;
    StoreParts(st);
    list' := AddLevelZero(st, list);
    for level := 1 to NUM_LEVELS
      invariant RunsApart(list') && RunsSorted(list')
      invariant RunMembers(list') == Upto(st, level)
    {
      UptoNext(st, level);
      if |st.levels[level]| > 0 {
        var run := ConcatenateLevel(st.levels[level]);
        LevelApart(st, level);
        RunAdded(list', run);
        list' := list' + [run];
      } else {
        NoFiles(st.levels[level]);
      }
    }
    UptoAll(st);
  }

  method AddLevelZero(st: Store, list: seq<seq<Entry>>) returns (list': seq<seq<Entry>>)
    requires StoreInvariant(st) && RunsApart(list) && RunsSorted(list) && RunMembers(list) == Upto(st, 0)
    ensures |st.levels| == NUM_LEVELS && RunsApart(list') && RunsSorted(list') && RunMembers(list') == Upto(st, 1)
  {
    hide StoreInvariant, Sorted, RunsApart, RunsSorted, RunMembers, Upto, LevelSorted, Members, LevelEntries,
         ApartFrom, Contents, Stored;
    StoreParts(st);
    list' := list;
    for i := 0 to |st.levels[0]|
      invariant RunsApart(list') && RunsSorted(list')
      invariant RunMembers(list') == Upto(st, 0) + LevelEntries(st.levels[0][..i])
    {
      assert st.levels[0][i] in st.levels[0];
      LevelZeroApart(st, i);
      LevelEntriesNext(st.levels[0], i);
      RunAdded(list', st.levels[0][i].entries);
      list' := list' + [st.levels[0][i].entries];
    }
    assert st.levels[0][..|st.levels[0]|] == st.levels[0];
    UptoNext(st, 0);
  }

  lemma NoFiles(files: seq<File>)
    requires files == []
    ensures LevelEntries(files) == {}
  {
  }

  lemma UptoAll(st: Store)
    requires |st.levels| == NUM_LEVELS
    ensures Upto(st, NUM_LEVELS) == Contents(st)
  {
    assert st.levels[..NUM_LEVELS] == st.levels;
  }

  lemma StoreParts(st: Store)
    requires StoreInvariant(st)
    ensures |st.levels| == NUM_LEVELS && Sorted(st.mem) && Sorted(ImmEntries(st.imm))
    ensures forall f | f in st.levels[0] :: Sorted(f.entries)
    ensures forall i | 1 <= i < NUM_LEVELS :: LevelSorted(st.levels[i])
    ensures ApartFrom(Members(st.mem), Members(ImmEntries(st.imm)))
    ensures Upto(st, 0) == Members(st.mem) + Members(ImmEntries(st.imm)) && LevelEntries(st.levels[0][..0]) == {}
    ensures Members(ImmEntries(None)) == {}
  {
    assert forall f | f in st.levels[0] :: WellFormed(f);
  }

  lemma EmptyList(st: Store)
    ensures RunsApart([]) && RunsSorted([]) && RunMembers([]) == {}
    ensures ApartFrom({}, Members(st.mem))
    ensures forall s: set<Entry> :: {} + s == s
  {
  }

  /** NewIterator: a database iterator at a live snapshot, or at the last sequence number. */
  method NewIterator(db: Database.Database, snapshot: Option<SequenceNumber>) returns (iter: DBIter)
    requires db.Valid() && (snapshot.Some? ==> snapshot.value in db.snapshots)
    ensures fresh(iter) && iter.Valid() && !iter.valid
    ensures iter.sequence == if snapshot.Some? then snapshot.value else db.lastSequence
    ensures forall u, v :: (u, v) in iter.Keys() <==> Lookup(Contents(db.St()), u, iter.sequence) == Some(v)
    ensures db.Faithful() ==> forall u, v :: (u, v) in iter.Keys() <==> Lookup(db.history, u, iter.sequence) == Some(v)
  {
    hide Contents, Sorted, Members, LiveList, Lookup;
    var s := if snapshot.Some? then snapshot.value else db.lastSequence;
    var entries := NewInternalIterator(Store(db.mem, db.imm, db.levels));
    iter := new DBIter(entries, s);
    forall u, v
      ensures (u, v) in iter.Keys() <==> Lookup(Contents(db.St()), u, s) == Some(v)
    {
      LiveListIsReads(entries, s, u, v);
    }
  }
}
