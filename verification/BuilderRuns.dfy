// Applying a run of edits through one builder, as Recover does, compared with applying them one at
// a time, as the calls of LogAndApply did (db/version_set.cc: VersionSet::Builder).
module BuilderRuns {
  import opened Wrappers
  import opened DbFormat
  import opened Tables
  import opened Builder
  import opened Install

  // ------------------------------------------------------------------ one more edit

  /** The files a builder knows of carry numbers of their own. */
  ghost predicate NumbersDistinct(base: seq<File>, st: LevelState) {
    && NumbersApart(base, st.added)
    && (forall f, g | f in base && g in base && f.number == g.number :: f == g)
    && (forall f, g | f in st.added && g in st.added && f.number == g.number :: f == g)
  }

  /** No file that is waiting to be dropped gets its number back, unless the very same file is
      added again. */
  ghost predicate RevivesNothing(base: seq<File>, st: LevelState, level: nat, edit: VersionEdit) {
    forall f | (f in base || f in st.added) && f.number in st.deleted
      && f.number in Numbers(AddedIn(edit.newFiles, level)) ::
      f in st.added && f in AddedIn(edit.newFiles, level)
  }

  lemma {:induction false} AddFilesDeleted(st: LevelState, level: nat, newFiles: seq<(nat, File)>)
    ensures AddFiles(st, level, newFiles).deleted == st.deleted - Numbers(AddedIn(newFiles, level))
  {
    if newFiles == [] {
    } else {
      var n := |newFiles| - 1;
      AddFilesDeleted(st, level, newFiles[..n]);
      AddedInLast(newFiles, level);
    }
  }

  lemma AddedInLast(newFiles: seq<(nat, File)>, level: nat)
    requires newFiles != []
    ensures var n := |newFiles| - 1;
            AddedIn(newFiles, level)
            == AddedIn(newFiles[..n], level) + if newFiles[n].0 == level then {newFiles[n].1} else {}
  {
    var n := |newFiles| - 1;
    assert forall p :: p in newFiles <==> p in newFiles[..n] || p == newFiles[n];
  }

  /** Files of numbers all different: what is added is what was there and what is new. */
  lemma {:induction false} AddFilesMembers(st: LevelState, level: nat, newFiles: seq<(nat, File)>)
    requires Ordered(st.added)
    requires forall f, g | f in st.added && g in AddedIn(newFiles, level) && f.number == g.number :: f == g
    requires forall i, j | 0 <= i < j < |newFiles| && newFiles[i].0 == newFiles[j].0 == level ::
               newFiles[i].1.number != newFiles[j].1.number
    ensures Ordered(AddFiles(st, level, newFiles).added)
    ensures forall f :: f in AddFiles(st, level, newFiles).added <==> f in st.added || f in AddedIn(newFiles, level)
  {
    if newFiles == [] {
    } else {
      var n := |newFiles| - 1;
      var front, last := newFiles[..n], newFiles[n];
      AddedInLast(newFiles, level);
      AddFilesMembers(st, level, front);
      var before := AddFiles(st, level, front).added;
      if last.0 == level {
        assert last in newFiles && last.1 in AddedIn(newFiles, level);
        forall g | g in before && g !in st.added
          ensures g.number != last.1.number
        {
          var i :| 0 <= i < n && front[i] == (level, g);
          assert newFiles[i] == (level, g);
        }
        InsertOnce(before, last.1);
      }
    }
  }

  lemma {:induction false} InsertOnce(files: seq<File>, f: File)
    requires Ordered(files) && forall g | g in files && g.number == f.number :: g == f
    ensures Ordered(InsertFile(files, f))
    ensures forall g :: g in InsertFile(files, f) <==> g in files || g == f
  {
    InsertFileProperties(files, f);
    if f in files {
      InsertKnown(files, f);
    } else {
      assert forall g | g in files :: g.number != f.number;
    }
  }

  lemma {:induction false} InsertKnown(files: seq<File>, f: File)
    requires Ordered(files) && f in files
    ensures InsertFile(files, f) == files
  {
    hide Ordered;
    if files[0] != f {
      OrderedTail(files);
      assert f in files[1..];
      InsertKnown(files[1..], f);
    }
  }

  /** One builder that goes on to one more edit makes the same level as saving first and then
      applying the edit - exactly when the edit revives no dropped file. */
  lemma BatchStepIff(base: seq<File>, st: LevelState, level: nat, edit: VersionEdit)
    requires Ordered(base) && Ordered(st.added) && NumbersDistinct(base, st)
    requires AddsFresh(SaveLevel(base, st), level, edit)
    ensures SaveLevel(base, ApplyToLevel(st, level, edit)) == Edited(SaveLevel(base, st), level, edit)
            <==> RevivesNothing(base, st, level, edit)
  {
    hide SaveLevel, AddFiles, Ordered;
    SaveOrdered(base, st);
    if RevivesNothing(base, st, level, edit) {
      BatchStepAgrees(base, st, level, edit);
    } else {
      var f :| (f in base || f in st.added) && f.number in st.deleted
        && f.number in Numbers(AddedIn(edit.newFiles, level))
               && !(f in st.added && f in AddedIn(edit.newFiles, level));
      RevivedFile(base, st, level, edit, f);
    }
  }

  /** A level holds table 5; one edit has deleted it, and the next adds another table numbered 5.  One
      edit at a time the level ends with the new table alone; one builder brings the old one back. */
  lemma ReusedNumberRevives()
    ensures var old0, again := TableFive(1), TableFive(2);
            var base, st := [old0], LevelState({5}, []);
            var edit := EMPTY_EDIT.(newFiles := [(1, again)]);
            && Ordered(base) && Ordered(st.added) && NumbersDistinct(base, st)
              && AddsFresh(SaveLevel(base, st), 1, edit)
            && SaveLevel(base, ApplyToLevel(st, 1, edit)) == [old0, again]
            && Edited(SaveLevel(base, st), 1, edit) == [again]
  {
    var old0, again := TableFive(1), TableFive(2);
    var base, st := [old0], LevelState({5}, []);
    var edit := EMPTY_EDIT.(newFiles := [(1, again)]);
    var nothing: seq<File> := [];
    assert base[1..] == nothing && [again][1..] == nothing && [old0, again][1..] == [again];
    assert MergeFiles(base, nothing) == base && MergeFiles(nothing, [again]) == [again];
    assert WithoutNumbers(base, {5}) == nothing;
    assert SaveLevel(base, st) == nothing;
    assert BySmallest(old0, again) && !BySmallest(again, old0);
    assert MergeFiles(base, [again]) == [old0] + MergeFiles(base[1..], [again]) == [old0, again];
    AddsOnlyFive(st, edit, again);
    AddsOnlyFive(NO_CHANGES, edit, again);
    assert WithoutNumbers([again], {}) == [again] && WithoutNumbers([old0, again], {}) == [old0, again];
    assert SaveLevel(base, LevelState({}, [again])) == [old0, again];
    assert SaveLevel(nothing, LevelState({}, [again])) == [again];
  }

  function TableFive(key: UserKey): File {
    var e := Entry(InternalKey(key, 1, Value), []);
    File(5, 1, e.key, e.key, [e])
  }

  lemma AddsOnlyFive(st: LevelState, edit: VersionEdit, f: File)
    requires edit == EMPTY_EDIT.(newFiles := [(1, f)]) && f.number == 5 && st.added == [] && st.deleted <= {5}
    ensures ApplyToLevel(st, 1, edit) == LevelState({}, [f])
  {
    var newFiles := edit.newFiles;
    assert DeletedIn(edit, 1) == {} && st.deleted + {} == st.deleted;
    assert newFiles[..0] == [] && newFiles[0] == (1, f);
    assert AddFiles(st, 1, newFiles[..0]) == st;
    assert InsertFile(st.added, f) == [f] && st.deleted - {f.number} == {};
    assert AddFiles(st, 1, newFiles) == LevelState({}, [f]);
  }

  lemma BatchStepAgrees(base: seq<File>, st: LevelState, level: nat, edit: VersionEdit)
    requires Ordered(base) && Ordered(st.added) && NumbersDistinct(base, st) && Ordered(SaveLevel(base, st))
    requires AddsFresh(SaveLevel(base, st), level, edit) && RevivesNothing(base, st, level, edit)
    ensures SaveLevel(base, ApplyToLevel(st, level, edit)) == Edited(SaveLevel(base, st), level, edit)
  {
    hide SaveLevel, AddFiles, Ordered, Edited, AddedIn, DeletedIn;
    var st1 := LevelState(st.deleted + DeletedIn(edit, level), st.added);
    var st' := ApplyToLevel(st, level, edit);
    var add := AddedIn(edit.newFiles, level);
    SaveMembers(base, st);
    SaveMembers(base, st');
    EditedLevel(SaveLevel(base, st), level, edit);
    AddFilesDeleted(st1, level, edit.newFiles);
    AddedAreNew(base, st, level, edit);
    AddFilesMembers(st1, level, edit.newFiles);
    SaveOrdered(base, st');
    forall f
      ensures f in SaveLevel(base, st') <==> f in Edited(SaveLevel(base, st), level, edit)
    {
      if f in add {
        assert f.number in Numbers(add);
      }
    }
    OrderedUnique(SaveLevel(base, st'), Edited(SaveLevel(base, st), level, edit));
  }

  /** A known file with the number of a new one is that new one, and has been added before. */
  lemma AddedAreNew(base: seq<File>, st: LevelState, level: nat, edit: VersionEdit)
    requires NumbersDistinct(base, st)
    requires AddsFresh(SaveLevel(base, st), level, edit) && RevivesNothing(base, st, level, edit)
    ensures forall f, g | f in base && g in AddedIn(edit.newFiles, level) :: f.number != g.number
    ensures forall f, g | f in st.added && g in AddedIn(edit.newFiles, level) && f.number == g.number :: f == g
  {
    hide SaveLevel;
    SaveMembers(base, st);
    forall f, g | (f in base || f in st.added) && g in AddedIn(edit.newFiles, level) && f.number == g.number
      ensures f == g && f in st.added
    {
      assert (level, g) in edit.newFiles;
      assert f !in SaveLevel(base, st);
      assert g.number in Numbers(AddedIn(edit.newFiles, level));
      assert f in AddedIn(edit.newFiles, level);
      assert (level, f) in edit.newFiles;
    }
  }

  lemma RevivedFile(base: seq<File>, st: LevelState, level: nat, edit: VersionEdit, f: File)
    requires Ordered(base) && Ordered(st.added) && NumbersDistinct(base, st) && Ordered(SaveLevel(base, st))
    requires AddsFresh(SaveLevel(base, st), level, edit)
    requires (f in base || f in st.added) && f.number in st.deleted
             && f.number in Numbers(AddedIn(edit.newFiles, level))
    requires !(f in st.added && f in AddedIn(edit.newFiles, level))
    ensures SaveLevel(base, ApplyToLevel(st, level, edit)) != Edited(SaveLevel(base, st), level, edit)
  {
    hide SaveLevel, AddFiles, Ordered, Edited, AddedIn, DeletedIn;
    var st1 := LevelState(st.deleted + DeletedIn(edit, level), st.added);
    var st' := ApplyToLevel(st, level, edit);
    SaveMembers(base, st);
    SaveMembers(base, st');
    EditedLevel(SaveLevel(base, st), level, edit);
    AddFilesDeleted(st1, level, edit.newFiles);
    AddFilesKeeps(st1, level, edit.newFiles);
    assert f in SaveLevel(base, st');
    if f in AddedIn(edit.newFiles, level) {
      FileAddedAgain(st1, level, edit.newFiles, f);
      SavedTwice(base, st', f);
      if SaveLevel(base, st') == Edited(SaveLevel(base, st), level, edit) {
        OrderedOnce(SaveLevel(base, st'), f);
      }
    }
  }

  lemma {:induction false} AddFilesKeeps(st: LevelState, level: nat, newFiles: seq<(nat, File)>)
    requires Ordered(st.added)
    ensures Ordered(AddFiles(st, level, newFiles).added)
    ensures forall f | f in st.added :: f in AddFiles(st, level, newFiles).added
    ensures forall f | f in AddFiles(st, level, newFiles).added :: f in st.added || f in AddedIn(newFiles, level)
  {
    if newFiles == [] {
    } else {
      var n := |newFiles| - 1;
      AddFilesKeeps(st, level, newFiles[..n]);
      AddedInLast(newFiles, level);
      if newFiles[n].0 == level {
        InsertFileProperties(AddFiles(st, level, newFiles[..n]).added, newFiles[n].1);
      }
    }
  }

  lemma {:induction false} FileAddedAgain(st: LevelState, level: nat, newFiles: seq<(nat, File)>, f: File)
    requires Ordered(st.added) && f in AddedIn(newFiles, level)
    requires forall g | g in st.added :: g.number != f.number
    requires forall i, j | 0 <= i < j < |newFiles| && newFiles[i].0 == newFiles[j].0 == level ::
               newFiles[i].1.number != newFiles[j].1.number
    ensures f in AddFiles(st, level, newFiles).added
  {
    var n := |newFiles| - 1;
    var front, last := newFiles[..n], newFiles[n];
    AddedInLast(newFiles, level);
    AddFilesKeeps(st, level, front);
    var before := AddFiles(st, level, front).added;
    if last.0 == level {
      InsertFileProperties(before, last.1);
    }
    if last == (level, f) {
      forall g | g in before
        ensures g.number != f.number
      {
        if g !in st.added {
          var i :| 0 <= i < n && front[i] == (level, g);
          assert newFiles[i] == (level, g);
        }
      }
    } else {
      FileAddedAgain(st, level, front, f);
    }
  }

  lemma {:induction false} MergeCounts(base: seq<File>, added: seq<File>)
    ensures multiset(MergeFiles(base, added)) == multiset(base) + multiset(added)
  {
    if base == [] {
    } else if added == [] {
    } else if BySmallest(added[0], base[0]) {
      MergeCounts(base, added[1..]);
      assert added == [added[0]] + added[1..];
    } else {
      MergeCounts(base[1..], added);
      assert base == [base[0]] + base[1..];
    }
  }

  lemma {:induction false} WithoutCounts(files: seq<File>, deleted: set<nat>, f: File)
    requires f.number !in deleted
    ensures multiset(WithoutNumbers(files, deleted))[f] == multiset(files)[f]
  {
    if files == [] {
    } else {
      WithoutCounts(files[1..], deleted, f);
      assert files == [files[0]] + files[1..];
    }
  }

  lemma SavedTwice(base: seq<File>, st: LevelState, f: File)
    requires f in base && f in st.added && f.number !in st.deleted
    ensures multiset(SaveLevel(base, st))[f] >= 2
  {
    MergeCounts(base, st.added);
    WithoutCounts(MergeFiles(base, st.added), st.deleted, f);
  }

  lemma {:induction false} OrderedOnce(files: seq<File>, f: File)
    requires Ordered(files)
    ensures multiset(files)[f] <= 1
  {
    if files == [] {
    } else {
      OrderedTail(files);
      OrderedOnce(files[1..], f);
      assert files == [files[0]] + files[1..];
    }
  }

  // ---------------------------------------------------------------------- whole runs

  /** One builder for all the edits. */
  ghost function Pending(edits: seq<VersionEdit>, level: nat): LevelState {
    if edits == [] then NO_CHANGES
    else ApplyToLevel(Pending(edits[..|edits| - 1], level), level, edits[|edits| - 1])
  }

  /** A builder for every edit, each starting from what the one before saved. */
  ghost function OneByOne(base: seq<File>, edits: seq<VersionEdit>, level: nat): seq<File> {
    if edits == [] then base
    else Edited(OneByOne(base, edits[..|edits| - 1], level), level, edits[|edits| - 1])
  }

  ghost function AllAdds(edits: seq<VersionEdit>): seq<(nat, File)> {
    if edits == [] then [] else AllAdds(edits[..|edits| - 1]) + edits[|edits| - 1].newFiles
  }

  /** No number is added to a level twice, or added where the base has it already. */
  ghost predicate AddOnce(base: seq<File>, adds: seq<(nat, File)>, level: nat) {
    && (forall f, p | f in base && p in adds && p.0 == level :: f.number != p.1.number)
    && (forall i, j | 0 <= i < j < |adds| && adds[i].0 == adds[j].0 == level :: adds[i].1.number != adds[j].1.number)
  }

  lemma AddOncePrefix(base: seq<File>, adds: seq<(nat, File)>, more: seq<(nat, File)>, level: nat)
    requires AddOnce(base, adds + more, level)
    ensures AddOnce(base, adds, level)
    ensures forall i, j | 0 <= i < j < |more| && more[i].0 == more[j].0 == level :: more[i].1.number != more[j].1.number
    ensures forall f, p | f in base && p in more && p.0 == level :: f.number != p.1.number
    ensures forall p, q | p in adds && q in more && p.0 == q.0 == level :: p.1.number != q.1.number
  {
    var all := adds + more;
    forall i, j | 0 <= i < j < |adds| && adds[i].0 == adds[j].0 == level
      ensures adds[i].1.number != adds[j].1.number
    {
      assert all[i] == adds[i] && all[j] == adds[j];
    }
    forall i, j | 0 <= i < j < |more| && more[i].0 == more[j].0 == level
      ensures more[i].1.number != more[j].1.number
    {
      assert all[|adds| + i] == more[i] && all[|adds| + j] == more[j];
    }
    forall p, q | p in adds && q in more && p.0 == q.0 == level
      ensures p.1.number != q.1.number
    {
      var i :| 0 <= i < |adds| && adds[i] == p;
      var j :| 0 <= j < |more| && more[j] == q;
      assert all[i] == p && all[|adds| + j] == q;
    }
  }

  lemma {:induction false} PendingFacts(base: seq<File>, edits: seq<VersionEdit>, level: nat)
    requires AddOnce(base, AllAdds(edits), level)
    ensures Ordered(Pending(edits, level).added)
    ensures forall f :: f in Pending(edits, level).added <==> f in AddedIn(AllAdds(edits), level)
  {
    if edits != [] {
      hide AddedIn, DeletedIn, Ordered;
      var front, last := edits[..|edits| - 1], edits[|edits| - 1];
      AddOncePrefix(base, AllAdds(front), last.newFiles, level);
      PendingFacts(base, front, level);
      var st := Pending(front, level);
      AddedInIs(AllAdds(front), level);
      AddedInIs(last.newFiles, level);
      AddedInIs(AllAdds(edits), level);
      AddFilesMembers(LevelState(st.deleted + DeletedIn(last, level), st.added), level, last.newFiles);
    } else {
      assert Pending(edits, level).added == [];
    }
  }

  lemma AddedInIs(adds: seq<(nat, File)>, level: nat)
    ensures forall f :: f in AddedIn(adds, level) <==> (level, f) in adds
  {
  }

  lemma PendingDistinct(base: seq<File>, edits: seq<VersionEdit>, level: nat)
    requires forall f, g | f in base && g in base && f.number == g.number :: f == g
    requires AddOnce(base, AllAdds(edits), level)
    ensures NumbersDistinct(base, Pending(edits, level))
  {
    hide AddedIn;
    PendingFacts(base, edits, level);
    var adds := AllAdds(edits);
    AddedInIs(adds, level);
    hide Pending, AllAdds;
    var added := Pending(edits, level).added;
    forall f, g | f in added && g in added && f.number == g.number
      ensures f == g
    {
      var i :| 0 <= i < |adds| && adds[i] == (level, f);
      var j :| 0 <= j < |adds| && adds[j] == (level, g);
    }
    forall f, g | f in base && g in added
      ensures f.number != g.number
    {
      assert (level, g) in adds;
    }
  }

  /** Recover's single builder makes of the whole run what LogAndApply made one edit at a time. */
  lemma {:induction false} BatchedIsOneByOne(base: seq<File>, edits: seq<VersionEdit>, level: nat)
    requires Ordered(base) && forall f, g | f in base && g in base && f.number == g.number :: f == g
    requires AddOnce(base, AllAdds(edits), level)
    ensures SaveLevel(base, Pending(edits, level)) == OneByOne(base, edits, level)
    ensures Ordered(OneByOne(base, edits, level))
  {
    if edits == [] {
      SaveNothing(base);
    } else {
      hide SaveLevel, Edited, AddedIn, DeletedIn, Ordered, RevivesNothing, AddsFresh;
      var front, last := edits[..|edits| - 1], edits[|edits| - 1];
      AddOncePrefix(base, AllAdds(front), last.newFiles, level);
      BatchedIsOneByOne(base, front, level);
      PendingFacts(base, front, level);
      PendingDistinct(base, front, level);
      var st := Pending(front, level);
      NextAdds(base, AllAdds(front), last, level, st);
      BatchStepAgrees(base, st, level, last);
      EditedLevel(SaveLevel(base, st), level, last);
    }
  }

  lemma NextAdds(base: seq<File>, adds: seq<(nat, File)>, edit: VersionEdit, level: nat, st: LevelState)
    requires AddOnce(base, adds + edit.newFiles, level)
    requires forall f :: f in st.added <==> f in AddedIn(adds, level)
    ensures AddsFresh(SaveLevel(base, st), level, edit) && RevivesNothing(base, st, level, edit)
  {
    hide SaveLevel;
    AddOncePrefix(base, adds, edit.newFiles, level);
    SaveMembers(base, st);
    AddedInIs(adds, level);
    AddedInIs(edit.newFiles, level);
    hide AddedIn;
    forall f | f in base || f in st.added
      ensures f.number !in Numbers(AddedIn(edit.newFiles, level))
    {
      forall g | g in AddedIn(edit.newFiles, level)
        ensures g.number != f.number
      {
        assert (level, g) in edit.newFiles;
        if f !in base {
          assert (level, f) in adds;
        }
      }
    }
  }

  lemma {:induction false} SaveNothing(base: seq<File>)
    ensures SaveLevel(base, NO_CHANGES) == base
  {
    KeepAll(base);
  }

  lemma {:induction false} KeepAll(files: seq<File>)
    ensures WithoutNumbers(files, {}) == files
  {
    if files == [] {
    } else {
      KeepAll(files[1..]);
    }
  }
}
