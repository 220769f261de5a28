// Version edits and the builder that applies a run of them to a version
// (db/version_edit.h; db/version_set.cc: VersionSet::Builder).
module Builder {
  import opened Wrappers
  import opened Coding
  import opened DbFormat
  import opened Tables

  datatype VersionEdit = VersionEdit(
    comparator: Option<Bytes>,
    logNumber: Option<nat>,
    prevLogNumber: Option<nat>,
    nextFileNumber: Option<nat>,
    lastSequence: Option<nat>,
    compactPointers: seq<(nat, InternalKey)>,
    deletedFiles: seq<(nat, nat)>,
    newFiles: seq<(nat, File)>)

  const EMPTY_EDIT := VersionEdit(None, None, None, None, None, [], [], [])

  ghost predicate LevelsInRange(edit: VersionEdit) {
    && (forall p | p in edit.compactPointers :: p.0 < NUM_LEVELS)
    && (forall p | p in edit.deletedFiles :: p.0 < NUM_LEVELS)
    && (forall p | p in edit.newFiles :: p.0 < NUM_LEVELS)
  }

  /** BySmallestKey: by smallest key, ties broken by file number. */
  predicate BySmallest(f: File, g: File) {
    Before(f.smallest, g.smallest) || (f.smallest == g.smallest && f.number < g.number)
  }

  ghost predicate Ordered(files: seq<File>) {
    forall i, j | 0 <= i < j < |files| :: BySmallest(files[i], files[j])
  }

  /** One level's pending changes. */
  datatype LevelState = LevelState(deleted: set<nat>, added: seq<File>)

  const NO_CHANGES := LevelState({}, [])

  /** std::set insertion: f goes to its place, unless an equivalent file is there already. */
  function InsertFile(files: seq<File>, f: File): seq<File> {
    if files == [] then [f]
    else if BySmallest(f, files[0]) then [f] + files
    else if BySmallest(files[0], f) then [files[0]] + InsertFile(files[1..], f)
    else files
  }

  lemma {:induction false} InsertFileProperties(files: seq<File>, f: File)
    requires Ordered(files)
    ensures Ordered(InsertFile(files, f))
    ensures forall g :: g in InsertFile(files, f) ==> g in files || g == f
    ensures forall g | g in files :: g in InsertFile(files, f)
    ensures (forall g | g in files :: g.number != f.number) ==> f in InsertFile(files, f)
  {
    if files != [] && !BySmallest(f, files[0]) && BySmallest(files[0], f) {
      var rest := files[1..];
      assert files[0] in files;
      InsertFileProperties(rest, f);
      assert forall g :: g in files <==> g == files[0] || g in rest;
      var tail := InsertFile(rest, f);
      forall j | 0 <= j < |tail|
        ensures BySmallest(files[0], tail[j])
      {
        assert tail[j] in tail;
        if tail[j] != f {
          var k :| 0 <= k < |rest| && rest[k] == tail[j];
          assert files[k + 1] == tail[j];
        }
      }
    }
  }

  ghost function DeletedIn(edit: VersionEdit, level: nat): set<nat> {
    set p | p in edit.deletedFiles && p.0 == level :: p.1
  }

  ghost function AddedIn(newFiles: seq<(nat, File)>, level: nat): set<File> {
    set p | p in newFiles && p.0 == level :: p.1
  }

  ghost function Numbers(files: set<File>): set<nat> {
    set f | f in files :: f.number
  }

  /** Adds the new files of one level in order, each cancelling a deletion of its number. */
  ghost function AddFiles(st: LevelState, level: nat, newFiles: seq<(nat, File)>): LevelState {
    if newFiles == [] then st
    else
      var n := |newFiles| - 1;
      var before := AddFiles(st, level, newFiles[..n]);
      var f := newFiles[n].1;
      if newFiles[n].0 == level then LevelState(before.deleted - {f.number}, InsertFile(before.added, f)) else before
  }

  ghost function ApplyToLevel(st: LevelState, level: nat, edit: VersionEdit): LevelState {
    AddFiles(LevelState(st.deleted + DeletedIn(edit, level), st.added), level, edit.newFiles)
  }

  /** The files of base and added in one ordered list, base first among equals. */
  ghost function MergeFiles(base: seq<File>, added: seq<File>): seq<File> {
    if base == [] then added
    else if added == [] then base
    else if BySmallest(added[0], base[0]) then [added[0]] + MergeFiles(base, added[1..])
    else [base[0]] + MergeFiles(base[1..], added)
  }

  ghost function WithoutNumbers(files: seq<File>, deleted: set<nat>): seq<File> {
    if files == [] then []
    else (if files[0].number in deleted then [] else [files[0]]) + WithoutNumbers(files[1..], deleted)
  }

  ghost function SaveLevel(base: seq<File>, st: LevelState): seq<File> {
    WithoutNumbers(MergeFiles(base, st.added), st.deleted)
  }

  lemma {:induction false} MergeMembers(base: seq<File>, added: seq<File>)
    ensures forall f :: f in MergeFiles(base, added) <==> f in base || f in added
  {
    if base != [] && added != [] {
      if BySmallest(added[0], base[0]) {
        MergeMembers(base, added[1..]);
        assert forall f :: f in added <==> f == added[0] || f in added[1..];
      } else {
        MergeMembers(base[1..], added);
        assert forall f :: f in base <==> f == base[0] || f in base[1..];
      }
    }
  }

  lemma {:induction false} WithoutMembers(files: seq<File>, deleted: set<nat>)
    ensures forall f :: f in WithoutNumbers(files, deleted) <==> f in files && f.number !in deleted
  {
    if files == [] {
    } else {
      WithoutMembers(files[1..], deleted);
      assert forall f :: f in files <==> f == files[0] || f in files[1..];
    }
  }

  lemma SaveMembers(base: seq<File>, st: LevelState)
    ensures forall f :: f in SaveLevel(base, st) <==> (f in base || f in st.added) && f.number !in st.deleted
  {
    MergeMembers(base, st.added);
    WithoutMembers(MergeFiles(base, st.added), st.deleted);
  }

  /** No file number occurs both in base and among the added files. */
  ghost predicate NumbersApart(base: seq<File>, added: seq<File>) {
    forall f, g | f in base && g in added :: f.number != g.number
  }

  lemma OrderedTail(files: seq<File>)
    requires Ordered(files) && files != []
    ensures Ordered(files[1..]) && forall f | f in files[1..] :: BySmallest(files[0], f)
  {
    var rest := files[1..];
    assert forall i | 0 <= i < |rest| :: rest[i] == files[i + 1];
  }

  lemma OrderedCons(f: File, rest: seq<File>)
    requires Ordered(rest) && forall g | g in rest :: BySmallest(f, g)
    ensures Ordered([f] + rest)
  {
  }

  lemma {:induction false} MergeOrdered(base: seq<File>, added: seq<File>)
    requires Ordered(base) && Ordered(added) && NumbersApart(base, added)
    ensures Ordered(MergeFiles(base, added))
  {
    if base != [] && added != [] {
      var b, a := base[0], added[0];
      OrderedTail(base);
      OrderedTail(added);
      assert b in base && a in added;
      if BySmallest(a, b) {
        MergeOrdered(base, added[1..]);
        MergeMembers(base, added[1..]);
        assert forall f | f in base :: f == b || f in base[1..];
        OrderedCons(a, MergeFiles(base, added[1..]));
      } else {
        MergeOrdered(base[1..], added);
        MergeMembers(base[1..], added);
        assert forall f | f in added :: f == a || f in added[1..];
        assert BySmallest(b, a);
        OrderedCons(b, MergeFiles(base[1..], added));
      }
    }
  }

  lemma {:induction false} WithoutOrdered(files: seq<File>, deleted: set<nat>)
    requires Ordered(files)
    ensures Ordered(WithoutNumbers(files, deleted))
  {
    if files == [] {
    } else {
      OrderedTail(files);
      WithoutOrdered(files[1..], deleted);
      WithoutMembers(files[1..], deleted);
      OrderedCons(files[0], WithoutNumbers(files[1..], deleted));
      if files[0].number in deleted {
        assert WithoutNumbers(files, deleted) == WithoutNumbers(files[1..], deleted);
      }
    }
  }

  lemma SaveOrdered(base: seq<File>, st: LevelState)
    requires Ordered(base) && Ordered(st.added) && NumbersApart(base, st.added)
    ensures Ordered(SaveLevel(base, st))
  {
    MergeOrdered(base, st.added);
    WithoutOrdered(MergeFiles(base, st.added), st.deleted);
  }

  /** An ordered list is determined by its members. */
  lemma {:induction false} OrderedUnique(a: seq<File>, b: seq<File>)
    requires Ordered(a) && Ordered(b) && forall f :: f in a <==> f in b
    ensures a == b
  {
    assert a != [] ==> a[0] in b;
    assert b != [] ==> b[0] in a;
    if a != [] && b != [] {
      OrderedTail(a);
      OrderedTail(b);
      assert forall f :: f in a <==> f == a[0] || f in a[1..];
      assert forall f :: f in b <==> f == b[0] || f in b[1..];
      assert a[0] == b[0];
      OrderedUnique(a[1..], b[1..]);
    }
  }

  /** What adding files does to the pending changes, as sets. */
  lemma {:induction false} AddFilesEffect(st: LevelState, level: nat, newFiles: seq<(nat, File)>)
    requires Ordered(st.added)
    requires forall f, g | f in st.added && g in AddedIn(newFiles, level) :: f.number != g.number
    requires forall i, j | 0 <= i < j < |newFiles| && newFiles[i].0 == newFiles[j].0 == level ::
               newFiles[i].1.number != newFiles[j].1.number
    ensures Ordered(AddFiles(st, level, newFiles).added)
    ensures forall f :: f in AddFiles(st, level, newFiles).added <==> f in st.added || f in AddedIn(newFiles, level)
    ensures AddFiles(st, level, newFiles).deleted == st.deleted - Numbers(AddedIn(newFiles, level))
  {
    if newFiles == [] {
    } else {
      var n := |newFiles| - 1;
      var front := newFiles[..n];
      var last := newFiles[n];
      assert forall p :: p in newFiles <==> p in front || p == last;
      assert AddedIn(newFiles, level) == AddedIn(front, level) + if last.0 == level then {last.1} else {};
      AddFilesEffect(st, level, front);
      var before := AddFiles(st, level, front);
      if last.0 == level {
        InsertFileProperties(before.added, last.1);
        assert last in newFiles;
        forall g | g in before.added
          ensures g.number != last.1.number
        {
          if g !in st.added {
            var i :| 0 <= i < n && front[i] == (level, g);
            assert newFiles[i] == (level, g);
          }
        }
      }
    }
  }

  // ------------------------------------------------------------------------ the class

  class VersionBuilder {
    const base: seq<seq<File>>
    var levels: seq<LevelState>
    var compactPointers: seq<Option<InternalKey>>

    ghost predicate Valid()
      reads this
    {
      && |base| == |levels| == |compactPointers| == NUM_LEVELS
      && (forall l | 0 <= l < NUM_LEVELS :: Ordered(base[l]))
      && (forall l | 0 <= l < NUM_LEVELS :: Ordered(levels[l].added))
    }

    constructor (base: seq<seq<File>>, pointers: seq<Option<InternalKey>>)
      requires |base| == |pointers| == NUM_LEVELS && forall l | 0 <= l < NUM_LEVELS :: Ordered(base[l])
      ensures Valid() && this.base == base && compactPointers == pointers
      ensures levels == seq(NUM_LEVELS, _ => NO_CHANGES)
    {
      this.base := base;
      levels := seq(NUM_LEVELS, _ => NO_CHANGES);
      compactPointers := pointers;
    }

    /** Apply: deletions first, then additions. */
    method Apply(edit: VersionEdit)
      requires Valid() && LevelsInRange(edit)
      modifies this
      ensures Valid()
      ensures forall l | 0 <= l < NUM_LEVELS :: levels[l] == ApplyToLevel(old(levels)[l], l, edit)
      ensures compactPointers == ApplyPointers(old(compactPointers), edit.compactPointers)
    {
      hide Ordered, ApplyPointers, AddFiles;
      SetPointers(edit);
      DeleteFiles(edit);
      AddNewFiles(edit);
    }

    /** Apply's first loop: the compaction pointers. */
    method SetPointers(edit: VersionEdit)
      requires Valid() && LevelsInRange(edit)
      modifies this`compactPointers
      ensures Valid() && compactPointers == ApplyPointers(old(compactPointers), edit.compactPointers)
    {
      hide Ordered;
      for i := 0 to |edit.compactPointers|
        invariant Valid()
        invariant compactPointers == ApplyPointers(old(compactPointers), edit.compactPointers[..i])
      {
        var p := edit.compactPointers[i];
        assert edit.compactPointers[..i + 1][..i] == edit.compactPointers[..i] && p in edit.compactPointers;
        compactPointers := compactPointers[p.0 := Some(p.1)];
      }
      assert edit.compactPointers[..|edit.compactPointers|] == edit.compactPointers;
    }

    /** Its second loop: the deleted files. */
    method DeleteFiles(edit: VersionEdit)
      requires Valid() && LevelsInRange(edit)
      modifies this`levels
      ensures Valid()
      ensures forall l | 0 <= l < NUM_LEVELS ::
                levels[l] == old(levels)[l].(deleted := old(levels)[l].deleted + DeletedIn(edit, l))
    {
      hide Ordered;
      for i := 0 to |edit.deletedFiles|
        invariant Valid()
        invariant forall l | 0 <= l < NUM_LEVELS ::
                    && levels[l].added == old(levels)[l].added
                    && levels[l].deleted
                       == old(levels)[l].deleted + set p | p in edit.deletedFiles[..i] && p.0 == l :: p.1
      {
        var p := edit.deletedFiles[i];
        assert p in edit.deletedFiles && edit.deletedFiles[..i + 1] == edit.deletedFiles[..i] + [p];
        levels := levels[p.0 := levels[p.0].(deleted := levels[p.0].deleted + {p.1})];
      }
      assert edit.deletedFiles[..|edit.deletedFiles|] == edit.deletedFiles;
    }

    /** Its third loop: the new files, each of which is no longer deleted. */
    method AddNewFiles(edit: VersionEdit)
      requires Valid() && LevelsInRange(edit)
      modifies this`levels
      ensures Valid()
      ensures forall l | 0 <= l < NUM_LEVELS :: levels[l] == AddFiles(old(levels)[l], l, edit.newFiles)
    {
      hide Ordered;
      for i := 0 to |edit.newFiles|
        invariant Valid()
        invariant forall l | 0 <= l < NUM_LEVELS :: levels[l] == AddFiles(old(levels)[l], l, edit.newFiles[..i])
      {
        var (l, f) := edit.newFiles[i];
        assert edit.newFiles[i] in edit.newFiles && edit.newFiles[..i + 1][..i] == edit.newFiles[..i];
        InsertFileProperties(levels[l].added, f);
        levels := levels[l := LevelState(levels[l].deleted - {f.number}, InsertFile(levels[l].added, f))];
      }
      assert edit.newFiles[..|edit.newFiles|] == edit.newFiles;
    }

    /** SaveTo, one level: walks base and added in step, dropping deleted numbers. */
    method SaveOneLevel(level: nat) returns (files: seq<File>)
      requires Valid() && level < NUM_LEVELS
      ensures files == SaveLevel(base[level], levels[level])
    {
      var baseFiles, added, deleted := base[level], levels[level].added, levels[level].deleted;
      files := [];
      var b := 0;
      ghost var goal := SaveLevel(baseFiles, levels[level]);
      SavingStarts(baseFiles, levels[level]);
      hide *;
      for a := 0 to |added|
        invariant b <= |baseFiles|
        invariant Saving(files, baseFiles, added, b, a, deleted, goal)
      {
        while b < |baseFiles| && !BySmallest(added[a], baseFiles[b])
          invariant b <= |baseFiles|
          invariant Saving(files, baseFiles, added, b, a, deleted, goal)
        {
          BaseFirst(files, baseFiles, added, b, a, deleted, goal);
          files := MaybeAddFile(files, deleted, baseFiles[b]);
          b := b + 1;
        }
        AddedFirst(files, baseFiles, added, b, a, deleted, goal);
        files := MaybeAddFile(files, deleted, added[a]);
      }
      while b < |baseFiles|
        invariant b <= |baseFiles|
        invariant Saving(files, baseFiles, added, b, |added|, deleted, goal)
      {
        BaseFirst(files, baseFiles, added, b, |added|, deleted, goal);
        files := MaybeAddFile(files, deleted, baseFiles[b]);
        b := b + 1;
      }
      SavingEnds(files, baseFiles, added, deleted, goal);
    }

    method SaveTo() returns (v: seq<seq<File>>)
      requires Valid()
      ensures |v| == NUM_LEVELS && forall l | 0 <= l < NUM_LEVELS :: v[l] == SaveLevel(base[l], levels[l])
    {
      v := [];
      for level := 0 to NUM_LEVELS
        invariant |v| == level && forall l | 0 <= l < level :: v[l] == SaveLevel(base[l], levels[l])
      {
        var files := SaveOneLevel(level);
        v := v + [files];
      }
    }
  }

  function ApplyPointers(pointers: seq<Option<InternalKey>>,
                         changes: seq<(nat, InternalKey)>): (r: seq<Option<InternalKey>>)
    ensures |r| == |pointers|
  {
    if changes == [] then pointers
    else
      var n := |changes| - 1;
      var before := ApplyPointers(pointers, changes[..n]);
      if changes[n].0 < |before| then before[changes[n].0 := Some(changes[n].1)] else before
  }

  ghost function Remaining(base: seq<File>, added: seq<File>, deleted: set<nat>): seq<File> {
    WithoutNumbers(MergeFiles(base, added), deleted)
  }

  /** files is what SaveTo has written of goal when it stands at base[b] and added[a]. */
  ghost predicate Saving(files: seq<File>, base: seq<File>, added: seq<File>, b: nat, a: nat, deleted: set<nat>,
                         goal: seq<File>) {
    b <= |base| && a <= |added| && files + Remaining(base[b..], added[a..], deleted) == goal
  }

  lemma SavingStarts(base: seq<File>, st: LevelState)
    ensures Saving([], base, st.added, 0, 0, st.deleted, SaveLevel(base, st))
  {
    assert base[0..] == base && st.added[0..] == st.added;
  }

  lemma SavingEnds(files: seq<File>, base: seq<File>, added: seq<File>, deleted: set<nat>, goal: seq<File>)
    requires Saving(files, base, added, |base|, |added|, deleted, goal)
    ensures files == goal
  {
  }

  lemma WithoutCons(f: File, rest: seq<File>, deleted: set<nat>)
    ensures WithoutNumbers([f] + rest, deleted) == WithoutNumbers([f], deleted) + WithoutNumbers(rest, deleted)
  {
    assert ([f] + rest)[1..] == rest && WithoutNumbers([f][1..], deleted) == [];
  }

  lemma BaseFirst(files: seq<File>, base: seq<File>, added: seq<File>, b: nat, a: nat, deleted: set<nat>,
                  goal: seq<File>)
    requires Saving(files, base, added, b, a, deleted, goal)
    requires b < |base| && (a == |added| || !BySmallest(added[a], base[b]))
    ensures Saving(files + WithoutNumbers([base[b]], deleted), base, added, b + 1, a, deleted, goal)
  {
    assert base[b..][1..] == base[b + 1..];
    var rest := MergeFiles(base[b + 1..], added[a..]);
    assert MergeFiles(base[b..], added[a..]) == [base[b]] + rest;
    WithoutCons(base[b], rest, deleted);
  }

  lemma AddedFirst(files: seq<File>, base: seq<File>, added: seq<File>, b: nat, a: nat, deleted: set<nat>,
                   goal: seq<File>)
    requires Saving(files, base, added, b, a, deleted, goal)
    requires a < |added| && (b == |base| || BySmallest(added[a], base[b]))
    ensures Saving(files + WithoutNumbers([added[a]], deleted), base, added, b, a + 1, deleted, goal)
  {
    assert added[a..][1..] == added[a + 1..];
    var rest := MergeFiles(base[b..], added[a + 1..]);
    assert MergeFiles(base[b..], added[a..]) == [added[a]] + rest;
    WithoutCons(added[a], rest, deleted);
  }

  method MaybeAddFile(files: seq<File>, deleted: set<nat>, f: File) returns (r: seq<File>)
    ensures r == files + WithoutNumbers([f], deleted)
  {
    assert WithoutNumbers([], deleted) == [];
    r := if f.number in deleted then files else files + [f];
  }
}
