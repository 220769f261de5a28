// Installing one edit: from the builder's lists to the level moves the store invariant is about
// (db/version_set.cc: LogAndApply; db/db_impl.cc: InstallCompactionResults).
module Install {
  import opened Wrappers
  import opened DbFormat
  import opened Tables
  import opened CompactionInputs
  import opened CompactionSetup
  import opened Builder
  import opened Lsm

  /** The new files of one level have numbers of their own. */
  ghost predicate AddsFresh(base: seq<File>, level: nat, edit: VersionEdit) {
    && (forall f, p | f in base && p in edit.newFiles && p.0 == level :: f.number != p.1.number)
    && (forall i, j | 0 <= i < j < |edit.newFiles| && edit.newFiles[i].0 == edit.newFiles[j].0 == level ::
          edit.newFiles[i].1.number != edit.newFiles[j].1.number)
  }

  /** The level that one edit makes of base. */
  ghost function Edited(base: seq<File>, level: nat, edit: VersionEdit): seq<File> {
    SaveLevel(base, ApplyToLevel(NO_CHANGES, level, edit))
  }

  lemma EditedLevel(base: seq<File>, level: nat, edit: VersionEdit)
    requires Ordered(base) && AddsFresh(base, level, edit)
    ensures Ordered(Edited(base, level, edit))
    ensures forall f :: f in Edited(base, level, edit)
                        <==> (f in base && f.number !in DeletedIn(edit, level)) || f in AddedIn(edit.newFiles, level)
  {
    var st := LevelState({} + DeletedIn(edit, level), []);
    assert NO_CHANGES.deleted + DeletedIn(edit, level) == DeletedIn(edit, level);
    AddFilesEffect(st, level, edit.newFiles);
    var final := ApplyToLevel(NO_CHANGES, level, edit);
    forall f, g | f in base && g in final.added
      ensures f.number != g.number
    {
      assert (level, g) in edit.newFiles;
    }
    SaveOrdered(base, final);
    SaveMembers(base, final);
    forall f | f in base && f.number in DeletedIn(edit, level)
      ensures f.number in final.deleted
    {
      forall g | g in AddedIn(edit.newFiles, level) ensures g.number != f.number {
        assert (level, g) in edit.newFiles;
      }
    }
  }

  function Deletions(level: nat, files: seq<File>): seq<(nat, nat)> {
    seq(|files|, i requires 0 <= i < |files| => (level, files[i].number))
  }

  function Additions(level: nat, files: seq<File>): seq<(nat, File)> {
    seq(|files|, i requires 0 <= i < |files| => (level, files[i]))
  }

  lemma DeletionsMembers(level: nat, files: seq<File>)
    ensures forall p :: p in Deletions(level, files) <==> p.0 == level && exists f :: f in files && f.number == p.1
  {
    forall p | p in Deletions(level, files)
      ensures p.0 == level && exists f :: f in files && f.number == p.1
    {
      var i :| 0 <= i < |files| && Deletions(level, files)[i] == p;
      assert files[i] in files;
    }
    forall f | f in files
      ensures (level, f.number) in Deletions(level, files)
    {
      var i :| 0 <= i < |files| && files[i] == f;
      assert Deletions(level, files)[i] == (level, f.number);
    }
  }

  lemma AdditionsMembers(level: nat, files: seq<File>)
    ensures forall p :: p in Additions(level, files) <==> p.0 == level && p.1 in files
  {
    forall f | f in files
      ensures (level, f) in Additions(level, files)
    {
      var i :| 0 <= i < |files| && files[i] == f;
      assert Additions(level, files)[i] == (level, f);
    }
  }

  /** The edit of a compaction: AddInputDeletions, then one AddFile an output. */
  function MoveEdit(level: nat, inputs0: seq<File>, inputs1: seq<File>, outputs: seq<File>): VersionEdit
    requires inputs0 != []
  {
    EMPTY_EDIT.(compactPointers := [(level, LargestKey(inputs0))],
                deletedFiles := Deletions(level, inputs0) + Deletions(level + 1, inputs1),
                newFiles := Additions(level + 1, outputs))
  }

  lemma MoveEditInRange(level: nat, inputs0: seq<File>, inputs1: seq<File>, outputs: seq<File>)
    requires level + 1 < NUM_LEVELS && inputs0 != []
    ensures LevelsInRange(MoveEdit(level, inputs0, inputs1, outputs))
  {
    DeletionsMembers(level, inputs0);
    DeletionsMembers(level + 1, inputs1);
    AdditionsMembers(level + 1, outputs);
  }

  lemma MoveEditDeletes(level: nat, inputs0: seq<File>, inputs1: seq<File>, outputs: seq<File>, i: nat)
    requires inputs0 != []
    ensures forall n :: n in DeletedIn(MoveEdit(level, inputs0, inputs1, outputs), i)
                        <==> (i == level && exists f :: f in inputs0 && f.number == n)
                             || (i == level + 1 && exists f :: f in inputs1 && f.number == n)
  {
    var edit := MoveEdit(level, inputs0, inputs1, outputs);
    DeletionsMembers(level, inputs0);
    DeletionsMembers(level + 1, inputs1);
    forall n
      ensures n in DeletedIn(edit, i) <==> (i, n) in edit.deletedFiles
    {
    }
  }

  lemma MoveEditAdds(level: nat, inputs0: seq<File>, inputs1: seq<File>, outputs: seq<File>, i: nat)
    requires inputs0 != []
    ensures AddedIn(MoveEdit(level, inputs0, inputs1, outputs).newFiles, i)
            == if i == level + 1 then set f | f in outputs else {}
  {
    var edit := MoveEdit(level, inputs0, inputs1, outputs);
    AdditionsMembers(level + 1, outputs);
    forall f | i == level + 1 && f in outputs
      ensures f in AddedIn(edit.newFiles, i)
    {
      assert (i, f) in edit.newFiles;
    }
  }

  lemma MoveAddsFresh(levels: seq<seq<File>>, level: nat, inputs0: seq<File>, inputs1: seq<File>, outputs: seq<File>,
                      i: nat)
    requires level + 1 < |levels| && i < |levels| && inputs0 != []
    requires FreshNumbers(levels, level, inputs0, outputs)
    requires forall m, n | 0 <= m < n < |outputs| :: outputs[m].number != outputs[n].number
    ensures AddsFresh(levels[i], i, MoveEdit(level, inputs0, inputs1, outputs))
  {
    AdditionsMembers(level + 1, outputs);
  }

  /** LogAndApply of a compaction's edit moves its inputs down. */
  lemma MoveEditMoves(levels: seq<seq<File>>, levels': seq<seq<File>>, level: nat,
                      inputs0: seq<File>, inputs1: seq<File>, outputs: seq<File>)
    requires LevelsInvariant(levels) && level + 1 < NUM_LEVELS && inputs0 != []
    requires (forall f | f in inputs0 :: f in levels[level]) && (forall f | f in inputs1 :: f in levels[level + 1])
    requires FreshNumbers(levels, level, inputs0, outputs)
    requires forall m, n | 0 <= m < n < |outputs| :: outputs[m].number != outputs[n].number
    requires |levels'| == NUM_LEVELS
    requires forall i | 0 <= i < NUM_LEVELS ::
               levels'[i] == Edited(levels[i], i, MoveEdit(level, inputs0, inputs1, outputs))
    ensures Moved(levels, levels', level, inputs0, inputs1, outputs)
  {
    forall i | 0 <= i < NUM_LEVELS
      ensures Ordered(levels'[i])
      ensures forall f :: f in levels'[i]
                          <==> || (f in levels[i] && !(i == level && f in inputs0) && !(i == level + 1 && f in inputs1))
                               || (i == level + 1 && f in outputs)
    {
      MovedLevel(levels, level, inputs0, inputs1, outputs, i);
    }
    forall i | 0 <= i < NUM_LEVELS && i != level && i != level + 1
      ensures levels'[i] == levels[i]
    {
      OrderedUnique(levels'[i], levels[i]);
    }
  }

  lemma MovedLevel(levels: seq<seq<File>>, level: nat, inputs0: seq<File>, inputs1: seq<File>, outputs: seq<File>,
                   i: nat)
    requires LevelsInvariant(levels) && level + 1 < NUM_LEVELS && i < NUM_LEVELS && inputs0 != []
    requires (forall f | f in inputs0 :: f in levels[level]) && (forall f | f in inputs1 :: f in levels[level + 1])
    requires FreshNumbers(levels, level, inputs0, outputs)
    requires forall m, n | 0 <= m < n < |outputs| :: outputs[m].number != outputs[n].number
    ensures var after := Edited(levels[i], i, MoveEdit(level, inputs0, inputs1, outputs));
            && Ordered(after)
            && forall f :: f in after
                 <==> || (f in levels[i] && !(i == level && f in inputs0) && !(i == level + 1 && f in inputs1))
                      || (i == level + 1 && f in outputs)
  {
    var edit := MoveEdit(level, inputs0, inputs1, outputs);
    MoveAddsFresh(levels, level, inputs0, inputs1, outputs, i);
    EditedLevel(levels[i], i, edit);
    MoveEditDeletes(level, inputs0, inputs1, outputs, i);
    MoveEditAdds(level, inputs0, inputs1, outputs, i);
    forall f | f in levels[i]
      ensures f.number in DeletedIn(edit, i) <==> (i == level && f in inputs0) || (i == level + 1 && f in inputs1)
    {
    }
  }

  function AddEdit(level: nat, f: File): VersionEdit {
    EMPTY_EDIT.(newFiles := [(level, f)])
  }

  /** LogAndApply of a flush's edit adds its table. */
  lemma AddEditAdds(levels: seq<seq<File>>, levels': seq<seq<File>>, level: nat, f: File, next: nat)
    requires LevelsShape(levels) && level < NUM_LEVELS && NumbersBelow(levels, next) && f.number >= next
    requires |levels'| == NUM_LEVELS
    requires forall i | 0 <= i < NUM_LEVELS :: levels'[i] == Edited(levels[i], i, AddEdit(level, f))
    ensures Added(levels, levels', level, f)
  {
    var edit := AddEdit(level, f);
    forall i | 0 <= i < NUM_LEVELS
      ensures Ordered(levels'[i])
      ensures forall g :: g in levels'[i] <==> g in levels[i] || (i == level && g == f)
    {
      assert AddsFresh(levels[i], i, edit);
      EditedLevel(levels[i], i, edit);
      assert edit.newFiles[0] == (level, f);
      assert AddedIn(edit.newFiles, i) == if i == level then {f} else {};
    }
    forall i | 0 <= i < NUM_LEVELS && i != level
      ensures levels'[i] == levels[i]
    {
      OrderedUnique(levels'[i], levels[i]);
    }
  }
}
