// The memtable flush in the middle of a running compaction (db/db_impl.cc, DoCompactionWork): what it
// may do to the inputs and outputs of the compaction, which were chosen before it.
module NestedFlush {
  import opened Wrappers
  import opened DbFormat
  import opened Reads
  import opened Tables
  import opened CompactionInputs
  import opened InputGaps
  import opened CompactionSetup
  import opened CompactionWork
  import opened CompactionReads
  import opened Builder
  import opened Install
  import opened Lsm

  /** A table f is put into level `target` of levels, newer than all that is there. */
  ghost predicate FlushedInto(levels: seq<seq<File>>, levels': seq<seq<File>>, target: nat, f: File) {
    && LevelsInvariant(levels) && LevelsInvariant(levels')
    && WellFormed(f) && NewerThanLevels(f.entries, levels) && NumbersBelow(levels, f.number)
    && ClearDownTo(levels, target, f) && Added(levels, levels', target, f)
  }

  /** The inputs stay chosen as they have to be exactly if the table is not put into the output level
      between them. */
  lemma FlushKeepsChosenIff(levels: seq<seq<File>>, levels': seq<seq<File>>, target: nat, f: File,
                            level: nat, inputs0: seq<File>, inputs1: seq<File>)
    requires FlushedInto(levels, levels', target, f) && InputsChosen(levels, level, inputs0, inputs1)
    ensures InputsChosen(levels', level, inputs0, inputs1) <==> target != level + 1 || Apart(f, inputs0 + inputs1)
  {
    hide *;
    if target != level + 1 {
      UpperStays(levels, levels', target, f, level, inputs0, inputs1);
    } else {
      if Apart(f, inputs0 + inputs1) {
        LowerStays(levels, levels', f, level, inputs0, inputs1);
      }
      if InputsChosen(levels', level, inputs0, inputs1) {
        StaysApart(levels, levels', f, level, inputs0, inputs1);
      }
    }
  }

  lemma StaysApart(levels: seq<seq<File>>, levels': seq<seq<File>>, f: File, level: nat, inputs0: seq<File>,
                   inputs1: seq<File>)
    requires FlushedInto(levels, levels', level + 1, f) && InputsChosen(levels, level, inputs0, inputs1)
    requires InputsChosen(levels', level, inputs0, inputs1)
    ensures Apart(f, inputs0 + inputs1)
  {
    hide LevelsInvariant, WellFormed, Ordered, Apart, Newer, NewerThanLevels, ClearDownTo, Overlapping, UserRange,
         UpperClosed;
    NotAnInput(levels, level, inputs0, inputs1, f);
  }

  lemma NotAnInput(levels: seq<seq<File>>, level: nat, inputs0: seq<File>, inputs1: seq<File>, f: File)
    requires InputsChosen(levels, level, inputs0, inputs1) && NumbersBelow(levels, f.number)
    ensures f !in inputs0 && f !in inputs1
  {
  }

  lemma UpperStays(levels: seq<seq<File>>, levels': seq<seq<File>>, target: nat, f: File,
                   level: nat, inputs0: seq<File>, inputs1: seq<File>)
    requires FlushedInto(levels, levels', target, f) && InputsChosen(levels, level, inputs0, inputs1)
             && target != level + 1
    ensures InputsChosen(levels', level, inputs0, inputs1)
  {
    hide LevelsInvariant, ClearDownTo, WellFormed, Ordered, Apart;
    forall h | h in inputs0
      ensures Newer(f, h)
    {
      assert h in levels[level] && NewerRun(f.entries, h.entries);
    }
  }

  lemma LowerStays(levels: seq<seq<File>>, levels': seq<seq<File>>, f: File,
                   level: nat, inputs0: seq<File>, inputs1: seq<File>)
    requires FlushedInto(levels, levels', level + 1, f) && InputsChosen(levels, level, inputs0, inputs1)
    requires Apart(f, inputs0 + inputs1)
    ensures InputsChosen(levels', level, inputs0, inputs1)
  {
    NotSpanned(levels, f, level, inputs0, inputs1);
    SameOverlapping(levels[level + 1], levels'[level + 1], f, UserRange(inputs0).0, UserRange(inputs0).1);
    hide LevelsInvariant, ClearDownTo, WellFormed, Ordered, Apart, Newer, NewerThanLevels, NumbersBelow, Overlapping,
         UserRange;
  }

  /** On one side of the inputs and clear of each, the table is outside the range they span. */
  lemma NotSpanned(levels: seq<seq<File>>, f: File, level: nat, inputs0: seq<File>, inputs1: seq<File>)
    requires LevelsInvariant(levels) && InputsChosen(levels, level, inputs0, inputs1) && WellFormed(f)
    requires ClearDownTo(levels, level + 1, f) && Apart(f, inputs0 + inputs1)
    ensures !Overlaps(f, UserRange(inputs0).0, UserRange(inputs0).1)
  {
    var s := SmallestKeyIs(inputs0);
    var l := LargestKeyIs(inputs0);
    ChosenUnderway(levels, level, inputs0, inputs1);
    ClearOfInputs(levels, f, level, inputs0, inputs1);
    assert inputs0[s] in inputs0 + inputs1 && inputs0[l] in inputs0 + inputs1;
    RangeOrdered(f);
    RangeOrdered(inputs0[s]);
    RangeOrdered(inputs0[l]);
  }

  lemma ClearOfInputs(levels: seq<seq<File>>, f: File, level: nat, inputs0: seq<File>, inputs1: seq<File>)
    requires LevelsInvariant(levels) && InputsUnderway(levels, level, inputs0, inputs1)
    requires ClearDownTo(levels, level + 1, f)
    ensures ClearOf(inputs0 + inputs1, f.smallest.user, f.largest.user) && AllWellFormed(inputs0 + inputs1)
  {
    forall g | g in inputs0 + inputs1
      ensures WellFormed(g) && !Overlaps(g, Some(f.smallest.user), Some(f.largest.user))
    {
      assert g in levels[level] || g in levels[level + 1];
      assert ClearOf(levels[level], f.smallest.user, f.largest.user)
             && ClearOf(levels[level + 1], f.smallest.user, f.largest.user);
    }
  }

  lemma SameOverlapping(files: seq<File>, files': seq<File>, f: File, lo: Bound, hi: Bound)
    requires Ordered(files) && Ordered(files') && !Overlaps(f, lo, hi)
    requires forall g :: g in files' <==> g in files || g == f
    ensures Overlapping(files', lo, hi) == Overlapping(files, lo, hi)
  {
    OverlappingMembers(files, lo, hi);
    OverlappingMembers(files', lo, hi);
    OverlappingOrdered(files, lo, hi);
    OverlappingOrdered(files', lo, hi);
    hide Overlapping, Overlaps, Ordered;
    OrderedUnique(Overlapping(files', lo, hi), Overlapping(files, lo, hi));
  }

  lemma {:induction false} OverlappingOrdered(files: seq<File>, lo: Bound, hi: Bound)
    requires Ordered(files)
    ensures Ordered(Overlapping(files, lo, hi))
  {
    if files == [] {
    } else {
      var front := files[..|files| - 1];
      OverlappingOrdered(front, lo, hi);
      OverlappingMembers(front, lo, hi);
      hide BySmallest, Overlaps;
      var some, last := Overlapping(front, lo, hi), files[|files| - 1];
      forall i | 0 <= i < |some|
        ensures BySmallest(some[i], last)
      {
        assert some[i] in front;
        var j :| 0 <= j < |front| && front[j] == some[i];
        assert files[j] == front[j];
      }
    }
  }

  /** Inputs without a gap leave room on their sides only: a flush never disturbs such a compaction. */
  lemma NoGapIsSafe(levels: seq<seq<File>>, levels': seq<seq<File>>, target: nat, f: File,
                    level: nat, inputs0: seq<File>, inputs1: seq<File>)
    requires FlushedInto(levels, levels', target, f) && InputsChosen(levels, level, inputs0, inputs1)
    requires NoGap(inputs0 + inputs1)
    ensures InputsChosen(levels', level, inputs0, inputs1)
  {
    FlushKeepsChosenIff(levels, levels', target, f, level, inputs0, inputs1);
    if target == level + 1 {
      ChosenUnderway(levels, level, inputs0, inputs1);
      ClearOfInputs(levels, f, level, inputs0, inputs1);
      ClearIsApart(inputs0 + inputs1, f);
    }
  }

  lemma ClearIsApart(inputs: seq<File>, f: File)
    requires NoGap(inputs) && AllWellFormed(inputs) && WellFormed(f) && ClearOf(inputs, f.smallest.user, f.largest.user)
    ensures Apart(f, inputs)
  {
    RangeOrdered(f);
    var lo, hi := f.smallest.user, f.largest.user;
    assert Clear(inputs, lo, hi) && OneSide(inputs, lo, hi);
  }

  /** Whatever is flushed wherever, the inputs of a running compaction stay what they are, but for the
      room between them. */
  lemma FlushKeepsUnderway(levels: seq<seq<File>>, levels': seq<seq<File>>, target: nat, f: File,
                           level: nat, inputs0: seq<File>, inputs1: seq<File>)
    requires FlushedInto(levels, levels', target, f) && InputsUnderway(levels, level, inputs0, inputs1)
    ensures InputsUnderway(levels', level, inputs0, inputs1)
  {
    hide LevelsInvariant, ClearDownTo, WellFormed, Ordered, Beside, NewerThanLevels, NumbersBelow, UpperClosed;
    FlushKeepsUpper(levels, levels', target, f, level, inputs0);
    if target == level + 1 {
      ClearOfInputs(levels, f, level, inputs0, inputs1);
      ClearIsBeside(f, inputs0, inputs1);
    }
  }

  lemma FlushKeepsUpper(levels: seq<seq<File>>, levels': seq<seq<File>>, target: nat, f: File, level: nat,
                        inputs0: seq<File>)
    requires FlushedInto(levels, levels', target, f) && level < |levels| && UpperClosed(levels[level], inputs0)
    ensures level < |levels'| && UpperClosed(levels'[level], inputs0)
  {
    hide LevelsInvariant, ClearDownTo, WellFormed, Ordered, NumbersBelow;
    forall h | h in inputs0
      ensures Newer(f, h)
    {
      assert h in levels[level] && NewerRun(f.entries, h.entries);
    }
    hide Newer, NewerThanLevels;
  }

  lemma ClearIsBeside(f: File, inputs0: seq<File>, inputs1: seq<File>)
    requires inputs0 != [] && ClearOf(inputs0 + inputs1, f.smallest.user, f.largest.user)
    ensures Beside(f, inputs0, inputs1)
  {
  }

  /** For every key of the entries, both say the same of what lies below the output level. */
  ghost predicate SameBaseLevel(levels: seq<seq<File>>, levels': seq<seq<File>>, level: nat, es: set<Entry>) {
    forall e | e in es :: IsBaseLevel(levels', level, e.key.user) <==> IsBaseLevel(levels, level, e.key.user)
  }

  lemma SameBaseLevelTransitive(a: seq<seq<File>>, b: seq<seq<File>>, c: seq<seq<File>>, level: nat, es: set<Entry>)
    requires SameBaseLevel(a, b, level, es) && SameBaseLevel(b, c, level, es)
    ensures SameBaseLevel(a, c, level, es)
  {
    hide IsBaseLevel;
  }

  /** Then the compaction keeps and drops the same entries. */
  lemma {:induction false} SameKept(levels: seq<seq<File>>, levels': seq<seq<File>>, level: nat, input: seq<Entry>,
                                    n: nat, smallest: nat)
    requires SameBaseLevel(levels, levels', level, Members(input)) && n <= |input|
    ensures Kept(input, n, smallest, levels', level) == Kept(input, n, smallest, levels, level)
  {
    hide IsBaseLevel;
    if n == 0 {
    } else {
      assert input[n - 1] in Members(input);
      SameKept(levels, levels', level, input, n - 1, smallest);
    }
  }

  /** Whether a key of the inputs has anything below the output level is the same after a flush. */
  lemma FlushKeepsBaseLevel(levels: seq<seq<File>>, levels': seq<seq<File>>, target: nat, f: File,
                            level: nat, inputs0: seq<File>, inputs1: seq<File>)
    requires FlushedInto(levels, levels', target, f) && InputsUnderway(levels, level, inputs0, inputs1)
    ensures SameBaseLevel(levels, levels', level, LevelEntries(inputs0 + inputs1))
  {
    hide LevelsInvariant, WellFormed, Ordered, NewerThanLevels, NumbersBelow, ClearDownTo, InputsUnderway, LevelEntries;
    assert forall lvl, g | level + 2 <= lvl < |levels| && g in levels[lvl] :: g in levels'[lvl];
    assert forall lvl, g | level + 2 <= lvl < |levels| && g in levels'[lvl] ::
           g in levels[lvl] || (g == f && lvl == target);
    forall e | e in LevelEntries(inputs0 + inputs1)
      ensures IsBaseLevel(levels', level, e.key.user) <==> IsBaseLevel(levels, level, e.key.user)
    {
      var h := InputOf(levels, level, inputs0, inputs1, e);
      if level + 2 <= target {
        ClearBelow(levels, target, f, level, h);
      }
    }
  }

  lemma InputOf(levels: seq<seq<File>>, level: nat, inputs0: seq<File>, inputs1: seq<File>, e: Entry) returns (h: File)
    requires LevelsInvariant(levels) && InputsUnderway(levels, level, inputs0, inputs1)
             && e in LevelEntries(inputs0 + inputs1)
    ensures level + 1 < |levels| && (h in levels[level] || h in levels[level + 1])
            && h.smallest.user <= e.key.user <= h.largest.user
  {
    h :| h in inputs0 + inputs1 && e in h.entries;
    assert h in levels[level] || h in levels[level + 1];
    EntryInRange(h, e);
  }

  lemma ClearBelow(levels: seq<seq<File>>, target: nat, f: File, level: nat, h: File)
    requires ClearDownTo(levels, target, f) && level + 2 <= target < |levels|
             && (h in levels[level] || h in levels[level + 1])
    ensures h.largest.user < f.smallest.user || f.largest.user < h.smallest.user
  {
    assert ClearOf(levels[level], f.smallest.user, f.largest.user)
           && ClearOf(levels[level + 1], f.smallest.user, f.largest.user);
  }

  // -------------------------------------------------- is the level left behind sorted?

  /** After a flush into the output level and then the installation of the outputs, the level is sorted
      exactly if no output covers the flushed table. */
  lemma LevelLeftSortedIff(levels: seq<seq<File>>, flushed: seq<seq<File>>, after: seq<seq<File>>, f: File,
                           level: nat, inputs0: seq<File>, inputs1: seq<File>, outputs: seq<File>)
    requires FlushedInto(levels, flushed, level + 1, f) && InputsChosen(levels, level, inputs0, inputs1)
    requires Moved(flushed, after, level, inputs0, inputs1, outputs)
    requires LevelSorted(outputs) && TakenFrom(outputs, inputs0 + inputs1)
    ensures LevelSorted(after[level + 1])
            <==> forall o | o in outputs :: o.largest.user < f.smallest.user || f.largest.user < o.smallest.user
  {
    hide LevelsInvariant, InputsChosen, ClearDownTo, WellFormed, NewerThanLevels, NumbersBelow, TakenFrom, LevelSorted;
    OthersHaveRoom(levels, flushed, f, level, inputs0, inputs1, outputs);
    forall o | o in outputs
      ensures o != f
      ensures Precedes(o.largest, f.smallest) <==> o.largest.user < f.smallest.user
      ensures Precedes(f.largest, o.smallest) <==> f.largest.user < o.smallest.user
    {
      OutputClear(levels, f, level, inputs0, inputs1, outputs, o);
    }
    hide Precedes, Added;
    LowerSortedIff(flushed, after, level, inputs0, inputs1, outputs);
  }

  lemma OthersHaveRoom(levels: seq<seq<File>>, flushed: seq<seq<File>>, f: File,
                       level: nat, inputs0: seq<File>, inputs1: seq<File>, outputs: seq<File>)
    requires FlushedInto(levels, flushed, level + 1, f) && InputsChosen(levels, level, inputs0, inputs1)
    requires LevelSorted(outputs) && TakenFrom(outputs, inputs0 + inputs1)
    ensures level + 1 < |flushed| == |levels| && f in flushed[level + 1] && f !in inputs1
    ensures forall o, g | o in outputs && g in flushed[level + 1] && g !in inputs1 && g != f ::
              o != g && (Precedes(o.largest, g.smallest) || Precedes(g.largest, o.smallest))
  {
    ChosenLeavesRoom(levels, level, inputs0, inputs1, outputs);
    NotAnInput(levels, level, inputs0, inputs1, f);
    hide LevelsInvariant, InputsChosen, ClearDownTo, NewerThanLevels, NumbersBelow, TakenFrom, Ordered;
    forall o | o in outputs
      ensures !Precedes(o.largest, o.smallest)
    {
      RangeOrdered(o);
    }
  }

  /** An output begins and ends with keys of the inputs, none of which is in the table's range. */
  lemma OutputClear(levels: seq<seq<File>>, f: File, level: nat, inputs0: seq<File>, inputs1: seq<File>,
                    outputs: seq<File>, o: File)
    requires LevelsInvariant(levels) && InputsChosen(levels, level, inputs0, inputs1)
             && ClearDownTo(levels, level + 1, f)
    requires WellFormed(f) && LevelSorted(outputs) && TakenFrom(outputs, inputs0 + inputs1) && o in outputs
    ensures forall e | e in o.entries :: e.key.user < f.smallest.user || f.largest.user < e.key.user
    ensures o != f
    ensures Precedes(o.largest, f.smallest) <==> o.largest.user < f.smallest.user
    ensures Precedes(f.largest, o.smallest) <==> f.largest.user < o.smallest.user
  {
    ChosenUnderway(levels, level, inputs0, inputs1);
    ClearOfInputs(levels, f, level, inputs0, inputs1);
    forall e | e in o.entries
      ensures e.key.user < f.smallest.user || f.largest.user < e.key.user
    {
      var h :| h in inputs0 + inputs1 && e in h.entries;
      EntryInRange(h, e);
    }
    hide LevelsInvariant, InputsChosen, InputsUnderway, ClearDownTo, TakenFrom, ClearOf, AllWellFormed;
    var first, last := o.entries[0], o.entries[|o.entries| - 1];
    assert WellFormed(o) && first in o.entries && last in o.entries;
    assert f.entries[0] in f.entries;
    RangeOrdered(f);
  }

  /** A way of cutting the kept entries into output files. */
  ghost predicate IsCut(kept: seq<Entry>, next: nat, outputs: seq<File>) {
    && AllWellFormed(outputs)
    && ConcatEntries(outputs) == kept
    && forall i | 0 <= i < |outputs| :: outputs[i].number == next + i
  }

  /** The output level once the outputs are installed. */
  ghost function LevelLeft(levels: seq<seq<File>>, level: nat, inputs0: seq<File>, inputs1: seq<File>,
                           outputs: seq<File>): seq<File>
    requires level + 1 < |levels| && inputs0 != []
  {
    Edited(levels[level + 1], level + 1, MoveEdit(level, inputs0, inputs1, outputs))
  }

  ghost predicate SortedHoweverCut(levels: seq<seq<File>>, level: nat, inputs0: seq<File>, inputs1: seq<File>,
                                   kept: seq<Entry>, next: nat)
    requires level + 1 < |levels| && inputs0 != []
  {
    forall outputs | IsCut(kept, next, outputs) :: LevelSorted(LevelLeft(levels, level, inputs0, inputs1, outputs))
  }

  /** All the entries lie before the file, or all of them after it. */
  ghost predicate OneSideOf(kept: seq<Entry>, g: File) {
    (forall e | e in kept :: Precedes(e.key, g.smallest)) || (forall e | e in kept :: Precedes(g.largest, e.key))
  }

  /** Before anything is installed, and whatever has been flushed: the output level will be sorted
      however the kept entries are cut exactly if they lie on one side of every file that stays. */
  lemma SortedHoweverCutIff(levels: seq<seq<File>>, level: nat, inputs0: seq<File>, inputs1: seq<File>,
                            kept: seq<Entry>, next: nat)
    requires LevelsInvariant(levels) && InputsUnderway(levels, level, inputs0, inputs1) && NumbersBelow(levels, next)
    requires Sorted(kept)
    ensures level + 1 < |levels|
    ensures SortedHoweverCut(levels, level, inputs0, inputs1, kept, next)
            <==> forall g | g in levels[level + 1] && g !in inputs1 :: OneSideOf(kept, g)
  {
    hide LevelsInvariant, NumbersBelow, IsCut, OneSideOf, LevelLeft, LevelSorted, RoomForOutputs, UpperClosed, Beside,
         Sorted;
    forall outputs | IsCut(kept, next, outputs)
      ensures LevelSorted(LevelLeft(levels, level, inputs0, inputs1, outputs))
              <==> RoomForOutputs(levels[level + 1], inputs1, outputs)
    {
      CutSortedIff(levels, level, inputs0, inputs1, kept, next, outputs);
    }
    if forall g | g in levels[level + 1] && g !in inputs1 :: OneSideOf(kept, g) {
      forall outputs | IsCut(kept, next, outputs)
        ensures RoomForOutputs(levels[level + 1], inputs1, outputs)
      {
        OneSideHasRoom(levels[level + 1], inputs1, kept, next, outputs);
      }
    }
    var whole := Uncut(kept, next);
    UncutIsCut(kept, next);
    if SortedHoweverCut(levels, level, inputs0, inputs1, kept, next) {
      UncutOneSide(levels[level + 1], inputs1, kept, next, whole);
    }
  }

  lemma CutSortedIff(levels: seq<seq<File>>, level: nat, inputs0: seq<File>, inputs1: seq<File>,
                     kept: seq<Entry>, next: nat, outputs: seq<File>)
    requires LevelsInvariant(levels) && InputsUnderway(levels, level, inputs0, inputs1) && NumbersBelow(levels, next)
    requires Sorted(kept) && IsCut(kept, next, outputs)
    ensures LevelSorted(LevelLeft(levels, level, inputs0, inputs1, outputs))
            <==> RoomForOutputs(levels[level + 1], inputs1, outputs)
  {
    PiecesSorted(outputs);
    CutIsFresh(levels, level, inputs0, inputs1, kept, next, outputs);
    hide LevelsInvariant, RoomForOutputs, LevelSorted, NumbersBelow, Edited, Moved, MoveEdit, FreshNumbers,
         UpperClosed, Beside, IsCut;
    var edit := MoveEdit(level, inputs0, inputs1, outputs);
    var after := seq(NUM_LEVELS, i requires 0 <= i < NUM_LEVELS => Edited(levels[i], i, edit));
    MoveEditMoves(levels, after, level, inputs0, inputs1, outputs);
    LowerSortedIff(levels, after, level, inputs0, inputs1, outputs);
  }

  lemma CutIsFresh(levels: seq<seq<File>>, level: nat, inputs0: seq<File>, inputs1: seq<File>,
                   kept: seq<Entry>, next: nat, outputs: seq<File>)
    requires LevelsInvariant(levels) && level + 1 < |levels| && NumbersBelow(levels, next) && IsCut(kept, next, outputs)
    ensures |levels| == NUM_LEVELS && FreshNumbers(levels, level, inputs0, outputs)
    ensures forall m, n | 0 <= m < n < |outputs| :: outputs[m].number != outputs[n].number
    ensures forall o, g | o in outputs && g in levels[level + 1] && g !in inputs1 :: o != g
  {
    hide ConcatEntries, WellFormed, LevelsRecent, LevelSorted, Ordered, NumbersUnique;
    forall o | o in outputs
      ensures o.number >= next
    {
      var i :| 0 <= i < |outputs| && outputs[i] == o;
    }
  }

  lemma OneSideHasRoom(files: seq<File>, inputs1: seq<File>, kept: seq<Entry>, next: nat, outputs: seq<File>)
    requires IsCut(kept, next, outputs) && forall g | g in files && g !in inputs1 :: OneSideOf(kept, g)
    ensures RoomForOutputs(files, inputs1, outputs)
  {
    ConcatMembers(outputs);
    forall o, g | o in outputs && g in files && g !in inputs1
      ensures Precedes(o.largest, g.smallest) || Precedes(g.largest, o.smallest)
    {
      var first, last := o.entries[0], o.entries[|o.entries| - 1];
      assert first in o.entries && last in o.entries;
      assert first in LevelEntries(outputs) && last in LevelEntries(outputs);
      assert first in Members(kept) && last in Members(kept) && OneSideOf(kept, g);
    }
  }

  /** All in one file. */
  function Uncut(kept: seq<Entry>, next: nat): seq<File> {
    if kept == [] then [] else [File(next, 0, kept[0].key, kept[|kept| - 1].key, kept)]
  }

  lemma UncutIsCut(kept: seq<Entry>, next: nat)
    requires Sorted(kept)
    ensures IsCut(kept, next, Uncut(kept, next))
  {
    var whole := Uncut(kept, next);
    if kept != [] {
      assert whole[..|whole| - 1] == [] && [] + kept == kept;
      assert ConcatEntries(whole) == ConcatEntries([]) + kept;
    }
  }

  lemma BetweenEnds(kept: seq<Entry>, e: Entry)
    requires Sorted(kept) && e in kept
    ensures e.key == kept[0].key || Precedes(kept[0].key, e.key)
    ensures e.key == kept[|kept| - 1].key || Precedes(e.key, kept[|kept| - 1].key)
  {
    var i :| 0 <= i < |kept| && kept[i] == e;
  }

  lemma UncutOneSide(files: seq<File>, inputs1: seq<File>, kept: seq<Entry>, next: nat, whole: seq<File>)
    requires Sorted(kept) && whole == Uncut(kept, next) && RoomForOutputs(files, inputs1, whole)
    ensures forall g | g in files && g !in inputs1 :: OneSideOf(kept, g)
  {
    hide Sorted;
    forall g | g in files && g !in inputs1
      ensures OneSideOf(kept, g)
    {
      if kept != [] {
        var o := whole[0];
        assert o in whole;
        assert Precedes(o.largest, g.smallest) || Precedes(g.largest, o.smallest);
        forall e | e in kept
          ensures Precedes(o.largest, g.smallest) ==> Precedes(e.key, g.smallest)
          ensures Precedes(g.largest, o.smallest) ==> Precedes(g.largest, e.key)
        {
          BetweenEnds(kept, e);
        }
      }
    }
  }

  lemma ApartIsOneSide(kept: seq<Entry>, inputs: seq<File>, g: File)
    requires AllWellFormed(inputs) && Apart(g, inputs) && forall e | e in kept :: e in LevelEntries(inputs)
    ensures OneSideOf(kept, g)
  {
    forall e | e in kept
      ensures exists h :: h in inputs && !Before(e.key, h.smallest) && !Before(h.largest, e.key)
    {
      var h :| h in inputs && e in h.entries;
      EntryInRange(h, e);
    }
  }

  lemma ClearSides(kept: seq<Entry>, inputs: seq<File>, f: File)
    requires AllWellFormed(inputs) && WellFormed(f) && ClearOf(inputs, f.smallest.user, f.largest.user)
    requires forall e | e in kept :: e in LevelEntries(inputs)
    ensures OneSideOf(kept, f)
            <==> || (forall e | e in kept :: e.key.user < f.smallest.user)
                 || (forall e | e in kept :: f.largest.user < e.key.user)
  {
    RangeOrdered(f);
    forall e | e in kept
      ensures e.key.user < f.smallest.user || f.largest.user < e.key.user
    {
      var h :| h in inputs && e in h.entries;
      EntryInRange(h, e);
    }
  }

  lemma KeptFromInputs(input: seq<Entry>, inputs: seq<File>, smallest: nat, levels: seq<seq<File>>, level: nat)
    requires IsMerge(input, inputs)
    ensures Sorted(Kept(input, |input|, smallest, levels, level))
    ensures forall e | e in Kept(input, |input|, smallest, levels, level) :: e in LevelEntries(inputs)
  {
    KeptSorted(input, |input|, smallest, levels, level);
    KeptMembers(input, |input|, smallest, levels, level);
    forall e | e in Kept(input, |input|, smallest, levels, level)
      ensures e in Members(input)
    {
    }
  }

  lemma OnlyFlushedMatters(levels: seq<seq<File>>, flushed: seq<seq<File>>, f: File, level: nat,
                           inputs0: seq<File>, inputs1: seq<File>, kept: seq<Entry>)
    requires FlushedInto(levels, flushed, level + 1, f) && InputsChosen(levels, level, inputs0, inputs1)
    requires forall e | e in kept :: e in LevelEntries(inputs0 + inputs1)
    ensures level + 1 < |flushed|
    ensures (forall g | g in flushed[level + 1] && g !in inputs1 :: OneSideOf(kept, g))
            <==> || (forall e | e in kept :: e.key.user < f.smallest.user)
                 || (forall e | e in kept :: f.largest.user < e.key.user)
  {
    ChosenUnderway(levels, level, inputs0, inputs1);
    ClearOfInputs(levels, f, level, inputs0, inputs1);
    NotAnInput(levels, level, inputs0, inputs1, f);
    hide LevelsInvariant, WellFormed, Ordered, ClearDownTo, ClearOf, NewerThanLevels, NumbersBelow, OneSideOf, Apart,
         InputsUnderway, AllWellFormed, UpperClosed, OverlappingRange;
    ClearSides(kept, inputs0 + inputs1, f);
    forall g | g in flushed[level + 1] && g !in inputs1 && g != f
      ensures OneSideOf(kept, g)
    {
      ApartIsOneSide(kept, inputs0 + inputs1, g);
    }
  }

  lemma FlushedLevels(levels: seq<seq<File>>, levels': seq<seq<File>>, target: nat, f: File)
    requires FlushedInto(levels, levels', target, f)
    ensures LevelsInvariant(levels) && LevelsInvariant(levels')
  {
  }

  /** After one flush only the flushed table matters. */
  lemma FlushedHoweverCutIff(levels: seq<seq<File>>, flushed: seq<seq<File>>, f: File, level: nat,
                             inputs0: seq<File>, inputs1: seq<File>, input: seq<Entry>, smallest: nat, next: nat)
    requires FlushedInto(levels, flushed, level + 1, f) && InputsChosen(levels, level, inputs0, inputs1)
    requires NumbersBelow(flushed, next) && IsMerge(input, inputs0 + inputs1)
    ensures level + 1 < |flushed|
    ensures var kept := Kept(input, |input|, smallest, flushed, level);
            SortedHoweverCut(flushed, level, inputs0, inputs1, kept, next)
            <==> || (forall e | e in kept :: e.key.user < f.smallest.user)
                 || (forall e | e in kept :: f.largest.user < e.key.user)
  {
    var kept := Kept(input, |input|, smallest, flushed, level);
    hide *;
    KeptFromInputs(input, inputs0 + inputs1, smallest, flushed, level);
    OnlyFlushedMatters(levels, flushed, f, level, inputs0, inputs1, kept);
    ChosenUnderway(levels, level, inputs0, inputs1);
    FlushKeepsUnderway(levels, flushed, level + 1, f, level, inputs0, inputs1);
    FlushedLevels(levels, flushed, level + 1, f);
    SortedHoweverCutIff(flushed, level, inputs0, inputs1, kept, next);
  }
  // ------------------------------------------------------------------- a flush into a gap

  function OneEntry(u: UserKey, s: SequenceNumber): Entry {
    Entry(InternalKey(u, s, Value), [])
  }

  function TableOf(number: nat, first: Entry, last: Entry, entries: seq<Entry>): File {
    File(number, 1, first.key, last.key, entries)
  }

  const LEFT := TableOf(3, OneEntry(1, 1), OneEntry(1, 1), [OneEntry(1, 1)])
  const RIGHT := TableOf(4, OneEntry(5, 2), OneEntry(5, 2), [OneEntry(5, 2)])
  const MIDDLE := TableOf(7, OneEntry(3, 9), OneEntry(3, 9), [OneEntry(3, 9)])
  const JOINED := TableOf(8, OneEntry(1, 1), OneEntry(5, 2), [OneEntry(1, 1), OneEntry(5, 2)])

  /** Levels with these files in levels 1 and 2 only. */
  function TwoLevels(one: seq<File>, two: seq<File>): (r: seq<seq<File>>)
    ensures |r| == NUM_LEVELS
  {
    [[], one, two, [], [], [], []]
  }

  lemma TwoLevelsInvariant(one: seq<File>, two: seq<File>)
    requires LevelSorted(one) && LevelSorted(two) && Ordered(one) && Ordered(two)
    requires forall f, g | f in one && g in two :: Newer(f, g) && f.number != g.number
    requires forall f, g | f in one && g in one && f.number == g.number :: f == g
    requires forall f, g | f in two && g in two && f.number == g.number :: f == g
    ensures LevelsInvariant(TwoLevels(one, two))
  {
    hide WellFormed, BySmallest, Precedes, Newer;
    var levels := TwoLevels(one, two);
    assert forall i | 0 <= i < |levels| && i != 1 && i != 2 :: levels[i] == [];
  }

  /** A manual compaction of level 1 takes both its files, a flush puts key 3 between them into level
      2, and the output covers it: the level is no longer sorted, as MaybeAddFile insists it is, and
      the first file of the level that reaches key 3 does not have it. */
  lemma FlushIntoGap()
    ensures var before, flushed, after := TwoLevels([LEFT, RIGHT], []), TwoLevels([LEFT, RIGHT], [MIDDLE]),
            TwoLevels([], [JOINED, MIDDLE]);
            && Overlapping(before[1], None, None) == [LEFT, RIGHT]
            && InputsChosen(before, 1, [LEFT, RIGHT], [])
            && FlushedInto(before, flushed, 2, MIDDLE)
            && Kept(JOINED.entries, 2, 9, flushed, 1) == JOINED.entries
            && Moved(flushed, after, 1, [LEFT, RIGHT], [], [JOINED])
            && !LevelSorted(after[2])
            && !Before(after[2][0].largest, LookupKey(3, 9)) && forall e | e in after[2][0].entries :: e.key.user != 3
  {
    hide InputsChosen, FlushedInto, Kept, Moved, LevelsInvariant, Overlapping, WellFormed, Ordered;
    GapBefore();
    GapFlushed();
    GapKept();
    GapMoved();
    assert [JOINED, MIDDLE][0] == JOINED && [JOINED, MIDDLE][1] == MIDDLE;
    assert !Precedes(JOINED.largest, MIDDLE.smallest);
  }

  lemma GapBefore()
    ensures var before := TwoLevels([LEFT, RIGHT], []);
            && LevelsInvariant(before)
            && Overlapping(before[1], None, None) == [LEFT, RIGHT]
            && InputsChosen(before, 1, [LEFT, RIGHT], [])
  {
    var inputs := [LEFT, RIGHT];
    assert inputs[..1] == [LEFT] && [LEFT][..0] == [];
    assert Overlapping([LEFT], None, None) == [LEFT];
    TwoLevelsInvariant(inputs, []);
    assert TwoLevels(inputs, [])[1] == inputs && TwoLevels(inputs, [])[2] == [];
  }

  lemma GapFlushed()
    ensures FlushedInto(TwoLevels([LEFT, RIGHT], []), TwoLevels([LEFT, RIGHT], [MIDDLE]), 2, MIDDLE)
  {
    GapBefore();
    GapInvariant();
    GapNewest();
    GapAdded();
    hide LevelsInvariant, NewerThanLevels, NumbersBelow, ClearDownTo, Added, Overlapping, InputsChosen, TwoLevels;
    assert MIDDLE.entries == [OneEntry(3, 9)];
  }

  lemma GapInvariant()
    ensures LevelsInvariant(TwoLevels([LEFT, RIGHT], [MIDDLE]))
  {
    var one := [LEFT, RIGHT];
    assert one[0] == LEFT && one[1] == RIGHT && forall f :: f in one <==> f == LEFT || f == RIGHT;
    assert MIDDLE.entries == [OneEntry(3, 9)] && LEFT.entries == [OneEntry(1, 1)] && RIGHT.entries == [OneEntry(5, 2)];
    hide LevelsInvariant, TwoLevels;
    TwoLevelsInvariant(one, [MIDDLE]);
  }

  lemma GapMember(i: nat, g: File)
    requires i < NUM_LEVELS && g in TwoLevels([LEFT, RIGHT], [])[i]
    ensures i == 1 && (g == LEFT || g == RIGHT)
  {
    assert g in [LEFT, RIGHT] || g in [];
  }

  lemma GapNewest()
    ensures var before := TwoLevels([LEFT, RIGHT], []);
            NewerThanLevels(MIDDLE.entries, before) && NumbersBelow(before, 7) && ClearDownTo(before, 2, MIDDLE)
  {
    var before := TwoLevels([LEFT, RIGHT], []);
    hide TwoLevels;
    forall i, g: File | 0 <= i < NUM_LEVELS && g in before[i]
      ensures NewerRun(MIDDLE.entries, g.entries) && g.number < 7 && !Overlaps(g, Some(3), Some(3))
    {
      GapMember(i, g);
      assert LEFT.entries == [OneEntry(1, 1)] && RIGHT.entries == [OneEntry(5, 2)];
    }
  }

  lemma GapAdded()
    ensures Added(TwoLevels([LEFT, RIGHT], []), TwoLevels([LEFT, RIGHT], [MIDDLE]), 2, MIDDLE)
  {
    var before, flushed := TwoLevels([LEFT, RIGHT], []), TwoLevels([LEFT, RIGHT], [MIDDLE]);
    assert forall i | 0 <= i < 7 && i != 1 :: before[i] == [];
    assert forall i | 0 <= i < 7 && i != 1 && i != 2 :: flushed[i] == [];
    assert before[1] == [LEFT, RIGHT] == flushed[1] && flushed[2] == [MIDDLE];
  }

  lemma GapKept()
    ensures Kept(JOINED.entries, 2, 9, TwoLevels([LEFT, RIGHT], [MIDDLE]), 1) == JOINED.entries
  {
    var input, levels := JOINED.entries, TwoLevels([LEFT, RIGHT], [MIDDLE]);
    assert input[0] == OneEntry(1, 1) && input[1] == OneEntry(5, 2);
    assert !Drops(input, 0, 9, levels, 1) && !Drops(input, 1, 9, levels, 1);
    assert Kept(input, 0, 9, levels, 1) == [];
    assert Kept(input, 1, 9, levels, 1) == [input[0]];
  }

  lemma GapMoved()
    ensures Moved(TwoLevels([LEFT, RIGHT], [MIDDLE]), TwoLevels([], [JOINED, MIDDLE]), 1, [LEFT, RIGHT], [], [JOINED])
  {
    var flushed, after := TwoLevels([LEFT, RIGHT], [MIDDLE]), TwoLevels([], [JOINED, MIDDLE]);
    assert forall i | 0 <= i < 7 && i != 1 && i != 2 :: flushed[i] == [] == after[i];
    assert flushed[1] == [LEFT, RIGHT] && flushed[2] == [MIDDLE] && after[1] == [] && after[2] == [JOINED, MIDDLE];
  }
}
