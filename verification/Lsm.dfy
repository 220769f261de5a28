// The shape of the whole store - memtable, immutable memtable and seven levels of files - and
// what flushes, trivial moves and compactions do to it.
module Lsm {
  import opened Wrappers
  import opened Coding
  import opened DbFormat
  import opened Reads
  import opened Tables
  import opened CompactionInputs
  import opened CompactionSetup
  import opened Builder

  datatype Store = Store(mem: seq<Entry>, imm: Option<seq<Entry>>, levels: seq<seq<File>>)

  function ImmEntries(imm: Option<seq<Entry>>): seq<Entry> {
    match imm case None => [] case Some(es) => es
  }

  ghost function Stored(levels: seq<seq<File>>): set<Entry> {
    set i, f, e | 0 <= i < |levels| && f in levels[i] && e in f.entries :: e
  }

  ghost function MemEntries(st: Store): set<Entry> {
    Members(st.mem) + Members(ImmEntries(st.imm))
  }

  ghost function Contents(st: Store): set<Entry> {
    MemEntries(st) + Stored(st.levels)
  }

  // -------------------------------------------------------------------- the invariant

  ghost predicate LevelsShape(levels: seq<seq<File>>) {
    && |levels| == NUM_LEVELS
    && (forall i | 0 <= i < NUM_LEVELS :: AllWellFormed(levels[i]) && Ordered(levels[i]))
    && (forall i | 1 <= i < NUM_LEVELS :: LevelSorted(levels[i]))
  }

  /** Entries never hop: for a user key, lower levels are newer, and so are higher file numbers
      within level 0. */
  ghost predicate LevelsRecent(levels: seq<seq<File>>) {
    && (forall i, j, f, g | 0 <= i < j < |levels| && f in levels[i] && g in levels[j] :: Newer(f, g))
    && (forall f, g | |levels| > 0 && f in levels[0] && g in levels[0] && f.number > g.number :: Newer(f, g))
  }

  ghost predicate NumbersUnique(levels: seq<seq<File>>) {
    forall i, j, f, g | 0 <= i < |levels| && 0 <= j < |levels| && f in levels[i] && g in levels[j]
      && f.number == g.number ::
      i == j && f == g
  }

  ghost predicate NumbersBelow(levels: seq<seq<File>>, next: nat) {
    forall i, f | 0 <= i < |levels| && f in levels[i] :: f.number < next
  }

  ghost predicate LevelsInvariant(levels: seq<seq<File>>) {
    LevelsShape(levels) && LevelsRecent(levels) && NumbersUnique(levels)
  }

  ghost predicate NewerRun(d: seq<Entry>, e: seq<Entry>) {
    forall a, b | a in d && b in e && a.key.user == b.key.user :: a.key.sequence > b.key.sequence
  }

  ghost predicate NewerThanLevels(es: seq<Entry>, levels: seq<seq<File>>) {
    forall i, f | 0 <= i < |levels| && f in levels[i] :: NewerRun(es, f.entries)
  }

  ghost predicate StoreInvariant(st: Store) {
    && LevelsInvariant(st.levels)
    && Sorted(st.mem) && Sorted(ImmEntries(st.imm))
    && NewerRun(st.mem, ImmEntries(st.imm))
    && NewerThanLevels(st.mem, st.levels)
    && NewerThanLevels(ImmEntries(st.imm), st.levels)
  }

  lemma StoreLevels(st: Store)
    requires StoreInvariant(st)
    ensures LevelsInvariant(st.levels) && LevelsShape(st.levels) && |st.levels| == NUM_LEVELS
  {
  }

  lemma SameFileUnique(f: File, a: Entry, b: Entry)
    requires WellFormed(f) && a in f.entries && b in f.entries
    requires a.key.user == b.key.user && a.key.sequence == b.key.sequence
    ensures a == b
  {
    RunUnique(f.entries, a, b);
  }

  lemma RunUnique(es: seq<Entry>, a: Entry, b: Entry)
    requires Sorted(es) && a in es && b in es
    requires a.key.user == b.key.user && a.key.sequence == b.key.sequence
    ensures a == b
  {
    var i :| 0 <= i < |es| && es[i] == a;
    var j :| 0 <= j < |es| && es[j] == b;
  }

  lemma SortedLevelUnique(files: seq<File>, f: File, g: File, a: Entry, b: Entry)
    requires LevelSorted(files) && f in files && g in files && a in f.entries && b in g.entries
    requires a.key.user == b.key.user && a.key.sequence == b.key.sequence
    ensures a == b
  {
    if f == g {
      SameFileUnique(f, a, b);
    } else {
      SortedIsDisjoint(files, f, g);
      EntryInRange(f, a);
      EntryInRange(g, b);
    }
  }

  lemma StoredFile(levels: seq<seq<File>>, e: Entry) returns (i: nat, f: File)
    requires e in Stored(levels)
    ensures i < |levels| && f in levels[i] && e in f.entries
  {
    i, f :| 0 <= i < |levels| && f in levels[i] && e in f.entries;
  }

  lemma LevelsParts(levels: seq<seq<File>>)
    requires LevelsInvariant(levels)
    ensures LevelsRecent(levels) && |levels| == NUM_LEVELS
    ensures forall i | 1 <= i < NUM_LEVELS :: LevelSorted(levels[i])
  {
  }

  lemma LevelZeroUnique(levels: seq<seq<File>>, f: File, g: File, a: Entry, b: Entry)
    requires LevelsInvariant(levels) && f in levels[0] && g in levels[0] && a in f.entries && b in g.entries
    requires a.key.user == b.key.user && a.key.sequence == b.key.sequence
    ensures a == b
  {
    assert !Newer(f, g) && !Newer(g, f);
    assert f.number == g.number;
    SameFileUnique(f, a, b);
  }

  lemma SameLevel(levels: seq<seq<File>>, i: nat, j: nat, f: File, g: File, a: Entry, b: Entry)
    requires LevelsRecent(levels) && i < |levels| && j < |levels|
    requires f in levels[i] && g in levels[j] && a in f.entries && b in g.entries
    requires a.key.user == b.key.user && a.key.sequence == b.key.sequence
    ensures i == j
  {
    assert !Newer(f, g) && !Newer(g, f);
  }

  lemma StoredUnique(levels: seq<seq<File>>, a: Entry, b: Entry)
    requires LevelsInvariant(levels) && a in Stored(levels) && b in Stored(levels)
    requires a.key.user == b.key.user && a.key.sequence == b.key.sequence
    ensures a == b
  {
    LevelsParts(levels);
    hide LevelsInvariant, LevelsRecent, LevelSorted, Stored;
    var i, f := StoredFile(levels, a);
    var j, g := StoredFile(levels, b);
    SameLevel(levels, i, j, f, g, a, b);
    if i > 0 {
      SortedLevelUnique(levels[i], f, g, a, b);
    } else {
      LevelZeroUnique(levels, f, g, a, b);
    }
  }

  lemma RunStoredApart(es: seq<Entry>, levels: seq<seq<File>>, a: Entry, b: Entry)
    requires NewerThanLevels(es, levels) && a in es && b in Stored(levels) && a.key.user == b.key.user
    ensures a.key.sequence > b.key.sequence
  {
    var i, f :| 0 <= i < |levels| && f in levels[i] && b in f.entries;
    assert NewerRun(es, f.entries);
  }

  lemma ContentsUniquePair(st: Store, a: Entry, b: Entry)
    requires StoreInvariant(st) && a in Contents(st) && b in Contents(st)
    requires a.key.user == b.key.user && a.key.sequence == b.key.sequence
    ensures a == b
  {
    var imm := ImmEntries(st.imm);
    hide LevelsInvariant, NewerThanLevels, Sorted;
    if a in Stored(st.levels) && b in Stored(st.levels) {
      StoredUnique(st.levels, a, b);
    } else if a in Stored(st.levels) {
      RunStoredApart(if b in st.mem then st.mem else imm, st.levels, b, a);
    } else if b in Stored(st.levels) {
      RunStoredApart(if a in st.mem then st.mem else imm, st.levels, a, b);
    } else if a in st.mem && b in st.mem {
      RunUnique(st.mem, a, b);
    } else if a in imm && b in imm {
      RunUnique(imm, a, b);
    }
  }

  lemma ContentsUnique(st: Store)
    requires StoreInvariant(st)
    ensures Unique(Contents(st))
  {
    hide StoreInvariant;
    forall a, b | a in Contents(st) && b in Contents(st) && a.key.user == b.key.user && a.key.sequence == b.key.sequence
      ensures a == b
    {
      ContentsUniquePair(st, a, b);
    }
  }

  // ------------------------------------------------------------ installing an edit

  /** levels' is levels with the inputs taken out of two neighbouring levels and outputs put into
      the lower one. */
  ghost predicate Moved(levels: seq<seq<File>>, levels': seq<seq<File>>, level: nat,
                        inputs0: seq<File>, inputs1: seq<File>, outputs: seq<File>) {
    && |levels'| == |levels| && level + 1 < |levels|
    && (forall i | 0 <= i < |levels| :: Ordered(levels'[i]))
    && (forall i | 0 <= i < |levels| && i != level && i != level + 1 :: levels'[i] == levels[i])
    && (forall f :: f in levels'[level] <==> f in levels[level] && f !in inputs0)
    && (forall f :: f in levels'[level + 1] <==> (f in levels[level + 1] && f !in inputs1) || f in outputs)
  }

  /** The inputs of a compaction as SetupOtherInputs leaves them. */
  ghost predicate InputsChosen(levels: seq<seq<File>>, level: nat, inputs0: seq<File>, inputs1: seq<File>) {
    && level + 1 < |levels|
    && inputs0 != []
    && UpperClosed(levels[level], inputs0)
    && LowerClosed(levels[level + 1], inputs0, inputs1)
    && inputs1 == OverlappingRange(levels[level + 1], inputs0)
  }

  /** The same inputs at any time later: files that flushes have put between them meanwhile share no
      user key with them. */
  ghost predicate InputsUnderway(levels: seq<seq<File>>, level: nat, inputs0: seq<File>, inputs1: seq<File>) {
    && level + 1 < |levels|
    && inputs0 != []
    && UpperClosed(levels[level], inputs0)
    && (forall f | f in inputs1 :: f in levels[level + 1])
    && forall g | g in levels[level + 1] && g !in inputs1 :: Beside(g, inputs0, inputs1)
  }

  ghost predicate Beside(g: File, inputs0: seq<File>, inputs1: seq<File>)
    requires inputs0 != []
  {
    || ClearOf(inputs0 + inputs1, g.smallest.user, g.largest.user)
    || (Apart(g, inputs0 + inputs1) && !Overlaps(g, UserRange(inputs0).0, UserRange(inputs0).1))
  }

  lemma ChosenUnderway(levels: seq<seq<File>>, level: nat, inputs0: seq<File>, inputs1: seq<File>)
    requires InputsChosen(levels, level, inputs0, inputs1)
    ensures InputsUnderway(levels, level, inputs0, inputs1)
  {
    OverlappingMembers(levels[level + 1], UserRange(inputs0).0, UserRange(inputs0).1);
  }

  ghost predicate TakenFrom(outputs: seq<File>, inputs: seq<File>) {
    forall o, e | o in outputs && e in o.entries :: exists h :: h in inputs && e in h.entries
  }

  lemma NewerThanOutputs(f: File, o: File, outputs: seq<File>, inputs: seq<File>)
    requires o in outputs && TakenFrom(outputs, inputs)
    requires forall h | h in inputs :: Newer(f, h)
    ensures Newer(f, o)
  {
    forall d, e | d in f.entries && e in o.entries && d.key.user == e.key.user
      ensures d.key.sequence > e.key.sequence
    {
      var h :| h in inputs && e in h.entries;
      assert Newer(f, h);
    }
  }

  lemma OutputsNewerThan(o: File, g: File, outputs: seq<File>, inputs: seq<File>)
    requires o in outputs && TakenFrom(outputs, inputs)
    requires forall h | h in inputs :: Newer(h, g)
    ensures Newer(o, g)
  {
    forall d, e | d in o.entries && e in g.entries && d.key.user == e.key.user
      ensures d.key.sequence > e.key.sequence
    {
      var h :| h in inputs && d in h.entries;
      assert Newer(h, g);
    }
  }

  lemma InputsNewerThanBelow(levels: seq<seq<File>>, level: nat, inputs0: seq<File>, inputs1: seq<File>, j: nat,
                             g: File)
    requires LevelsInvariant(levels) && InputsUnderway(levels, level, inputs0, inputs1)
    requires level + 1 < j < |levels| && g in levels[j]
    ensures forall h | h in inputs0 + inputs1 :: Newer(h, g)
  {
  }

  lemma StayingNewerThanInputs(levels: seq<seq<File>>, level: nat, inputs0: seq<File>, inputs1: seq<File>, i: nat,
                               f: File)
    requires LevelsInvariant(levels) && InputsUnderway(levels, level, inputs0, inputs1)
    requires i <= level && f in levels[i] && (i == level ==> f !in inputs0)
    ensures forall h | h in inputs0 + inputs1 :: Newer(f, h)
  {
  }

  lemma MovedRecent(levels: seq<seq<File>>, levels': seq<seq<File>>, level: nat,
                    inputs0: seq<File>, inputs1: seq<File>, outputs: seq<File>)
    requires LevelsInvariant(levels) && InputsUnderway(levels, level, inputs0, inputs1)
    requires Moved(levels, levels', level, inputs0, inputs1, outputs) && TakenFrom(outputs, inputs0 + inputs1)
    ensures LevelsRecent(levels')
  {
    forall i, j, f, g | 0 <= i < j < |levels'| && f in levels'[i] && g in levels'[j]
      ensures Newer(f, g)
    {
      if f in levels[i] && g in levels[j] {
        assert Newer(f, g);
      } else if g !in levels[j] {
        assert f in levels[i] && i <= level;
        StayingNewerThanInputs(levels, level, inputs0, inputs1, i, f);
        NewerThanOutputs(f, g, outputs, inputs0 + inputs1);
      } else {
        InputsNewerThanBelow(levels, level, inputs0, inputs1, j, g);
        OutputsNewerThan(f, g, outputs, inputs0 + inputs1);
      }
    }
  }

  ghost predicate Disjoint(files: seq<File>) {
    forall f, g | f in files && g in files && f != g ::
      Precedes(f.largest, g.smallest) || Precedes(g.largest, f.smallest)
  }

  lemma OrderedDisjoint(files: seq<File>)
    requires AllWellFormed(files) && Ordered(files) && Disjoint(files)
    ensures LevelSorted(files)
  {
    forall i, j | 0 <= i < j < |files|
      ensures Precedes(files[i].largest, files[j].smallest)
    {
      RangeOrdered(files[i]);
      RangeOrdered(files[j]);
      assert BySmallest(files[i], files[j]);
    }
  }

  lemma SortedIsDisjoint(files: seq<File>, f: File, g: File)
    requires LevelSorted(files) && f in files && g in files && f != g
    ensures Precedes(f.largest, g.smallest) || Precedes(g.largest, f.smallest)
  {
    var i :| 0 <= i < |files| && files[i] == f;
    var j :| 0 <= j < |files| && files[j] == g;
  }

  lemma ApartFromOutput(g: File, o: File, outputs: seq<File>, inputs: seq<File>)
    requires Apart(g, inputs) && AllWellFormed(inputs) && WellFormed(o) && o in outputs && TakenFrom(outputs, inputs)
    ensures Precedes(g.largest, o.smallest) || Precedes(o.largest, g.smallest)
  {
    var first, last := o.entries[0], o.entries[|o.entries| - 1];
    assert first in o.entries && last in o.entries;
    var h0 :| h0 in inputs && first in h0.entries;
    var h1 :| h1 in inputs && last in h1.entries;
    EntryInRange(h0, first);
    EntryInRange(h1, last);
  }

  /** No output reaches into a file that stays in the output level. */
  ghost predicate RoomForOutputs(files: seq<File>, inputs1: seq<File>, outputs: seq<File>) {
    forall o, g | o in outputs && g in files && g !in inputs1 ::
      Precedes(o.largest, g.smallest) || Precedes(g.largest, o.smallest)
  }

  lemma ChosenLeavesRoom(levels: seq<seq<File>>, level: nat, inputs0: seq<File>, inputs1: seq<File>, outputs: seq<File>)
    requires LevelsInvariant(levels) && InputsChosen(levels, level, inputs0, inputs1) && AllWellFormed(outputs)
    requires TakenFrom(outputs, inputs0 + inputs1)
    ensures RoomForOutputs(levels[level + 1], inputs1, outputs)
  {
    forall o, g | o in outputs && g in levels[level + 1] && g !in inputs1
      ensures Precedes(o.largest, g.smallest) || Precedes(g.largest, o.smallest)
    {
      ApartFromOutput(g, o, outputs, inputs0 + inputs1);
    }
  }

  lemma RoomIsSorted(levels: seq<seq<File>>, levels': seq<seq<File>>, level: nat,
                     inputs0: seq<File>, inputs1: seq<File>, outputs: seq<File>)
    requires LevelsInvariant(levels) && LevelSorted(outputs) && Moved(levels, levels', level, inputs0, inputs1, outputs)
    requires RoomForOutputs(levels[level + 1], inputs1, outputs)
    ensures LevelSorted(levels'[level + 1])
  {
    hide WellFormed;
    var lower := levels'[level + 1];
    forall f, g | f in lower && g in lower && f != g
      ensures Precedes(f.largest, g.smallest) || Precedes(g.largest, f.smallest)
    {
      if f in outputs && g in outputs {
        SortedIsDisjoint(outputs, f, g);
      } else if f !in outputs && g !in outputs {
        SortedIsDisjoint(levels[level + 1], f, g);
      }
    }
    OrderedDisjoint(lower);
  }

  /** The level that a compaction leaves behind is sorted exactly if its outputs have room there. */
  lemma LowerSortedIff(levels: seq<seq<File>>, levels': seq<seq<File>>, level: nat,
                       inputs0: seq<File>, inputs1: seq<File>, outputs: seq<File>)
    requires LevelsInvariant(levels) && LevelSorted(outputs) && Moved(levels, levels', level, inputs0, inputs1, outputs)
    requires forall o, g | o in outputs && g in levels[level + 1] && g !in inputs1 :: o != g
    ensures LevelSorted(levels'[level + 1]) <==> RoomForOutputs(levels[level + 1], inputs1, outputs)
  {
    hide WellFormed;
    if RoomForOutputs(levels[level + 1], inputs1, outputs) {
      RoomIsSorted(levels, levels', level, inputs0, inputs1, outputs);
    }
    if LevelSorted(levels'[level + 1]) {
      forall o, g | o in outputs && g in levels[level + 1] && g !in inputs1
        ensures Precedes(o.largest, g.smallest) || Precedes(g.largest, o.smallest)
      {
        SortedIsDisjoint(levels'[level + 1], o, g);
      }
    }
  }

  lemma UpperSorted(levels: seq<seq<File>>, levels': seq<seq<File>>, level: nat,
                    inputs0: seq<File>, inputs1: seq<File>, outputs: seq<File>)
    requires LevelsInvariant(levels) && Moved(levels, levels', level, inputs0, inputs1, outputs) && level > 0
    ensures LevelSorted(levels'[level])
  {
    var upper := levels'[level];
    forall f, g | f in upper && g in upper && f != g
      ensures Precedes(f.largest, g.smallest) || Precedes(g.largest, f.smallest)
    {
      SortedIsDisjoint(levels[level], f, g);
    }
    OrderedDisjoint(upper);
  }

  lemma FreshIsNew(levels: seq<seq<File>>, level: nat, inputs0: seq<File>, inputs1: seq<File>, outputs: seq<File>)
    requires FreshNumbers(levels, level, inputs0, outputs) && level + 1 < |levels|
    ensures forall o, g | o in outputs && g in levels[level + 1] && g !in inputs1 :: o != g
  {
  }

  lemma MovedShapeIff(levels: seq<seq<File>>, levels': seq<seq<File>>, level: nat,
                      inputs0: seq<File>, inputs1: seq<File>, outputs: seq<File>)
    requires LevelsInvariant(levels) && InputsUnderway(levels, level, inputs0, inputs1) && LevelSorted(outputs)
    requires Moved(levels, levels', level, inputs0, inputs1, outputs) && FreshNumbers(levels, level, inputs0, outputs)
    ensures LevelsShape(levels') <==> RoomForOutputs(levels[level + 1], inputs1, outputs)
  {
    FreshIsNew(levels, level, inputs0, inputs1, outputs);
    LowerSortedIff(levels, levels', level, inputs0, inputs1, outputs);
    if level > 0 {
      UpperSorted(levels, levels', level, inputs0, inputs1, outputs);
    }
    hide RoomForOutputs, InputsUnderway, LevelsRecent, NumbersUnique, FreshNumbers, Ordered, Precedes;
  }

  /** No file that stays has the number of an output, and the outputs' numbers differ. */
  ghost predicate FreshNumbers(levels: seq<seq<File>>, level: nat, inputs0: seq<File>, outputs: seq<File>) {
    && (forall o, i, f | o in outputs && 0 <= i < |levels| && f in levels[i] && f.number == o.number ::
          i == level && f in inputs0)
    && (forall o, o' | o in outputs && o' in outputs && o.number == o'.number :: o == o')
  }

  /** Moving inputs down one level, dropping whatever entries and whatever was flushed meanwhile, keeps
      the level invariant exactly if the outputs have room. */
  lemma MovedKeepsInvariantIff(levels: seq<seq<File>>, levels': seq<seq<File>>, level: nat,
                               inputs0: seq<File>, inputs1: seq<File>, outputs: seq<File>)
    requires LevelsInvariant(levels) && InputsUnderway(levels, level, inputs0, inputs1) && LevelSorted(outputs)
    requires Moved(levels, levels', level, inputs0, inputs1, outputs) && TakenFrom(outputs, inputs0 + inputs1)
    requires FreshNumbers(levels, level, inputs0, outputs)
    ensures LevelsInvariant(levels') <==> RoomForOutputs(levels[level + 1], inputs1, outputs)
  {
    MovedRecent(levels, levels', level, inputs0, inputs1, outputs);
    MovedShapeIff(levels, levels', level, inputs0, inputs1, outputs);
    MovedNumbersUnique(levels, levels', level, inputs0, inputs1, outputs);
    hide LevelsShape, LevelsRecent, NumbersUnique, RoomForOutputs, InputsUnderway, FreshNumbers, TakenFrom, LevelSorted;
  }

  /** Moving closed inputs down one level, dropping whatever entries, keeps the level invariant. */
  lemma MovedKeepsInvariant(levels: seq<seq<File>>, levels': seq<seq<File>>, level: nat,
                            inputs0: seq<File>, inputs1: seq<File>, outputs: seq<File>)
    requires LevelsInvariant(levels) && InputsChosen(levels, level, inputs0, inputs1) && LevelSorted(outputs)
    requires Moved(levels, levels', level, inputs0, inputs1, outputs) && TakenFrom(outputs, inputs0 + inputs1)
    requires FreshNumbers(levels, level, inputs0, outputs)
    ensures LevelsInvariant(levels')
  {
    ChosenUnderway(levels, level, inputs0, inputs1);
    ChosenLeavesRoom(levels, level, inputs0, inputs1, outputs);
    hide LevelsInvariant, InputsChosen, InputsUnderway, RoomForOutputs, Moved, TakenFrom, FreshNumbers;
    MovedKeepsInvariantIff(levels, levels', level, inputs0, inputs1, outputs);
  }

  lemma MovedNumbersUnique(levels: seq<seq<File>>, levels': seq<seq<File>>, level: nat,
                           inputs0: seq<File>, inputs1: seq<File>, outputs: seq<File>)
    requires NumbersUnique(levels) && Moved(levels, levels', level, inputs0, inputs1, outputs)
    requires FreshNumbers(levels, level, inputs0, outputs)
    ensures NumbersUnique(levels')
  {
    assert forall i, f | 0 <= i < |levels'| && f in levels'[i] ::
        (f in levels[i] && !(i == level && f in inputs0)) || (i == level + 1 && f in outputs);
    hide Moved;
    forall i, j, f, g | 0 <= i < |levels'| && 0 <= j < |levels'| && f in levels'[i] && g in levels'[j]
      && f.number == g.number
      ensures i == j && f == g
    {
      assert f in levels[i] || f in outputs;
      assert g in levels[j] || g in outputs;
    }
  }

  // ------------------------------------------------------------ what stays and what moves

  /** The stored entries of all files but the inputs. */
  ghost function Staying(levels: seq<seq<File>>, level: nat, inputs0: seq<File>, inputs1: seq<File>): set<Entry> {
    set i, f, e | 0 <= i < |levels| && f in levels[i] && !(i == level && f in inputs0)
      && !(i == level + 1 && f in inputs1)
                  && e in f.entries :: e
  }

  lemma MovedContents(levels: seq<seq<File>>, levels': seq<seq<File>>, level: nat,
                      inputs0: seq<File>, inputs1: seq<File>, outputs: seq<File>)
    requires InputsUnderway(levels, level, inputs0, inputs1)
    requires Moved(levels, levels', level, inputs0, inputs1, outputs)
    ensures Stored(levels) == Staying(levels, level, inputs0, inputs1) + LevelEntries(inputs0 + inputs1)
    ensures Stored(levels') == Staying(levels, level, inputs0, inputs1) + LevelEntries(outputs)
  {
    var stay := Staying(levels, level, inputs0, inputs1);
    forall e
      ensures e in Stored(levels) <==> e in stay || e in LevelEntries(inputs0 + inputs1)
    {
      if e in Stored(levels) {
        var i, f :| 0 <= i < |levels| && f in levels[i] && e in f.entries;
        if (i == level && f in inputs0) || (i == level + 1 && f in inputs1) {
          assert f in inputs0 + inputs1;
        }
      }
      if e in LevelEntries(inputs0 + inputs1) {
        var f :| f in inputs0 + inputs1 && e in f.entries;
        assert f in levels[level] || f in levels[level + 1];
      }
    }
    forall e
      ensures e in Stored(levels') <==> e in stay || e in LevelEntries(outputs)
    {
      if e in Stored(levels') {
        var i, f :| 0 <= i < |levels'| && f in levels'[i] && e in f.entries;
        if f !in outputs {
          assert f in levels[i];
        }
      }
      if e in stay {
        var i, f :| 0 <= i < |levels| && f in levels[i] && !(i == level && f in inputs0)
                    && !(i == level + 1 && f in inputs1) && e in f.entries;
        assert f in levels'[i];
      }
      if e in LevelEntries(outputs) {
        var f :| f in outputs && e in f.entries;
        assert f in levels'[level + 1];
      }
    }
  }

  // -------------------------------------------------------------------------- flushing

  ghost predicate ClearOf(files: seq<File>, lo: UserKey, hi: UserKey) {
    forall f | f in files :: !Overlaps(f, Some(lo), Some(hi))
  }

  /** levels' is levels with f put into one level. */
  ghost predicate Added(levels: seq<seq<File>>, levels': seq<seq<File>>, level: nat, f: File) {
    && |levels'| == |levels| && level < |levels|
    && (forall i | 0 <= i < |levels| :: Ordered(levels'[i]))
    && (forall i | 0 <= i < |levels| && i != level :: levels'[i] == levels[i])
    && (forall g :: g in levels'[level] <==> g in levels[level] || g == f)
  }

  lemma ClearIsDisjoint(g: File, f: File)
    requires WellFormed(f) && WellFormed(g) && !Overlaps(g, Some(f.smallest.user), Some(f.largest.user))
    ensures Precedes(f.largest, g.smallest) || Precedes(g.largest, f.smallest)
    ensures Newer(f, g) && Newer(g, f)
  {
    forall d, e | d in f.entries && e in g.entries
      ensures d.key.user != e.key.user
    {
      EntryInRange(f, d);
      EntryInRange(g, e);
    }
  }

  /** f clears every level down to its own, unless that is level 0. */
  ghost predicate ClearDownTo(levels: seq<seq<File>>, level: nat, f: File) {
    level > 0 ==> forall i | 0 <= i <= level && i < |levels| :: ClearOf(levels[i], f.smallest.user, f.largest.user)
  }

  lemma FlushRecent(levels: seq<seq<File>>, levels': seq<seq<File>>, level: nat, f: File, next: nat)
    requires LevelsInvariant(levels) && WellFormed(f) && NewerThanLevels(f.entries, levels)
    requires NumbersBelow(levels, next) && f.number >= next
    requires ClearDownTo(levels, level, f) && Added(levels, levels', level, f)
    ensures LevelsRecent(levels')
  {
    forall i, j, d, g | 0 <= i < j < |levels'| && d in levels'[i] && g in levels'[j]
      ensures Newer(d, g)
    {
      if d in levels[i] && g in levels[j] {
        assert Newer(d, g);
      } else if d in levels[i] {
        ClearIsDisjoint(d, f);
      } else {
        assert NewerRun(f.entries, g.entries);
      }
    }
    forall d, g | d in levels'[0] && g in levels'[0] && d.number > g.number
      ensures Newer(d, g)
    {
      if d == f && g in levels[0] {
        assert NewerRun(f.entries, g.entries);
      } else {
        assert d in levels[0] && g in levels[0];
      }
    }
  }

  lemma FlushDisjoint(levels: seq<seq<File>>, levels': seq<seq<File>>, level: nat, f: File)
    requires LevelsShape(levels) && WellFormed(f) && 0 < level < NUM_LEVELS
    requires ClearDownTo(levels, level, f) && Added(levels, levels', level, f)
    ensures LevelSorted(levels'[level])
  {
    forall d, g | d in levels'[level] && g in levels'[level] && d != g
      ensures Precedes(d.largest, g.smallest) || Precedes(g.largest, d.smallest)
    {
      if d == f {
        ClearIsDisjoint(g, f);
      } else if g == f {
        ClearIsDisjoint(d, f);
      } else {
        SortedIsDisjoint(levels[level], d, g);
      }
    }
    OrderedDisjoint(levels'[level]);
  }

  lemma FlushNumbers(levels: seq<seq<File>>, levels': seq<seq<File>>, level: nat, f: File, next: nat)
    requires NumbersUnique(levels) && NumbersBelow(levels, next) && f.number >= next
    requires Added(levels, levels', level, f)
    ensures NumbersUnique(levels')
  {
    forall i, j, d, g | 0 <= i < |levels'| && 0 <= j < |levels'| && d in levels'[i] && g in levels'[j]
      && d.number == g.number
      ensures i == j && d == g
    {
      assert d in levels[i] || (d == f && i == level);
      assert g in levels[j] || (g == f && j == level);
    }
  }

  /** A flushed memtable may go below level 0 as long as it clears every level down to its own. */
  lemma FlushKeepsInvariant(levels: seq<seq<File>>, levels': seq<seq<File>>, level: nat, f: File, next: nat)
    requires LevelsInvariant(levels) && WellFormed(f) && NewerThanLevels(f.entries, levels)
    requires NumbersBelow(levels, next) && f.number >= next
    requires ClearDownTo(levels, level, f) && Added(levels, levels', level, f)
    ensures LevelsInvariant(levels')
    ensures Stored(levels') == Stored(levels) + Members(f.entries)
  {
    FlushRecent(levels, levels', level, f, next);
    FlushNumbers(levels, levels', level, f, next);
    if level > 0 {
      FlushDisjoint(levels, levels', level, f);
    }
    FlushContents(levels, levels', level, f);
  }

  lemma FlushContents(levels: seq<seq<File>>, levels': seq<seq<File>>, level: nat, f: File)
    requires Added(levels, levels', level, f)
    ensures Stored(levels') == Stored(levels) + Members(f.entries)
  {
    forall e
      ensures e in Stored(levels') <==> e in Stored(levels) || e in f.entries
    {
      if e in Stored(levels') {
        var i, g :| 0 <= i < |levels'| && g in levels'[i] && e in g.entries;
        assert g in levels[i] || g == f;
      }
      if e in Stored(levels) {
        var i, g :| 0 <= i < |levels| && g in levels[i] && e in g.entries;
        assert g in levels'[i];
      }
      if e in f.entries {
        assert f in levels'[level];
      }
    }
  }
}
