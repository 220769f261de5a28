// The database object (db/db_impl.cc): writes, reads, snapshots, memtable flushes and background
// compactions, each as one step.  The ghost field history holds every entry ever written; Valid
// is the structure every step keeps, and Faithful says that every read at every live snapshot
// returns what the history says.
module Database {
  import opened Wrappers
  import opened Coding
  import opened DbFormat
  import opened Reads
  import opened Tables
  import opened CompactionInputs
  import opened InputGaps
  import opened CompactionSetup
  import opened CompactionWork
  import opened CompactionReads
  import opened Builder
  import opened Install
  import opened Lsm
  import opened Merger
  import opened NestedFlush
  import opened VersionReads

  const MAX_MEM_COMPACT_LEVEL := 2

  function MakeEntry(s: SequenceNumber, op: Operation<UserKey>): Entry {
    match op
    case Put(k, v) => Entry(InternalKey(k, s, Value), v)
    case Delete(k) => Entry(InternalKey(k, s, Deletion), [])
  }

  /** The entries of a batch: its operations numbered from last + 1. */
  ghost function BatchEntries(last: nat, ops: seq<Operation<UserKey>>): set<Entry>
    requires last + |ops| <= MAX_SEQUENCE
  {
    set i | 0 <= i < |ops| :: MakeEntry(last + 1 + i, ops[i])
  }

  /** Inserting into the memtable keeps it a sorted run. */
  method InsertIntoRun(es: seq<Entry>, e: Entry) returns (r: seq<Entry>)
    requires Sorted(es)
    requires forall o | o in es :: o.key.user != e.key.user || o.key.sequence != e.key.sequence
    ensures Sorted(r) && Members(r) == Members(es) + {e}
  {
    var i := SeekInTable(es, e.key);
    r := es[..i] + [e] + es[i..];
    forall a, b | 0 <= a < b < |r|
      ensures Precedes(r[a].key, r[b].key)
    {
      assert r[a] == if a < i then es[a] else if a == i then e else es[a - 1];
      assert r[b] == if b < i then es[b] else if b == i then e else es[b - 1];
      assert forall k | 0 <= k < |es| :: es[k] in es;
    }
    assert es == es[..i] + es[i..];
    assert forall x :: x in r <==> x in es[..i] || x == e || x in es[i..];
  }

  /** PickLevelForMemTableOutput: how far down a flushed table may go. */
  method PickLevelForMemTableOutput(levels: seq<seq<File>>, f: File, maxGrandParentOverlapBytes: nat)
    returns (level: nat)
    requires LevelsShape(levels) && WellFormed(f)
    ensures level <= MAX_MEM_COMPACT_LEVEL && ClearDownTo(levels, level, f)
  {
    level := 0;
    var lo, hi := Some(f.smallest.user), Some(f.largest.user);
    var overlap := SomeFileOverlapsRange(false, levels[0], lo, hi);
    if !overlap {
      while level < MAX_MEM_COMPACT_LEVEL
        invariant level <= MAX_MEM_COMPACT_LEVEL
        invariant forall i | 0 <= i <= level :: ClearOf(levels[i], f.smallest.user, f.largest.user)
      {
        overlap := SomeFileOverlapsRange(true, levels[level + 1], lo, hi);
        if overlap {
          break;
        }
        if level + 2 < NUM_LEVELS {
          var overlaps := GetOverlappingInputs(false, levels[level + 2], lo, hi);
          var sum := TotalFileSize(overlaps);
          if sum > maxGrandParentOverlapBytes {
            break;
          }
        }
        level := level + 1;
      }
    }
  }

  /** The options and measurements that only decide how much is done at a time. */
  datatype Limits = Limits(
    rangeBytes: nat,
    expandedBytes: nat,
    grandparentBytes: nat,
    outputBytes: nat,
    fileSize: seq<Entry> -> nat)

  /** Who asks for a compaction: PickCompaction with the file it starts from, or a manual range. */
  datatype Request = Automatic(start: nat) | Manual(begin: Bound, end: Bound)

  ghost predicate SequencesAtMost(es: set<Entry>, last: nat) {
    forall e | e in es :: e.key.sequence <= last
  }

  lemma BatchGrows(last: nat, ops: seq<Operation<UserKey>>, i: nat)
    requires last + |ops| <= MAX_SEQUENCE && i < |ops|
    ensures BatchEntries(last, ops[..i + 1]) == BatchEntries(last, ops[..i]) + {MakeEntry(last + 1 + i, ops[i])}
    ensures forall o | o in BatchEntries(last, ops[..i]) :: last < o.key.sequence <= last + i
  {
  }

  lemma BatchUnique(last: nat, ops: seq<Operation<UserKey>>)
    requires last + |ops| <= MAX_SEQUENCE
    ensures Unique(BatchEntries(last, ops))
    ensures forall o | o in BatchEntries(last, ops) :: last < o.key.sequence <= last + |ops|
  {
  }

  lemma AddedNewerThanRun(mem: seq<Entry>, mem': seq<Entry>, e: Entry, below: seq<Entry>)
    requires NewerRun(mem, below) && Members(mem') == Members(mem) + {e}
    requires forall b | b in below :: b.key.sequence < e.key.sequence
    ensures NewerRun(mem', below)
  {
    assert forall a | a in mem' :: a in Members(mem');
  }

  /** An entry newer than everything stored may go into the memtable. */
  lemma AddedToMem(st: Store, mem': seq<Entry>, e: Entry)
    requires StoreInvariant(st) && forall o | o in Contents(st) :: o.key.sequence < e.key.sequence
    requires Sorted(mem') && Members(mem') == Members(st.mem) + {e}
    ensures StoreInvariant(st.(mem := mem'))
    ensures Contents(st.(mem := mem')) == Contents(st) + {e}
  {
    forall b | b in ImmEntries(st.imm)
      ensures b.key.sequence < e.key.sequence
    {
      assert b in Contents(st);
    }
    AddedNewerThanRun(st.mem, mem', e, ImmEntries(st.imm));
    forall i, f | 0 <= i < |st.levels| && f in st.levels[i]
      ensures NewerRun(mem', f.entries)
    {
      assert NewerRun(st.mem, f.entries);
      forall b | b in f.entries
        ensures b.key.sequence < e.key.sequence
      {
        assert b in Stored(st.levels) && b in Contents(st);
      }
      AddedNewerThanRun(st.mem, mem', e, f.entries);
    }
  }

  /** MemTableInserter: puts a batch into the memtable, numbering its operations from last + 1. */
  method InsertBatch(st: Store, last: SequenceNumber, ops: seq<Operation<UserKey>>) returns (mem: seq<Entry>)
    requires StoreInvariant(st) && SequencesAtMost(Contents(st), last) && last + |ops| <= MAX_SEQUENCE
    ensures StoreInvariant(st.(mem := mem))
    ensures Contents(st.(mem := mem)) == Contents(st) + BatchEntries(last, ops)
  {
    hide StoreInvariant;
    mem := st.mem;
    assert st.(mem := mem) == st && Contents(st) + BatchEntries(last, ops[..0]) == Contents(st);
    for i := 0 to |ops|
      invariant StoreInvariant(st.(mem := mem))
      invariant Contents(st.(mem := mem)) == Contents(st) + BatchEntries(last, ops[..i])
    {
      mem := InsertOne(st.(mem := mem), last + i, ops[i]);
      BatchGrows(last, ops, i);
    }
    assert ops[..|ops|] == ops;
  }

  method InsertOne(st: Store, last: SequenceNumber, op: Operation<UserKey>) returns (mem: seq<Entry>)
    requires StoreInvariant(st) && SequencesAtMost(Contents(st), last) && last + 1 <= MAX_SEQUENCE
    ensures StoreInvariant(st.(mem := mem))
    ensures Contents(st.(mem := mem)) == Contents(st) + {MakeEntry(last + 1, op)}
  {
    var e := MakeEntry(last + 1, op);
    assert forall o | o in st.mem :: o in Contents(st);
    mem := InsertIntoRun(st.mem, e);
    AddedToMem(st, mem, e);
  }

  /** LogAndApply, as far as the version goes. */
  method ApplyEdit(levels: seq<seq<File>>, pointers: seq<Option<InternalKey>>, edit: VersionEdit)
    returns (levels': seq<seq<File>>, pointers': seq<Option<InternalKey>>)
    requires LevelsShape(levels) && |pointers| == NUM_LEVELS && LevelsInRange(edit)
    ensures |levels'| == NUM_LEVELS && |pointers'| == NUM_LEVELS
    ensures forall i | 0 <= i < NUM_LEVELS :: levels'[i] == Edited(levels[i], i, edit)
  {
    var builder := new VersionBuilder(levels, pointers);
    builder.Apply(edit);
    levels' := builder.SaveTo();
    pointers' := builder.compactPointers;
  }

  /** levels' is levels with a table of the given entries put as far down as nothing overlaps it, or
      levels itself if there are no entries. */
  ghost predicate Flushed(levels: seq<seq<File>>, levels': seq<seq<File>>, es: seq<Entry>, number: nat) {
    if es == [] then levels' == levels
    else exists level: nat, f: File ::
      && level <= MAX_MEM_COMPACT_LEVEL && WellFormed(f) && f.entries == es && f.number == number
      && ClearDownTo(levels, level, f) && Added(levels, levels', level, f)
  }

  /** WriteLevel0Table and LogAndApply for a non-empty immutable memtable. */
  method FlushTable(st: Store, pointers: seq<Option<InternalKey>>, f: File, limit: nat)
    returns (levels': seq<seq<File>>, pointers': seq<Option<InternalKey>>)
    requires StoreInvariant(st) && |pointers| == NUM_LEVELS && NumbersBelow(st.levels, f.number)
    requires st.imm == Some(f.entries) && WellFormed(f)
    ensures StoreInvariant(Store(st.mem, None, levels')) && |pointers'| == NUM_LEVELS
    ensures NumbersBelow(levels', f.number + 1)
    ensures Contents(Store(st.mem, None, levels')) == Contents(st)
    ensures Flushed(st.levels, levels', f.entries, f.number)
  {
    var level := PickLevelForMemTableOutput(st.levels, f, limit);
    levels', pointers' := ApplyEdit(st.levels, pointers, AddEdit(level, f));
    AddEditAdds(st.levels, levels', level, f, f.number);
    FlushKeepsInvariant(st.levels, levels', level, f, f.number);
    FlushedStore(st, Store(st.mem, None, levels'), level, f);
    AddedNumbers(st.levels, levels', level, f, f.number);
  }

  lemma ImmSorted(st: Store)
    requires StoreInvariant(st)
    ensures Sorted(ImmEntries(st.imm))
  {
  }

  /** With nothing in it, the immutable memtable can simply go. */
  lemma EmptyImmFlushed(st: Store, next: nat)
    requires StoreInvariant(st) && NumbersBelow(st.levels, next) && ImmEntries(st.imm) == []
    ensures StoreInvariant(Store(st.mem, None, st.levels)) && Contents(Store(st.mem, None, st.levels)) == Contents(st)
    ensures NumbersBelow(st.levels, next + 1)
  {
  }

  /** CompactMemTable: the immutable memtable, if not empty, becomes a table. */
  method FlushImm(st: Store, pointers: seq<Option<InternalKey>>, next: nat, limits: Limits)
    returns (levels': seq<seq<File>>, pointers': seq<Option<InternalKey>>)
    requires StoreInvariant(st) && st.imm.Some? && |pointers| == NUM_LEVELS && NumbersBelow(st.levels, next)
    ensures StoreInvariant(Store(st.mem, None, levels')) && |pointers'| == NUM_LEVELS
    ensures NumbersBelow(levels', next + 1)
    ensures Contents(Store(st.mem, None, levels')) == Contents(st)
    ensures Flushed(st.levels, levels', st.imm.value, next)
  {
    ImmSorted(st);
    var es := st.imm.value;
    if es != [] {
      var f := FinishedFile(next, es, limits.fileSize);
      assert WellFormed(f) && f.entries == es && f.number == next;
      hide *;
      levels', pointers' := FlushTable(st, pointers, f, limits.grandparentBytes);
    } else {
      levels', pointers' := st.levels, pointers;
      EmptyImmFlushed(st, next);
    }
  }

  /** Writing the same new entries to the store and to the history keeps them in agreement. */
  lemma WriteIsFaithful(stored: set<Entry>, history: set<Entry>, newer: set<Entry>, last: nat, oldest: nat)
    requires Unique(stored + newer) && Unique(history + newer)
    requires SequencesAtMost(stored, last) && SequencesAtMost(history, last)
    requires forall e | e in newer :: e.key.sequence > last
    requires SameReads(stored, history, oldest)
    ensures SameReads(stored + newer, history + newer, oldest)
  {
    forall u: UserKey, s: nat | s >= oldest
      ensures Lookup(stored + newer, u, s) == Lookup(history + newer, u, s)
    {
      NewestOnTop(stored, history, newer, last, u, s);
    }
  }

  // ------------------------------------------------------------- compactions on values

  lemma MovedNumbers(levels: seq<seq<File>>, levels': seq<seq<File>>, level: nat,
                     inputs0: seq<File>, inputs1: seq<File>, outputs: seq<File>, next: nat, next': nat)
    requires Moved(levels, levels', level, inputs0, inputs1, outputs) && NumbersBelow(levels, next)
    requires next <= next' && forall o | o in outputs :: o.number < next'
    ensures NumbersBelow(levels', next')
  {
    forall i, g | 0 <= i < |levels'| && g in levels'[i]
      ensures g.number < next'
    {
      assert g in levels[i] || g in outputs;
    }
  }

  /** The memtables stay newer than the levels, whose entries can only become fewer. */
  lemma MovedStore(st: Store, st': Store, level: nat, inputs0: seq<File>, inputs1: seq<File>, outputs: seq<File>)
    requires StoreInvariant(st) && st' == st.(levels := st'.levels) && LevelsInvariant(st'.levels)
    requires InputsUnderway(st.levels, level, inputs0, inputs1)
    requires Moved(st.levels, st'.levels, level, inputs0, inputs1, outputs) && TakenFrom(outputs, inputs0 + inputs1)
    ensures StoreInvariant(st')
  {
    hide LevelsInvariant, NewerRun, InputsUnderway, TakenFrom, Sorted, Ordered;
    forall i, f | 0 <= i < |st'.levels| && f in st'.levels[i]
      ensures NewerRun(st.mem, f.entries) && NewerRun(ImmEntries(st.imm), f.entries)
    {
      assert f in st.levels[i] || f in outputs;
      if f !in st.levels[i] {
        RunNewerThanOutputs(st, level, inputs0, inputs1, outputs, f);
      }
    }
  }

  lemma MovedStoreIff(st: Store, st': Store, level: nat, inputs0: seq<File>, inputs1: seq<File>, outputs: seq<File>)
    requires StoreInvariant(st) && st' == st.(levels := st'.levels)
    requires InputsUnderway(st.levels, level, inputs0, inputs1)
    requires Moved(st.levels, st'.levels, level, inputs0, inputs1, outputs) && TakenFrom(outputs, inputs0 + inputs1)
    ensures StoreInvariant(st') <==> LevelsInvariant(st'.levels)
  {
    if LevelsInvariant(st'.levels) {
      MovedStore(st, st', level, inputs0, inputs1, outputs);
    }
    hide LevelsInvariant, InputsUnderway, Moved, TakenFrom, NewerRun, NewerThanLevels, Sorted;
  }

  lemma RunNewerThanOutputs(st: Store, level: nat, inputs0: seq<File>, inputs1: seq<File>, outputs: seq<File>, o: File)
    requires StoreInvariant(st) && InputsUnderway(st.levels, level, inputs0, inputs1)
    requires o in outputs && TakenFrom(outputs, inputs0 + inputs1)
    ensures NewerRun(st.mem, o.entries) && NewerRun(ImmEntries(st.imm), o.entries)
  {
    forall a, b | (a in st.mem || a in ImmEntries(st.imm)) && b in o.entries && a.key.user == b.key.user
      ensures a.key.sequence > b.key.sequence
    {
      var h :| h in inputs0 + inputs1 && b in h.entries;
      MemNewerThanInput(st, level, inputs0, inputs1, h);
    }
  }

  lemma LastNumberIsFresh(levels: seq<seq<File>>, level: nat, inputs0: seq<File>, outputs: seq<File>, next: nat)
    requires NumbersBelow(levels, next)
    requires forall i | 0 <= i < |outputs| :: outputs[i].number == next + i
    ensures FreshNumbers(levels, level, inputs0, outputs)
    ensures forall m, n | 0 <= m < n < |outputs| :: outputs[m].number != outputs[n].number
    ensures forall o | o in outputs :: o.number < next + |outputs|
  {
  }

  lemma SameStored(st: Store, levels': seq<seq<File>>)
    requires Stored(levels') == Stored(st.levels)
    ensures Contents(st.(levels := levels')) == Contents(st)
  {
  }

  lemma MovedFileIsItself(levels: seq<seq<File>>, level: nat, f: File, next: nat)
    requires LevelsInvariant(levels) && InputsChosen(levels, level, [f], []) && NumbersBelow(levels, next)
    ensures level + 1 < NUM_LEVELS && (forall g | g in [f] :: g in levels[level]) && [f] + [] == [f]
    ensures FreshNumbers(levels, level, [f], [f]) && TakenFrom([f], [f] + []) && LevelSorted([f])
    ensures forall o | o in [f] :: o.number < next
  {
    assert f in [f] && f in levels[level];
    assert [f] + [] == [f];
  }

  /** The trivial move of BackgroundCompaction. */
  method MoveFile(st: Store, pointers: seq<Option<InternalKey>>, level: nat, f: File, ghost next: nat)
    returns (levels': seq<seq<File>>, pointers': seq<Option<InternalKey>>)
    requires StoreInvariant(st) && |pointers| == NUM_LEVELS && NumbersBelow(st.levels, next)
    requires InputsChosen(st.levels, level, [f], [])
    ensures StoreInvariant(st.(levels := levels')) && |pointers'| == NUM_LEVELS && NumbersBelow(levels', next)
    ensures Contents(st.(levels := levels')) == Contents(st)
    ensures Moved(st.levels, levels', level, [f], [], [f])
  {
    hide *;
    StoreLevels(st);
    MovedFileIsItself(st.levels, level, f, next);
    ChosenUnderway(st.levels, level, [f], []);
    MoveEditInRange(level, [f], [], [f]);
    levels', pointers' := ApplyEdit(st.levels, pointers, MoveEdit(level, [f], [], [f]));
    MoveEditMoves(st.levels, levels', level, [f], [], [f]);
    MovedKeepsInvariant(st.levels, levels', level, [f], [], [f]);
    MovedContents(st.levels, levels', level, [f], [], [f]);
    MovedStore(st, st.(levels := levels'), level, [f], [], [f]);
    SameStored(st, levels');
    MovedNumbers(st.levels, levels', level, [f], [], [f], next, next);
  }

  function EntriesOf(files: seq<File>): seq<seq<Entry>> {
    seq(|files|, i requires 0 <= i < |files| => files[i].entries)
  }

  lemma InputRuns(levels: seq<seq<File>>, level: nat, inputs0: seq<File>, inputs1: seq<File>)
    requires LevelsInvariant(levels) && InputsUnderway(levels, level, inputs0, inputs1)
    ensures RunsSorted(EntriesOf(inputs0 + inputs1))
    ensures RunMembers(EntriesOf(inputs0 + inputs1)) == LevelEntries(inputs0 + inputs1)
  {
    var inputs := inputs0 + inputs1;
    var runs := EntriesOf(inputs);
    forall j | 0 <= j < |runs|
      ensures Sorted(runs[j])
    {
      assert inputs[j] in inputs;
      var i := InputLevel(levels, level, inputs0, inputs1, inputs[j]);
    }
    forall e
      ensures e in RunMembers(runs) <==> e in LevelEntries(inputs)
    {
      if e in LevelEntries(inputs) {
        var f :| f in inputs && e in f.entries;
        var j :| 0 <= j < |inputs| && inputs[j] == f;
        assert e in runs[j];
      }
      if e in RunMembers(runs) {
        var j :| 0 <= j < |runs| && e in runs[j];
        assert inputs[j] in inputs;
      }
    }
  }

  lemma InputsDisjoint(levels: seq<seq<File>>, level: nat, inputs0: seq<File>, inputs1: seq<File>)
    requires LevelsInvariant(levels) && InputsUnderway(levels, level, inputs0, inputs1)
    ensures forall f | f in inputs0 :: f !in inputs1
  {
    forall f, g | f in inputs0 && g in inputs1
      ensures f != g
    {
      NewerIsOther(f, g);
    }
  }

  lemma NewerIsOther(f: File, g: File)
    requires WellFormed(f) && Newer(f, g)
    ensures f != g
  {
    assert f.entries[0] in f.entries;
  }

  /** Two inputs at different places are different files. */
  lemma InputsDistinct(inputs0: seq<File>, inputs1: seq<File>, i: nat, j: nat)
    requires DistinctFiles(inputs0) && DistinctFiles(inputs1) && forall f | f in inputs0 :: f !in inputs1
    requires i < j < |inputs0 + inputs1|
    ensures (inputs0 + inputs1)[i] != (inputs0 + inputs1)[j]
  {
    assert i < |inputs0| <= j ==> inputs0[i] in inputs0 && inputs1[j - |inputs0|] in inputs1;
  }

  lemma InputRunsApart(levels: seq<seq<File>>, level: nat, inputs0: seq<File>, inputs1: seq<File>)
    requires LevelsInvariant(levels) && InputsUnderway(levels, level, inputs0, inputs1)
    requires DistinctFiles(inputs0) && DistinctFiles(inputs1)
    ensures RunsApart(EntriesOf(inputs0 + inputs1))
  {
    InputsDisjoint(levels, level, inputs0, inputs1);
    hide LevelsInvariant, InputsUnderway, Stored, DistinctFiles;
    var inputs := inputs0 + inputs1;
    forall i, j, a, b | 0 <= i < j < |inputs| && a in inputs[i].entries && b in inputs[j].entries
      ensures a.key.user != b.key.user || a.key.sequence != b.key.sequence
    {
      assert inputs[i] in inputs && inputs[j] in inputs;
      var k := InputLevel(levels, level, inputs0, inputs1, inputs[i]);
      var l := InputLevel(levels, level, inputs0, inputs1, inputs[j]);
      InputsDistinct(inputs0, inputs1, i, j);
      if a.key.user == b.key.user && a.key.sequence == b.key.sequence {
        InputStored(levels, k, inputs[i], a);
        InputStored(levels, l, inputs[j], b);
        StoredUnique(levels, a, b);
        InSameFile(levels, k, l, inputs[i], inputs[j], a);
      }
    }
  }

  lemma InputStored(levels: seq<seq<File>>, i: nat, f: File, e: Entry)
    requires i < |levels| && f in levels[i] && e in f.entries
    ensures e in Stored(levels)
  {
  }

  /** What DoCompactionWork needs from the chosen inputs. */
  lemma InputsMergeable(levels: seq<seq<File>>, level: nat, inputs0: seq<File>, inputs1: seq<File>)
    requires LevelsInvariant(levels) && InputsUnderway(levels, level, inputs0, inputs1)
    requires DistinctFiles(inputs0) && DistinctFiles(inputs1)
    ensures RunsApart(EntriesOf(inputs0 + inputs1)) && RunsSorted(EntriesOf(inputs0 + inputs1))
    ensures RunMembers(EntriesOf(inputs0 + inputs1)) == LevelEntries(inputs0 + inputs1)
  {
    InputRuns(levels, level, inputs0, inputs1);
    InputRunsApart(levels, level, inputs0, inputs1);
  }

  lemma OutputsTaken(outputs: seq<File>, inputs: seq<File>, input: seq<Entry>, smallest: nat, levels: seq<seq<File>>,
                     level: nat)
    requires ConcatEntries(outputs) == Kept(input, |input|, smallest, levels, level) && IsMerge(input, inputs)
    ensures TakenFrom(outputs, inputs)
  {
    ConcatMembers(outputs);
    KeptMembers(input, |input|, smallest, levels, level);
    forall o, e | o in outputs && e in o.entries
      ensures exists h :: h in inputs && e in h.entries
    {
      assert e in LevelEntries(outputs);
      assert e in Kept(input, |input|, smallest, levels, level);
      assert e in LevelEntries(inputs);
    }
  }

  method Grandparents(levels: seq<seq<File>>, level: nat, inputs: seq<File>) returns (r: seq<File>)
    requires LevelsShape(levels) && level + 1 < NUM_LEVELS && inputs != []
    ensures r == if level + 2 < NUM_LEVELS
                 then Overlapping(levels[level + 2], Some(SmallestKey(inputs).user), Some(LargestKey(inputs).user))
                   else []
  {
    r := [];
    if level + 2 < NUM_LEVELS {
      var allStart, allLimit := GetRange(inputs);
      r := GetOverlappingInputs(false, levels[level + 2], Some(allStart.user), Some(allLimit.user));
    }
  }

  method MergeInputs(levels: seq<seq<File>>, level: nat, inputs0: seq<File>, inputs1: seq<File>)
    returns (input: seq<Entry>)
    requires LevelsInvariant(levels) && InputsUnderway(levels, level, inputs0, inputs1)
    requires DistinctFiles(inputs0) && DistinctFiles(inputs1)
    ensures IsMerge(input, inputs0 + inputs1)
  {
    InputsMergeable(levels, level, inputs0, inputs1);
    input := MergeAll(EntriesOf(inputs0 + inputs1));
  }

  lemma UnderwayFacts(levels: seq<seq<File>>, level: nat, inputs0: seq<File>, inputs1: seq<File>)
    requires |levels| == NUM_LEVELS && InputsUnderway(levels, level, inputs0, inputs1)
    ensures level + 1 < NUM_LEVELS && inputs0 != []
    ensures (forall f | f in inputs0 :: f in levels[level]) && (forall f | f in inputs1 :: f in levels[level + 1])
  {
  }

  /** DoCompactionWork and InstallCompactionResults.  The loop asks the input version what lies below
      the output level; the outputs go into the levels as they are by then. */
  method CompactFiles(st: Store, pointers: seq<Option<InternalKey>>, inputVersion: seq<seq<File>>, level: nat,
                      inputs0: seq<File>, inputs1: seq<File>, grandparents: seq<File>, smallest: nat, next: nat,
                      limits: Limits)
    returns (levels': seq<seq<File>>, pointers': seq<Option<InternalKey>>, next': nat,
             ghost input: seq<Entry>, ghost outputs: seq<File>)
    requires StoreInvariant(st) && |pointers| == NUM_LEVELS && NumbersBelow(st.levels, next)
    requires InputsUnderway(st.levels, level, inputs0, inputs1) && DistinctFiles(inputs0) && DistinctFiles(inputs1)
    requires LevelsShape(inputVersion) && SameBaseLevel(inputVersion, st.levels, level, LevelEntries(inputs0 + inputs1))
    ensures |pointers'| == NUM_LEVELS && NumbersBelow(levels', next')
    ensures IsMerge(input, inputs0 + inputs1) && level + 1 < |st.levels|
    ensures Installed(st, st.(levels := levels'), level, inputs0, inputs1, input, smallest, outputs)
    ensures IsCut(Kept(input, |input|, smallest, st.levels, level), next, outputs)
    ensures StoreInvariant(st.(levels := levels')) <==> RoomForOutputs(st.levels[level + 1], inputs1, outputs)
  {
    hide *;
    StoreLevels(st);
    UnderwayFacts(st.levels, level, inputs0, inputs1);
    var merged := MergeInputs(st.levels, level, inputs0, inputs1);
    SortedLevels(inputVersion);
    MergeIsSorted(merged, inputs0 + inputs1);
    var c := new Compaction(level, inputVersion, grandparents, limits.grandparentBytes);
    var files := DoCompactionWork(c, merged, smallest, next, limits.outputBytes, limits.fileSize);
    MergedBaseLevel(inputVersion, st.levels, level, merged, inputs0 + inputs1);
    SameKept(inputVersion, st.levels, level, merged, |merged|, smallest);
    OutputsTaken(files, inputs0 + inputs1, merged, smallest, st.levels, level);
    LastNumberIsFresh(st.levels, level, inputs0, files, next);
    MoveEditInRange(level, inputs0, inputs1, files);
    levels', pointers' := ApplyEdit(st.levels, pointers, MoveEdit(level, inputs0, inputs1, files));
    next' := next + |files|;
    MoveEditMoves(st.levels, levels', level, inputs0, inputs1, files);
    MovedKeepsInvariantIff(st.levels, levels', level, inputs0, inputs1, files);
    MovedStoreIff(st, st.(levels := levels'), level, inputs0, inputs1, files);
    MovedNumbers(st.levels, levels', level, inputs0, inputs1, files, next, next');
    input, outputs := merged, files;
    WasInstalled(st, st.(levels := levels'), level, inputs0, inputs1, input, smallest, outputs);
    WasCut(Kept(input, |input|, smallest, st.levels, level), next, outputs);
  }

  lemma WasCut(kept: seq<Entry>, next: nat, outputs: seq<File>)
    requires ConcatEntries(outputs) == kept && LevelSorted(outputs)
    requires forall i | 0 <= i < |outputs| :: outputs[i].number == next + i
    ensures IsCut(kept, next, outputs)
  {
  }

  lemma MergedBaseLevel(levels: seq<seq<File>>, levels': seq<seq<File>>, level: nat, input: seq<Entry>,
                        inputs: seq<File>)
    requires SameBaseLevel(levels, levels', level, LevelEntries(inputs)) && IsMerge(input, inputs)
    ensures SameBaseLevel(levels, levels', level, Members(input))
  {
    hide IsBaseLevel;
  }

  lemma SortedLevels(levels: seq<seq<File>>)
    requires LevelsShape(levels)
    ensures |levels| == NUM_LEVELS && forall lvl | 1 <= lvl < NUM_LEVELS :: LevelSorted(levels[lvl])
  {
  }

  lemma MergeIsSorted(input: seq<Entry>, inputs: seq<File>)
    requires IsMerge(input, inputs)
    ensures Sorted(input)
  {
  }

  lemma WasInstalled(st: Store, st': Store, level: nat, inputs0: seq<File>, inputs1: seq<File>,
                     input: seq<Entry>, smallest: nat, outputs: seq<File>)
    requires level + 1 < |st.levels| && st' == st.(levels := st'.levels)
    requires Moved(st.levels, st'.levels, level, inputs0, inputs1, outputs)
    requires ConcatEntries(outputs) == Kept(input, |input|, smallest, st.levels, level)
    ensures Installed(st, st', level, inputs0, inputs1, input, smallest, outputs)
  {
  }

  // ------------------------------------------------------------------ the invariant

  ghost predicate ValidFields(st: Store, pointers: seq<Option<InternalKey>>, last: SequenceNumber,
                              snapshots: seq<SequenceNumber>, next: nat, history: set<Entry>) {
    && StoreInvariant(st)
    && |pointers| == NUM_LEVELS
    && NumbersBelow(st.levels, next)
    && SequencesAtMost(Contents(st), last)
    && SequencesAtMost(history, last)
    && Unique(history)
    && (forall i, j | 0 <= i <= j < |snapshots| :: snapshots[i] <= snapshots[j])
    && (forall i | 0 <= i < |snapshots| :: snapshots[i] <= last)
  }

  lemma ValidStore(st: Store, pointers: seq<Option<InternalKey>>, last: SequenceNumber,
                   snapshots: seq<SequenceNumber>, next: nat, history: set<Entry>)
    requires ValidFields(st, pointers, last, snapshots, next, history)
    ensures StoreInvariant(st) && LevelsShape(st.levels) && |st.levels| == NUM_LEVELS
    ensures |pointers| == NUM_LEVELS && NumbersBelow(st.levels, next)
  {
  }

  lemma ReplacedStoreValid(st: Store, pointers: seq<Option<InternalKey>>, last: SequenceNumber,
                           snapshots: seq<SequenceNumber>, next: nat, history: set<Entry>,
                           st': Store, pointers': seq<Option<InternalKey>>, next': nat)
    requires ValidFields(st, pointers, last, snapshots, next, history)
    requires StoreInvariant(st') && |pointers'| == NUM_LEVELS && NumbersBelow(st'.levels, next')
    requires Contents(st') <= Contents(st)
    ensures ValidFields(st', pointers', last, snapshots, next', history)
  {
  }

  lemma ReplacedStoreValidIff(st: Store, pointers: seq<Option<InternalKey>>, last: SequenceNumber,
                              snapshots: seq<SequenceNumber>, next: nat, history: set<Entry>,
                              st': Store, pointers': seq<Option<InternalKey>>, next': nat)
    requires ValidFields(st, pointers, last, snapshots, next, history)
    requires |pointers'| == NUM_LEVELS && NumbersBelow(st'.levels, next') && Contents(st') <= Contents(st)
    ensures ValidFields(st', pointers', last, snapshots, next', history) <==> StoreInvariant(st')
  {
    hide StoreInvariant, Contents, NumbersBelow;
  }

  /** Everything a compaction promises about reads, from the installed result. */
  lemma CompactionOutcome(st: Store, st': Store, level: nat, inputs0: seq<File>, inputs1: seq<File>,
                          input: seq<Entry>, smallest: nat, outputs: seq<File>)
    requires StoreInvariant(st) && InputsUnderway(st.levels, level, inputs0, inputs1)
    requires IsMerge(input, inputs0 + inputs1)
    requires Installed(st, st', level, inputs0, inputs1, input, smallest, outputs)
    ensures Contents(st') <= Contents(st)
    ensures smallest < MAX_SEQUENCE ==>
              (SameReads(Contents(st), Contents(st'), smallest)
               <==> ExposesNothing(st, level, inputs1, input, smallest))
    ensures smallest < MAX_SEQUENCE && NoBoundaryLeft(st.levels[level + 1], inputs1) ==>
              ExposesNothing(st, level, inputs1, input, smallest)
  {
    hide *;
    if smallest < MAX_SEQUENCE {
      IsCompacting(st, level, inputs0, inputs1, input, smallest);
      CompactionPreservesReadsIff(st, st', level, inputs0, inputs1, input, smallest, outputs);
      if NoBoundaryLeft(st.levels[level + 1], inputs1) {
        BoundaryClosedExposesNothing(st, level, inputs0, inputs1, input, smallest);
      }
    }
    ContentsSplit(st, st', level, inputs0, inputs1, input, smallest, outputs);
    KeptIsSubset(input, smallest, st.levels, level);
  }

  lemma IsCompacting(st: Store, level: nat, inputs0: seq<File>, inputs1: seq<File>, input: seq<Entry>, smallest: nat)
    requires StoreInvariant(st) && InputsUnderway(st.levels, level, inputs0, inputs1)
    requires IsMerge(input, inputs0 + inputs1) && smallest < MAX_SEQUENCE
    ensures Compacting(st, level, inputs0, inputs1, input, smallest) && level + 1 < |st.levels|
  {
  }

  lemma KeptIsSubset(input: seq<Entry>, smallest: nat, levels: seq<seq<File>>, level: nat)
    ensures Members(Kept(input, |input|, smallest, levels, level)) <= Members(input)
  {
    KeptMembers(input, |input|, smallest, levels, level);
  }

  lemma NothingMerged(st: Store, level: nat, inputs1: seq<File>, smallest: nat)
    requires level + 1 < |st.levels|
    ensures ExposesNothing(st, level, inputs1, [], smallest)
    ensures SameReads(Contents(st), Contents(st), smallest)
  {
  }

  lemma SameReadsTransitive(a: set<Entry>, b: set<Entry>, c: set<Entry>, smallest: nat)
    requires SameReads(a, b, smallest) && SameReads(a, c, smallest)
    ensures SameReads(b, c, smallest)
  {
  }

  /** A compaction between choosing its inputs and installing its result, and the levels at the time it
      chose them. */
  datatype Running = Running(
    level: nat,
    inputs0: seq<File>,
    inputs1: seq<File>,
    smallest: SequenceNumber,
    inputVersion: seq<seq<File>>)

  /** The inputs are still files of the levels, with nothing of theirs flushed meanwhile; below the
      output level nothing has changed for their keys; and the snapshot that was the oldest when the
      compaction began is no newer than the oldest now. */
  ghost predicate RunningOk(levels: seq<seq<File>>, running: Option<Running>, oldest: nat) {
    running.Some? ==>
      var r := running.value;
      && r.level + 1 < |levels| && r.inputs0 != []
      && InputsUnderway(levels, r.level, r.inputs0, r.inputs1)
      && DistinctFiles(r.inputs0) && DistinctFiles(r.inputs1)
      && LevelsShape(r.inputVersion)
      && SameBaseLevel(r.inputVersion, levels, r.level, LevelEntries(r.inputs0 + r.inputs1))
      && r.smallest <= oldest
  }

  /** Writes that come after the oldest snapshot do not change what a compaction would expose. */
  lemma WritesExposeNothing(st: Store, st': Store, level: nat, inputs1: seq<File>, input: seq<Entry>, smallest: nat)
    requires level + 1 < |st.levels| && st'.levels == st.levels && Contents(st) <= Contents(st')
    requires forall e | e in Contents(st') && e !in Contents(st) :: e.key.sequence > smallest
    requires forall e | e in input :: e in Contents(st)
    ensures ExposesNothing(st, level, inputs1, input, smallest)
            <==> ExposesNothing(st', level, inputs1, input, smallest)
  {
    hide Contents, IsBaseLevel, Lookup, LeftBehind;
    forall i | 0 <= i < |input|
      ensures Exposes(st, level, inputs1, input, smallest, i) <==> Exposes(st', level, inputs1, input, smallest, i)
    {
      assert input[i] in input;
      SameNewest(Contents(st), Contents(st'), input[i].key.user, smallest, input[i]);
      SameLeftBehind(st, st', level, inputs1);
    }
  }

  lemma SameLeftBehind(st: Store, st': Store, level: nat, inputs1: seq<File>)
    requires level + 1 < |st.levels| && st'.levels == st.levels
    ensures LeftBehind(st.levels, level, inputs1) == LeftBehind(st'.levels, level, inputs1)
  {
  }

  lemma SameNewest(a: set<Entry>, b: set<Entry>, u: UserKey, s: nat, e: Entry)
    requires a <= b && e in a && forall o | o in b && o !in a :: o.key.sequence > s
    ensures IsNewest(a, u, s, e) <==> IsNewest(b, u, s, e)
  {
  }

  lemma SameReadsLater(a: set<Entry>, b: set<Entry>, smallest: nat, oldest: nat)
    requires SameReads(a, b, smallest) && smallest <= oldest
    ensures SameReads(a, b, oldest)
  {
  }

  /** No table that has come into the output level lies between the inputs. */
  ghost predicate LeavesRoom(levels: seq<seq<File>>, levels': seq<seq<File>>, running: Option<Running>) {
    running.Some? ==>
      var r := running.value;
      && r.level + 1 < |levels| == |levels'|
      && forall f | f in levels'[r.level + 1] && f !in levels[r.level + 1] :: Apart(f, r.inputs0 + r.inputs1)
  }

  /** A flush while a compaction is running: the compaction goes on, and its inputs stay as chosen
      exactly if the table does not land between them. */
  lemma FlushedUnderway(st: Store, levels': seq<seq<File>>, next: nat, running: Option<Running>, oldest: nat)
    requires StoreInvariant(st) && st.imm.Some? && NumbersBelow(st.levels, next)
             && RunningOk(st.levels, running, oldest)
    requires StoreInvariant(Store(st.mem, None, levels')) && Flushed(st.levels, levels', st.imm.value, next)
    ensures RunningOk(levels', running, oldest)
    ensures StillChosen(st.levels, running)
            ==> (StillChosen(levels', running) <==> LeavesRoom(st.levels, levels', running))
    ensures StillChosen(st.levels, running) && running.Some? && NoGap(running.value.inputs0 + running.value.inputs1)
            ==> StillChosen(levels', running)
  {
    hide LevelsInvariant, InputsChosen, InputsUnderway, DistinctFiles, NoGap, Added, Apart, NumbersBelow, ClearDownTo,
         NewerThanLevels, Sorted, NewerRun, SameBaseLevel, LevelEntries, LevelsShape;
    StoreLevels(st);
    StoreLevels(Store(st.mem, None, levels'));
    if running.Some? && st.imm.value != [] {
      var r := running.value;
      var level: nat, f: File :| level <= MAX_MEM_COMPACT_LEVEL && WellFormed(f) && f.entries == st.imm.value
        && f.number == next
        && ClearDownTo(st.levels, level, f) && Added(st.levels, levels', level, f);
      FlushKeepsUnderway(st.levels, levels', level, f, r.level, r.inputs0, r.inputs1);
      FlushKeepsBaseLevel(st.levels, levels', level, f, r.level, r.inputs0, r.inputs1);
      SameBaseLevelTransitive(r.inputVersion, st.levels, levels', r.level, LevelEntries(r.inputs0 + r.inputs1));
      AddedOnly(st.levels, levels', level, f, next, r.level + 1);
      if StillChosen(st.levels, running) {
        FlushKeepsChosenIff(st.levels, levels', level, f, r.level, r.inputs0, r.inputs1);
        if NoGap(r.inputs0 + r.inputs1) {
          NoGapIsSafe(st.levels, levels', level, f, r.level, r.inputs0, r.inputs1);
        }
      }
    }
  }

  /** No flush has come between the inputs so far. */
  ghost predicate StillChosen(levels: seq<seq<File>>, running: Option<Running>) {
    running.Some? ==> InputsChosen(levels, running.value.level, running.value.inputs0, running.value.inputs1)
  }

  /** The kept entries lie on one side of every file that stays in the output level: then the outputs
      will have room, however they are cut. */
  ghost predicate KeptOneSide(levels: seq<seq<File>>, r: Running, input: seq<Entry>)
    requires r.level + 1 < |levels|
  {
    forall g | g in levels[r.level + 1] && g !in r.inputs1 ::
      OneSideOf(Kept(input, |input|, r.smallest, levels, r.level), g)
  }

  /** Two ways to know beforehand that the outputs will have room. */
  lemma RoomFor(levels: seq<seq<File>>, r: Running, input: seq<Entry>, next: nat, outputs: seq<File>)
    requires LevelsInvariant(levels) && r.level + 1 < |levels| && IsMerge(input, r.inputs0 + r.inputs1)
    requires IsCut(Kept(input, |input|, r.smallest, levels, r.level), next, outputs)
    ensures InputsChosen(levels, r.level, r.inputs0, r.inputs1)
            ==> RoomForOutputs(levels[r.level + 1], r.inputs1, outputs)
    ensures KeptOneSide(levels, r, input) ==> RoomForOutputs(levels[r.level + 1], r.inputs1, outputs)
  {
    hide LevelsInvariant, IsMerge, RoomForOutputs, TakenFrom, Kept, InputsChosen, OneSideOf, IsCut, KeptOneSide;
    CutTaken(levels, r, input, next, outputs);
    if InputsChosen(levels, r.level, r.inputs0, r.inputs1) {
      ChosenLeavesRoom(levels, r.level, r.inputs0, r.inputs1, outputs);
    }
    if KeptOneSide(levels, r, input) {
      OneSideRoom(levels, r, input, next, outputs);
    }
  }

  lemma OneSideRoom(levels: seq<seq<File>>, r: Running, input: seq<Entry>, next: nat, outputs: seq<File>)
    requires r.level + 1 < |levels| && KeptOneSide(levels, r, input)
    requires IsCut(Kept(input, |input|, r.smallest, levels, r.level), next, outputs)
    ensures RoomForOutputs(levels[r.level + 1], r.inputs1, outputs)
  {
    hide RoomForOutputs, Kept, OneSideOf, IsCut;
    OneSideHasRoom(levels[r.level + 1], r.inputs1, Kept(input, |input|, r.smallest, levels, r.level), next, outputs);
  }

  lemma CutTaken(levels: seq<seq<File>>, r: Running, input: seq<Entry>, next: nat, outputs: seq<File>)
    requires IsMerge(input, r.inputs0 + r.inputs1)
    requires IsCut(Kept(input, |input|, r.smallest, levels, r.level), next, outputs)
    ensures TakenFrom(outputs, r.inputs0 + r.inputs1) && AllWellFormed(outputs)
  {
    hide IsMerge, TakenFrom, Kept, ConcatEntries, WellFormed;
    OutputsTaken(outputs, r.inputs0 + r.inputs1, input, r.smallest, levels, r.level);
  }

  lemma AddedOnly(levels: seq<seq<File>>, levels': seq<seq<File>>, level: nat, f: File, next: nat, i: nat)
    requires Added(levels, levels', level, f) && NumbersBelow(levels, next) && f.number == next && i < |levels|
    ensures |levels'| == |levels|
    ensures forall g :: g in levels'[i] && g !in levels[i] <==> i == level && g == f
  {
  }

  lemma RunningFacts(levels: seq<seq<File>>, running: Option<Running>, oldest: nat)
    requires RunningOk(levels, running, oldest) && running.Some?
    ensures var r := running.value;
            && r.level + 1 < |levels| && r.inputs0 != [] && r.inputs0 + r.inputs1 != []
            && InputsUnderway(levels, r.level, r.inputs0, r.inputs1)
            && DistinctFiles(r.inputs0) && DistinctFiles(r.inputs1) && r.smallest <= oldest
            && LevelsShape(r.inputVersion)
            && SameBaseLevel(r.inputVersion, levels, r.level, LevelEntries(r.inputs0 + r.inputs1))
  {
  }

  class Database {
    var running: Option<Running>
    var mem: seq<Entry>
    var imm: Option<seq<Entry>>
    var levels: seq<seq<File>>
    var compactPointers: seq<Option<InternalKey>>
    var lastSequence: SequenceNumber
    var snapshots: seq<SequenceNumber>
    var nextFileNumber: nat
    ghost var history: set<Entry>

    ghost function St(): Store
      reads this
    {
      Store(mem, imm, levels)
    }

    /** The sequence number a compaction may not look below: the oldest live snapshot. */
    function Oldest(): SequenceNumber
      reads this
    {
      if snapshots == [] then lastSequence else snapshots[0]
    }

    ghost predicate Valid()
      reads this
    {
      && ValidFields(St(), compactPointers, lastSequence, snapshots, nextFileNumber, history)
      && RunningOk(levels, running, Oldest())
    }

    /** Every read at every snapshot from the oldest live one on agrees with the history. */
    ghost predicate Faithful()
      reads this
    {
      SameReads(Contents(St()), history, Oldest())
    }

    constructor ()
      ensures Valid() && Faithful() && history == {} && snapshots == [] && running.None?
    {
      running := None;
      mem, imm := [], None;
      levels := seq(NUM_LEVELS, _ => []);
      compactPointers := seq(NUM_LEVELS, _ => None);
      lastSequence, snapshots, nextFileNumber := 0, [], 2;
      history := {};
      new;
      assert Contents(St()) == {};
    }

    /** DBImpl::Get. */
    method Get(u: UserKey, snapshot: Option<SequenceNumber>) returns (r: Option<Bytes>)
      requires Valid() && (snapshot.Some? ==> snapshot.value in snapshots)
      ensures var s := if snapshot.Some? then snapshot.value else lastSequence;
              && r == Lookup(Contents(St()), u, s)
              && (Faithful() ==> r == Lookup(history, u, s))
    {
      var s := if snapshot.Some? then snapshot.value else lastSequence;
      var e := StoreGet(Store(mem, imm, levels), u, s);
      ContentsUnique(St());
      LookupIs(Contents(St()), u, s, e);
      r := ValueOf(e);
    }

    method GetSnapshot() returns (s: SequenceNumber)
      requires Valid()
      modifies this`snapshots
      ensures Valid() && s == lastSequence && snapshots == old(snapshots) + [s]
      ensures Oldest() == old(Oldest()) && (old(Faithful()) ==> Faithful())
    {
      hide StoreInvariant, SequencesAtMost, Unique, Contents, NumbersBelow, InputsChosen, DistinctFiles;
      s := lastSequence;
      snapshots := snapshots + [s];
    }

    method ReleaseSnapshot(i: nat)
      requires Valid() && i < |snapshots|
      modifies this`snapshots
      ensures Valid() && snapshots == old(snapshots)[..i] + old(snapshots)[i + 1..]
      ensures Oldest() >= old(Oldest()) && (old(Faithful()) ==> Faithful())
    {
      hide StoreInvariant, SequencesAtMost, Unique, Contents, NumbersBelow, InputsChosen, DistinctFiles;
      snapshots := snapshots[..i] + snapshots[i + 1..];
    }

    /** Write, for a batch that is already at the head of the queue: each operation gets the next
        sequence number, and LastSequence moves once, after all of them are in. */
    method Write(ops: seq<Operation<UserKey>>)
      requires Valid() && lastSequence + |ops| <= MAX_SEQUENCE
      modifies this`mem, this`lastSequence, this`history
      ensures Valid() && lastSequence == old(lastSequence) + |ops|
      ensures history == old(history) + BatchEntries(old(lastSequence), ops)
      ensures Contents(St()) == old(Contents(St())) + BatchEntries(old(lastSequence), ops)
      ensures old(Faithful()) ==> Faithful()
    {
      hide StoreInvariant, InputsChosen, DistinctFiles;
      ghost var last, before, oldHistory := lastSequence, Contents(St()), history;
      ghost var added := BatchEntries(lastSequence, ops);
      mem := InsertBatch(Store(mem, imm, levels), lastSequence, ops);
      lastSequence := lastSequence + |ops|;
      history := history + added;
      BatchUnique(last, ops);
      ContentsUnique(St());
      if SameReads(before, oldHistory, old(Oldest())) {
        WriteIsFaithful(before, oldHistory, added, last, old(Oldest()));
      }
    }

    /** The part of MakeRoomForWrite that retires a full memtable. */
    method SwitchMemTable()
      requires Valid() && imm.None?
      modifies this`mem, this`imm
      ensures Valid() && imm == Some(old(mem)) && mem == []
      ensures Contents(St()) == old(Contents(St()))
    {
      hide StoreInvariant, Contents, SequencesAtMost, Unique, NumbersBelow, InputsChosen, DistinctFiles;
      Switched(St());
      imm := Some(mem);
      mem := [];
    }

    /** CompactMemTable: the immutable memtable, if not empty, becomes a table.  In the middle of a
        compaction it may go into the output level, and even between the inputs, unless they leave no
        gap. */
    method CompactMemTable(limits: Limits)
      requires Valid() && imm.Some?
      modifies this`imm, this`levels, this`compactPointers, this`nextFileNumber
      ensures Valid() && imm == None
      ensures old(StillChosen(levels, running)) ==>
                (StillChosen(levels, running) <==> LeavesRoom(old(levels), levels, running))
      ensures old(StillChosen(levels, running)) && running.Some? && NoGap(running.value.inputs0 + running.value.inputs1)
              ==> StillChosen(levels, running)
      ensures Contents(St()) == old(Contents(St())) && (old(Faithful()) ==> Faithful())
      ensures Flushed(old(levels), levels, old(imm).value, old(nextFileNumber))
              && nextFileNumber == old(nextFileNumber) + 1
    {
      hide StoreInvariant, ValidFields, Contents, NumbersBelow, Flushed, RunningOk, LeavesRoom, NoGap, SameReads,
           StillChosen;
      ghost var st, pointers, next := St(), compactPointers, nextFileNumber;
      ValidStore(st, pointers, lastSequence, snapshots, next, history);
      levels, compactPointers := FlushImm(Store(mem, imm, levels), compactPointers, nextFileNumber, limits);
      imm := None;
      nextFileNumber := nextFileNumber + 1;
      ReplacedStoreValid(st, pointers, lastSequence, snapshots, next, history, St(), compactPointers, nextFileNumber);
      FlushedUnderway(st, levels, next, running, Oldest());
    }

    /** PickCompaction or CompactRange, then SetupOtherInputs. */
    method ChooseInputs(level: nat, request: Request, limits: Limits) returns (inputs0: seq<File>, inputs1: seq<File>)
      requires Valid() && level + 1 < NUM_LEVELS
      requires request.Automatic? ==> request.start < |levels[level]|
      ensures inputs0 != [] ==> InputsChosen(levels, level, inputs0, inputs1)
      ensures DistinctFiles(inputs0) && DistinctFiles(inputs1)
      ensures request.Automatic? ==> inputs0 != [] && NoGap(inputs0 + inputs1)
    {
      hide NoGap;
      var chosen;
      match request {
        case Automatic(start) =>
          chosen := PickInputs(level == 0, levels[level], start);
        case Manual(begin, end) =>
          chosen := RangeInputs(level == 0, levels[level], begin, end, limits.rangeBytes);
      }
      inputs0, inputs1 := [], [];
      if chosen != [] {
        ghost var first;
        inputs0, inputs1, first :=
          SetupOtherInputs(level == 0, levels[level], levels[level + 1], chosen, limits.expandedBytes);
        SelectedDistinct(level == 0, levels[level], inputs0);
        OverlappingDistinct(levels[level + 1], UserRange(inputs0).0, UserRange(inputs0).1);
      }
    }

    /** BackgroundCompaction up to the point where it releases the mutex: it chooses the inputs, and
        either moves the one file down at once or notes the oldest snapshot and goes to work. */
    method BeginCompaction(level: nat, request: Request, limits: Limits)
      returns (ghost inputs0: seq<File>, ghost inputs1: seq<File>)
      requires Valid() && imm.None? && running.None? && level + 1 < NUM_LEVELS
      requires request.Automatic? ==> request.start < |levels[level]|
      modifies this`levels, this`compactPointers, this`running
      ensures Valid() && |old(levels)| == NUM_LEVELS
      ensures inputs0 == [] ==> levels == old(levels) && running.None?
      ensures inputs0 != [] ==> InputsChosen(old(levels), level, inputs0, inputs1)
      ensures inputs0 != [] && running.None? ==>
                |inputs0| == 1 && inputs1 == [] && Moved(old(levels), levels, level, inputs0, [], inputs0)
      ensures running.Some? ==>
                running.value == Running(level, inputs0, inputs1, Oldest(), levels) && levels == old(levels)
                  && StillChosen(levels, running)
      ensures request.Automatic? ==> NoGap(inputs0 + inputs1)
      ensures Contents(St()) == old(Contents(St())) && (old(Faithful()) ==> Faithful())
    {
      hide StoreInvariant, ValidFields, SameReads, InputsChosen, DistinctFiles, Contents, LevelsShape, NumbersBelow,
           Moved, IsMerge, RunningOk;
      ghost var st, pointers, next := St(), compactPointers, nextFileNumber;
      ValidStore(st, pointers, lastSequence, snapshots, next, history);
      NothingRunning(levels, Oldest());
      var in0, in1 := ChooseInputs(level, request, limits);
      inputs0, inputs1 := in0, in1;
      if in0 == [] {
        return;
      }
      var grandparents := Grandparents(levels, level, in0 + in1);
      var grandparentBytes := TotalFileSize(grandparents);
      if request.Automatic? && |in0| == 1 && |in1| == 0 && grandparentBytes <= limits.grandparentBytes {
        assert in0 == [in0[0]] && in1 == [];
        levels, compactPointers := MoveFile(Store(mem, imm, levels), compactPointers, level, in0[0], nextFileNumber);
        ReplacedStoreValid(st, pointers, lastSequence, snapshots, next, history, St(), compactPointers, nextFileNumber);
        NothingRunning(levels, Oldest());
      } else {
        running := Some(Running(level, in0, in1, Oldest(), levels));
        ChosenIsRunning(levels, running.value, Oldest());
      }
    }

    /** The rest of it, with any writes, reads, snapshots and flushes in between: the merge loop, under
        the snapshot noted at the beginning, and the installation of its outputs in the levels as they
        are now.  The structure survives exactly if the outputs have room beside what was flushed; that
        is so if nothing has been flushed between the inputs, or if the kept entries all lie on one side
        of it. */
    method FinishCompaction(limits: Limits) returns (ghost input: seq<Entry>, ghost outputs: seq<File>)
      requires Valid() && running.Some?
      modifies this`levels, this`compactPointers, this`nextFileNumber, this`running
      ensures running.None? && |old(levels)| == NUM_LEVELS
      ensures var r := old(running).value;
              && r.level + 1 < NUM_LEVELS
              && IsMerge(input, r.inputs0 + r.inputs1)
              && Installed(old(St()), St(), r.level, r.inputs0, r.inputs1, input, r.smallest, outputs)
              && (Valid() <==> RoomForOutputs(old(levels)[r.level + 1], r.inputs1, outputs))
              && (old(StillChosen(levels, running)) ==> Valid())
              && (KeptOneSide(old(levels), r, input) ==> Valid())
              && Contents(St()) <= old(Contents(St()))
              && (r.smallest < MAX_SEQUENCE ==>
                    (SameReads(old(Contents(St())), Contents(St()), r.smallest)
                     <==> ExposesNothing(old(St()), r.level, r.inputs1, input, r.smallest)))
              && (r.smallest < MAX_SEQUENCE && NoBoundaryLeft(old(levels)[r.level + 1], r.inputs1)
                  ==> ExposesNothing(old(St()), r.level, r.inputs1, input, r.smallest))
              && (old(Faithful()) && r.smallest < MAX_SEQUENCE
                  && ExposesNothing(old(St()), r.level, r.inputs1, input, r.smallest)
                  ==> Faithful())
    {
      hide StoreInvariant, ValidFields, SameReads, ExposesNothing, InputsChosen, InputsUnderway, DistinctFiles,
           NoBoundaryLeft, Contents, Installed, LevelsShape, NumbersBelow, Moved, IsMerge, RunningOk, SameBaseLevel,
           RoomForOutputs, KeptOneSide, IsCut, Kept;
      ghost var st, pointers, next := St(), compactPointers, nextFileNumber;
      ValidStore(st, pointers, lastSequence, snapshots, next, history);
      StoreLevels(st);
      RunningFacts(levels, running, Oldest());
      var r := running.value;
      var grandparents := Grandparents(r.inputVersion, r.level, r.inputs0 + r.inputs1);
      levels, compactPointers, nextFileNumber, input, outputs :=
        CompactFiles(Store(mem, imm, levels), compactPointers, r.inputVersion, r.level, r.inputs0, r.inputs1,
                     grandparents, r.smallest, nextFileNumber, limits);
      running := None;
      RoomFor(st.levels, r, input, next, outputs);
      CompactionOutcome(st, St(), r.level, r.inputs0, r.inputs1, input, r.smallest, outputs);
      ReplacedStoreValidIff(st, pointers, lastSequence, snapshots, next, history, St(), compactPointers,
                            nextFileNumber);
      NothingRunning(levels, Oldest());
      if SameReads(Contents(st), history, Oldest()) && SameReads(Contents(st), Contents(St()), r.smallest) {
        SameReadsLater(Contents(st), Contents(St()), r.smallest, Oldest());
        SameReadsTransitive(Contents(st), Contents(St()), history, Oldest());
      }
    }

    /** A compaction that failed: nothing is installed. */
    method AbandonCompaction()
      requires Valid()
      modifies this`running
      ensures Valid() && running.None? && (old(Faithful()) ==> Faithful())
    {
      hide ValidFields, SameReads;
      running := None;
    }

    /** BackgroundCompaction from beginning to end, with no immutable memtable waiting.  The structure
        survives whatever is compacted.  Reads survive exactly when no dropped marker exposes a value
        left behind in the output level, in particular when no file there continues inputs_[1]. */
    method BackgroundCompaction(level: nat, request: Request, limits: Limits)
      returns (ghost inputs0: seq<File>, ghost inputs1: seq<File>, ghost input: seq<Entry>, ghost outputs: seq<File>)
      requires Valid() && imm.None? && running.None? && level + 1 < NUM_LEVELS
      requires request.Automatic? ==> request.start < |levels[level]|
      modifies this`levels, this`compactPointers, this`nextFileNumber, this`running
      ensures Valid() && running.None? && |old(levels)| == NUM_LEVELS
      ensures inputs0 == [] ==> levels == old(levels)
      ensures inputs0 != [] ==> InputsChosen(old(levels), level, inputs0, inputs1)
      ensures inputs0 != [] ==>
                || (|inputs0| == 1 && inputs1 == [] && input == []
                    && Moved(old(levels), levels, level, inputs0, [], inputs0))
                || (IsMerge(input, inputs0 + inputs1)
                    && Installed(old(St()), St(), level, inputs0, inputs1, input, Oldest(), outputs))
      ensures Oldest() < MAX_SEQUENCE ==>
                (SameReads(old(Contents(St())), Contents(St()), Oldest())
                 <==> ExposesNothing(old(St()), level, inputs1, input, Oldest()))
      ensures Oldest() < MAX_SEQUENCE && NoBoundaryLeft(old(levels)[level + 1], inputs1)
              ==> ExposesNothing(old(St()), level, inputs1, input, Oldest())
      ensures old(Faithful()) && Oldest() < MAX_SEQUENCE && ExposesNothing(old(St()), level, inputs1, input, Oldest())
              ==> Faithful()
    {
      hide ValidFields, SameReads, ExposesNothing, InputsChosen, NoBoundaryLeft, Contents, Installed, Moved, IsMerge,
           RunningOk;
      ghost var st := St();
      inputs0, inputs1 := BeginCompaction(level, request, limits);
      input, outputs := [], [];
      NothingMerged(st, level, inputs1, Oldest());
      AllReadsSame(Contents(st), Oldest());
      if running.Some? {
        input, outputs := FinishCompaction(limits);
      }
    }
  }

  /** A memtable that is retired leaves an empty one in its place. */
  lemma Switched(st: Store)
    requires StoreInvariant(st) && st.imm.None?
    ensures StoreInvariant(Store([], Some(st.mem), st.levels))
    ensures Contents(Store([], Some(st.mem), st.levels)) == Contents(st)
  {
    hide LevelsInvariant;
  }

  lemma ChosenIsRunning(levels: seq<seq<File>>, r: Running, oldest: nat)
    requires InputsChosen(levels, r.level, r.inputs0, r.inputs1) && DistinctFiles(r.inputs0) && DistinctFiles(r.inputs1)
    requires LevelsShape(levels) && r.inputVersion == levels && r.smallest <= oldest
    ensures RunningOk(levels, Some(r), oldest)
  {
    ChosenUnderway(levels, r.level, r.inputs0, r.inputs1);
  }

  lemma NothingRunning(levels: seq<seq<File>>, oldest: nat)
    ensures RunningOk(levels, None, oldest)
  {
  }

  lemma AllReadsSame(es: set<Entry>, smallest: nat)
    ensures SameReads(es, es, smallest)
  {
  }

  /** The store after a flush: the table holds what the immutable memtable held. */
  lemma FlushedStore(st: Store, st': Store, level: nat, f: File)
    requires StoreInvariant(st) && st.imm == Some(f.entries)
    requires LevelsInvariant(st'.levels) && Stored(st'.levels) == Stored(st.levels) + Members(f.entries)
    requires Added(st.levels, st'.levels, level, f)
    requires st'.mem == st.mem && st'.imm == None
    ensures StoreInvariant(st') && Contents(st') == Contents(st)
  {
    hide LevelsInvariant, Ordered, Contents;
    FlushedContents(st, st', f);
    forall i, g | 0 <= i < |st'.levels| && g in st'.levels[i]
      ensures NewerRun(st.mem, g.entries)
    {
      hide NewerRun;
      assert g in st.levels[i] || g == f;
    }
  }

  lemma FlushedContents(st: Store, st': Store, f: File)
    requires st.imm == Some(f.entries) && st'.mem == st.mem && st'.imm == None
    requires Stored(st'.levels) == Stored(st.levels) + Members(f.entries)
    ensures Contents(st') == Contents(st)
  {
  }

  lemma AddedNumbers(levels: seq<seq<File>>, levels': seq<seq<File>>, level: nat, f: File, next: nat)
    requires Added(levels, levels', level, f) && NumbersBelow(levels, next) && f.number == next
    ensures NumbersBelow(levels', next + 1)
  {
    forall i, g | 0 <= i < |levels'| && g in levels'[i]
      ensures g.number < next + 1
    {
      assert g in levels[i] || g == f;
    }
  }
}
