// The compaction loop (db/db_impl.cc: DoCompactionWork) and the cursors it keeps in a Compaction
// (db/version_set.cc: IsBaseLevelForKey, ShouldStopBefore).
module CompactionWork {
  import opened DbFormat
  import opened Reads
  import opened Tables

  /** No level below the output level has a file whose user-key range takes in u. */
  ghost predicate IsBaseLevel(levels: seq<seq<File>>, level: nat, u: UserKey) {
    forall lvl, f | level + 2 <= lvl < |levels| && f in levels[lvl] :: !(f.smallest.user <= u <= f.largest.user)
  }

  class Compaction {
    const level: nat
    const levels: seq<seq<File>>
    const grandparents: seq<File>
    const maxGrandParentOverlapBytes: nat
    var levelPtrs: seq<nat>
    var grandparentIndex: nat
    var seenKey: bool
    var overlappedBytes: nat

    ghost predicate Valid()
      reads this
    {
      && |levels| == |levelPtrs| == NUM_LEVELS
      && (forall lvl | 1 <= lvl < NUM_LEVELS :: LevelSorted(levels[lvl]))
      && (forall lvl | 0 <= lvl < NUM_LEVELS :: levelPtrs[lvl] <= |levels[lvl]|)
      && grandparentIndex <= |grandparents|
    }

    /** The cursors have skipped only files that end before u. */
    ghost predicate Passed(u: UserKey)
      requires Valid()
      reads this
    {
      forall lvl, i | level + 2 <= lvl < NUM_LEVELS && 0 <= i < levelPtrs[lvl] :: levels[lvl][i].largest.user < u
    }

    constructor (level: nat, levels: seq<seq<File>>, grandparents: seq<File>, limit: nat)
      requires |levels| == NUM_LEVELS && forall lvl | 1 <= lvl < NUM_LEVELS :: LevelSorted(levels[lvl])
      ensures Valid() && forall u: UserKey :: Passed(u)
      ensures this.level == level && this.levels == levels && this.grandparents == grandparents
    {
      this.level, this.levels, this.grandparents, maxGrandParentOverlapBytes := level, levels, grandparents, limit;
      levelPtrs := seq(NUM_LEVELS, _ => 0);
      grandparentIndex, seenKey, overlappedBytes := 0, false, 0;
    }

    /** The advancing cursors answer as a scan of all deeper levels would, as long as the keys
        asked about never go down. */
    method IsBaseLevelForKey(u: UserKey) returns (r: bool)
      requires Valid() && Passed(u)
      modifies this`levelPtrs
      ensures Valid() && Passed(u)
      ensures r <==> IsBaseLevel(levels, level, u)
    {
      var lvl := level + 2;
      while lvl < NUM_LEVELS
        invariant level + 2 <= lvl
        invariant Valid() && Passed(u)
        invariant forall l, f | level + 2 <= l < lvl && l < NUM_LEVELS && f in levels[l] ::
                    !(f.smallest.user <= u <= f.largest.user)
        decreases NUM_LEVELS - lvl
      {
        var files := levels[lvl];
        while levelPtrs[lvl] < |files|
          invariant Valid() && Passed(u)
          decreases |files| - levelPtrs[lvl]
        {
          var f := files[levelPtrs[lvl]];
          if u <= f.largest.user {
            if u >= f.smallest.user {
              return false;
            }
            break;
          }
          levelPtrs := levelPtrs[lvl := levelPtrs[lvl] + 1];
        }
        NotCovered(files, levelPtrs[lvl], u);
        lvl := lvl + 1;
      }
      return true;
    }

    /** Moves past the grandparents that end before key, counting their bytes. */
    method ShouldStopBefore(key: InternalKey) returns (r: bool)
      requires Valid()
      modifies this`grandparentIndex, this`seenKey, this`overlappedBytes
      ensures Valid() && seenKey && overlappedBytes <= maxGrandParentOverlapBytes
      ensures grandparentIndex >= old(grandparentIndex)
      ensures forall i | old(grandparentIndex) <= i < grandparentIndex :: Before(grandparents[i].largest, key)
      ensures grandparentIndex < |grandparents| ==> !Before(grandparents[grandparentIndex].largest, key)
      ensures var bytes := old(overlappedBytes) + if old(seenKey)
              then SizeSum(grandparents[old(grandparentIndex)..grandparentIndex]) else 0;
              && (r <==> bytes > maxGrandParentOverlapBytes)
              && overlappedBytes == if r then 0 else bytes
    {
      assert grandparents[grandparentIndex..grandparentIndex] == [];
      while grandparentIndex < |grandparents| && Compare(key, grandparents[grandparentIndex].largest) > 0
        invariant Valid() && grandparentIndex >= old(grandparentIndex)
        invariant forall i | old(grandparentIndex) <= i < grandparentIndex :: Before(grandparents[i].largest, key)
        invariant seenKey == old(seenKey)
        invariant overlappedBytes == old(overlappedBytes)
                    + if seenKey then SizeSum(grandparents[old(grandparentIndex)..grandparentIndex]) else 0
        decreases |grandparents| - grandparentIndex
      {
        ghost var passed := grandparents[old(grandparentIndex)..grandparentIndex + 1];
        assert passed[..|passed| - 1] == grandparents[old(grandparentIndex)..grandparentIndex];
        if seenKey {
          overlappedBytes := overlappedBytes + grandparents[grandparentIndex].size;
        }
        grandparentIndex := grandparentIndex + 1;
      }
      seenKey := true;
      if overlappedBytes > maxGrandParentOverlapBytes {
        overlappedBytes := 0;
        return true;
      }
      return false;
    }
  }

  lemma NotCovered(files: seq<File>, p: nat, u: UserKey)
    requires LevelSorted(files) && p <= |files|
    requires forall i | 0 <= i < p :: files[i].largest.user < u
    requires p < |files| ==> u < files[p].smallest.user
    ensures forall f | f in files :: !(f.smallest.user <= u <= f.largest.user)
  {
    forall i | 0 <= i < |files|
      ensures !(files[i].smallest.user <= u <= files[i].largest.user)
    {
      if p < i {
        LargestOrdered(files, p, i);
      }
    }
  }

  // --------------------------------------------------------------------- which entries go

  /** last_sequence_for_key when the loop reaches entry i. */
  function LastSequenceForKey(input: seq<Entry>, i: nat): SequenceNumber
    requires i < |input|
  {
    if i > 0 && input[i - 1].key.user == input[i].key.user then input[i - 1].key.sequence else MAX_SEQUENCE
  }

  /** Rule (A): hidden by a newer entry.  Second rule: an obsolete deletion marker. */
  ghost predicate Drops(input: seq<Entry>, i: nat, smallest: nat, levels: seq<seq<File>>, level: nat)
    requires i < |input|
  {
    var k := input[i].key;
    || LastSequenceForKey(input, i) <= smallest
    || (k.kind.Deletion? && k.sequence <= smallest && IsBaseLevel(levels, level, k.user))
  }

  ghost function Kept(input: seq<Entry>, n: nat, smallest: nat, levels: seq<seq<File>>, level: nat): seq<Entry>
    requires n <= |input|
  {
    if n == 0 then []
    else
      Kept(input, n - 1, smallest, levels, level)
      + if Drops(input, n - 1, smallest, levels, level) then [] else [input[n - 1]]
  }

  lemma {:induction false} KeptMembers(input: seq<Entry>, n: nat, smallest: nat, levels: seq<seq<File>>, level: nat)
    requires n <= |input|
    ensures forall e :: e in Kept(input, n, smallest, levels, level)
                        <==> exists i :: 0 <= i < n && input[i] == e && !Drops(input, i, smallest, levels, level)
  {
    if n == 0 {
    } else {
      KeptMembers(input, n - 1, smallest, levels, level);
      assert Kept(input, n, smallest, levels, level)
             == Kept(input, n - 1, smallest, levels, level)
                + if Drops(input, n - 1, smallest, levels, level) then [] else [input[n - 1]];
    }
  }

  lemma {:induction false} KeptSorted(input: seq<Entry>, n: nat, smallest: nat, levels: seq<seq<File>>, level: nat)
    requires n <= |input| && Sorted(input)
    ensures Sorted(Kept(input, n, smallest, levels, level))
  {
    if n == 0 {
    } else {
      KeptSorted(input, n - 1, smallest, levels, level);
      KeptMembers(input, n - 1, smallest, levels, level);
      var front := Kept(input, n - 1, smallest, levels, level);
      forall k | 0 <= k < |front|
        ensures Precedes(front[k].key, input[n - 1].key)
      {
        assert front[k] in front;
      }
    }
  }

  lemma SameUserBetween(input: seq<Entry>, i: nat, j: nat)
    requires Sorted(input) && i < j < |input| && input[i].key.user == input[j].key.user
    ensures input[j - 1].key.user == input[j].key.user && input[j - 1].key.sequence <= input[i].key.sequence
  {
    if i < j - 1 {
      assert Precedes(input[i].key, input[j - 1].key) && Precedes(input[j - 1].key, input[j].key);
    }
  }

  /** The entry the loop drops is hidden, or it is an obsolete marker of a base-level key. */
  lemma DropIsSafe(input: seq<Entry>, i: nat, smallest: nat, levels: seq<seq<File>>, level: nat)
    requires Sorted(input) && i < |input| && smallest < MAX_SEQUENCE
    requires Drops(input, i, smallest, levels, level)
    ensures var e := input[i];
            || Hidden(Members(input), e, smallest)
            || (Obsolete(Members(Kept(input, |input|, smallest, levels, level)), e, smallest)
                && IsBaseLevel(levels, level, e.key.user))
  {
    var e := input[i];
    if LastSequenceForKey(input, i) <= smallest {
      var n := input[i - 1];
      assert n in Members(input) && Precedes(n.key, e.key);
    } else {
      KeptMembers(input, |input|, smallest, levels, level);
      forall o | o in Kept(input, |input|, smallest, levels, level) && o.key.user == e.key.user
        ensures o.key.sequence >= e.key.sequence
      {
        var j :| 0 <= j < |input| && input[j] == o && !Drops(input, j, smallest, levels, level);
        if i < j {
          SameUserBetween(input, i, j);
        }
      }
    }
  }

  lemma DropsAreSafe(input: seq<Entry>, smallest: nat, levels: seq<seq<File>>, level: nat)
    requires Sorted(input) && smallest < MAX_SEQUENCE
    ensures SafeDrops(Members(input), Members(Kept(input, |input|, smallest, levels, level)), smallest)
  {
    KeptMembers(input, |input|, smallest, levels, level);
    forall e | e in Members(input) && e !in Members(Kept(input, |input|, smallest, levels, level))
      ensures || Hidden(Members(input), e, smallest)
              || Obsolete(Members(Kept(input, |input|, smallest, levels, level)), e, smallest)
    {
      var i :| 0 <= i < |input| && input[i] == e;
      DropIsSafe(input, i, smallest, levels, level);
    }
  }

  /** Rule (A) takes MAX_SEQUENCE for "none seen yet": a snapshot that high drops every entry of any
      input. */
  lemma {:induction false} SentinelSnapshotDropsAll(input: seq<Entry>, n: nat, levels: seq<seq<File>>, level: nat)
    requires n <= |input|
    ensures Kept(input, n, MAX_SEQUENCE, levels, level) == []
  {
    if n == 0 {
    } else {
      SentinelSnapshotDropsAll(input, n - 1, levels, level);
      assert Drops(input, n - 1, MAX_SEQUENCE, levels, level);
    }
  }

  /** The newest input entry of every user key is a deletion marker. */
  ghost predicate NewestAreDeletions(es: set<Entry>) {
    forall e | e in es && IsNewest(es, e.key.user, MAX_SEQUENCE, e) :: e.key.kind.Deletion?
  }

  /** Dropping everything is safe exactly if nothing is left to be read. */
  lemma NothingKeptIsSafeIff(es: set<Entry>)
    ensures SafeDrops(es, {}, MAX_SEQUENCE) <==> NewestAreDeletions(es)
  {
    forall e | e in es
      ensures Hidden(es, e, MAX_SEQUENCE) <==> !IsNewest(es, e.key.user, MAX_SEQUENCE, e)
    {
      if !IsNewest(es, e.key.user, MAX_SEQUENCE, e) {
        var o :| o in es && Visible(o, e.key.user, MAX_SEQUENCE) && o.key.sequence > e.key.sequence;
      }
    }
    if SafeDrops(es, {}, MAX_SEQUENCE) {
      forall e | e in es && IsNewest(es, e.key.user, MAX_SEQUENCE, e)
        ensures e.key.kind.Deletion?
      {
        assert Hidden(es, e, MAX_SEQUENCE) || Obsolete({}, e, MAX_SEQUENCE);
      }
    }
  }

  /** When the drops of the loop are safe: below the sentinel always, at the sentinel only if every
      user key's newest entry is a deletion marker anyway. */
  lemma DropsAreSafeIff(input: seq<Entry>, smallest: SequenceNumber, levels: seq<seq<File>>, level: nat)
    requires Sorted(input)
    ensures SafeDrops(Members(input), Members(Kept(input, |input|, smallest, levels, level)), smallest)
            <==> smallest < MAX_SEQUENCE || NewestAreDeletions(Members(input))
  {
    hide SafeDrops, Kept, NewestAreDeletions;
    if smallest < MAX_SEQUENCE {
      DropsAreSafe(input, smallest, levels, level);
    } else {
      SentinelSnapshotDropsAll(input, |input|, levels, level);
      NothingKeptIsSafeIff(Members(input));
      var nothing: seq<Entry> := [];
      assert Members(nothing) == {} && smallest == MAX_SEQUENCE;
    }
  }

  // --------------------------------------------------------------------------- output files

  ghost function ConcatEntries(files: seq<File>): seq<Entry> {
    if files == [] then [] else ConcatEntries(files[..|files| - 1]) + files[|files| - 1].entries
  }

  lemma {:induction false} ConcatMembers(files: seq<File>)
    ensures Members(ConcatEntries(files)) == LevelEntries(files)
  {
    if files == [] {
    } else {
      var front := files[..|files| - 1];
      var last := files[|files| - 1];
      ConcatMembers(front);
      assert forall f :: f in files <==> f in front || f == last;
      assert LevelEntries(files) == LevelEntries(front) + Members(last.entries);
      assert Members(ConcatEntries(files)) == Members(ConcatEntries(front)) + Members(last.entries);
    }
  }

  /** Cutting a sorted run into non-empty pieces gives a sorted level. */
  lemma {:induction false} PiecesSorted(files: seq<File>)
    requires AllWellFormed(files) && Sorted(ConcatEntries(files))
    ensures LevelSorted(files)
  {
    if files == [] {
    } else {
      var n := |files| - 1;
      var front := files[..n];
      var last := files[n];
      var all := ConcatEntries(files);
      var cut := |ConcatEntries(front)|;
      assert all[..cut] == ConcatEntries(front) && all[cut..] == last.entries;
      assert Sorted(all[..cut]);
      PiecesSorted(front);
      ConcatMembers(front);
      assert last in files;
      forall i | 0 <= i < n
        ensures Precedes(files[i].largest, last.smallest)
      {
        var f := front[i];
        assert f in front && WellFormed(f);
        var e := f.entries[|f.entries| - 1];
        assert f in front && e in f.entries && e in LevelEntries(front);
        assert e in Members(all[..cut]);
        var k :| 0 <= k < cut && all[k] == e;
        assert all[cut] == last.entries[0];
      }
    }
  }

  /** What FinishCompactionOutputFile leaves: a file holding the entries added to the builder. */
  function FinishedFile(number: nat, builder: seq<Entry>, fileSize: seq<Entry> -> nat): File
    requires builder != []
  {
    File(number, fileSize(builder), builder[0].key, builder[|builder| - 1].key, builder)
  }

  lemma SortedPiece(a: seq<Entry>, b: seq<Entry>)
    requires Sorted(a + b)
    ensures Sorted(a) && Sorted(b)
  {
    forall i, j | 0 <= i < j < |a|
      ensures Precedes(a[i].key, a[j].key)
    {
      assert (a + b)[i] == a[i] && (a + b)[j] == a[j];
    }
    forall i, j | 0 <= i < j < |b|
      ensures Precedes(b[i].key, b[j].key)
    {
      assert (a + b)[|a| + i] == b[i] && (a + b)[|a| + j] == b[j];
    }
  }

  /** The output files finished so far and the entries of the open one. */
  datatype Outputs = Outputs(files: seq<File>, builder: seq<Entry>)

  ghost predicate Holds(o: Outputs, first: nat, kept: seq<Entry>) {
    && AllWellFormed(o.files)
    && ConcatEntries(o.files) + o.builder == kept
    && forall i | 0 <= i < |o.files| :: o.files[i].number == first + i
  }

  /** FinishCompactionOutputFile: closes the open output, whose number follows the last one. */
  method FinishOutput(o: Outputs, first: nat, ghost kept: seq<Entry>, fileSize: seq<Entry> -> nat) returns (r: Outputs)
    requires Holds(o, first, kept) && Sorted(kept) && o.builder != []
    ensures Holds(r, first, kept) && r.builder == []
  {
    SortedPiece(ConcatEntries(o.files), o.builder);
    r := Outputs(o.files + [FinishedFile(first + |o.files|, o.builder, fileSize)], []);
    assert r.files[..|o.files|] == o.files;
  }

  /** Adds a kept entry, closing the output if it is now big enough. */
  method AddEntry(o: Outputs, first: nat, e: Entry, ghost kept: seq<Entry>, maxOutputFileSize: nat,
                  fileSize: seq<Entry> -> nat)
    returns (r: Outputs)
    requires Holds(o, first, kept) && Sorted(kept + [e])
    ensures Holds(r, first, kept + [e])
  {
    r := o.(builder := o.builder + [e]);
    assert Holds(r, first, kept + [e]);
    if fileSize(r.builder) >= maxOutputFileSize {
      r := FinishOutput(r, first, kept + [e], fileSize);
    }
  }

  lemma NothingHeld(first: nat, input: seq<Entry>, smallest: nat, levels: seq<seq<File>>, level: nat)
    ensures Holds(Outputs([], []), first, Kept(input, 0, smallest, levels, level))
  {
  }

  lemma KeptStep(input: seq<Entry>, n: nat, smallest: nat, levels: seq<seq<File>>, level: nat)
    requires n < |input|
    ensures Kept(input, n + 1, smallest, levels, level)
            == if Drops(input, n, smallest, levels, level) then Kept(input, n, smallest, levels, level)
               else Kept(input, n, smallest, levels, level) + [input[n]]
  {
    hide Drops;
  }

  lemma AllFinished(o: Outputs, first: nat, kept: seq<Entry>)
    requires Holds(o, first, kept) && o.builder == []
    ensures ConcatEntries(o.files) == kept && AllWellFormed(o.files)
    ensures forall i | 0 <= i < |o.files| :: o.files[i].number == first + i
  {
  }

  /** The two rules of the loop, for entry i; the user key and the sequence number that the loop
      remembers are those of the entry before. */
  method DecideDrop(c: Compaction, input: seq<Entry>, i: nat, smallest: nat,
                    currentUserKey: UserKey, hasCurrentUserKey: bool, lastSequenceForKey: SequenceNumber)
    returns (drop: bool)
    requires c.Valid() && i < |input| && c.Passed(input[i].key.user)
    requires hasCurrentUserKey <==> i > 0
    requires i > 0 ==> currentUserKey == input[i - 1].key.user && lastSequenceForKey == input[i - 1].key.sequence
    modifies c`levelPtrs
    ensures c.Valid() && c.Passed(input[i].key.user)
    ensures drop <==> Drops(input, i, smallest, c.levels, c.level)
  {
    hide LevelSorted, IsBaseLevel;
    var e := input[i];
    var last := if !hasCurrentUserKey || e.key.user != currentUserKey then MAX_SEQUENCE else lastSequenceForKey;
    drop := false;
    if last <= smallest {
      drop := true;
    } else if e.key.kind.Deletion? && e.key.sequence <= smallest {
      drop := c.IsBaseLevelForKey(e.key.user);
    }
  }

  /** DoCompactionWork.  input is the merged sorted input; fileSize and maxOutputFileSize decide
      where a finished output is big enough.  However the outputs are cut, together they hold
      exactly the kept entries, in order. */
  method DoCompactionWork(c: Compaction, input: seq<Entry>, smallest: nat, nextFileNumber: nat,
                          maxOutputFileSize: nat, fileSize: seq<Entry> -> nat)
    returns (outputs: seq<File>)
    requires c.Valid() && (forall u: UserKey :: c.Passed(u)) && Sorted(input)
    modifies c
    ensures ConcatEntries(outputs) == Kept(input, |input|, smallest, c.levels, c.level)
    ensures LevelSorted(outputs)
    ensures forall i | 0 <= i < |outputs| :: outputs[i].number == nextFileNumber + i
  {
    hide AllWellFormed, ConcatEntries, LevelSorted, IsBaseLevel, Kept, Holds, Drops, SizeSum;
    var o := Outputs([], []);
    NothingHeld(nextFileNumber, input, smallest, c.levels, c.level);
    var currentUserKey: UserKey := 0;
    var hasCurrentUserKey := false;
    var lastSequenceForKey: SequenceNumber := MAX_SEQUENCE;
    for i := 0 to |input|
      invariant c.Valid() && (i < |input| ==> c.Passed(input[i].key.user))
      invariant hasCurrentUserKey <==> i > 0
      invariant i > 0 ==> currentUserKey == input[i - 1].key.user && lastSequenceForKey == input[i - 1].key.sequence
      invariant Holds(o, nextFileNumber, Kept(input, i, smallest, c.levels, c.level))
    {
      var e := input[i];
      ghost var kept := Kept(input, i, smallest, c.levels, c.level);
      KeptStep(input, i, smallest, c.levels, c.level);
      KeptSorted(input, i, smallest, c.levels, c.level);
      KeptSorted(input, i + 1, smallest, c.levels, c.level);
      var stop := c.ShouldStopBefore(e.key);
      if stop && o.builder != [] {
        o := FinishOutput(o, nextFileNumber, kept, fileSize);
      }
      var drop := DecideDrop(c, input, i, smallest, currentUserKey, hasCurrentUserKey, lastSequenceForKey);
      currentUserKey, hasCurrentUserKey, lastSequenceForKey := e.key.user, true, e.key.sequence;
      if !drop {
        o := AddEntry(o, nextFileNumber, e, kept, maxOutputFileSize, fileSize);
      }
      if i + 1 < |input| {
        assert Precedes(e.key, input[i + 1].key);
      }
    }
    KeptSorted(input, |input|, smallest, c.levels, c.level);
    if o.builder != [] {
      o := FinishOutput(o, nextFileNumber, Kept(input, |input|, smallest, c.levels, c.level), fileSize);
    }
    outputs := o.files;
    AllFinished(o, nextFileNumber, Kept(input, |input|, smallest, c.levels, c.level));
    PiecesSorted(outputs);
  }
}
