// Building a compaction's two input sets (db/version_set.cc: PickCompaction, CompactRange,
// SetupOtherInputs), and what makes them safe to compact.
module CompactionSetup {
  import opened Wrappers
  import opened DbFormat
  import opened Tables
  import opened CompactionInputs
  import opened InputGaps

  /** For every user key, all of g is newer than all of f. */
  ghost predicate Newer(g: File, f: File) {
    forall d, e | d in g.entries && e in f.entries && d.key.user == e.key.user :: d.key.sequence > e.key.sequence
  }

  /** No file left behind in the level holds anything older than what leaves it. */
  ghost predicate UpperClosed(files: seq<File>, inputs: seq<File>) {
    && (forall f | f in inputs :: f in files)
    && forall f, g | f in inputs && g in files && g !in inputs :: Newer(g, f)
  }

  /** g lies wholly before or wholly after all the inputs, as ranges of internal keys. */
  ghost predicate Apart(g: File, inputs: seq<File>) {
    || (forall f | f in inputs :: Precedes(g.largest, f.smallest))
    || (forall f | f in inputs :: Precedes(f.largest, g.smallest))
  }

  /** The files of the next level that stay leave room for the outputs. */
  ghost predicate LowerClosed(files: seq<File>, inputs0: seq<File>, inputs1: seq<File>) {
    && (forall f | f in inputs1 :: f in files)
    && forall g | g in files && g !in inputs1 :: Apart(g, inputs0 + inputs1)
  }

  /** The shapes a level's input set takes: range-closed on level 0, consecutive elsewhere. */
  ghost predicate Selected(levelZero: bool, files: seq<File>, inputs: seq<File>) {
    && inputs != []
    && if levelZero then exists lo, hi :: RangeClosed(files, lo, hi) && inputs == Overlapping(files, lo, hi)
       else exists a :: IsSegment(files, inputs, a)
  }

  lemma SelectedMembers(levelZero: bool, files: seq<File>, inputs: seq<File>)
    requires Selected(levelZero, files, inputs)
    ensures forall f | f in inputs :: f in files
  {
    if levelZero {
      var lo, hi :| RangeClosed(files, lo, hi) && inputs == Overlapping(files, lo, hi);
      OverlappingMembers(files, lo, hi);
    }
  }

  ghost predicate DistinctFiles(files: seq<File>) {
    forall i, j | 0 <= i < j < |files| :: files[i] != files[j]
  }

  lemma {:induction false} OverlappingDistinct(files: seq<File>, lo: Bound, hi: Bound)
    requires DistinctFiles(files)
    ensures DistinctFiles(Overlapping(files, lo, hi))
  {
    if files == [] {
    } else {
      var n := |files| - 1;
      var front := files[..n];
      OverlappingDistinct(front, lo, hi);
      OverlappingMembers(front, lo, hi);
      var found := Overlapping(front, lo, hi);
      forall i | 0 <= i < |found|
        ensures found[i] != files[n]
      {
        assert found[i] in found;
        var k :| 0 <= k < n && front[k] == found[i];
      }
    }
  }

  lemma SelectedDistinct(levelZero: bool, files: seq<File>, inputs: seq<File>)
    requires Selected(levelZero, files, inputs) && DistinctFiles(files)
    ensures DistinctFiles(inputs)
  {
    if levelZero {
      var lo, hi :| RangeClosed(files, lo, hi) && inputs == Overlapping(files, lo, hi);
      OverlappingDistinct(files, lo, hi);
    } else {
      var a: nat :| IsSegment(files, inputs, a);
      assert forall i | 0 <= i < |inputs| :: inputs[i] == files[a + i];
    }
  }

  /** On level 0 the range closure already takes in every boundary file. */
  lemma LevelZeroHasNoBoundary(files: seq<File>, inputs: seq<File>)
    requires AllWellFormed(files) && Selected(true, files, inputs)
    ensures NoBoundaryLeft(files, inputs)
  {
    var lo, hi :| RangeClosed(files, lo, hi) && inputs == Overlapping(files, lo, hi);
    OverlappingMembers(files, lo, hi);
    var i := LargestKeyIs(inputs);
    assert inputs[i] in inputs;
    forall g | g in files
      ensures !IsBoundary(g, LargestKey(inputs))
    {
      RangeOrdered(g);
      RangeOrdered(inputs[i]);
      if g in inputs {
        var j :| 0 <= j < |inputs| && inputs[j] == g;
        assert !Before(LargestKey(inputs), g.largest);
      }
    }
  }

  lemma LevelZeroClosed(files: seq<File>, inputs: seq<File>)
    requires AllWellFormed(files) && Selected(true, files, inputs)
    ensures UpperClosed(files, inputs)
  {
    var lo, hi :| RangeClosed(files, lo, hi) && inputs == Overlapping(files, lo, hi);
    OverlappingMembers(files, lo, hi);
    forall f, g | f in inputs && g in files && g !in inputs
      ensures Newer(g, f)
    {
      forall d, e | d in g.entries && e in f.entries
        ensures d.key.user != e.key.user
      {
        EntryInRange(g, d);
        EntryInRange(f, e);
      }
    }
  }

  lemma SegmentClosedPair(files: seq<File>, inputs: seq<File>, a: nat, i: nat, j: nat)
    requires LevelSorted(files) && IsSegment(files, inputs, a) && inputs != [] && NoBoundaryLeft(files, inputs)
    requires a <= i < a + |inputs| && j < |files| && !(a <= j < a + |inputs|)
    ensures Newer(files[j], files[i])
  {
    var f, g := files[i], files[j];
    var n := a + |inputs|;
    SegmentRange(files, inputs, a);
    if j > i {
      // the next file of the level does not continue the last user key of the inputs
      assert Precedes(files[n - 1].largest, files[n].smallest) && files[n] in files;
      if i < n - 1 {
        LargestOrdered(files, i, n - 1);
      }
      if n < j {
        LargestOrdered(files, n, j);
      }
      assert f.largest.user < g.smallest.user;
    }
    forall d, e | d in g.entries && e in f.entries && d.key.user == e.key.user
      ensures d.key.sequence > e.key.sequence
    {
      EntryInRange(g, d);
      EntryInRange(f, e);
    }
  }

  lemma SegmentContains(files: seq<File>, inputs: seq<File>, a: nat, j: nat)
    requires IsSegment(files, inputs, a) && a <= j < a + |inputs|
    ensures files[j] in inputs
  {
    assert inputs[j - a] == files[j];
  }

  lemma SegmentClosed(files: seq<File>, inputs: seq<File>)
    requires LevelSorted(files) && Selected(false, files, inputs) && NoBoundaryLeft(files, inputs)
    ensures UpperClosed(files, inputs)
  {
    var a: nat :| IsSegment(files, inputs, a);
    SelectedMembers(false, files, inputs);
    hide LevelSorted, Selected, NoBoundaryLeft, IsSegment, Newer;
    forall f, g | f in inputs && g in files && g !in inputs
      ensures Newer(g, f)
    {
      SegmentClosedFiles(files, inputs, a, f, g);
    }
  }

  lemma SegmentClosedFiles(files: seq<File>, inputs: seq<File>, a: nat, f: File, g: File)
    requires LevelSorted(files) && IsSegment(files, inputs, a) && NoBoundaryLeft(files, inputs)
    requires f in inputs && g in files && g !in inputs
    ensures Newer(g, f)
  {
    var i :| 0 <= i < |inputs| && inputs[i] == f;
    var j :| 0 <= j < |files| && files[j] == g;
    assert files[a + i] == f;
    hide LevelSorted, NoBoundaryLeft, Newer;
    if a <= j < a + |inputs| {
      SegmentContains(files, inputs, a, j);
    }
    SegmentClosedPair(files, inputs, a, a + i, j);
  }

  /** Whatever way the inputs were chosen, boundary files make them upward closed. */
  lemma SelectedClosed(levelZero: bool, files: seq<File>, inputs: seq<File>)
    requires AllWellFormed(files) && (!levelZero ==> LevelSorted(files))
    requires Selected(levelZero, files, inputs) && NoBoundaryLeft(files, inputs)
    ensures UpperClosed(files, inputs)
  {
    if levelZero {
      LevelZeroClosed(files, inputs);
    } else {
      SegmentClosed(files, inputs);
    }
  }

  function UserRange(files: seq<File>): (Bound, Bound)
    requires files != []
  {
    (Some(SmallestKey(files).user), Some(LargestKey(files).user))
  }

  function OverlappingRange(files: seq<File>, inputs: seq<File>): seq<File>
    requires inputs != []
  {
    Overlapping(files, UserRange(inputs).0, UserRange(inputs).1)
  }

  lemma UserRangeCovers(files: seq<File>, f: File)
    requires AllWellFormed(files) && f in files
    ensures Within(f, UserRange(files).0, UserRange(files).1)
    ensures Overlaps(f, UserRange(files).0, UserRange(files).1)
  {
    var i :| 0 <= i < |files| && files[i] == f;
    var s := SmallestKeyIs(files);
    var l := LargestKeyIs(files);
    RangeOrdered(f);
  }

  lemma ApartBelow(files: seq<File>, f: File, g: File)
    requires LevelSorted(files) && f in files && g in files && g.largest.user < f.largest.user
    ensures Precedes(g.largest, f.smallest)
  {
    var i :| 0 <= i < |files| && files[i] == f;
    var j :| 0 <= j < |files| && files[j] == g;
    RangeOrdered(g);
    RangeOrdered(f);
  }

  lemma ApartAbove(files: seq<File>, f: File, g: File)
    requires LevelSorted(files) && f in files && g in files && f.smallest.user < g.smallest.user
    ensures Precedes(f.largest, g.smallest)
  {
    var i :| 0 <= i < |files| && files[i] == f;
    var j :| 0 <= j < |files| && files[j] == g;
    RangeOrdered(g);
    RangeOrdered(f);
  }

  /** Taking every next-level file that overlaps the upper inputs leaves the rest apart. */
  lemma OverlapClosesLower(files: seq<File>, inputs0: seq<File>)
    requires LevelSorted(files) && AllWellFormed(inputs0) && inputs0 != []
    ensures LowerClosed(files, inputs0, OverlappingRange(files, inputs0))
  {
    var (lo, hi) := UserRange(inputs0);
    var inputs1 := OverlappingRange(files, inputs0);
    OverlappingMembers(files, lo, hi);
    forall g | g in files && g !in inputs1
      ensures Apart(g, inputs0 + inputs1)
    {
      forall f | f in inputs0 + inputs1
        ensures if AfterFile(lo, g) then Precedes(g.largest, f.smallest) else Precedes(f.largest, g.smallest)
      {
        if f in inputs0 {
          UserRangeCovers(inputs0, f);
        } else if AfterFile(lo, g) {
          ApartBelow(files, f, g);
        } else {
          ApartAbove(files, f, g);
        }
      }
    }
  }

  // ------------------------------------------------------------------ choosing inputs

  /** The range that an answer of GetOverlappingInputs belongs to. */
  lemma SelectedWith(levelZero: bool, files: seq<File>, begin: Bound, end: Bound, inputs: seq<File>)
    returns (lo: Bound, hi: Bound)
    requires !levelZero ==> inputs == Overlapping(files, begin, end)
    requires levelZero ==> exists lo, hi ::
             LeastClosed(files, begin, end, lo, hi) && inputs == Overlapping(files, lo, hi)
    ensures inputs == Overlapping(files, lo, hi)
    ensures if levelZero then LeastClosed(files, begin, end, lo, hi) else lo == begin && hi == end
  {
    if levelZero {
      lo, hi :| LeastClosed(files, begin, end, lo, hi) && inputs == Overlapping(files, lo, hi);
    } else {
      lo, hi := begin, end;
    }
  }

  /** PickCompaction, once the level and the starting file are chosen. */
  method PickInputs(levelZero: bool, files: seq<File>, start: nat) returns (inputs: seq<File>)
    requires start < |files| && AllWellFormed(files)
    ensures Selected(levelZero, files, inputs) && files[start] in inputs
    ensures NoGap(inputs)
  {
    var f := files[start];
    inputs := [f];
    assert IsSegment(files, inputs, start);
    if levelZero {
      RangeOrdered(f);
      inputs := GetOverlappingInputs(true, files, Some(f.smallest.user), Some(f.largest.user));
      ghost var lo, hi := SelectedWith(true, files, Some(f.smallest.user), Some(f.largest.user), inputs);
      OverlappingMembers(files, lo, hi);
      assert Overlaps(f, lo, hi);
      LeastKeepsNoGap(files, [f], lo, hi);
      SameFilesNoGap(inputs + [f], inputs);
    }
  }

  /** CompactRange: the overlapping files, cut off at a byte limit except on level 0. */
  method RangeInputs(levelZero: bool, files: seq<File>, begin: Bound, end: Bound, limit: nat)
    returns (inputs: seq<File>)
    requires AllWellFormed(files) && (!levelZero ==> LevelSorted(files))
    ensures inputs == [] ==> forall f | f in files :: !Overlaps(f, begin, end)
    ensures inputs != [] ==> Selected(levelZero, files, inputs)
    ensures !levelZero ==> inputs <= Overlapping(files, begin, end)
  {
    hide AllWellFormed, LevelSorted, Overlapping, RangeClosed;
    inputs := GetOverlappingInputs(levelZero, files, begin, end);
    ghost var lo, hi := SelectedWith(levelZero, files, begin, end, inputs);
    OverlappingMembers(files, lo, hi);
    if !levelZero {
      ghost var a := OverlappingIsSegment(files, lo, hi);
      var total := 0;
      var i := 0;
      while i < |inputs|
        invariant i <= |inputs|
        invariant IsSegment(files, inputs, a) && inputs <= Overlapping(files, begin, end)
        invariant Overlapping(files, begin, end) != [] ==> inputs != []
      {
        total := total + inputs[i].size;
        if total >= limit {
          inputs := inputs[..i + 1];
          assert IsSegment(files, inputs, a);
          break;
        }
        i := i + 1;
      }
      assert IsSegment(files, inputs, a);
    }
  }

  /** The grown upper inputs contain the old ones, so they reach at least as far. */
  lemma ExpansionCovers(levelZero: bool, files: seq<File>, inputs0: seq<File>, inputs1: seq<File>, expanded: seq<File>,
                        lo: Bound, hi: Bound)
    requires AllWellFormed(files) && AllWellFormed(inputs1) && inputs0 != []
    requires forall f | f in inputs0 :: f in files
    requires Wider(UserRange(inputs0 + inputs1).0, UserRange(inputs0 + inputs1).1, lo, hi)
    requires Overlapping(files, lo, hi) <= expanded
    ensures expanded != [] && forall f | f in inputs0 :: f in expanded
    ensures Wider(UserRange(inputs0).0, UserRange(inputs0).1, UserRange(expanded).0, UserRange(expanded).1)
  {
    OverlappingMembers(files, lo, hi);
    forall f | f in inputs0
      ensures f in expanded
    {
      UserRangeCovers(inputs0 + inputs1, f);
      assert f in Overlapping(files, lo, hi);
    }
    var s := SmallestKeyIs(inputs0);
    var l := LargestKeyIs(inputs0);
    assert inputs0[s] in inputs0 && inputs0[l] in inputs0;
    var i :| 0 <= i < |expanded| && expanded[i] == inputs0[s];
    var j :| 0 <= j < |expanded| && expanded[j] == inputs0[l];
    var s' := SmallestKeyIs(expanded);
    var l' := LargestKeyIs(expanded);
  }

  /** GetOverlappingInputs followed by AddBoundaryInputs, over a bounded range. */
  method SelectRange(levelZero: bool, files: seq<File>, begin: Bound, end: Bound)
    returns (inputs: seq<File>, ghost lo: Bound, ghost hi: Bound)
    requires AllWellFormed(files) && (!levelZero ==> LevelSorted(files))
    ensures Wider(begin, end, lo, hi) && Overlapping(files, lo, hi) <= inputs
    ensures if levelZero then LeastClosed(files, begin, end, lo, hi) else lo == begin && hi == end
    ensures Chained(Overlapping(files, lo, hi), inputs) && forall f | f in inputs :: f in files
    ensures inputs != [] ==> Selected(levelZero, files, inputs) && NoBoundaryLeft(files, inputs)
  {
    var overlapping;
    overlapping := GetOverlappingInputs(levelZero, files, begin, end);
    lo, hi := SelectedWith(levelZero, files, begin, end, overlapping);
    OverlappingMembers(files, lo, hi);
    if levelZero && overlapping != [] {
      LevelZeroHasNoBoundary(files, overlapping);
    }
    inputs := AddBoundaryInputs(files, overlapping);
    if !levelZero {
      ghost var a := OverlappingIsSegment(files, lo, hi);
      assert IsSegment(files, inputs, a);
    }
  }

  /** Growing inputs_[0] over what both inputs span leaves no gap. */
  lemma ExpandedNoGap(levelZero: bool, files: seq<File>, inputs0: seq<File>, inputs1: seq<File>, expanded: seq<File>,
                      lo: Bound, hi: Bound)
    requires inputs0 != [] && AllWellFormed(inputs0) && AllWellFormed(inputs1) && AllWellFormed(expanded)
    requires forall f | f in inputs0 :: f in expanded
    requires var (begin, end) := UserRange(inputs0 + inputs1);
      if levelZero then LeastClosed(files, begin, end, lo, hi) else lo == begin && hi == end
    requires Chained(Overlapping(files, lo, hi), expanded) && NoGap(inputs0 + inputs1)
    ensures NoGap(expanded + inputs1)
  {
    var base, overlapping := inputs0 + inputs1, Overlapping(files, lo, hi);
    if levelZero {
      LeastKeepsNoGap(files, base, lo, hi);
    } else {
      OverlappingKeepsNoGap(files, base);
    }
    ChainKeepsNoGap(overlapping, expanded, base);
    SameFilesNoGap(expanded + base, expanded + inputs1);
  }

  /** The first inputs_[0] with its boundary files, and the files of the next level that overlap it. */
  lemma FirstNoGap(files0: seq<File>, files1: seq<File>, chosen: seq<File>, first: seq<File>)
    requires NoGap(chosen) && Chained(chosen, first) && AllWellFormed(first) && first != []
    ensures NoGap(first + OverlappingRange(files1, first))
  {
    assert chosen + [] == chosen && first + [] == first;
    ChainKeepsNoGap(chosen, first, []);
    OverlappingKeepsNoGap(files1, first);
    SameFilesNoGap(OverlappingRange(files1, first) + first, first + OverlappingRange(files1, first));
  }

  lemma SameFilesNoGap(some: seq<File>, same: seq<File>)
    requires NoGap(some) && forall f :: f in some <==> f in same
    ensures NoGap(same)
  {
    TouchingKeepsNoGap(some, same);
  }

  /** The part of SetupOtherInputs that tries to grow inputs_[0]: it never changes inputs_[1]. */
  method GrowInputs(levelZero: bool, files0: seq<File>, files1: seq<File>, inputs0: seq<File>, inputs1: seq<File>,
                    expandedLimit: nat)
    returns (grown0: seq<File>, grown1: seq<File>)
    requires AllWellFormed(files0) && (!levelZero ==> LevelSorted(files0)) && LevelSorted(files1)
    requires Selected(levelZero, files0, inputs0) && NoBoundaryLeft(files0, inputs0)
    requires inputs1 == OverlappingRange(files1, inputs0)
    ensures Selected(levelZero, files0, grown0) && NoBoundaryLeft(files0, grown0)
    ensures forall f | f in inputs0 :: f in grown0
    ensures grown1 == inputs1 == OverlappingRange(files1, grown0)
    ensures NoGap(inputs0 + inputs1) ==> NoGap(grown0 + grown1)
  {
    grown0, grown1 := inputs0, inputs1;
    if |inputs1| == 0 {
      return;
    }
    SelectedMembers(levelZero, files0, inputs0);
    OverlappingMembers(files1, UserRange(inputs0).0, UserRange(inputs0).1);
    var allStart, allLimit := GetRange(inputs0 + inputs1);
    var expanded0;
    ghost var lo, hi;
    expanded0, lo, hi := SelectRange(levelZero, files0, Some(allStart.user), Some(allLimit.user));
    var inputs1Size := TotalFileSize(inputs1);
    var expanded0Size := TotalFileSize(expanded0);
    ExpansionCovers(levelZero, files0, inputs0, inputs1, expanded0, lo, hi);
    if |expanded0| > |inputs0| && inputs1Size + expanded0Size < expandedLimit {
      var newStart, newLimit := GetRange(expanded0);
      var expanded1;
      expanded1 := GetOverlappingInputs(false, files1, Some(newStart.user), Some(newLimit.user));
      OverlappingGrows(files1, UserRange(inputs0).0, UserRange(inputs0).1, Some(newStart.user), Some(newLimit.user));
      if |expanded1| == |inputs1| {
        if NoGap(inputs0 + inputs1) {
          ExpandedNoGap(levelZero, files0, inputs0, inputs1, expanded0, lo, hi);
        }
        grown0, grown1 := expanded0, expanded1;
      }
    }
  }

  /** SetupOtherInputs.  first is inputs_[0] once its boundary files are in; growing inputs_[0]
      afterwards leaves inputs_[1] as it was. */
  method SetupOtherInputs(levelZero: bool, files0: seq<File>, files1: seq<File>, chosen: seq<File>, expandedLimit: nat)
    returns (inputs0: seq<File>, inputs1: seq<File>, ghost first: seq<File>)
    requires AllWellFormed(files0) && (!levelZero ==> LevelSorted(files0)) && LevelSorted(files1)
    requires Selected(levelZero, files0, chosen)
    ensures chosen <= first && (forall f | f in first :: f in inputs0)
    ensures Selected(levelZero, files0, inputs0)
    ensures NoBoundaryLeft(files0, inputs0) && UpperClosed(files0, inputs0)
    ensures LowerClosed(files1, inputs0, inputs1)
    ensures inputs1 == OverlappingRange(files1, first) == OverlappingRange(files1, inputs0)
    ensures NoGap(chosen) ==> NoGap(inputs0 + inputs1)
  {
    hide NoGap, LowerClosed, UpperClosed, RangeClosed, Chained;
    SelectedMembers(levelZero, files0, chosen);
    if levelZero {
      LevelZeroHasNoBoundary(files0, chosen);
    }
    inputs0 := AddBoundaryInputs(files0, chosen);
    first := inputs0;
    if !levelZero {
      ghost var a: nat :| IsSegment(files0, chosen, a);
      assert IsSegment(files0, inputs0, a);
    }
    var smallest, largest := GetRange(inputs0);
    inputs1 := GetOverlappingInputs(false, files1, Some(smallest.user), Some(largest.user));
    if NoGap(chosen) {
      FirstNoGap(files0, files1, chosen, inputs0);
    }
    inputs0, inputs1 := GrowInputs(levelZero, files0, files1, inputs0, inputs1, expandedLimit);
    SelectedMembers(levelZero, files0, inputs0);
    SelectedClosed(levelZero, files0, inputs0);
    OverlapClosesLower(files1, inputs0);
  }
}
