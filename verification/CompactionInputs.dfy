// Choosing what a compaction reads (db/version_set.cc: GetOverlappingInputs, AddBoundaryInputs,
// SetupOtherInputs).
module CompactionInputs {
  import opened Wrappers
  import opened DbFormat
  import opened Tables

  // --------------------------------------------------------- GetOverlappingInputs

  /** The files that overlap [lo, hi], in list order. */
  function Overlapping(files: seq<File>, lo: Bound, hi: Bound): seq<File> {
    if files == [] then []
    else
      var last := files[|files| - 1];
      Overlapping(files[..|files| - 1], lo, hi) + if Overlaps(last, lo, hi) then [last] else []
  }

  lemma {:induction false} OverlappingMembers(files: seq<File>, lo: Bound, hi: Bound)
    ensures forall f :: f in Overlapping(files, lo, hi) <==> f in files && Overlaps(f, lo, hi)
  {
    if files == [] {
    } else {
      var last := files[|files| - 1];
      OverlappingMembers(files[..|files| - 1], lo, hi);
      assert forall f :: f in files <==> f in files[..|files| - 1] || f == last;
    }
  }

  /** [lo', hi'] contains [lo, hi]. */
  predicate Wider(lo: Bound, hi: Bound, lo': Bound, hi': Bound) {
    && (lo'.None? || (lo.Some? && lo'.value <= lo.value))
    && (hi'.None? || (hi.Some? && hi.value <= hi'.value))
  }

  predicate Within(f: File, lo: Bound, hi: Bound) {
    Wider(Some(f.smallest.user), Some(f.largest.user), lo, hi)
  }

  /** Every file that overlaps [lo, hi] lies inside it. */
  ghost predicate RangeClosed(files: seq<File>, lo: Bound, hi: Bound) {
    forall f | f in files && Overlaps(f, lo, hi) :: Within(f, lo, hi)
  }

  /** [lo, hi] is the least range-closed interval that contains [begin, end]. */
  ghost predicate LeastClosed(files: seq<File>, begin: Bound, end: Bound, lo: Bound, hi: Bound) {
    && Wider(begin, end, lo, hi)
    && RangeClosed(files, lo, hi)
    && InsideClosed(files, begin, end, lo, hi)
  }

  /** [lo, hi] lies inside every range-closed interval that contains [begin, end]. */
  ghost predicate InsideClosed(files: seq<File>, begin: Bound, end: Bound, lo: Bound, hi: Bound) {
    forall lo', hi' | Wider(begin, end, lo', hi') && RangeClosed(files, lo', hi') :: Wider(lo, hi, lo', hi')
  }

  /** Stretched to a file that overlaps it, it still does. */
  lemma StretchedInside(files: seq<File>, begin: Bound, end: Bound, lo: Bound, hi: Bound, f: File)
    requires InsideClosed(files, begin, end, lo, hi) && f in files && Overlaps(f, lo, hi)
    ensures InsideClosed(files, begin, end, Some(f.smallest.user), hi) || lo.None? || lo.value <= f.smallest.user
    ensures InsideClosed(files, begin, end, lo, Some(f.largest.user)) || hi.None? || hi.value >= f.largest.user
  {
    forall lo', hi' | Wider(begin, end, lo', hi') && RangeClosed(files, lo', hi')
      ensures Within(f, lo', hi')
    {
      assert Wider(lo, hi, lo', hi') && Overlaps(f, lo', hi');
    }
  }

  /** How many files stick out of [lo, hi] below, and how many above. */
  ghost function Outside(files: seq<File>, lo: Bound, hi: Bound): nat {
    if files == [] then 0
    else
      Outside(files[1..], lo, hi)
      + (if BeforeLow(files[0], lo) then 1 else 0) + (if AfterHigh(files[0], hi) then 1 else 0)
  }

  predicate BeforeLow(f: File, lo: Bound) {
    lo.Some? && f.smallest.user < lo.value
  }

  predicate AfterHigh(f: File, hi: Bound) {
    hi.Some? && f.largest.user > hi.value
  }

  lemma {:induction false} OutsideShrinks(files: seq<File>, lo: Bound, hi: Bound, lo': Bound, hi': Bound)
    requires Wider(lo, hi, lo', hi')
    ensures Outside(files, lo', hi') <= Outside(files, lo, hi)
    ensures (exists f :: f in files
                         && ((BeforeLow(f, lo) && !BeforeLow(f, lo')) || (AfterHigh(f, hi) && !AfterHigh(f, hi'))))
            ==> Outside(files, lo', hi') < Outside(files, lo, hi)
  {
    if files == [] {
    } else {
      OutsideShrinks(files[1..], lo, hi, lo', hi');
    }
  }

  lemma InsideItself(files: seq<File>, begin: Bound, end: Bound)
    ensures InsideClosed(files, begin, end, begin, end)
  {
  }

  method GetOverlappingInputs(levelZero: bool, files: seq<File>, begin: Bound, end: Bound) returns (inputs: seq<File>)
    requires AllWellFormed(files)
    ensures !levelZero ==> inputs == Overlapping(files, begin, end)
    ensures levelZero ==> exists lo, hi ::
            LeastClosed(files, begin, end, lo, hi) && inputs == Overlapping(files, lo, hi)
  {
    hide InsideClosed;
    InsideItself(files, begin, end);
    inputs := [];
    var userBegin, userEnd := begin, end;
    var i := 0;
    while i < |files|
      invariant i <= |files|
      invariant inputs == Overlapping(files[..i], userBegin, userEnd)
      invariant Wider(begin, end, userBegin, userEnd)
      invariant if levelZero then
                  && RangeClosed(files[..i], userBegin, userEnd)
                  && InsideClosed(files, begin, end, userBegin, userEnd)
                else userBegin == begin && userEnd == end
      decreases Outside(files, userBegin, userEnd), |files| - i
    {
      var f := files[i];
      i := i + 1;
      assert files[..i] == files[..i - 1] + [f];
      assert files[..i][..i - 1] == files[..i - 1];
      if AfterFile(userBegin, f) {
        // completely before the range; skip it
      } else if BeforeFile(userEnd, f) {
        // completely after the range; skip it
      } else {
        inputs := inputs + [f];
        if levelZero {
          RangeOrdered(f);
          StretchedInside(files, begin, end, userBegin, userEnd, f);
          if BeforeLow(f, userBegin) {
            OutsideShrinks(files, userBegin, userEnd, Some(f.smallest.user), userEnd);
            userBegin := Some(f.smallest.user);
            inputs := [];
            i := 0;
          } else if AfterHigh(f, userEnd) {
            OutsideShrinks(files, userBegin, userEnd, userBegin, Some(f.largest.user));
            userEnd := Some(f.largest.user);
            inputs := [];
            i := 0;
          }
        }
      }
    }
    assert files[..i] == files;
    assert levelZero ==> LeastClosed(files, begin, end, userBegin, userEnd);
  }

  /** A wider interval selects more files, and the very same ones if as many. */
  lemma {:induction false} OverlappingGrows(files: seq<File>, lo: Bound, hi: Bound, lo': Bound, hi': Bound)
    requires Wider(lo, hi, lo', hi')
    ensures |Overlapping(files, lo, hi)| <= |Overlapping(files, lo', hi')|
    ensures |Overlapping(files, lo, hi)| == |Overlapping(files, lo', hi')|
            ==> Overlapping(files, lo, hi) == Overlapping(files, lo', hi')
  {
    if files == [] {
    } else {
      OverlappingGrows(files[..|files| - 1], lo, hi, lo', hi');
    }
  }

  /** inputs are the consecutive files of the list that start at position a. */
  ghost predicate IsSegment(files: seq<File>, inputs: seq<File>, a: nat) {
    a + |inputs| <= |files| && inputs == files[a..a + |inputs|]
  }

  lemma SubLevel(files: seq<File>, a: nat, b: nat)
    requires LevelSorted(files) && a <= b <= |files|
    ensures LevelSorted(files[a..b])
  {
    var sub := files[a..b];
    forall i, j | 0 <= i < j < |sub|
      ensures Precedes(sub[i].largest, sub[j].smallest)
    {
      assert sub[i] == files[a + i] && sub[j] == files[a + j];
    }
  }

  lemma {:induction false} OverlappingBand(files: seq<File>, lo: Bound, hi: Bound, a: nat, b: nat)
    requires a <= b <= |files|
    requires forall i | 0 <= i < |files| :: Overlaps(files[i], lo, hi) <==> a <= i < b
    ensures Overlapping(files, lo, hi) == files[a..b]
  {
    if files == [] {
    } else {
      var n := |files| - 1;
      var front := files[..n];
      if b <= n {
        OverlappingBand(front, lo, hi, a, b);
        assert front[a..b] == files[a..b];
      } else if a <= n {
        OverlappingBand(front, lo, hi, a, n);
        assert files[a..b] == front[a..n] + [files[n]];
      } else {
        OverlappingBand(front, lo, hi, n, n);
      }
    }
  }

  /** On a sorted level the overlapping files are consecutive. */
  lemma OverlappingIsSegment(files: seq<File>, lo: Bound, hi: Bound) returns (a: nat)
    requires LevelSorted(files)
    ensures IsSegment(files, Overlapping(files, lo, hi), a)
  {
    a := 0;
    while a < |files| && !Overlaps(files[a], lo, hi)
      invariant a <= |files|
      invariant forall i | 0 <= i < a :: !Overlaps(files[i], lo, hi)
    {
      a := a + 1;
    }
    var b := a;
    while b < |files| && Overlaps(files[b], lo, hi)
      invariant a <= b <= |files|
      invariant forall i | a <= i < b :: Overlaps(files[i], lo, hi)
    {
      b := b + 1;
    }
    forall j | b <= j < |files|
      ensures !Overlaps(files[j], lo, hi)
    {
      if a < b < j {
        LargestOrdered(files, b - 1, b);
        LargestOrdered(files, b, j);
      }
    }
    OverlappingBand(files, lo, hi, a, b);
  }

  // -------------------------------------------------------------- key range of files

  function SmallestKey(files: seq<File>): InternalKey
    requires files != []
  {
    var n := |files| - 1;
    if n == 0 then files[0].smallest
    else
      var r := SmallestKey(files[..n]);
      if Compare(files[n].smallest, r) < 0 then files[n].smallest else r
  }

  function LargestKey(files: seq<File>): InternalKey
    requires files != []
  {
    var n := |files| - 1;
    if n == 0 then files[0].largest
    else
      var r := LargestKey(files[..n]);
      if Compare(files[n].largest, r) > 0 then files[n].largest else r
  }

  lemma {:induction false} SmallestKeyIs(files: seq<File>) returns (i: nat)
    requires files != []
    ensures i < |files| && files[i].smallest == SmallestKey(files)
    ensures forall j | 0 <= j < |files| :: !Before(files[j].smallest, SmallestKey(files))
  {
    var n := |files| - 1;
    i := n;
    if n == 0 {
    } else {
      var front := files[..n];
      var k := SmallestKeyIs(front);
      assert forall j | 0 <= j < n :: files[j] == front[j];
      if !Before(files[n].smallest, files[k].smallest) {
        i := k;
      }
    }
  }

  lemma {:induction false} LargestKeyIs(files: seq<File>) returns (i: nat)
    requires files != []
    ensures i < |files| && files[i].largest == LargestKey(files)
    ensures forall j | 0 <= j < |files| :: !Before(LargestKey(files), files[j].largest)
  {
    var n := |files| - 1;
    i := n;
    if n == 0 {
    } else {
      var front := files[..n];
      var k := LargestKeyIs(front);
      assert forall j | 0 <= j < n :: files[j] == front[j];
      if !Before(files[k].largest, files[n].largest) {
        i := k;
      }
    }
  }

  method GetRange(inputs: seq<File>) returns (smallest: InternalKey, largest: InternalKey)
    requires inputs != []
    ensures smallest == SmallestKey(inputs) && largest == LargestKey(inputs)
  {
    smallest, largest := inputs[0].smallest, inputs[0].largest;
    for i := 1 to |inputs|
      invariant smallest == SmallestKey(inputs[..i]) && largest == LargestKey(inputs[..i])
    {
      assert inputs[..i + 1][..i] == inputs[..i];
      var f := inputs[i];
      if Compare(f.smallest, smallest) < 0 {
        smallest := f.smallest;
      }
      if Compare(f.largest, largest) > 0 {
        largest := f.largest;
      }
    }
    assert inputs[..|inputs|] == inputs;
  }

  // --------------------------------------------------------------- boundary files

  /** f starts after key with the same user key: it continues that user key. */
  predicate IsBoundary(f: File, key: InternalKey) {
    Before(key, f.smallest) && f.smallest.user == key.user
  }

  method FindSmallestBoundaryFile(levelFiles: seq<File>, largestKey: InternalKey) returns (r: Option<File>)
    ensures r.None? ==> forall f | f in levelFiles :: !IsBoundary(f, largestKey)
    ensures r.Some? ==> r.value in levelFiles && IsBoundary(r.value, largestKey)
    ensures r.Some? ==> forall f | f in levelFiles && IsBoundary(f, largestKey) :: !Before(f.smallest, r.value.smallest)
  {
    r := None;
    for i := 0 to |levelFiles|
      invariant r.None? ==> forall f | f in levelFiles[..i] :: !IsBoundary(f, largestKey)
      invariant r.Some? ==> r.value in levelFiles && IsBoundary(r.value, largestKey)
      invariant r.Some? ==> forall f | f in levelFiles[..i] && IsBoundary(f, largestKey) ::
                              !Before(f.smallest, r.value.smallest)
    {
      var f := levelFiles[i];
      assert levelFiles[..i + 1] == levelFiles[..i] + [f];
      if Compare(f.smallest, largestKey) > 0 && f.smallest.user == largestKey.user {
        if r.None? || Compare(f.smallest, r.value.smallest) < 0 {
          r := Some(f);
        }
      }
    }
    assert levelFiles[..|levelFiles|] == levelFiles;
  }

  ghost predicate NoBoundaryLeft(levelFiles: seq<File>, inputs: seq<File>) {
    inputs != [] ==> forall f | f in levelFiles :: !IsBoundary(f, LargestKey(inputs))
  }

  lemma SortedRange(files: seq<File>)
    requires LevelSorted(files) && files != []
    ensures LargestKey(files) == files[|files| - 1].largest
    ensures SmallestKey(files) == files[0].smallest
  {
    var i := LargestKeyIs(files);
    if i < |files| - 1 {
      LargestOrdered(files, i, |files| - 1);
    }
    var j := SmallestKeyIs(files);
    if 0 < j {
      LargestOrdered(files, 0, j);
    }
  }

  lemma SegmentRange(files: seq<File>, inputs: seq<File>, a: nat)
    requires LevelSorted(files) && IsSegment(files, inputs, a) && inputs != []
    ensures LargestKey(inputs) == files[a + |inputs| - 1].largest
    ensures SmallestKey(inputs) == files[a].smallest
  {
    SubLevel(files, a, a + |inputs|);
    SortedRange(inputs);
  }

  /** In a sorted level the smallest boundary file of files[n - 1] is files[n]. */
  lemma NextIsBoundary(files: seq<File>, n: nat, j: nat)
    requires LevelSorted(files) && 0 < n <= |files| && j < |files|
    requires IsBoundary(files[j], files[n - 1].largest)
    requires forall i | 0 <= i < |files| && IsBoundary(files[i], files[n - 1].largest) ::
               !Before(files[i].smallest, files[j].smallest)
    ensures j == n
  {
    RangeOrdered(files[n - 1]);
    RangeOrdered(files[j]);
    assert !(j < n - 1);
    if n < j {
      LargestOrdered(files, n, j);
    }
  }

  lemma SegmentExtends(files: seq<File>, inputs: seq<File>, a: nat)
    requires IsSegment(files, inputs, a) && a + |inputs| < |files|
    ensures IsSegment(files, inputs + [files[a + |inputs|]], a)
  {
    var n := a + |inputs|;
    assert files[a..n + 1] == files[a..n] + [files[n]];
  }

  lemma BoundaryIsNext(files: seq<File>, inputs: seq<File>, a: nat, b: File)
    requires LevelSorted(files) && IsSegment(files, inputs, a) && inputs != []
    requires b in files && IsBoundary(b, LargestKey(inputs))
    requires forall f | f in files && IsBoundary(f, LargestKey(inputs)) :: !Before(f.smallest, b.smallest)
    ensures IsSegment(files, inputs + [b], a)
  {
    SegmentRange(files, inputs, a);
    var n := a + |inputs|;
    var j :| 0 <= j < |files| && files[j] == b;
    hide LevelSorted, LargestKey, IsBoundary;
    NextIsBoundary(files, n, j);
    SegmentExtends(files, inputs, a);
  }

  lemma LargestOfAppended(inputs: seq<File>, b: File)
    requires inputs != [] && WellFormed(b) && Before(LargestKey(inputs), b.smallest)
    ensures LargestKey(inputs + [b]) == b.largest && Before(LargestKey(inputs), b.largest)
  {
    RangeOrdered(b);
    assert (inputs + [b])[..|inputs|] == inputs;
  }

  /** Every file after the first ones continues the largest user key of those before it. */
  ghost predicate Chained(some: seq<File>, chain: seq<File>) {
    && some <= chain
    && forall i | |some| <= i < |chain| :: 0 < i && IsBoundary(chain[i], LargestKey(chain[..i]))
  }

  lemma ChainGrows(some: seq<File>, chain: seq<File>, f: File)
    requires Chained(some, chain) && chain != [] && IsBoundary(f, LargestKey(chain))
    ensures Chained(some, chain + [f])
  {
    var chain' := chain + [f];
    forall i | |some| <= i < |chain'|
      ensures 0 < i && IsBoundary(chain'[i], LargestKey(chain'[..i]))
    {
      assert chain'[..i] == chain[..i];
      if i == |chain| {
        assert chain[..i] == chain;
      }
    }
  }

  method AddBoundaryInputs(levelFiles: seq<File>, compactionFiles: seq<File>) returns (inputs: seq<File>)
    requires AllWellFormed(levelFiles)
    ensures compactionFiles <= inputs
    ensures compactionFiles == [] ==> inputs == []
    ensures forall f | f in inputs :: f in compactionFiles || f in levelFiles
    ensures NoBoundaryLeft(levelFiles, inputs)
    ensures NoBoundaryLeft(levelFiles, compactionFiles) ==> inputs == compactionFiles
    ensures forall a: nat :: LevelSorted(levelFiles) && IsSegment(levelFiles, compactionFiles, a)
                             ==> IsSegment(levelFiles, inputs, a)
    ensures Chained(compactionFiles, inputs)
  {
    inputs := compactionFiles;
    if |compactionFiles| == 0 {
      return;
    }
    var smallest, largestKey := GetRange(compactionFiles);
    var continueSearching := true;
    while continueSearching
      invariant compactionFiles <= inputs
      invariant forall f | f in inputs :: f in compactionFiles || f in levelFiles
      invariant inputs != [] && largestKey == LargestKey(inputs)
      invariant Chained(compactionFiles, inputs)
      invariant !continueSearching ==> NoBoundaryLeft(levelFiles, inputs)
      invariant NoBoundaryLeft(levelFiles, compactionFiles) ==> inputs == compactionFiles
      invariant forall a: nat :: LevelSorted(levelFiles) && IsSegment(levelFiles, compactionFiles, a)
                                 ==> IsSegment(levelFiles, inputs, a)
      decreases continueSearching, set f | f in levelFiles && Before(largestKey, f.smallest)
    {
      var boundary := FindSmallestBoundaryFile(levelFiles, largestKey);
      if boundary.Some? {
        var b := boundary.value;
        LargestOfAppended(inputs, b);
        RangeOrdered(b);
        forall a: nat | LevelSorted(levelFiles) && IsSegment(levelFiles, compactionFiles, a)
          ensures IsSegment(levelFiles, inputs + [b], a)
        {
          BoundaryIsNext(levelFiles, inputs, a, b);
        }
        ghost var before := set f | f in levelFiles && Before(largestKey, f.smallest);
        ChainGrows(compactionFiles, inputs, b);
        inputs := inputs + [b];
        largestKey := b.largest;
        ghost var after := set f | f in levelFiles && Before(largestKey, f.smallest);
        assert b in before && b !in after && after <= before;
      } else {
        continueSearching := false;
      }
    }
  }
}
