// Do the inputs of a compaction leave a gap between them?  A file that overlaps none of them, and
// that a flush puts into the output level meanwhile, may only lie on one side of them all.
module InputGaps {
  import opened Wrappers
  import opened DbFormat
  import opened Tables
  import opened CompactionInputs

  /** No file reaches into [lo, hi]. */
  ghost predicate Clear(files: seq<File>, lo: UserKey, hi: UserKey) {
    forall f | f in files :: f.largest.user < lo || hi < f.smallest.user
  }

  /** All files lie below [lo, hi], or all above it. */
  ghost predicate OneSide(files: seq<File>, lo: UserKey, hi: UserKey) {
    (forall f | f in files :: f.largest.user < lo) || (forall f | f in files :: hi < f.smallest.user)
  }

  /** Whatever range is clear of all the files lies on one side of them. */
  ghost predicate NoGap(files: seq<File>) {
    forall lo: UserKey, hi: UserKey | lo <= hi && Clear(files, lo, hi) :: OneSide(files, lo, hi)
  }

  /** f reaches into the range that the files span together. */
  ghost predicate Touches(f: File, files: seq<File>) {
    (exists g :: g in files && f.smallest.user <= g.largest.user)
      && (exists g :: g in files && g.smallest.user <= f.largest.user)
  }

  lemma TouchingKeepsNoGap(some: seq<File>, more: seq<File>)
    requires NoGap(some) && forall f | f in some :: f in more
    requires forall f | f in more :: f in some || Touches(f, some)
    ensures NoGap(more)
  {
    forall lo: UserKey, hi: UserKey | lo <= hi && Clear(more, lo, hi)
      ensures OneSide(more, lo, hi)
    {
      assert Clear(some, lo, hi) && OneSide(some, lo, hi);
    }
  }

  lemma {:induction false} ChainKeepsNoGap(some: seq<File>, chain: seq<File>, extra: seq<File>)
    requires NoGap(some + extra) && Chained(some, chain) && AllWellFormed(chain)
    ensures NoGap(chain + extra)
    decreases |chain|
  {
    if |chain| == |some| {
      assert chain == some;
    } else {
      var n := |chain| - 1;
      var front, f := chain[..n], chain[n];
      forall i | |some| <= i < n
        ensures 0 < i && IsBoundary(front[i], LargestKey(front[..i]))
      {
        assert front[..i] == chain[..i];
      }
      ChainKeepsNoGap(some, front, extra);
      assert chain == front + [f];
      NextKeepsNoGap(front, f, extra);
    }
  }

  lemma NextKeepsNoGap(front: seq<File>, f: File, extra: seq<File>)
    requires NoGap(front + extra) && AllWellFormed(front) && WellFormed(f)
    requires front != [] && IsBoundary(f, LargestKey(front))
    ensures NoGap(front + [f] + extra)
  {
    var l := LargestKeyIs(front);
    RangeOrdered(f);
    RangeOrdered(front[l]);
    hide NoGap, WellFormed;
    var g := front[l];
    assert g in front + extra;
    assert Touches(f, front + extra);
    TouchingKeepsNoGap(front + extra, front + [f] + extra);
  }

  lemma SpannedTouches(files: seq<File>, f: File)
    requires AllWellFormed(files) && files != []
    requires Overlaps(f, Some(SmallestKey(files).user), Some(LargestKey(files).user))
    ensures Touches(f, files)
  {
    var s := SmallestKeyIs(files);
    var l := LargestKeyIs(files);
    assert files[s] in files && files[l] in files;
  }

  /** Taking every file of a level that overlaps what the inputs span leaves no gap. */
  lemma OverlappingKeepsNoGap(files: seq<File>, base: seq<File>)
    requires NoGap(base) && AllWellFormed(base) && base != []
    ensures NoGap(Overlapping(files, Some(SmallestKey(base).user), Some(LargestKey(base).user)) + base)
  {
    var lo, hi := Some(SmallestKey(base).user), Some(LargestKey(base).user);
    var overlapping := Overlapping(files, lo, hi);
    OverlappingMembers(files, lo, hi);
    forall f | f in overlapping + base
      ensures f in base || Touches(f, base)
    {
      if f !in base {
        SpannedTouches(base, f);
      }
    }
    TouchingKeepsNoGap(base, overlapping + base);
  }

  /** Nor does the least range-closed interval around what they span. */
  lemma LeastKeepsNoGap(files: seq<File>, base: seq<File>, lo: Bound, hi: Bound)
    requires NoGap(base) && AllWellFormed(base) && base != []
    requires LeastClosed(files, Some(SmallestKey(base).user), Some(LargestKey(base).user), lo, hi)
    ensures NoGap(Overlapping(files, lo, hi) + base)
  {
    var overlapping := Overlapping(files, lo, hi);
    OverlappingMembers(files, lo, hi);
    forall l: UserKey, h: UserKey | l <= h && Clear(overlapping + base, l, h)
      ensures OneSide(overlapping + base, l, h)
    {
      assert Clear(base, l, h) && OneSide(base, l, h);
      var s := SmallestKeyIs(base);
      var t := LargestKeyIs(base);
      assert base[s] in base && base[t] in base;
      if forall f | f in base :: h < f.smallest.user {
        LeastAbove(files, Some(SmallestKey(base).user), Some(LargestKey(base).user), lo, hi, l, h);
      } else {
        LeastBelow(files, Some(SmallestKey(base).user), Some(LargestKey(base).user), lo, hi, l, h);
      }
    }
  }

  lemma LeastAbove(files: seq<File>, begin: Bound, end: Bound, lo: Bound, hi: Bound, l: UserKey, h: UserKey)
    requires LeastClosed(files, begin, end, lo, hi) && begin.Some? && l <= h < begin.value
    requires Clear(Overlapping(files, lo, hi), l, h)
    ensures forall f | f in Overlapping(files, lo, hi) :: h < f.smallest.user
  {
    var cut := if lo.Some? && lo.value > h then lo.value else h + 1;
    OverlappingMembers(files, lo, hi);
    CutBelow(files, lo, hi, l, h, cut);
    assert Wider(lo, hi, Some(cut), hi);
  }

  lemma CutBelow(files: seq<File>, lo: Bound, hi: Bound, l: UserKey, h: UserKey, cut: UserKey)
    requires RangeClosed(files, lo, hi) && Clear(Overlapping(files, lo, hi), l, h) && l <= h
    requires cut == if lo.Some? && lo.value > h then lo.value else h + 1
    ensures RangeClosed(files, Some(cut), hi)
  {
    OverlappingMembers(files, lo, hi);
    forall g | g in files && Overlaps(g, Some(cut), hi)
      ensures Within(g, Some(cut), hi)
    {
      assert Overlaps(g, lo, hi);
      assert g in Overlapping(files, lo, hi);
    }
  }

  lemma LeastBelow(files: seq<File>, begin: Bound, end: Bound, lo: Bound, hi: Bound, l: UserKey, h: UserKey)
    requires LeastClosed(files, begin, end, lo, hi) && end.Some? && end.value < l <= h
    requires Clear(Overlapping(files, lo, hi), l, h)
    ensures forall f | f in Overlapping(files, lo, hi) :: f.largest.user < l
  {
    var cut := if hi.Some? && hi.value < l then hi.value else l - 1;
    OverlappingMembers(files, lo, hi);
    CutAbove(files, lo, hi, l, h, cut);
    assert Wider(lo, hi, lo, Some(cut));
  }

  lemma CutAbove(files: seq<File>, lo: Bound, hi: Bound, l: UserKey, h: UserKey, cut: UserKey)
    requires RangeClosed(files, lo, hi) && Clear(Overlapping(files, lo, hi), l, h) && l <= h
    requires cut == if hi.Some? && hi.value < l then hi.value else l - 1
    ensures RangeClosed(files, lo, Some(cut))
  {
    OverlappingMembers(files, lo, hi);
    forall g | g in files && Overlaps(g, lo, Some(cut))
      ensures Within(g, lo, Some(cut))
    {
      assert Overlaps(g, lo, hi);
      assert g in Overlapping(files, lo, hi);
    }
  }
}
