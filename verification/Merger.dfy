// The merging iterator, moving forward (table/merger.cc).
module Merger {
  import opened DbFormat
  import opened Reads
  import opened Tables

  /** No two different runs hold entries with the same user key and sequence number. */
  ghost predicate RunsApart(runs: seq<seq<Entry>>) {
    forall i, j, a, b | 0 <= i < j < |runs| && a in runs[i] && b in runs[j] ::
      a.key.user != b.key.user || a.key.sequence != b.key.sequence
  }

  ghost predicate RunsSorted(runs: seq<seq<Entry>>) {
    forall j | 0 <= j < |runs| :: Sorted(runs[j])
  }

  ghost function RunMembers(runs: seq<seq<Entry>>): set<Entry> {
    set i, e | 0 <= i < |runs| && e in runs[i] :: e
  }

  ghost function TotalLength(runs: seq<seq<Entry>>): nat {
    if runs == [] then 0 else |runs[0]| + TotalLength(runs[1..])
  }

  /** FindSmallest: the child with the smallest current key, or |runs| if all are exhausted. */
  method FindSmallest(runs: seq<seq<Entry>>) returns (current: nat)
    ensures current <= |runs|
    ensures current == |runs| ==> forall i | 0 <= i < |runs| :: runs[i] == []
    ensures current < |runs| ==> runs[current] != []
    ensures current < |runs| ==>
              forall i | 0 <= i < |runs| && runs[i] != [] :: !Before(runs[i][0].key, runs[current][0].key)
  {
    current := |runs|;
    for i := 0 to |runs|
      invariant current == |runs| || current < i
      invariant current == |runs| ==> forall k | 0 <= k < i :: runs[k] == []
      invariant current < |runs| ==> runs[current] != []
      invariant current < |runs| ==>
                  forall k | 0 <= k < i && runs[k] != [] :: !Before(runs[k][0].key, runs[current][0].key)
    {
      if runs[i] != [] {
        if current == |runs| || Compare(runs[i][0].key, runs[current][0].key) < 0 {
          current := i;
        }
      }
    }
  }

  lemma {:induction false} AdvanceShortens(runs: seq<seq<Entry>>, i: nat)
    requires i < |runs| && runs[i] != []
    ensures TotalLength(runs[i := runs[i][1..]]) == TotalLength(runs) - 1
  {
    if i == 0 {
    } else {
      AdvanceShortens(runs[1..], i - 1);
      assert runs[i := runs[i][1..]][1..] == runs[1..][i - 1 := runs[1..][i - 1][1..]];
    }
  }

  lemma AdvanceMembers(runs: seq<seq<Entry>>, i: nat)
    requires i < |runs| && runs[i] != []
    ensures RunMembers(runs) == RunMembers(runs[i := runs[i][1..]]) + {runs[i][0]}
  {
    var after := runs[i := runs[i][1..]];
    var head := runs[i][0];
    assert forall e :: e in runs[i] <==> e == head || e in after[i];
    forall e
      ensures e in RunMembers(runs) <==> e in RunMembers(after) || e == head
    {
      if e in RunMembers(runs) {
        var j :| 0 <= j < |runs| && e in runs[j];
        assert e == head || e in after[j];
      }
      assert head in runs[i];
      if e in RunMembers(after) {
        var j :| 0 <= j < |after| && e in after[j];
        assert e in runs[j];
      }
    }
  }

  lemma AdvanceApart(runs: seq<seq<Entry>>, i: nat)
    requires i < |runs| && runs[i] != [] && RunsApart(runs) && RunsSorted(runs)
    ensures RunsApart(runs[i := runs[i][1..]])
    ensures RunsSorted(runs[i := runs[i][1..]])
  {
    var after := runs[i := runs[i][1..]];
    assert forall j, e | 0 <= j < |runs| && e in after[j] :: e in runs[j];
  }

  /** Whatever is left comes after the smallest current entry. */
  lemma SmallestPrecedes(runs: seq<seq<Entry>>, c: nat)
    requires c < |runs| && runs[c] != [] && RunsApart(runs) && RunsSorted(runs)
    requires forall i | 0 <= i < |runs| && runs[i] != [] :: !Before(runs[i][0].key, runs[c][0].key)
    ensures forall e | e in RunMembers(runs[c := runs[c][1..]]) :: Precedes(runs[c][0].key, e.key)
  {
    var head := runs[c][0];
    forall e | e in RunMembers(runs[c := runs[c][1..]])
      ensures Precedes(head.key, e.key)
    {
      var j :| 0 <= j < |runs| && e in runs[c := runs[c][1..]][j];
      if j == c {
        var k :| 0 <= k < |runs[c][1..]| && runs[c][1..][k] == e;
        assert e == runs[c][k + 1];
      } else {
        var k :| 0 <= k < |runs[j]| && runs[j][k] == e;
        assert head in runs[c] && e in runs[j];
        assert k > 0 ==> Precedes(runs[j][0].key, e.key);
      }
    }
  }

  ghost predicate IsSmallest(runs: seq<seq<Entry>>, c: nat) {
    && c <= |runs|
    && (c == |runs| ==> forall i | 0 <= i < |runs| :: runs[i] == [])
    && (c < |runs| ==> runs[c] != []
                       && forall i | 0 <= i < |runs| && runs[i] != [] :: !Before(runs[i][0].key, runs[c][0].key))
  }

  /** out is a sorted prefix of the merge; what the runs still hold all comes after it. */
  ghost predicate MergedSoFar(out: seq<Entry>, runs: seq<seq<Entry>>, children: seq<seq<Entry>>) {
    && RunsApart(runs) && RunsSorted(runs)
    && Sorted(out)
    && Members(out) + RunMembers(runs) == RunMembers(children)
    && forall d, e | d in out && e in RunMembers(runs) :: Precedes(d.key, e.key)
  }

  lemma StepKeepsMerge(out: seq<Entry>, runs: seq<seq<Entry>>, children: seq<seq<Entry>>, c: nat)
    requires MergedSoFar(out, runs, children) && IsSmallest(runs, c) && c < |runs|
    ensures MergedSoFar(out + [runs[c][0]], runs[c := runs[c][1..]], children)
    ensures TotalLength(runs[c := runs[c][1..]]) < TotalLength(runs)
  {
    var head := runs[c][0];
    AdvanceShortens(runs, c);
    AdvanceMembers(runs, c);
    AdvanceApart(runs, c);
    SmallestPrecedes(runs, c);
    hide RunsApart, RunsSorted, TotalLength;
    assert Members(out + [head]) == Members(out) + {head};
    forall k | 0 <= k < |out|
      ensures Precedes(out[k].key, head.key)
    {
      assert out[k] in out && head in RunMembers(runs);
    }
  }

  /** Walking the merging iterator from SeekToFirst to the end yields every entry once, sorted. */
  method MergeAll(children: seq<seq<Entry>>) returns (out: seq<Entry>)
    requires RunsApart(children) && RunsSorted(children)
    ensures Sorted(out) && Members(out) == RunMembers(children)
  {
    out := [];
    var runs := children;
    var current: nat := FindSmallest(runs);
    while current < |runs|
      invariant IsSmallest(runs, current) && MergedSoFar(out, runs, children)
      decreases TotalLength(runs)
    {
      StepKeepsMerge(out, runs, children, current);
      out := out + [runs[current][0]];
      runs := runs[current := runs[current][1..]];
      current := FindSmallest(runs);
    }
    assert RunMembers(runs) == {};
  }
}
