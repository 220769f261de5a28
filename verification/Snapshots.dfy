// db/snapshot.h: live snapshots in a circular doubly-linked list around a dummy head.  Nodes are
// named by their place of allocation; node 0 is the head.
module Snapshots {
  import opened DbFormat

  const HEAD: nat := 0

  /** The links run round the ring in both directions. */
  ghost predicate Linked(ring: seq<nat>, next: seq<nat>, prev: seq<nat>) {
    && |ring| > 0 && ring[0] == HEAD && |next| == |prev|
    && (forall i, j | 0 <= i < j < |ring| :: ring[i] != ring[j])
    && (forall i | 0 <= i < |ring| :: ring[i] < |next|)
    && (forall i, j | 0 <= i < |ring| && j == i + 1 && j < |ring| ::
        next[ring[i]] == ring[j] && prev[ring[j]] == ring[i])
    && next[ring[|ring| - 1]] == HEAD && prev[HEAD] == ring[|ring| - 1]
  }

  /** Behind the head, sequence numbers never go down. */
  ghost predicate Rising(ring: seq<nat>, numbers: seq<SequenceNumber>) {
    forall i, j | 0 < i <= j < |ring| && ring[i] < |numbers| && ring[j] < |numbers| ::
      numbers[ring[i]] <= numbers[ring[j]]
  }

  ghost function Without(ring: seq<nat>, at: nat): seq<nat>
    requires at < |ring|
  {
    ring[..at] + ring[at + 1..]
  }

  /** Pointing the two neighbours of a node at each other takes it out of the ring. */
  lemma Unlinked(ring: seq<nat>, next: seq<nat>, prev: seq<nat>, at: nat)
    requires Linked(ring, next, prev) && 0 < at < |ring|
    ensures var x := ring[at];
            && x < |next| && prev[x] < |next| && next[x] < |prev|
            && Linked(Without(ring, at), next[prev[x] := next[x]], prev[next[x] := prev[x]])
  {
    var x, rest := ring[at], Without(ring, at);
    assert at - 1 + 1 == at && prev[x] == ring[at - 1];
    assert next[x] == if at + 1 < |ring| then ring[at + 1] else HEAD;
    assert forall k | 0 <= k < |rest| :: rest[k] == if k < at then ring[k] else ring[k + 1];
  }

  lemma RisingWithout(ring: seq<nat>, numbers: seq<SequenceNumber>, at: nat)
    requires Rising(ring, numbers) && 0 < at < |ring|
    ensures Rising(Without(ring, at), numbers)
  {
    var rest := Without(ring, at);
    assert forall k | 0 <= k < |rest| :: rest[k] == if k < at then ring[k] else ring[k + 1];
  }

  /** Pointing the last node and the head at a new node puts it at the end. */
  lemma Extended(ring: seq<nat>, next: seq<nat>, prev: seq<nat>)
    requires Linked(ring, next, prev)
    ensures var x := |next|;
            var next1, prev1 := next + [HEAD], prev + [prev[HEAD]];
            && prev[HEAD] < |next|
            && Linked(ring + [x], next1[prev[HEAD] := x], prev1[HEAD := x])
  {
    var x := |next|;
    assert forall k | 0 <= k < |ring + [x]| :: (ring + [x])[k] == if k < |ring| then ring[k] else x;
  }

  class SnapshotList {
    var next: seq<nat>
    var prev: seq<nat>
    var numbers: seq<SequenceNumber>
    ghost var ring: seq<nat>

    ghost predicate Valid()
      reads this
    {
      Linked(ring, next, prev) && |numbers| == |next| && Rising(ring, numbers)
    }

    /** The live snapshots from the oldest to the newest. */
    ghost function Live(): seq<nat>
      requires Valid()
      reads this
    {
      ring[1..]
    }

    constructor ()
      ensures Valid() && Live() == []
    {
      next, prev, numbers, ring := [HEAD], [HEAD], [0], [HEAD];
    }

    /** The oldest snapshot: no live one has a smaller sequence number. */
    method Oldest() returns (r: nat)
      requires Valid() && Live() != []
      ensures r == Live()[0] && r < |numbers|
      ensures forall i | 0 <= i < |Live()| :: Live()[i] < |numbers| && numbers[r] <= numbers[Live()[i]]
    {
      assert next[ring[0]] == ring[1];
      r := next[HEAD];
    }

    /** Appends a snapshot that is not older than the newest. */
    method New(sequenceNumber: SequenceNumber) returns (snapshot: nat)
      requires Valid()
      requires forall i | 0 <= i < |Live()| :: Live()[i] < |numbers| && numbers[Live()[i]] <= sequenceNumber
      modifies this
      ensures Valid() && snapshot < |numbers| && numbers[snapshot] == sequenceNumber
      ensures Live() == old(Live()) + [snapshot] && snapshot !in old(Live())
      ensures numbers == old(numbers) + [sequenceNumber]
    {
      Extended(ring, next, prev);
      snapshot := |next|;
      assert snapshot !in Live();
      assert forall i | 0 < i < |ring| :: ring[i] == Live()[i - 1];
      next, prev, numbers := next + [HEAD], prev + [prev[HEAD]], numbers + [sequenceNumber];
      next := next[prev[snapshot] := snapshot];
      prev := prev[HEAD := snapshot];
      hide Linked;
      ring := ring + [snapshot];
    }

    /** Takes a snapshot out, wherever it is in the list. */
    method Delete(snapshot: nat, ghost i: nat)
      requires Valid() && i < |Live()| && Live()[i] == snapshot
      modifies this
      ensures Valid() && numbers == old(numbers)
      ensures Live() == old(Live())[..i] + old(Live())[i + 1..]
    {
      hide Linked, Rising;
      RingStarts(ring, next, prev);
      Unlinked(ring, next, prev, i + 1);
      RisingWithout(ring, numbers, i + 1);
      var p, n := prev[snapshot], next[snapshot];
      next := next[p := n];
      prev := prev[n := p];
      ring := Without(ring, i + 1);
    }
  }

  lemma RingStarts(ring: seq<nat>, next: seq<nat>, prev: seq<nat>)
    requires Linked(ring, next, prev)
    ensures |ring| > 0 && |next| == |prev|
  {
  }
}
