// The required-field check of nanopb (Pods/nanopb/pb_decode.c): exactly when a byte string passes
// it, in whatever order its fields come.
module PbRequired {
  import opened Wrappers
  import opened Coding
  import opened PbFormat
  import opened PbIter
  import opened PbDecode

  /** Decoding without the check: the message, and the places of the fields in the order in which
      they came. */
  function Run(d: Desc, input: Bytes, m: Message): Option<(Message, seq<nat>)>
    decreases |input|
  {
    if input == [] then Some((m, []))
    else
      match DecodeTag(input)
      case BadTag => None
      case EndOfMessage => Some((m, []))
      case Tagged(tag, wireType, rest) =>
        match FindField(d, tag, 0)
        case None => (match SkipField(wireType, rest) case None => None case Some(rest) => Run(d, rest, m))
        case Some(i) =>
          if i >= |m.slots| then None
          else
            match DecodeField(d.fields[i], wireType, rest, m.slots[i])
            case None => None
            case Some((slot, rest)) =>
              match Run(d, rest, Message(m.slots[i := slot]))
              case None => None
              case Some((m', order)) => Some((m', [i] + order))
  }

  /** The bitmap after fields at the given places. */
  function SeenAfter(d: Desc, seen: set<nat>, order: seq<nat>): set<nat>
    requires forall j | 0 <= j < |order| :: order[j] < |d.fields|
    decreases |order|
  {
    if order == [] then seen else SeenAfter(d, Seen(d, seen, order[0]), order[1..])
  }

  /** A required field that has a bit in the bitmap. */
  predicate Checked(d: Desc, i: nat) {
    i < |d.fields| && d.fields[i].htype.Required? && RequiredBefore(d, i) < MAX_REQUIRED
  }

  lemma {:induction false} RunPlaces(d: Desc, input: Bytes, m: Message)
    requires Run(d, input, m).Some?
    ensures forall j | 0 <= j < |Run(d, input, m).value.1| :: Run(d, input, m).value.1[j] < |d.fields|
    decreases |input|
  {
    hide DecodeField, SkipField, DecodeTag;
    if input != [] && DecodeTag(input).Tagged? {
      var Tagged(tag, wireType, rest) := DecodeTag(input);
      match FindField(d, tag, 0) {
        case None => RunPlaces(d, SkipField(wireType, rest).value, m);
        case Some(i) =>
          var (slot, after) := DecodeField(d.fields[i], wireType, rest, m.slots[i]).value;
          RunPlaces(d, after, Message(m.slots[i := slot]));
      }
    }
  }

  lemma {:induction false} DecodesAsRun(d: Desc, input: Bytes, m: Message, seen: set<nat>)
    ensures Run(d, input, m).None? ==> DecodeMessage(d, input, m, seen).None?
    ensures Run(d, input, m).Some? ==>
              var (m', order) := Run(d, input, m).value;
              && (forall j | 0 <= j < |order| :: order[j] < |d.fields|)
              && DecodeMessage(d, input, m, seen) == Finished(d, m', SeenAfter(d, seen, order))
    decreases |input|
  {
    hide DecodeField, SkipField, DecodeTag, AllSeen, Seen;
    if Run(d, input, m).Some? {
      RunPlaces(d, input, m);
    }
    if input != [] && DecodeTag(input).Tagged? {
      var Tagged(tag, wireType, rest) := DecodeTag(input);
      match FindField(d, tag, 0) {
        case None =>
          if SkipField(wireType, rest).Some? {
            DecodesAsRun(d, SkipField(wireType, rest).value, m, seen);
          }
        case Some(i) =>
          if i < |m.slots| && DecodeField(d.fields[i], wireType, rest, m.slots[i]).Some? {
            var (slot, after) := DecodeField(d.fields[i], wireType, rest, m.slots[i]).value;
            var next := Message(m.slots[i := slot]);
            DecodesAsRun(d, after, next, Seen(d, seen, i));
            if Run(d, after, next).Some? {
              var order := Run(d, after, next).value.1;
              assert ([i] + order)[1..] == order;
            }
          }
      }
    }
  }

  lemma {:induction false} SeenAfterHas(d: Desc, seen: set<nat>, order: seq<nat>, k: nat)
    requires forall j | 0 <= j < |order| :: order[j] < |d.fields|
    ensures k in SeenAfter(d, seen, order) <==>
              k in seen || exists j :: 0 <= j < |order| && Checked(d, order[j]) && RequiredBefore(d, order[j]) == k
    decreases |order|
  {
    if order == [] {
    } else {
      var rest := order[1..];
      SeenAfterHas(d, Seen(d, seen, order[0]), rest, k);
      if j :| 0 <= j < |order| && Checked(d, order[j]) && RequiredBefore(d, order[j]) == k {
        if j > 0 {
          assert rest[j - 1] == order[j];
        }
      }
      if j :| 0 <= j < |rest| && Checked(d, rest[j]) && RequiredBefore(d, rest[j]) == k {
        assert order[j + 1] == rest[j];
      }
    }
  }

  /** Each count below the total is that of one required field. */
  lemma {:induction false} CountReached(d: Desc, k: nat, n: nat) returns (i: nat)
    requires n <= |d.fields| && k < RequiredBefore(d, n)
    ensures i < n && d.fields[i].htype.Required? && RequiredBefore(d, i) == k
  {
    if k == RequiredBefore(d, n - 1) {
      i := n - 1;
    } else {
      i := CountReached(d, k, n - 1);
    }
  }

  lemma SameCountSameField(d: Desc, i: nat, j: nat)
    requires i < |d.fields| && j < |d.fields| && d.fields[i].htype.Required? && d.fields[j].htype.Required?
    requires RequiredBefore(d, i) == RequiredBefore(d, j)
    ensures i == j
  {
    if i < j {
      RequiredCounted(d, i, j);
    } else if j < i {
      RequiredCounted(d, j, i);
    }
  }

  lemma AllSeenIff(d: Desc, order: seq<nat>)
    requires forall j | 0 <= j < |order| :: order[j] < |d.fields|
    ensures AllSeen(d, SeenAfter(d, {}, order)) <==> forall i | Checked(d, i) :: i in order
  {
    var after := SeenAfter(d, {}, order);
    if AllSeen(d, after) {
      forall i | Checked(d, i)
        ensures i in order
      {
        var k := RequiredBefore(d, i);
        RequiredCounted(d, i, |d.fields|);
        assert k in after;
        SeenAfterHas(d, {}, order, k);
        var j :| 0 <= j < |order| && Checked(d, order[j]) && RequiredBefore(d, order[j]) == k;
        SameCountSameField(d, i, order[j]);
      }
    }
    if forall i | Checked(d, i) :: i in order {
      forall k | 0 <= k < CheckedFields(d)
        ensures k in after
      {
        var i := CountReached(d, k, |d.fields|);
        assert Checked(d, i);
        var j :| 0 <= j < |order| && order[j] == i;
        SeenAfterHas(d, {}, order, k);
      }
    }
  }

  /** Decoding succeeds exactly if the bytes parse and every one of the first 64 required fields is
      among those that came, in any order; and then gives what was parsed. */
  lemma DecodesIffAllRequired(d: Desc, input: Bytes, m: Message)
    ensures DecodeMessage(d, input, m, {}).Some? <==>
              Run(d, input, m).Some? && forall i | Checked(d, i) :: i in Run(d, input, m).value.1
    ensures DecodeMessage(d, input, m, {}).Some? ==> DecodeMessage(d, input, m, {}).value == Run(d, input, m).value.0
  {
    hide DecodeMessage, Run;
    DecodesAsRun(d, input, m, {});
    if Run(d, input, m).Some? {
      AllSeenIff(d, Run(d, input, m).value.1);
    }
  }
}
