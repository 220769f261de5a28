// db/write_batch.cc: a batch of operations as one byte string, which is also a log record.
module Batches {
  import opened Wrappers
  import opened Coding
  import DbFormat
  import Seqs

  const HEADER: nat := 12

  const DELETION_TAG: Byte := 0
  const VALUE_TAG: Byte := 1

  type Op = DbFormat.Operation<Bytes>

  datatype Status = Ok | TooSmall | BadPut | BadDelete | UnknownTag | WrongCount

  // ------------------------------------------------------------------ what is written

  function EncodeOp(op: Op): (r: Bytes)
    ensures |r| > 0
  {
    match op
    case Put(k, v) => [VALUE_TAG] + PutSlice(k) + PutSlice(v)
    case Delete(k) => [DELETION_TAG] + PutSlice(k)
  }

  function EncodeOps(ops: seq<Op>): Bytes {
    if ops == [] then [] else EncodeOp(ops[0]) + EncodeOps(ops[1..])
  }

  /** Lengths are written as 32-bit numbers. */
  predicate Encodable(op: Op) {
    |op.key| < UINT32 && (op.Put? ==> |op.value| < UINT32)
  }

  /** Every operation can be written, and the number of them counted in an int. */
  ghost predicate AllEncodable(ops: seq<Op>) {
    |ops| < 0x8000_0000 && forall i | 0 <= i < |ops| :: Encodable(ops[i])
  }

  /** The bytes of a batch: sequence number, count, operations. */
  function EncodeBatch(sequence: nat, ops: seq<Op>): Bytes {
    Fixed64(sequence) + Fixed32(|ops|) + EncodeOps(ops)
  }

  ghost predicate IsBatch(rep: Bytes, sequence: nat, ops: seq<Op>) {
    AllEncodable(ops) && sequence < UINT64 && rep == EncodeBatch(sequence, ops)
  }

  lemma {:induction false} EncodeOpsConcat(a: seq<Op>, b: seq<Op>)
    ensures EncodeOps(a + b) == EncodeOps(a) + EncodeOps(b)
  {
    hide EncodeOp;
    if a == [] {
      assert a + b == b;
    } else {
      EncodeOpsConcat(a[1..], b);
      assert (a + b)[1..] == a[1..] + b && (a + b)[0] == a[0];
      Seqs.Regroup(EncodeOp(a[0]), EncodeOps(a[1..]), EncodeOps(b));
    }
  }

  lemma EncodeOpsOne(op: Op)
    ensures EncodeOps([op]) == EncodeOp(op)
  {
    assert EncodeOps([op][1..]) == [];
  }

  // --------------------------------------------------------------------- what is read

  datatype Parsed = Parsed(op: Op, rest: Bytes) | Failed(status: Status)

  /** One round of the loop of Iterate. */
  function ReadOp(input: Bytes): (r: Parsed)
    requires input != []
    ensures r.Parsed? ==> |r.rest| < |input|
    ensures r.Failed? ==> !r.status.Ok?
  {
    if input[0] == VALUE_TAG then
      match GetSlice(input[1..])
      case None => Failed(BadPut)
      case Some((key, rest)) =>
        match GetSlice(rest)
        case None => Failed(BadPut)
        case Some((value, rest')) => Parsed(DbFormat.Put(key, value), rest')
    else if input[0] == DELETION_TAG then
      match GetSlice(input[1..])
      case None => Failed(BadDelete)
      case Some((key, rest)) => Parsed(DbFormat.Delete(key), rest)
    else Failed(UnknownTag)
  }

  /** The handler calls made for the operations in a byte string, and how the loop ends. */
  function ReplayOps(input: Bytes): (r: (seq<Op>, Status))
    decreases |input|
  {
    if input == [] then ([], Ok)
    else
      match ReadOp(input)
      case Failed(status) => ([], status)
      case Parsed(op, rest) =>
        var (ops, status) := ReplayOps(rest);
        ([op] + ops, status)
  }

  function Count(rep: Bytes): nat
    requires |rep| >= HEADER
  {
    DecodeFixed(rep[8..HEADER])
  }

  function Sequence(rep: Bytes): nat
    requires |rep| >= HEADER
  {
    DecodeFixed(rep[..8])
  }

  function Replay(rep: Bytes): (seq<Op>, Status) {
    if |rep| < HEADER then ([], TooSmall)
    else
      var (ops, status) := ReplayOps(rep[HEADER..]);
      if status.Ok? && |ops| != Count(rep) then (ops, WrongCount) else (ops, status)
  }

  lemma OpRoundTrip(op: Op, rest: Bytes)
    requires Encodable(op)
    ensures ReadOp(EncodeOp(op) + rest) == Parsed(op, rest)
  {
    hide PutSlice, GetSlice;
    var input := EncodeOp(op) + rest;
    match op {
      case Put(k, v) =>
        assert input[1..] == PutSlice(k) + (PutSlice(v) + rest);
        SliceRoundTrip(k, PutSlice(v) + rest);
        SliceRoundTrip(v, rest);
      case Delete(k) =>
        assert input[1..] == PutSlice(k) + rest;
        SliceRoundTrip(k, rest);
    }
  }

  lemma {:induction false} OpsRoundTrip(ops: seq<Op>)
    requires forall i | 0 <= i < |ops| :: Encodable(ops[i])
    ensures ReplayOps(EncodeOps(ops)) == (ops, Ok)
  {
    hide EncodeOp, ReadOp, Encodable;
    if ops == [] {
    } else {
      OpRoundTrip(ops[0], EncodeOps(ops[1..]));
      OpsRoundTrip(ops[1..]);
      assert [ops[0]] + ops[1..] == ops;
    }
  }

  /** A batch reads back as the operations put into it, with their count and sequence number. */
  lemma BatchRoundTrip(rep: Bytes, sequence: nat, ops: seq<Op>)
    requires IsBatch(rep, sequence, ops)
    ensures Replay(rep) == (ops, Ok)
    ensures |rep| >= HEADER && Count(rep) == |ops| && Sequence(rep) == sequence
  {
    hide EncodeOps, ReplayOps, Encodable, EncodeFixed, DecodeFixed;
    assert rep[..8] == Fixed64(sequence) && rep[8..HEADER] == Fixed32(|ops|) && rep[HEADER..] == EncodeOps(ops);
    Fixed64RoundTrip(sequence);
    Fixed32RoundTrip(|ops|);
    OpsRoundTrip(ops);
  }

  lemma HeaderOf(rep: Bytes, sequence: nat, ops: seq<Op>)
    requires IsBatch(rep, sequence, ops)
    ensures |rep| >= HEADER && rep[..8] == Fixed64(sequence) && rep[HEADER..] == EncodeOps(ops)
  {
    hide EncodeOps, EncodeFixed, AllEncodable;
  }

  lemma BatchExtended(rep: Bytes, sequence: nat, ops: seq<Op>, more: seq<Op>)
    requires IsBatch(rep, sequence, ops) && AllEncodable(ops + more)
    ensures IsBatch(rep[..8] + Fixed32(|ops + more|) + rep[HEADER..] + EncodeOps(more), sequence, ops + more)
  {
    EncodeOpsConcat(ops, more);
    HeaderOf(rep, sequence, ops);
    Seqs.RegroupLast(Fixed64(sequence), Fixed32(|ops + more|), EncodeOps(ops), EncodeOps(more));
    hide EncodeOps, Fixed32, Fixed64, AllEncodable;
  }

  class WriteBatch {
    var rep: Bytes

    ghost predicate Valid()
      reads this
    {
      |rep| >= HEADER
    }

    constructor ()
      ensures Valid() && IsBatch(rep, 0, [])
    {
      rep := seq(HEADER, _ => 0);
      new;
      ZeroFixed(8);
      ZeroFixed(4);
      assert rep == EncodeBatch(0, []);
    }

    method Clear()
      modifies this
      ensures Valid() && IsBatch(rep, 0, [])
    {
      rep := seq(HEADER, _ => 0);
      ZeroFixed(8);
      ZeroFixed(4);
      assert rep == EncodeBatch(0, []);
    }

    /** SetContents: the batch becomes what a log record holds. */
    method SetContents(contents: Bytes)
      requires |contents| >= HEADER
      modifies this
      ensures Valid() && rep == contents
    {
      rep := contents;
    }

    method SetCount(n: nat)
      requires Valid()
      modifies this
      ensures Valid() && rep == old(rep)[..8] + Fixed32(n) + old(rep)[HEADER..]
    {
      rep := rep[..8] + Fixed32(n) + rep[HEADER..];
    }

    method SetSequence(s: nat)
      requires Valid()
      modifies this
      ensures Valid() && rep == Fixed64(s) + old(rep)[8..]
      ensures forall s0, ops | IsBatch(old(rep), s0, ops) && s < UINT64 :: IsBatch(rep, s, ops)
    {
      hide EncodeOps, EncodeFixed, AllEncodable;
      rep := Fixed64(s) + rep[8..];
      forall s0, ops | IsBatch(old(rep), s0, ops)
        ensures rep == EncodeBatch(s, ops)
      {
        assert old(rep)[8..] == Fixed32(|ops|) + EncodeOps(ops);
      }
    }

    /** A batch of any history of calls holds exactly the operations of those calls, in order. */
    method Put(key: Bytes, value: Bytes)
      requires Valid()
      modifies this
      ensures Valid()
      ensures forall s, ops | IsBatch(old(rep), s, ops) && AllEncodable(ops + [DbFormat.Put(key, value)]) ::
                IsBatch(rep, s, ops + [DbFormat.Put(key, value)])
    {
      hide AllEncodable, EncodeFixed, EncodeOps, IsBatch;
      ghost var op := DbFormat.Put(key, value);
      SetCount(Count(rep) + 1);
      rep := rep + [VALUE_TAG];
      rep := rep + PutSlice(key);
      rep := rep + PutSlice(value);
      Appended(old(rep), rep, op);
    }

    method Delete(key: Bytes)
      requires Valid()
      modifies this
      ensures Valid()
      ensures forall s, ops | IsBatch(old(rep), s, ops) && AllEncodable(ops + [DbFormat.Delete(key)]) ::
                IsBatch(rep, s, ops + [DbFormat.Delete(key)])
    {
      hide AllEncodable, EncodeFixed, EncodeOps, IsBatch;
      ghost var op := DbFormat.Delete(key);
      SetCount(Count(rep) + 1);
      rep := rep + [DELETION_TAG];
      rep := rep + PutSlice(key);
      Appended(old(rep), rep, op);
    }

    method Append(source: WriteBatch)
      requires Valid() && source.Valid()
      modifies this
      ensures Valid()
      ensures forall s, ops, s', more |
                IsBatch(old(rep), s, ops) && IsBatch(old(source.rep), s', more) && AllEncodable(ops + more) ::
                IsBatch(rep, s, ops + more)
    {
      hide AllEncodable, EncodeFixed, EncodeOps, IsBatch;
      ghost var before, added := rep, source.rep;
      var tail := source.rep[HEADER..];
      SetCount(Count(rep) + Count(source.rep));
      rep := rep + tail;
      Joined(before, added, rep);
    }

    /** Hands every operation to the handler, in order; the handler's calls are the first result. */
    method Iterate() returns (handled: seq<Op>, status: Status)
      ensures (handled, status) == Replay(rep)
      ensures forall s, ops | IsBatch(rep, s, ops) :: handled == ops && status == Ok
    {
      hide ReadOp, IsBatch, DecodeFixed;
      handled := [];
      if |rep| < HEADER {
        status := TooSmall;
        NotTooSmall(rep);
        return;
      }
      var input := rep[HEADER..];
      ghost var data := input;
      var found := 0;
      assert [] + ReplayOps(input).0 == ReplayOps(input).0;
      while input != []
        invariant found == |handled|
        invariant ReplayOps(data) == (handled + ReplayOps(input).0, ReplayOps(input).1)
        decreases |input|
      {
        found := found + 1;
        match ReadOp(input) {
          case Failed(error) =>
            assert handled + [] == handled;
            Replays(rep);
            return handled, error;
          case Parsed(op, rest) =>
            assert handled + ([op] + ReplayOps(rest).0) == (handled + [op]) + ReplayOps(rest).0;
            handled := handled + [op];
            input := rest;
        }
      }
      assert handled + [] == handled;
      Replays(rep);
      status := if found != Count(rep) then WrongCount else Ok;
    }
  }

  lemma NotTooSmall(rep: Bytes)
    requires |rep| < HEADER
    ensures forall s, ops :: !IsBatch(rep, s, ops)
  {
  }

  lemma Replays(rep: Bytes)
    ensures forall s, ops | IsBatch(rep, s, ops) :: Replay(rep) == (ops, Ok)
  {
    forall s, ops | IsBatch(rep, s, ops)
      ensures Replay(rep) == (ops, Ok)
    {
      BatchRoundTrip(rep, s, ops);
    }
  }

  lemma {:induction false} ZeroFixed(width: nat)
    ensures EncodeFixed(0, width) == seq(width, _ => 0)
  {
    if width == 0 {
    } else {
      ZeroFixed(width - 1);
    }
  }

  lemma Appended(before: Bytes, after: Bytes, op: Op)
    requires |before| >= HEADER
    requires after == before[..8] + Fixed32(Count(before) + 1) + before[HEADER..] + EncodeOp(op)
    ensures forall s, ops | IsBatch(before, s, ops) && AllEncodable(ops + [op]) :: IsBatch(after, s, ops + [op])
  {
    hide AllEncodable, EncodeOp, EncodeOps, EncodeFixed, DecodeFixed, IsBatch;
    EncodeOpsOne(op);
    forall s, ops | IsBatch(before, s, ops) && AllEncodable(ops + [op])
      ensures IsBatch(after, s, ops + [op])
    {
      BatchRoundTrip(before, s, ops);
      assert |ops + [op]| == |ops| + 1;
      BatchExtended(before, s, ops, [op]);
    }
  }

  lemma Joined(before: Bytes, added: Bytes, after: Bytes)
    requires |before| >= HEADER && |added| >= HEADER
    requires after == before[..8] + Fixed32(Count(before) + Count(added)) + before[HEADER..] + added[HEADER..]
    ensures forall s, ops, s', more |
              IsBatch(before, s, ops) && IsBatch(added, s', more) && AllEncodable(ops + more) ::
              IsBatch(after, s, ops + more)
  {
    hide AllEncodable, EncodeOps, EncodeFixed, DecodeFixed, IsBatch;
    forall s, ops, s', more | IsBatch(before, s, ops) && IsBatch(added, s', more) && AllEncodable(ops + more)
      ensures IsBatch(after, s, ops + more)
    {
      JoinedOne(before, s, ops, added, s', more, after);
    }
  }

  lemma JoinedOne(before: Bytes, s: nat, ops: seq<Op>, added: Bytes, s': nat, more: seq<Op>, after: Bytes)
    requires IsBatch(before, s, ops) && IsBatch(added, s', more) && AllEncodable(ops + more)
    requires |before| >= HEADER && |added| >= HEADER
    requires after == before[..8] + Fixed32(Count(before) + Count(added)) + before[HEADER..] + added[HEADER..]
    ensures IsBatch(after, s, ops + more)
  {
    hide AllEncodable, EncodeOps, EncodeFixed, DecodeFixed, IsBatch, Replay, Sequence, Count;
    BatchRoundTrip(before, s, ops);
    BatchRoundTrip(added, s', more);
    HeaderOf(added, s', more);
    assert |ops + more| == |ops| + |more|;
    BatchExtended(before, s, ops, more);
  }
}
