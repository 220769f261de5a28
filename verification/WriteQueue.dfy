// How many writers one leader covers, and the batch it makes of them (db/db_impl.cc: BuildBatchGroup).
module WriteQueue {
  import opened Wrappers
  import opened Seqs
  import opened Coding
  import opened Batches

  const MAX_GROUP: nat := 0x10_0000
  const SMALL_WRITE: nat := 0x2_0000

  /** What a caller of Write asks for; no batch at all asks for a memtable switch. */
  datatype Request = Request(batch: Option<seq<Op>>, sync: bool)

  function ByteSize(ops: seq<Op>): (r: nat)
    ensures r >= HEADER
  {
    HEADER + |EncodeOps(ops)|
  }

  function MaxSize(first: nat): nat {
    if first <= SMALL_WRITE then first + SMALL_WRITE else MAX_GROUP
  }

  /** How many writers from the front of the queue one leader covers, once it covers n of them with
      batches of the given size. */
  function Covered(queue: seq<Request>, n: nat, size: nat, maxSize: nat): (r: nat)
    requires 0 < n <= |queue|
    ensures n <= r <= |queue|
    decreases |queue| - n
  {
    if n == |queue| then n
    else if queue[n].sync && !queue[0].sync then n
    else if queue[n].batch.None? then Covered(queue, n + 1, size, maxSize)
    else
      var size' := size + ByteSize(queue[n].batch.value);
      if size' > maxSize then n else Covered(queue, n + 1, size', maxSize)
  }

  function GroupSize(queue: seq<Request>): (r: nat)
    requires |queue| > 0 && queue[0].batch.Some?
    ensures 0 < r <= |queue|
  {
    var first := ByteSize(queue[0].batch.value);
    Covered(queue, 1, first, MaxSize(first))
  }

  /** The operations of a group: the batches of its writers, in queue order. */
  function GroupOps(queue: seq<Request>): seq<Op> {
    if queue == [] then []
    else
      var n := |queue| - 1;
      GroupOps(queue[..n]) + if queue[n].batch.Some? then queue[n].batch.value else []
  }

  lemma {:induction false} GroupOpsConcat(a: seq<Request>, b: seq<Request>)
    ensures GroupOps(a + b) == GroupOps(a) + GroupOps(b)
  {
    if b == [] {
      assert a + b == a;
    } else {
      var n := |b| - 1;
      GroupOpsConcat(a, b[..n]);
      assert (a + b)[..|a + b| - 1] == a + b[..n];
    }
  }

  /** No sync write is covered by a leader that does not sync. */
  ghost predicate SyncCovered(queue: seq<Request>, n: nat) {
    n <= |queue| && forall i | 0 <= i < n :: queue[i].sync ==> queue[0].sync
  }

  lemma {:induction false} CoveredSync(queue: seq<Request>, n: nat, size: nat, maxSize: nat)
    requires 0 < n <= |queue| && SyncCovered(queue, n)
    ensures SyncCovered(queue, Covered(queue, n, size, maxSize))
    decreases |queue| - n
  {
    hide ByteSize;
    if n < |queue| && !(queue[n].sync && !queue[0].sync) {
      if queue[n].batch.None? {
        CoveredSync(queue, n + 1, size, maxSize);
      } else if size + ByteSize(queue[n].batch.value) <= maxSize {
        CoveredSync(queue, n + 1, size + ByteSize(queue[n].batch.value), maxSize);
      }
    }
  }

  /** The bytes of the batches of the first n writers. */
  function TotalSize(queue: seq<Request>, n: nat): nat
    requires n <= |queue|
  {
    if n == 0 then 0
    else TotalSize(queue, n - 1) + if queue[n - 1].batch.Some? then ByteSize(queue[n - 1].batch.value) else 0
  }

  /** What one leader may cover: no sync write unless it syncs itself, and no bytes beyond its own
      batch that take the group over the limit. */
  ghost predicate Allowed(queue: seq<Request>, n: nat)
    requires |queue| > 0 && queue[0].batch.Some?
  {
    var first := ByteSize(queue[0].batch.value);
    && 0 < n <= |queue| && SyncCovered(queue, n)
    && (TotalSize(queue, n) == first || TotalSize(queue, n) <= MaxSize(first))
  }

  lemma {:induction false} TotalGrows(queue: seq<Request>, k: nat, n: nat)
    requires k <= n <= |queue|
    ensures TotalSize(queue, k) <= TotalSize(queue, n)
  {
    hide ByteSize;
    if k < n {
      TotalGrows(queue, k, n - 1);
    }
  }

  lemma OneSize(queue: seq<Request>)
    requires |queue| > 0 && queue[0].batch.Some?
    ensures TotalSize(queue, 1) == ByteSize(queue[0].batch.value)
  {
    hide ByteSize;
    assert TotalSize(queue, 0) == 0;
  }

  lemma AllowedPrefix(queue: seq<Request>, k: nat, n: nat)
    requires |queue| > 0 && queue[0].batch.Some? && Allowed(queue, n) && 0 < k <= n
    ensures Allowed(queue, k)
  {
    hide ByteSize;
    TotalGrows(queue, k, n);
    TotalGrows(queue, 1, k);
    assert TotalSize(queue, 1) == TotalSize(queue, 0) + ByteSize(queue[0].batch.value);
  }

  lemma {:induction false} CoveredAllowed(queue: seq<Request>, n: nat)
    requires |queue| > 0 && queue[0].batch.Some? && Allowed(queue, n)
    ensures var r := Covered(queue, n, TotalSize(queue, n), MaxSize(ByteSize(queue[0].batch.value)));
            Allowed(queue, r) && !Allowed(queue, r + 1)
    decreases |queue| - n
  {
    hide ByteSize;
    OneSize(queue);
    TotalGrows(queue, 1, n);
    if n < |queue| && Allowed(queue, n + 1) {
      CoveredAllowed(queue, n + 1);
    }
  }

  /** The group is the longest front of the queue that one leader may cover. */
  lemma GroupIsLongest(queue: seq<Request>)
    requires |queue| > 0 && queue[0].batch.Some?
    ensures forall n: nat :: Allowed(queue, n) <==> 0 < n <= GroupSize(queue)
  {
    hide Covered, ByteSize, SyncCovered;
    assert Allowed(queue, 1) by {
      OneAllowed(queue);
    }
    CoveredAllowed(queue, 1);
    OneSize(queue);
    forall n: nat
      ensures Allowed(queue, n) <==> 0 < n <= GroupSize(queue)
    {
      if Allowed(queue, n) && n > GroupSize(queue) {
        AllowedPrefix(queue, GroupSize(queue) + 1, n);
      }
      if 0 < n <= GroupSize(queue) {
        AllowedPrefix(queue, n, GroupSize(queue));
      }
    }
  }

  lemma OneAllowed(queue: seq<Request>)
    requires |queue| > 0 && queue[0].batch.Some?
    ensures Allowed(queue, 1)
  {
    OneSize(queue);
  }

  // ---------------------------------------------------------------- BuildBatchGroup itself

  class Writer {
    const batch: WriteBatch?
    const sync: bool

    constructor (batch: WriteBatch?, sync: bool)
      ensures this.batch == batch && this.sync == sync
    {
      this.batch, this.sync := batch, sync;
    }
  }

  /** A batch that holds the operations, under whatever sequence number. */
  ghost predicate BatchOf(rep: Bytes, ops: seq<Op>) {
    exists s: nat :: IsBatch(rep, s, ops)
  }

  /** The writers' batches hold what the requests say. */
  ghost predicate Holds(writers: seq<Writer>, queue: seq<Request>)
    reads set w | w in writers && w.batch != null :: w.batch
  {
    && |writers| == |queue|
    && forall i | 0 <= i < |writers| ::
         && writers[i].sync == queue[i].sync
         && (writers[i].batch == null <==> queue[i].batch.None?)
         && (writers[i].batch != null ==> BatchOf(writers[i].batch.rep, queue[i].batch.value))
  }

  lemma {:induction false} OpsTakeSpace(ops: seq<Op>)
    ensures |EncodeOps(ops)| >= |ops|
  {
    if ops == [] {
    } else {
      hide EncodeOp;
      OpsTakeSpace(ops[1..]);
    }
  }

  lemma BatchSize(rep: Bytes, s: nat, ops: seq<Op>)
    requires IsBatch(rep, s, ops)
    ensures |rep| == ByteSize(ops) && |ops| + HEADER <= |rep|
    ensures AllEncodable(ops)
  {
    OpsTakeSpace(ops);
    hide EncodeOps, EncodeFixed, AllEncodable;
  }

  lemma EncodableConcat(a: seq<Op>, b: seq<Op>)
    requires AllEncodable(a) && AllEncodable(b) && |a| + |b| < 0x8000_0000
    ensures AllEncodable(a + b)
  {
    hide Encodable;
  }

  lemma GroupStep(queue: seq<Request>, n: nat)
    requires n < |queue|
    ensures GroupOps(queue[..n + 1]) == GroupOps(queue[..n]) + if queue[n].batch.Some? then queue[n].batch.value else []
  {
    assert queue[..n + 1][..n] == queue[..n];
  }

  /** Joins the batches of the writers that one leader covers.  The caller's own batch is only used
      as it is; anything longer is put together in the temporary batch, which must be empty. */
  method BuildBatchGroup(writers: seq<Writer>, tmp: WriteBatch, ghost queue: seq<Request>)
    returns (result: WriteBatch, last: nat)
    requires Holds(writers, queue) && |queue| > 0 && queue[0].batch.Some?
    requires IsBatch(tmp.rep, 0, []) && forall w | w in writers :: w.batch != tmp
    modifies tmp
    ensures last + 1 == GroupSize(queue) && forall n: nat :: Allowed(queue, n) <==> 0 < n <= last + 1
    ensures BatchOf(result.rep, GroupOps(queue[..last + 1]))
    ensures result == writers[0].batch || result == tmp
    ensures result != tmp ==> tmp.rep == old(tmp.rep)
    ensures Holds(writers, queue)
  {
    hide IsBatch, AllEncodable, ByteSize, GroupOps, Covered, Allowed;
    GroupIsLongest(queue);
    var first := writers[0];
    result := first.batch;
    ghost var s: nat :| IsBatch(first.batch.rep, s, queue[0].batch.value);
    BatchSize(first.batch.rep, s, queue[0].batch.value);
    var size: nat := |first.batch.rep|;
    var maxSize: nat := MAX_GROUP;
    if size <= SMALL_WRITE {
      maxSize := size + SMALL_WRITE;
    }
    last := 0;
    FirstGroup(queue);
    ghost var held: nat := s;
    for i := 1 to |writers|
      invariant last == i - 1 && Holds(writers, queue)
      invariant Covered(queue, i, size, maxSize) == GroupSize(queue)
      invariant IsBatch(result.rep, held, GroupOps(queue[..i])) && AllEncodable(GroupOps(queue[..i]))
      invariant |GroupOps(queue[..i])| <= size
      invariant result == first.batch || result == tmp
      invariant result == first.batch ==> tmp.rep == old(tmp.rep)
    {
      GroupStep(queue, i);
      CoveredStep(queue, i, size, maxSize);
      var w := writers[i];
      if w.sync && !first.sync {
        break;
      }
      if w.batch != null {
        ghost var more := queue[i].batch.value;
        ghost var t: nat :| IsBatch(w.batch.rep, t, more);
        BatchSize(w.batch.rep, t, more);
        if size + |w.batch.rep| > maxSize {
          break;
        }
        size := size + |w.batch.rep|;
        EncodableConcat(GroupOps(queue[..i]), more);
        if result == first.batch {
          result := tmp;
          ghost var some := GroupOps(queue[..i]);
          NothingBefore(some);
          BatchFits(tmp.rep, 0, []);
          BatchFits(first.batch.rep, held, some);
          tmp.Append(first.batch);
          held := 0;
        }
        BatchFits(result.rep, held, GroupOps(queue[..i]));
        BatchFits(w.batch.rep, t, more);
        tmp.Append(w.batch);
      } else {
        NothingAfter(GroupOps(queue[..i]));
      }
      last := i;
    }
    CoveredAll(queue, size, maxSize);
  }

  lemma CoveredStep(queue: seq<Request>, n: nat, size: nat, maxSize: nat)
    requires 0 < n < |queue|
    ensures var r := Covered(queue, n, size, maxSize);
            if queue[n].sync && !queue[0].sync then r == n
            else if queue[n].batch.None? then r == Covered(queue, n + 1, size, maxSize)
            else if size + ByteSize(queue[n].batch.value) > maxSize then r == n
            else r == Covered(queue, n + 1, size + ByteSize(queue[n].batch.value), maxSize)
  {
    hide ByteSize;
  }

  lemma CoveredAll(queue: seq<Request>, size: nat, maxSize: nat)
    requires |queue| > 0
    ensures Covered(queue, |queue|, size, maxSize) == |queue|
  {
  }

  lemma FirstGroup(queue: seq<Request>)
    requires |queue| > 0 && queue[0].batch.Some?
    ensures GroupOps(queue[..1]) == queue[0].batch.value
  {
    assert queue[..1][..0] == [] && GroupOps(queue[..1][..0]) == [];
    NothingBefore(queue[0].batch.value);
  }

  lemma BatchFits(rep: Bytes, s: nat, ops: seq<Op>)
    requires IsBatch(rep, s, ops)
    ensures |rep| >= HEADER
  {
  }
}
