// The write-ahead log: what DBImpl::Write appends and syncs, and what RecoverLogFile rebuilds from
// the part of it that survives a crash (db/db_impl.cc).
module Recovery {
  import opened Wrappers
  import opened Coding
  import opened DbFormat
  import opened Reads
  import opened Tables
  import opened CompactionSetup
  import CompactionWork
  import opened Builder
  import opened Install
  import opened Lsm
  import Database
  import opened LogFormat
  import LogWriter
  import LogReader
  import opened Batches

  function RankedOps(rank: Ranking, ops: seq<Op>): (r: seq<Operation<UserKey>>)
    ensures |r| == |ops|
  {
    seq(|ops|, i requires 0 <= i < |ops| => Ranked(rank, ops[i]))
  }

  // -------------------------------------------------------------- groups and their effects

  /** The sequence number after all operations of the groups, starting after base. */
  ghost function LastOf(base: nat, groups: seq<seq<Op>>): (r: nat)
    ensures r >= base
  {
    if groups == [] then base
    else LastOf(base, groups[..|groups| - 1]) + |groups[|groups| - 1]|
  }

  /** The log record of one committed group. */
  ghost function Records(base: nat, groups: seq<seq<Op>>): (r: seq<Bytes>)
    ensures |r| == |groups|
  {
    if groups == [] then []
    else
      var n := |groups| - 1;
      Records(base, groups[..n]) + [EncodeBatch(LastOf(base, groups[..n]) + 1, groups[n])]
  }

  /** The entries the groups put into the database. */
  ghost function Effects(rank: Ranking, base: nat, groups: seq<seq<Op>>): set<Entry>
    requires LastOf(base, groups) <= MAX_SEQUENCE
  {
    if groups == [] then {}
    else
      var n := |groups| - 1;
      Effects(rank, base, groups[..n])
      + Database.BatchEntries(LastOf(base, groups[..n]), RankedOps(rank, groups[n]))
  }

  ghost predicate Loggable(base: nat, groups: seq<seq<Op>>) {
    && LastOf(base, groups) < MAX_SEQUENCE
    && forall i | 0 <= i < |groups| :: AllEncodable(groups[i])
  }

  lemma {:induction false} LastOfPrefix(base: nat, groups: seq<seq<Op>>, k: nat)
    requires k <= |groups|
    ensures LastOf(base, groups[..k]) <= LastOf(base, groups)
  {
    if k == |groups| {
      assert groups[..k] == groups;
    } else {
      LastOfPrefix(base, groups[..|groups| - 1], k);
      assert groups[..|groups| - 1][..k] == groups[..k];
    }
  }

  lemma {:induction false} RecordAt(base: nat, groups: seq<seq<Op>>, k: nat)
    requires k < |groups|
    ensures Records(base, groups)[k] == EncodeBatch(LastOf(base, groups[..k]) + 1, groups[k])
  {
    hide EncodeBatch;
    if k < |groups| - 1 {
      RecordAt(base, groups[..|groups| - 1], k);
      assert groups[..|groups| - 1][..k] == groups[..k];
    }
  }

  lemma LastOfStep(base: nat, groups: seq<seq<Op>>, k: nat)
    requires k < |groups|
    ensures LastOf(base, groups[..k + 1]) == LastOf(base, groups[..k]) + |groups[k]|
  {
    assert groups[..k + 1][..k] == groups[..k];
  }

  lemma EffectsStep(rank: Ranking, base: nat, groups: seq<seq<Op>>, k: nat)
    requires k < |groups| && LastOf(base, groups[..k + 1]) <= MAX_SEQUENCE
    ensures LastOf(base, groups[..k]) + |groups[k]| <= MAX_SEQUENCE
    ensures Effects(rank, base, groups[..k + 1])
            == Effects(rank, base, groups[..k])
               + Database.BatchEntries(LastOf(base, groups[..k]), RankedOps(rank, groups[k]))
  {
    hide Database.BatchEntries;
    LastOfStep(base, groups, k);
    assert groups[..k + 1][..k] == groups[..k];
  }

  // ---------------------------------------------------------------------- writing the log

  /** The log holds one record a committed group, and everything acknowledged as synced lies before
      the sync point. */
  ghost predicate Logged(crc: Crc, dest: Bytes, synced: nat, base: nat, last: nat, groups: seq<seq<Op>>, acked: nat) {
    && Loggable(base, groups)
    && last == LastOf(base, groups)
    && dest == LogFile(crc, [], Records(base, groups))
    && acked <= |groups|
    && |LogFile(crc, [], Records(base, groups[..acked]))| <= synced <= |dest|
  }

  /** Appending a group's record, with or without a sync, keeps the log in order. */
  lemma GroupLogged(crc: Crc, dest: Bytes, synced: nat, base: nat, last: nat, groups: seq<seq<Op>>, acked: nat,
                    s: nat, ops: seq<Op>, rep: Bytes, dest': Bytes)
    requires Logged(crc, dest, synced, base, last, groups, acked)
    requires IsBatch(rep, s, ops) && last + |ops| < MAX_SEQUENCE
    requires dest' == dest + EncodeRecord(crc, InBlock(|dest|), EncodeBatch(last + 1, ops), true)
    ensures Logged(crc, dest', synced, base, last + |ops|, groups + [ops], acked)
    ensures Logged(crc, dest', |dest'|, base, last + |ops|, groups + [ops], |groups| + 1)
  {
    hide LogFile, AllEncodable, EncodeRecord, EncodeBatch, InBlock, Records, IsBatch, Loggable, LastOf;
    GroupAppended(crc, base, groups, ops, s, rep);
    LogGrows(crc, [], Records(base, groups), EncodeBatch(last + 1, ops));
    assert (groups + [ops])[..acked] == groups[..acked];
    assert (groups + [ops])[..|groups| + 1] == groups + [ops];
  }

  /** The log file a database is appending to. */
  class Log {
    const rank: Ranking
    const writer: LogWriter.Writer
    ghost const base: nat
    var lastSequence: nat
    var synced: nat
    ghost var groups: seq<seq<Op>>
    ghost var acked: nat

    ghost predicate Valid()
      reads this, writer
    {
      writer.Valid() && Logged(writer.crc, writer.dest, synced, base, lastSequence, groups, acked)
    }

    constructor (crc: Crc, rank: Ranking, base: nat)
      requires base < MAX_SEQUENCE
      ensures Valid() && groups == [] && acked == 0 && this.base == base && writer.crc == crc && fresh(writer)
    {
      this.rank := rank;
      writer := new LogWriter.Writer(crc, []);
      this.base, lastSequence, synced := base, base, 0;
      groups, acked := [], 0;
    }

    /** The logging part of Write: the group's batch gets the next sequence number, is appended,
        and is synced if the leader asked for it. */
    method WriteGroup(updates: WriteBatch, sync: bool, ghost s: nat, ghost ops: seq<Op>)
      requires Valid() && IsBatch(updates.rep, s, ops) && lastSequence + |ops| < MAX_SEQUENCE
      modifies this, writer, updates
      ensures Valid()
      ensures groups == old(groups) + [ops]
      ensures acked == if sync then |groups| else old(acked)
      ensures IsBatch(updates.rep, old(lastSequence) + 1, ops) && lastSequence == old(lastSequence) + |ops|
    {
      hide Logged, EncodeRecord, InBlock, IsBatch, LogFile, Records, EncodeBatch, Count, Sequence, Replay, Fixed64;
      ghost var dest0, last0, rep0 := writer.dest, lastSequence, updates.rep;
      BatchIs(rep0, s, ops);
      SequenceFits(writer.crc, dest0, synced, base, last0, groups, acked);
      updates.SetSequence(lastSequence + 1);
      BatchIs(updates.rep, last0 + 1, ops);
      var count := Count(updates.rep);
      writer.AddRecord(updates.rep);
      GroupLogged(writer.crc, dest0, synced, base, last0, groups, acked, s, ops, rep0, writer.dest);
      lastSequence := lastSequence + count;
      groups := groups + [ops];
      if sync {
        synced := |writer.dest|;
        acked := |groups|;
      }
    }
  }

  lemma SequenceFits(crc: Crc, dest: Bytes, synced: nat, base: nat, last: nat, groups: seq<seq<Op>>, acked: nat)
    requires Logged(crc, dest, synced, base, last, groups, acked)
    ensures last + 1 < UINT64
  {
  }

  lemma BatchIs(rep: Bytes, s: nat, ops: seq<Op>)
    requires IsBatch(rep, s, ops)
    ensures |rep| >= HEADER && rep == EncodeBatch(s, ops) && Count(rep) == |ops| && Sequence(rep) == s
    ensures Replay(rep) == (ops, Ok)
  {
    BatchRoundTrip(rep, s, ops);
  }

  lemma GroupAppended(crc: Crc, base: nat, groups: seq<seq<Op>>, ops: seq<Op>, s: nat, rep: Bytes)
    requires Loggable(base, groups) && IsBatch(rep, s, ops) && LastOf(base, groups) + |ops| < MAX_SEQUENCE
    ensures Loggable(base, groups + [ops])
    ensures LastOf(base, groups + [ops]) == LastOf(base, groups) + |ops|
    ensures Records(base, groups + [ops]) == Records(base, groups) + [EncodeBatch(LastOf(base, groups) + 1, ops)]
  {
    hide EncodeBatch, AllEncodable;
    assert (groups + [ops])[..|groups|] == groups;
  }

  // --------------------------------------------------------------------- reading it back

  /** A crash leaves a prefix of the log that contains at least what was synced: then every group
      acknowledged as synced survives whole. */
  lemma SyncedSurvive(log: Log, file: Bytes, k: nat)
    requires log.Valid() && log.synced <= |file|
    requires Survive(log.writer.crc, 0, Records(log.base, log.groups), |file|, k)
    ensures log.acked <= k
  {
    var crc, records := log.writer.crc, Records(log.base, log.groups);
    RecordsPrefix(log.base, log.groups, log.acked);
    LogFileFromStart(crc, records[..log.acked]);
    hide EncodeAll, LogFile, Records, Loggable;
    SurviveCovers(crc, 0, records, |file|, k, log.acked);
  }

  lemma LogFileFromStart(crc: Crc, records: seq<Bytes>)
    ensures |LogFile(crc, [], records)| == |EncodeAll(crc, 0, records)|
  {
  }

  lemma {:induction false} RecordsPrefix(base: nat, groups: seq<seq<Op>>, k: nat)
    requires k <= |groups|
    ensures Records(base, groups[..k]) == Records(base, groups)[..k]
  {
    hide EncodeBatch;
    if k == |groups| {
      assert groups[..k] == groups;
    } else {
      var front := groups[..|groups| - 1];
      RecordsPrefix(base, front, k);
      assert front[..k] == groups[..k];
      assert Records(base, groups)[..|groups| - 1] == Records(base, front);
    }
  }

  /** MemTableInserter: each operation goes in with the next sequence number. */
  method InsertInto(batch: WriteBatch, rank: Ranking, mem: seq<Entry>) returns (mem': seq<Entry>, status: Status)
    requires batch.Valid() && 0 < Sequence(batch.rep)
    requires Sequence(batch.rep) - 1 + |Replay(batch.rep).0| <= MAX_SEQUENCE
    requires Sorted(mem) && Database.SequencesAtMost(Members(mem), Sequence(batch.rep) - 1)
    ensures Sorted(mem') && status == Replay(batch.rep).1
    ensures Members(mem') == Members(mem)
              + Database.BatchEntries(Sequence(batch.rep) - 1, RankedOps(rank, Replay(batch.rep).0))
  {
    var handled;
    handled, status := batch.Iterate();
    hide *;
    ghost var ops := RankedOps(rank, handled);
    var sequence := Sequence(batch.rep);
    ghost var last := sequence - 1;
    mem' := mem;
    NothingInserted(mem, last, ops);
    for i := 0 to |handled|
      invariant sequence == last + 1 + i && Inserted(mem, mem', last, ops, i)
    {
      mem' := InsertHandled(rank, mem, mem', sequence, last, handled, i);
      sequence := sequence + 1;
    }
    AllInserted(mem, mem', last, ops);
  }

  /** mem' is mem with the first i operations inserted. */
  ghost predicate Inserted(mem: seq<Entry>, mem': seq<Entry>, last: nat, ops: seq<Operation<UserKey>>, i: nat) {
    && i <= |ops| && last + |ops| <= MAX_SEQUENCE
    && Sorted(mem')
    && Database.SequencesAtMost(Members(mem'), last + i)
    && Members(mem') == Members(mem) + Database.BatchEntries(last, ops[..i])
  }

  lemma NothingInserted(mem: seq<Entry>, last: nat, ops: seq<Operation<UserKey>>)
    requires Sorted(mem) && Database.SequencesAtMost(Members(mem), last) && last + |ops| <= MAX_SEQUENCE
    ensures Inserted(mem, mem, last, ops, 0)
  {
    assert ops[..0] == [];
  }

  lemma AllInserted(mem: seq<Entry>, mem': seq<Entry>, last: nat, ops: seq<Operation<UserKey>>)
    requires Inserted(mem, mem', last, ops, |ops|)
    ensures Sorted(mem') && Members(mem') == Members(mem) + Database.BatchEntries(last, ops)
  {
    assert ops[..|ops|] == ops;
  }

  method InsertHandled(rank: Ranking, ghost mem: seq<Entry>, mem': seq<Entry>, sequence: nat, ghost last: nat,
                       handled: seq<Op>, i: nat)
    returns (mem'': seq<Entry>)
    requires i < |handled| && sequence == last + 1 + i && Inserted(mem, mem', last, RankedOps(rank, handled), i)
    ensures Inserted(mem, mem'', last, RankedOps(rank, handled), i + 1)
  {
    hide Sorted, Database.BatchEntries, Ranked;
    assert RankedOps(rank, handled)[i] == Ranked(rank, handled[i]);
    Database.BatchGrows(last, RankedOps(rank, handled), i);
    assert forall o | o in mem' :: o in Members(mem');
    mem'' := Database.InsertIntoRun(mem', Database.MakeEntry(sequence, Ranked(rank, handled[i])));
  }

  /** The tables made so far: numbered upwards, each newer than the ones before it. */
  ghost predicate TablesRecent(tables: seq<File>, first: nat, next: nat) {
    && first <= next
    && (forall f | f in tables :: WellFormed(f) && first <= f.number < next)
    && (forall i, j | 0 <= i < j < |tables| :: tables[i].number < tables[j].number && Newer(tables[j], tables[i]))
  }

  ghost predicate Between(es: set<Entry>, low: nat, high: nat) {
    forall e | e in es :: low < e.key.sequence <= high
  }

  /** The tables and the memtable together hold exactly the entries seen, the memtable's newer. */
  ghost predicate Rebuilt(tables: seq<File>, mem: seq<Entry>, first: nat, next: nat, seen: set<Entry>, base: nat,
                          last: nat) {
    && TablesRecent(tables, first, next)
    && Sorted(mem)
    && LevelEntries(tables) + Members(mem) == seen
    && Between(seen, base, last)
    && exists split: nat ::
         && base <= split <= last
         && Between(LevelEntries(tables), base, split)
         && Between(Members(mem), split, last)
  }

  lemma RebuiltAdds(tables: seq<File>, mem: seq<Entry>, mem': seq<Entry>, first: nat, next: nat,
                    seen: set<Entry>, base: nat, last: nat, ops: seq<Operation<UserKey>>)
    requires Rebuilt(tables, mem, first, next, seen, base, last) && last + |ops| <= MAX_SEQUENCE
    requires Sorted(mem') && Members(mem') == Members(mem) + Database.BatchEntries(last, ops)
    ensures Rebuilt(tables, mem', first, next, seen + Database.BatchEntries(last, ops), base, last + |ops|)
  {
    var added := Database.BatchEntries(last, ops);
    assert Between(added, last, last + |ops|) by {
      Database.BatchUnique(last, ops);
    }
    hide Sorted, Database.BatchEntries, TablesRecent;
    var split: nat :| base <= split <= last && Between(LevelEntries(tables), base, split)
      && Between(Members(mem), split, last);
    assert Between(Members(mem'), split, last + |ops|);
    assert Between(seen + added, base, last + |ops|);
  }

  /** WriteLevel0Table without a base version: the memtable, unless empty, becomes a level-0 table. */
  method WriteLevel0Table(tables: seq<File>, mem: seq<Entry>, next: nat, fileSize: seq<Entry> -> nat,
                          ghost first: nat, ghost seen: set<Entry>, ghost base: nat, ghost last: nat)
    returns (tables': seq<File>)
    requires Rebuilt(tables, mem, first, next, seen, base, last)
    ensures Rebuilt(tables', [], first, next + 1, seen, base, last)
  {
    tables' := tables;
    if mem != [] {
      tables' := tables + [CompactionWork.FinishedFile(next, mem, fileSize)];
    }
    TableAdded(tables, mem, tables', first, next, seen, base, last);
  }

  lemma TableAdded(tables: seq<File>, mem: seq<Entry>, tables': seq<File>, first: nat, next: nat,
                   seen: set<Entry>, base: nat, last: nat)
    requires Rebuilt(tables, mem, first, next, seen, base, last)
    requires if mem == [] then tables' == tables
             else |tables'| == |tables| + 1 && tables' == tables + [tables'[|tables|]]
                  && WellFormed(tables'[|tables|]) && tables'[|tables|].number == next
                    && tables'[|tables|].entries == mem
    ensures Rebuilt(tables', [], first, next + 1, seen, base, last)
  {
    TableMembers(tables, mem, tables');
    TableNewest(tables, mem, tables', first, next, seen, base, last);
    hide TablesRecent, LevelEntries;
    assert Between(Members([]), last, last);
  }

  lemma TableNewest(tables: seq<File>, mem: seq<Entry>, tables': seq<File>, first: nat, next: nat,
                    seen: set<Entry>, base: nat, last: nat)
    requires Rebuilt(tables, mem, first, next, seen, base, last)
    requires if mem == [] then tables' == tables
             else |tables'| == |tables| + 1 && tables' == tables + [tables'[|tables|]]
                  && WellFormed(tables'[|tables|]) && tables'[|tables|].number == next
                    && tables'[|tables|].entries == mem
    ensures TablesRecent(tables', first, next + 1)
  {
    hide WellFormed, Sorted, Rebuilt, LevelEntries, Members;
    RebuiltRecent(tables, mem, first, next, seen, base, last);
    if mem != [] {
      var f := tables'[|tables|];
      assert forall i | 0 <= i < |tables| :: tables'[i] == tables[i] && tables[i] in tables;
      assert forall g :: g in tables' <==> g in tables || g == f;
      assert forall g | g in tables :: Newer(f, g);
    }
  }

  lemma RebuiltRecent(tables: seq<File>, mem: seq<Entry>, first: nat, next: nat, seen: set<Entry>, base: nat, last: nat)
    requires Rebuilt(tables, mem, first, next, seen, base, last)
    ensures TablesRecent(tables, first, next)
    ensures forall g, d, e | g in tables && d in mem && e in g.entries :: d.key.sequence > e.key.sequence
  {
    hide TablesRecent, Sorted;
    var split: nat :| base <= split <= last && Between(LevelEntries(tables), base, split)
      && Between(Members(mem), split, last);
    forall g, d, e | g in tables && d in mem && e in g.entries
      ensures d.key.sequence > e.key.sequence
    {
      assert d in Members(mem) && e in LevelEntries(tables);
    }
  }

  lemma TableMembers(tables: seq<File>, mem: seq<Entry>, tables': seq<File>)
    requires if mem == [] then tables' == tables
             else && |tables'| == |tables| + 1
                  && tables' == tables + [tables'[|tables|]]
                  && tables'[|tables|].entries == mem
    ensures LevelEntries(tables') == LevelEntries(tables) + Members(mem)
  {
    if mem != [] {
      var f := tables'[|tables|];
      assert forall g :: g in tables' <==> g in tables || g == f;
      forall e
        ensures e in LevelEntries(tables') <==> e in LevelEntries(tables) || e in mem
      {
        if e in mem {
          assert f in tables' && e in f.entries;
        }
      }
    }
  }

  /** Everything RecoverLogFile has established after the records of the first k groups. */
  ghost predicate Recovered(rank: Ranking, base: nat, groups: seq<seq<Op>>, k: nat, first: nat, maxBefore: nat,
                            tables: seq<File>, mem: seq<Entry>, next: nat, maxSequence: nat) {
    && k <= |groups| && LastOf(base, groups[..k]) <= MAX_SEQUENCE
    && Rebuilt(tables, mem, first, next, Effects(rank, base, groups[..k]), base, LastOf(base, groups[..k]))
    && maxSequence == if k == 0 || LastOf(base, groups[..k]) <= maxBefore then maxBefore else LastOf(base, groups[..k])
  }

  lemma RecoveredStart(rank: Ranking, base: nat, groups: seq<seq<Op>>, first: nat, maxBefore: nat)
    requires base <= MAX_SEQUENCE
    ensures Recovered(rank, base, groups, 0, first, maxBefore, [], [], first, maxBefore)
  {
    assert groups[..0] == [];
    assert Between(LevelEntries([]), base, base) && Between(Members([]), base, base);
    assert LevelEntries([]) + Members([]) == {};
  }

  lemma RecoveredStep(rank: Ranking, base: nat, groups: seq<seq<Op>>, k: nat, first: nat, maxBefore: nat,
                      tables: seq<File>, mem: seq<Entry>, next: nat, maxSequence: nat, mem': seq<Entry>)
    requires Loggable(base, groups) && k < |groups|
    requires Recovered(rank, base, groups, k, first, maxBefore, tables, mem, next, maxSequence)
    requires LastOf(base, groups[..k]) + |groups[k]| <= MAX_SEQUENCE
    requires Sorted(mem')
    requires Members(mem') == Members(mem)
               + Database.BatchEntries(LastOf(base, groups[..k]), RankedOps(rank, groups[k]))
    ensures var last := LastOf(base, groups[..k]) + |groups[k]|;
            Recovered(rank, base, groups, k + 1, first, maxBefore, tables, mem', next,
                      if last > maxSequence then last else maxSequence)
  {
    hide Rebuilt, Effects, Database.BatchEntries, Sorted, RankedOps;
    LastOfStep(base, groups, k);
    EffectsStep(rank, base, groups, k);
    RebuiltAdds(tables, mem, mem', first, next, Effects(rank, base, groups[..k]), base, LastOf(base, groups[..k]),
                RankedOps(rank, groups[k]));
  }

  lemma MemAtMost(rank: Ranking, base: nat, groups: seq<seq<Op>>, k: nat, first: nat, maxBefore: nat,
                  tables: seq<File>, mem: seq<Entry>, next: nat, maxSequence: nat)
    requires Recovered(rank, base, groups, k, first, maxBefore, tables, mem, next, maxSequence)
    ensures Sorted(mem) && Database.SequencesAtMost(Members(mem), LastOf(base, groups[..k]))
  {
  }

  /** What the record of group k says once it is in a batch. */
  lemma RecordIsGroup(base: nat, groups: seq<seq<Op>>, k: nat, record: Bytes)
    requires Loggable(base, groups) && k < |groups| && record == Records(base, groups)[k]
    ensures LastOf(base, groups[..k]) + |groups[k]| <= MAX_SEQUENCE
    ensures |record| >= HEADER && Count(record) == |groups[k]|
    ensures Sequence(record) == LastOf(base, groups[..k]) + 1
    ensures Replay(record) == (groups[k], Ok)
  {
    hide Records, Replay, Count, Sequence, EncodeBatch, AllEncodable;
    RecordAt(base, groups, k);
    LastOfStep(base, groups, k);
    LastOfPrefix(base, groups, k + 1);
    BatchIs(record, LastOf(base, groups[..k]) + 1, groups[k]);
  }

  /** Replays one log record into the memtable. */
  method ReplayRecord(rank: Ranking, record: Bytes, mem: seq<Entry>, maxSequence: nat,
                      ghost base: nat, ghost groups: seq<seq<Op>>, ghost k: nat, ghost first: nat, ghost maxBefore: nat,
                      ghost tables: seq<File>, ghost next: nat)
    returns (mem': seq<Entry>, maxSequence': nat, status: Status)
    requires Loggable(base, groups) && k < |groups| && record == Records(base, groups)[k]
    requires Recovered(rank, base, groups, k, first, maxBefore, tables, mem, next, maxSequence)
    ensures status == Ok
    ensures Recovered(rank, base, groups, k + 1, first, maxBefore, tables, mem', next, maxSequence')
  {
    hide *;
    RecordIsGroup(base, groups, k, record);
    MemAtMost(rank, base, groups, k, first, maxBefore, tables, mem, next, maxSequence);
    var batch := new WriteBatch();
    batch.SetContents(record);
    mem', status := InsertInto(batch, rank, mem);
    maxSequence' := maxSequence;
    if status != Ok {
      return;
    }
    var lastSeq := Sequence(batch.rep) + Count(batch.rep) - 1;
    if lastSeq > maxSequence {
      maxSequence' := lastSeq;
    }
    RecoveredStep(rank, base, groups, k, first, maxBefore, tables, mem, next, maxSequence, mem');
  }

  lemma FlushedRecovered(rank: Ranking, base: nat, groups: seq<seq<Op>>, k: nat, first: nat, maxBefore: nat,
                         tables: seq<File>, mem: seq<Entry>, next: nat, maxSequence: nat, tables': seq<File>)
    requires Recovered(rank, base, groups, k, first, maxBefore, tables, mem, next, maxSequence)
    requires Rebuilt(tables', [], first, next + 1, Effects(rank, base, groups[..k]), base, LastOf(base, groups[..k]))
    ensures Recovered(rank, base, groups, k, first, maxBefore, tables', [], next + 1, maxSequence)
  {
  }

  lemma CanFlush(rank: Ranking, base: nat, groups: seq<seq<Op>>, k: nat, first: nat, maxBefore: nat,
                 tables: seq<File>, mem: seq<Entry>, next: nat, maxSequence: nat)
    requires Recovered(rank, base, groups, k, first, maxBefore, tables, mem, next, maxSequence)
    ensures k <= |groups| && LastOf(base, groups[..k]) <= MAX_SEQUENCE
    ensures Rebuilt(tables, mem, first, next, Effects(rank, base, groups[..k]), base, LastOf(base, groups[..k]))
  {
  }

  method FlushRecovered(rank: Ranking, tables: seq<File>, mem: seq<Entry>, next: nat, fileSize: seq<Entry> -> nat,
                        ghost base: nat, ghost groups: seq<seq<Op>>, ghost k: nat, ghost first: nat,
                          ghost maxBefore: nat,
                        ghost maxSequence: nat)
    returns (tables': seq<File>)
    requires Recovered(rank, base, groups, k, first, maxBefore, tables, mem, next, maxSequence)
    ensures Recovered(rank, base, groups, k, first, maxBefore, tables', [], next + 1, maxSequence)
  {
    hide *;
    CanFlush(rank, base, groups, k, first, maxBefore, tables, mem, next, maxSequence);
    tables' := WriteLevel0Table(tables, mem, next, fileSize, first, Effects(rank, base, groups[..k]), base,
                                LastOf(base, groups[..k]));
    FlushedRecovered(rank, base, groups, k, first, maxBefore, tables, mem, next, maxSequence, tables');
  }

  /** What the options say: when a memtable is full, and how big a table file is. */
  datatype Options = Options(paranoidChecks: bool, full: seq<Entry> -> bool, fileSize: seq<Entry> -> nat)

  /** RecoverLogFile, without reuse_logs.  From a log torn at any byte it rebuilds exactly the
      effects of the groups whose records survived whole, in tables newer than one another, finds
      the last sequence number, and reports no corruption. */
  method RecoverLogFile(crc: Crc, rank: Ranking, file: Bytes, options: Options, firstNumber: nat, maxBefore: nat,
                        ghost base: nat, ghost groups: seq<seq<Op>>)
    returns (tables: seq<File>, next: nat, maxSequence: nat, saveManifest: bool, status: Status, corruptions: int,
             ghost k: nat)
    requires Loggable(base, groups)
    requires LogReader.Torn(file, LogFile(crc, [], Records(base, groups)))
    ensures status == Ok && corruptions == 0
    ensures Survive(crc, InBlock(0), Records(base, groups), |file|, k)
    ensures Recovered(rank, base, groups, k, firstNumber, maxBefore, tables, [], next, maxSequence)
    ensures saveManifest <==> k > 0
  {
    hide Recovered, Survive, Records, InBlock, LogFile, LogReader.RecordStart, LogReader.Torn, Count, Sequence, Replay,
         Loggable, LastOf, LogReader.Reader.Valid, LogReader.Reader.Position;
    ReplayStarts(crc, rank, base, groups, firstNumber, maxBefore);
    ghost var records := Records(base, groups);
    var reader := new LogReader.Reader(crc, file, true);
    tables, next, maxSequence, saveManifest, status, corruptions := [], firstNumber, maxBefore, false, Ok, 0;
    k := 0;
    var mem: Option<seq<Entry>> := None;
    var ok, record := reader.ReadNext([], records, k);
    while ok && status == Ok
      invariant reader.Valid() && reader.crc == crc && reader.file == file
      invariant reader.Position() <= |file| && reader.corruptions == 0 == corruptions
      invariant status == Ok && k <= |records| && (saveManifest || mem.Some? <==> k > 0)
      invariant Recovered(rank, base, groups, k, firstNumber, maxBefore, tables, Held(mem), next, maxSequence)
      invariant ok ==>
        && k < |records| && record == records[k]
        && reader.Position() == LogReader.RecordStart(crc, [], records, k + 1)
      invariant !ok ==> Survive(crc, InBlock(0), records, |file|, k)
      decreases ok, |file| - reader.Position()
    {
      RecordIsGroup(base, groups, k, record);
      if |record| < HEADER {
        corruptions := corruptions + 1;
      } else {
        if mem.None? {
          mem := Some([]);
        }
        var rebuilt;
        rebuilt, maxSequence, status :=
          ReplayRecord(rank, record, mem.value, maxSequence, base, groups, k, firstNumber, maxBefore, tables, next);
        mem := Some(rebuilt);
        if !options.paranoidChecks {
          status := Ok;
        }
        if status != Ok {
          break;
        }
        k := k + 1;
        if options.full(mem.value) {
          saveManifest := true;
          tables := FlushRecovered(rank, tables, mem.value, next, options.fileSize, base, groups, k, firstNumber,
                                   maxBefore, maxSequence);
          next := next + 1;
          mem := None;
        }
      }
      ok, record := reader.ReadNext([], records, k);
    }
    if mem.Some? {
      saveManifest := true;
      tables := FlushRecovered(rank, tables, mem.value, next, options.fileSize, base, groups, k, firstNumber,
                               maxBefore, maxSequence);
      next := next + 1;
    }
    corruptions := corruptions + reader.corruptions;
  }

  function Held(mem: Option<seq<Entry>>): seq<Entry> {
    match mem case None => [] case Some(es) => es
  }

  lemma ReplayStarts(crc: Crc, rank: Ranking, base: nat, groups: seq<seq<Op>>, firstNumber: nat, maxBefore: nat)
    requires Loggable(base, groups)
    ensures |Records(base, groups)| == |groups|
    ensures LogReader.RecordStart(crc, [], Records(base, groups), 0) == 0
    ensures Recovered(rank, base, groups, 0, firstNumber, maxBefore, [], [], firstNumber, maxBefore)
  {
    assert Records(base, groups)[..0] == [];
    LastOfPrefix(base, groups, 0);
    assert groups[..0] == [];
    RecoveredStart(rank, base, groups, firstNumber, maxBefore);
  }

  /** Crash and recover: whatever part of the log survives beyond the last sync, the database comes
      back with exactly the first k groups, and every write acknowledged as synced is among them. */
  method CrashAndRecover(log: Log, file: Bytes, options: Options, firstNumber: nat, maxBefore: nat)
    returns (tables: seq<File>, next: nat, maxSequence: nat, saveManifest: bool, status: Status, corruptions: int,
             ghost k: nat)
    requires log.Valid() && LogReader.Torn(file, log.writer.dest) && log.synced <= |file|
    ensures status == Ok && corruptions == 0
    ensures log.acked <= k <= |log.groups|
    ensures Recovered(log.rank, log.base, log.groups, k, firstNumber, maxBefore, tables, [], next, maxSequence)
  {
    hide Recovered, Survive, LogFile, Records, LogReader.Torn, Loggable, LastOf, InBlock;
    assert InBlock(0) == 0 by {
      StartOfFile();
    }
    tables, next, maxSequence, saveManifest, status, corruptions, k :=
      RecoverLogFile(log.writer.crc, log.rank, file, options, firstNumber, maxBefore, log.base, log.groups);
    SyncedSurvive(log, file, k);
    CanFlush(log.rank, log.base, log.groups, k, firstNumber, maxBefore, tables, [], next, maxSequence);
  }

  lemma StartOfFile()
    ensures InBlock(0) == 0
  {
  }

  // ------------------------------------------------------------- installing what was rebuilt

  /** The edit that a recovery logs. */
  function RecoveryEdit(tables: seq<File>): VersionEdit {
    EMPTY_EDIT.(newFiles := Additions(0, tables))
  }

  /** Installing the rebuilt tables in the version read from the manifest gives a store in order,
      which holds what the version held and what the surviving groups wrote. */
  lemma RecoveredStore(rank: Ranking, base: nat, groups: seq<seq<Op>>, k: nat, first: nat, maxBefore: nat,
                       tables: seq<File>, next: nat, maxSequence: nat, levels: seq<seq<File>>, levels': seq<seq<File>>)
    requires Recovered(rank, base, groups, k, first, maxBefore, tables, [], next, maxSequence)
    requires LevelsInvariant(levels) && NumbersBelow(levels, first) && Database.SequencesAtMost(Stored(levels), base)
    requires |levels'| == NUM_LEVELS
    requires forall i | 0 <= i < NUM_LEVELS :: levels'[i] == Edited(levels[i], i, RecoveryEdit(tables))
    ensures k <= |groups| && LastOf(base, groups[..k]) <= MAX_SEQUENCE
    ensures StoreInvariant(Store([], None, levels'))
    ensures Contents(Store([], None, levels')) == Stored(levels) + Effects(rank, base, groups[..k])
  {
    hide *;
    CanFlush(rank, base, groups, k, first, maxBefore, tables, [], next, maxSequence);
    RebuiltStore(tables, first, next, Effects(rank, base, groups[..k]), base, LastOf(base, groups[..k]), levels,
                 levels');
  }

  lemma RebuiltStore(tables: seq<File>, first: nat, next: nat, seen: set<Entry>, base: nat, last: nat,
                     levels: seq<seq<File>>, levels': seq<seq<File>>)
    requires Rebuilt(tables, [], first, next, seen, base, last)
    requires LevelsInvariant(levels) && NumbersBelow(levels, first) && Database.SequencesAtMost(Stored(levels), base)
    requires |levels'| == NUM_LEVELS
    requires forall i | 0 <= i < NUM_LEVELS :: levels'[i] == Edited(levels[i], i, RecoveryEdit(tables))
    ensures StoreInvariant(Store([], None, levels'))
    ensures Contents(Store([], None, levels')) == Stored(levels) + seen
  {
    RebuiltRecent(tables, [], first, next, seen, base, last);
    RebuiltNew(tables, first, next, seen, base, last);
    hide *;
    TablesInstalled(levels, levels', tables, first, next);
    InstalledInvariant(levels, levels', tables, first, next, base);
    InstalledContents(levels, levels', tables);
  }

  lemma RebuiltNew(tables: seq<File>, first: nat, next: nat, seen: set<Entry>, base: nat, last: nat)
    requires Rebuilt(tables, [], first, next, seen, base, last)
    ensures LevelEntries(tables) == seen && Between(LevelEntries(tables), base, last)
    ensures AllNewer(tables, base)
  {
    assert Members([]) == {};
    forall f, e | f in tables && e in f.entries
      ensures e.key.sequence > base
    {
      assert e in LevelEntries(tables);
    }
  }

  ghost predicate AllNewer(tables: seq<File>, base: nat) {
    forall f, e | f in tables && e in f.entries :: e.key.sequence > base
  }

  /** levels' is levels with tables added to level 0. */
  ghost predicate WithTables(levels: seq<seq<File>>, levels': seq<seq<File>>, tables: seq<File>) {
    && |levels| == |levels'| == NUM_LEVELS
    && (forall i | 1 <= i < NUM_LEVELS :: levels'[i] == levels[i])
    && Ordered(levels'[0])
    && forall f :: f in levels'[0] <==> f in levels[0] || f in tables
  }

  lemma TablesInstalled(levels: seq<seq<File>>, levels': seq<seq<File>>, tables: seq<File>, first: nat, next: nat)
    requires LevelsInvariant(levels) && NumbersBelow(levels, first) && TablesRecent(tables, first, next)
    requires |levels'| == NUM_LEVELS
    requires forall i | 0 <= i < NUM_LEVELS :: levels'[i] == Edited(levels[i], i, RecoveryEdit(tables))
    ensures WithTables(levels, levels', tables)
  {
    hide Edited, WellFormed, Newer, LevelsRecent, LevelSorted, Sorted;
    var edit := RecoveryEdit(tables);
    AdditionsMembers(0, tables);
    forall i | 0 <= i < NUM_LEVELS
      ensures Ordered(levels'[i])
      ensures forall f :: f in levels'[i] <==> f in levels[i] || (i == 0 && f in tables)
    {
      RecoveryAdds(levels, tables, first, next, i);
      EditedLevel(levels[i], i, edit);
    }
    forall i | 1 <= i < NUM_LEVELS
      ensures levels'[i] == levels[i]
    {
      OrderedUnique(levels'[i], levels[i]);
    }
  }

  lemma RecoveryAdds(levels: seq<seq<File>>, tables: seq<File>, first: nat, next: nat, i: nat)
    requires LevelsInvariant(levels) && NumbersBelow(levels, first) && TablesRecent(tables, first, next)
             && i < NUM_LEVELS
    ensures AddsFresh(levels[i], i, RecoveryEdit(tables))
    ensures DeletedIn(RecoveryEdit(tables), i) == {}
    ensures AddedIn(RecoveryEdit(tables).newFiles, i) == if i == 0 then set f | f in tables else {}
  {
    hide WellFormed, Newer, LevelsRecent, LevelSorted, Sorted;
    AdditionsMembers(0, tables);
    var added := Additions(0, tables);
    forall f | i == 0 && f in tables
      ensures f in AddedIn(added, i)
    {
      assert (i, f) in added;
    }
  }

  lemma InstalledInvariant(levels: seq<seq<File>>, levels': seq<seq<File>>, tables: seq<File>, first: nat, next: nat,
                           base: nat)
    requires LevelsInvariant(levels) && NumbersBelow(levels, first) && Database.SequencesAtMost(Stored(levels), base)
    requires TablesRecent(tables, first, next) && AllNewer(tables, base) && WithTables(levels, levels', tables)
    ensures StoreInvariant(Store([], None, levels'))
  {
    TablesNewest(levels, tables, base);
    InstalledRecent(levels, levels', tables, first, next);
    InstalledNumbers(levels, levels', tables, first, next);
    hide LevelsRecent, NumbersUnique, Newer, Sorted, LevelSorted;
  }

  lemma TablesNewest(levels: seq<seq<File>>, tables: seq<File>, base: nat)
    requires Database.SequencesAtMost(Stored(levels), base) && AllNewer(tables, base)
    ensures forall i, f, g | 0 <= i < |levels| && f in tables && g in levels[i] :: Newer(f, g)
  {
    forall i, f, g, d, e | 0 <= i < |levels| && f in tables && g in levels[i] && d in f.entries && e in g.entries
      ensures d.key.sequence > e.key.sequence
    {
      assert e in Stored(levels);
    }
  }

  lemma InstalledRecent(levels: seq<seq<File>>, levels': seq<seq<File>>, tables: seq<File>, first: nat, next: nat)
    requires LevelsInvariant(levels) && NumbersBelow(levels, first)
    requires TablesRecent(tables, first, next) && WithTables(levels, levels', tables)
    requires forall i, f, g | 0 <= i < |levels| && f in tables && g in levels[i] :: Newer(f, g)
    ensures LevelsRecent(levels')
  {
    hide Newer, WellFormed, Sorted, LevelSorted, Ordered, NumbersUnique;
    forall f, g | f in levels'[0] && g in levels'[0] && f.number > g.number
      ensures Newer(f, g)
    {
      if f in tables && g in tables {
        TableNewer(tables, first, next, f, g);
      } else if f in tables {
        assert g in levels[0];
      }
    }
    forall i, j, f, g | 0 <= i < j < |levels'| && f in levels'[i] && g in levels'[j]
      ensures Newer(f, g)
    {
      assert levels'[j] == levels[j];
    }
  }

  /** Of two new tables the one with the higher number is the newer. */
  lemma TableNewer(tables: seq<File>, first: nat, next: nat, f: File, g: File)
    requires TablesRecent(tables, first, next) && f in tables && g in tables && f.number > g.number
    ensures Newer(f, g)
  {
    hide Newer, WellFormed;
    var i :| 0 <= i < |tables| && tables[i] == f;
    var j :| 0 <= j < |tables| && tables[j] == g;
    assert j < i ==> Newer(tables[i], tables[j]);
  }

  lemma InstalledNumbers(levels: seq<seq<File>>, levels': seq<seq<File>>, tables: seq<File>, first: nat, next: nat)
    requires LevelsInvariant(levels) && NumbersBelow(levels, first)
    requires TablesRecent(tables, first, next) && WithTables(levels, levels', tables)
    ensures NumbersUnique(levels')
  {
    hide Newer, WellFormed, Sorted, LevelSorted, Ordered, LevelsRecent;
    forall i, j, f, g | 0 <= i < NUM_LEVELS && 0 <= j < NUM_LEVELS && f in levels'[i] && g in levels'[j]
      && f.number == g.number
      ensures i == j && f == g
    {
      if f in tables && g in tables && i == 0 && j == 0 {
        var m :| 0 <= m < |tables| && tables[m] == f;
        var n :| 0 <= n < |tables| && tables[n] == g;
      }
    }
  }

  lemma InstalledContents(levels: seq<seq<File>>, levels': seq<seq<File>>, tables: seq<File>)
    requires WithTables(levels, levels', tables)
    ensures Contents(Store([], None, levels')) == Stored(levels) + LevelEntries(tables)
  {
    hide Ordered;
    forall e
      ensures e in Stored(levels') <==> e in Stored(levels) || e in LevelEntries(tables)
    {
      if e in Stored(levels') {
        var i, f :| 0 <= i < NUM_LEVELS && f in levels'[i] && e in f.entries;
        assert f in levels[i] || f in tables;
      }
      if e in Stored(levels) {
        var i, f :| 0 <= i < NUM_LEVELS && f in levels[i] && e in f.entries;
        assert f in levels'[i];
      }
      if e in LevelEntries(tables) {
        var f :| f in tables && e in f.entries;
        assert f in levels'[0];
      }
    }
  }
}
