// A database and its files over crashes (db/db_impl.cc): the tables that the manifest names, the log
// of the memtable being flushed, the log being written, and logs that are no longer needed.  Runs
// have any number of steps and of crashes.
module Durability {
  import opened Wrappers
  import opened Coding
  import opened DbFormat
  import opened Reads
  import opened Tables
  import opened CompactionSetup
  import opened CompactionReads
  import opened Builder
  import opened Install
  import opened Lsm
  import Database
  import opened LogFormat
  import LogReader
  import opened Batches
  import opened Recovery

  /** A log file: the groups written to it, of which the first `acked` are acknowledged as synced. */
  datatype Journal = Journal(number: nat, base: nat, groups: seq<seq<Op>>, acked: nat, synced: nat)

  ghost function Last(j: Journal): (r: nat)
    ensures r >= j.base
  {
    LastOf(j.base, j.groups)
  }

  ghost function Whole(crc: Crc, j: Journal): Bytes {
    LogFile(crc, [], Records(j.base, j.groups))
  }

  ghost predicate JournalOk(crc: Crc, j: Journal) {
    Logged(crc, Whole(crc, j), j.synced, j.base, Last(j), j.groups, j.acked)
  }

  /** The entries of the first k groups of a log. */
  ghost function FirstGroups(rank: Ranking, j: Journal, k: nat): set<Entry> {
    if k <= |j.groups| && LastOf(j.base, j.groups[..k]) <= MAX_SEQUENCE
    then Effects(rank, j.base, j.groups[..k])
    else {}
  }

  /** What is on disk: what the manifest says, the logs from its log number on, and the numbers of
      older logs not yet deleted.  The history has every entry that a flush or a recovery has put
      into tables, whether compactions have dropped it since or not. */
  datatype Disk = Disk(
    levels: seq<seq<File>>,
    nextFile: nat,
    lastSequence: nat,
    logNumber: nat,
    journals: seq<Journal>,
    obsolete: set<nat>,
    history: set<Entry>)

  datatype Action =
    | Write(ops: seq<Op>, sync: bool)
    | Switch(number: nat)
    | Flush(levels: seq<seq<File>>, nextFile: nat, last: nat)
    | Compact(levels: seq<seq<File>>, nextFile: nat, last: nat, smallest: nat)
    | DeleteObsolete
    | CrashAndReopen(kept: seq<nat>, levels: seq<seq<File>>, nextFile: nat, last: nat, number: nat)

  // -------------------------------------------------------------------------- the steps

  ghost function AppendGroup(crc: Crc, j: Journal, ops: seq<Op>, sync: bool): Journal {
    var j' := j.(groups := j.groups + [ops]);
    if sync then j'.(acked := |j'.groups|, synced := |Whole(crc, j')|) else j'
  }

  /** The entries of the first kept[i] groups of each of the first n logs. */
  ghost function Survivors(rank: Ranking, js: seq<Journal>, kept: seq<nat>, n: nat): set<Entry>
    requires n <= |js| && n <= |kept|
  {
    if n == 0 then {} else Survivors(rank, js, kept, n - 1) + FirstGroups(rank, js[n - 1], kept[n - 1])
  }

  /** Every group acknowledged as synced is kept; of the others, a crash keeps any first few. */
  ghost predicate MayKeep(js: seq<Journal>, kept: seq<nat>) {
    |kept| == |js| && forall i | 0 <= i < |js| :: js[i].acked <= kept[i] <= |js[i].groups|
  }

  ghost predicate Installs(d: Disk, levels: seq<seq<File>>, nextFile: nat, added: set<Entry>) {
    LevelsInvariant(levels) && NumbersBelow(levels, nextFile) && Stored(levels) == Stored(d.levels) + added
  }

  ghost predicate WriteStep(crc: Crc, d: Disk, ops: seq<Op>, sync: bool, d': Disk)
    requires d.journals != []
  {
    var n := |d.journals|;
    && AllEncodable(ops) && Last(d.journals[n - 1]) + |ops| < MAX_SEQUENCE
    && d' == d.(journals := d.journals[n - 1 := AppendGroup(crc, d.journals[n - 1], ops, sync)])
  }

  ghost predicate SwitchStep(d: Disk, number: nat, d': Disk)
    requires d.journals != []
  {
    var j := d.journals[0];
    && |d.journals| == 1 && number > j.number
    && d' == d.(journals := [j, Journal(number, Last(j), [], 0, 0)])
  }

  ghost predicate FlushStep(rank: Ranking, d: Disk, levels: seq<seq<File>>, nextFile: nat, last: nat, d': Disk) {
    && |d.journals| == 2
    && var full, j := d.journals[0], d.journals[1];
    && j.base <= last <= Last(j)
    && Installs(d, levels, nextFile, FirstGroups(rank, full, |full.groups|))
    && d' == Disk(levels, nextFile, last, j.number, [j], d.obsolete + {full.number},
                  d.history + FirstGroups(rank, full, |full.groups|))
  }

  ghost predicate CompactStep(d: Disk, levels: seq<seq<File>>, nextFile: nat, last: nat, smallest: nat, d': Disk)
    requires d.journals != []
  {
    var j := d.journals[|d.journals| - 1];
    && smallest <= Last(j) && j.base <= last <= Last(j)
    && LevelsInvariant(levels) && NumbersBelow(levels, nextFile)
    && Stored(levels) <= Stored(d.levels) && SameReads(Stored(d.levels), Stored(levels), smallest)
    && d' == d.(levels := levels, nextFile := nextFile, lastSequence := last)
  }

  ghost predicate CrashStep(rank: Ranking, d: Disk, kept: seq<nat>, levels: seq<seq<File>>, nextFile: nat, last: nat,
                            number: nat, d': Disk)
    requires d.journals != []
  {
    var n := |d.journals|;
    var j := d.journals[n - 1];
    && MayKeep(d.journals, kept)
    && Installs(d, levels, nextFile, Survivors(rank, d.journals, kept, n))
    && d.lastSequence <= last <= Last(j) && Database.SequencesAtMost(Survivors(rank, d.journals, kept, n), last)
    && number > j.number
    && d' == Disk(levels, nextFile, last, number, [Journal(number, last, [], 0, 0)],
                  d.obsolete + LogNumbers(d.journals),
                  d.history + Survivors(rank, d.journals, kept, n))
  }

  function LogNumbers(js: seq<Journal>): set<nat> {
    set i | 0 <= i < |js| :: js[i].number
  }

  ghost predicate Step(crc: Crc, rank: Ranking, d: Disk, a: Action, d': Disk)
    requires d.journals != []
  {
    match a
    case Write(ops, sync) => WriteStep(crc, d, ops, sync, d')
    case Switch(number) => SwitchStep(d, number, d')
    case Flush(levels, nextFile, last) => FlushStep(rank, d, levels, nextFile, last, d')
    case Compact(levels, nextFile, last, smallest) => CompactStep(d, levels, nextFile, last, smallest, d')
    case DeleteObsolete => d' == d.(obsolete := {})
    case CrashAndReopen(kept, levels, nextFile, last, number) =>
      CrashStep(rank, d, kept, levels, nextFile, last, number, d')
  }

  /** One log, or the full one being flushed and its successor. */
  ghost predicate JournalsOk(crc: Crc, js: seq<Journal>) {
    && 1 <= |js| <= 2
    && (forall i | 0 <= i < |js| :: JournalOk(crc, js[i]))
    && (|js| == 2 ==> js[1].base == Last(js[0]) && js[1].number > js[0].number)
  }

  /** What every step keeps.  Reading the tables gives what the history says, the logs continue where
      the history ends, and only logs below the log number are not needed. */
  ghost predicate Inv(crc: Crc, d: Disk) {
    && JournalsOk(crc, d.journals)
    && d.journals[0].number >= d.logNumber
    && (forall o | o in d.obsolete :: o < d.logNumber)
    && LevelsInvariant(d.levels) && NumbersBelow(d.levels, d.nextFile)
    && HistoryOk(Stored(d.levels), d.history, d.journals[0].base)
    && d.journals[0].base <= d.lastSequence <= Last(d.journals[|d.journals| - 1])
  }

  ghost predicate HistoryOk(stored: set<Entry>, history: set<Entry>, base: nat) {
    && Unique(stored) && Unique(history)
    && Database.SequencesAtMost(stored, base) && Database.SequencesAtMost(history, base)
    && SameReads(stored, history, base)
  }

  // ------------------------------------------------------------ the entries of a log's groups

  ghost predicate HasNumber(es: set<Entry>, q: nat) {
    exists e :: e in es && e.key.sequence == q
  }

  ghost predicate HasNumbers(es: set<Entry>, low: nat, high: nat) {
    forall q: nat | low < q <= high :: HasNumber(es, q)
  }

  /** The sequence numbers of the groups' entries are those after base, each used once. */
  lemma {:induction false} EffectsRange(rank: Ranking, base: nat, groups: seq<seq<Op>>)
    requires LastOf(base, groups) <= MAX_SEQUENCE
    ensures Unique(Effects(rank, base, groups)) && Between(Effects(rank, base, groups), base, LastOf(base, groups))
    ensures HasNumbers(Effects(rank, base, groups), base, LastOf(base, groups))
  {
    hide Database.BatchEntries, RankedOps;
    if groups == [] {
    } else {
      var front, ops := groups[..|groups| - 1], groups[|groups| - 1];
      EffectsRange(rank, base, front);
      BatchRange(LastOf(base, front), RankedOps(rank, ops));
      RangesAdjoin(Effects(rank, base, front), Database.BatchEntries(LastOf(base, front), RankedOps(rank, ops)),
                   base, LastOf(base, front), LastOf(base, groups));
    }
  }

  lemma RangesAdjoin(a: set<Entry>, b: set<Entry>, low: nat, mid: nat, high: nat)
    requires Unique(a) && Between(a, low, mid) && HasNumbers(a, low, mid)
    requires Unique(b) && Between(b, mid, high) && HasNumbers(b, mid, high)
    requires low <= mid <= high
    ensures Unique(a + b) && Between(a + b, low, high) && HasNumbers(a + b, low, high)
  {
    forall q: nat | low < q <= high
      ensures HasNumber(a + b, q)
    {
      var part := if q <= mid then a else b;
      assert HasNumber(part, q);
      var e :| e in part && e.key.sequence == q;
      assert e in a + b;
    }
  }

  lemma BatchRange(last: nat, ops: seq<Operation<UserKey>>)
    requires last + |ops| <= MAX_SEQUENCE
    ensures Unique(Database.BatchEntries(last, ops)) && Between(Database.BatchEntries(last, ops), last, last + |ops|)
    ensures HasNumbers(Database.BatchEntries(last, ops), last, last + |ops|)
  {
    Database.BatchUnique(last, ops);
    forall q: nat | last < q <= last + |ops|
      ensures HasNumber(Database.BatchEntries(last, ops), q)
    {
      var i := q - last - 1;
      var e := Database.MakeEntry(last + 1 + i, ops[i]);
      assert e in Database.BatchEntries(last, ops) && e.key.sequence == q;
    }
  }

  /** The first k groups hold exactly the entries up to the last sequence number of group k. */
  lemma {:induction false} EffectsUpTo(rank: Ranking, base: nat, groups: seq<seq<Op>>, k: nat)
    requires k <= |groups| && LastOf(base, groups) <= MAX_SEQUENCE
    ensures LastOf(base, groups[..k]) <= LastOf(base, groups)
    ensures Effects(rank, base, groups[..k])
            == set e | e in Effects(rank, base, groups) && e.key.sequence <= LastOf(base, groups[..k])
  {
    hide Database.BatchEntries, RankedOps;
    if k == |groups| {
      assert groups[..k] == groups;
      EffectsRange(rank, base, groups);
    } else {
      var front, ops := groups[..|groups| - 1], groups[|groups| - 1];
      EffectsUpTo(rank, base, front, k);
      assert front[..k] == groups[..k];
      BatchRange(LastOf(base, front), RankedOps(rank, ops));
    }
  }

  lemma {:induction false} EffectsConcat(rank: Ranking, base: nat, a: seq<seq<Op>>, b: seq<seq<Op>>)
    requires LastOf(base, a + b) <= MAX_SEQUENCE
    ensures LastOf(base, a + b) == LastOf(LastOf(base, a), b)
    ensures Effects(rank, base, a + b) == Effects(rank, base, a) + Effects(rank, LastOf(base, a), b)
    decreases |b|
  {
    hide Database.BatchEntries, RankedOps;
    if b == [] {
      assert a + b == a;
    } else {
      var front := b[..|b| - 1];
      assert (a + b)[..|a + b| - 1] == a + front;
      EffectsConcat(rank, base, a, front);
    }
  }

  lemma FirstGroupsFacts(crc: Crc, rank: Ranking, j: Journal, k: nat)
    requires JournalOk(crc, j) && k <= |j.groups|
    ensures LastOf(j.base, j.groups[..k]) <= Last(j) < MAX_SEQUENCE
    ensures FirstGroups(rank, j, k) == Effects(rank, j.base, j.groups[..k])
    ensures Unique(FirstGroups(rank, j, k)) && Between(FirstGroups(rank, j, k), j.base, LastOf(j.base, j.groups[..k]))
  {
    LastOfPrefix(j.base, j.groups, k);
    EffectsRange(rank, j.base, j.groups[..k]);
  }

  /** Entries of fewer groups are among those of more. */
  lemma FirstGroupsGrow(crc: Crc, rank: Ranking, j: Journal, k: nat, l: nat)
    requires JournalOk(crc, j) && k <= l <= |j.groups|
    ensures FirstGroups(rank, j, k) <= FirstGroups(rank, j, l)
  {
    hide Effects, LastOf;
    FirstGroupsFacts(crc, rank, j, k);
    FirstGroupsFacts(crc, rank, j, l);
    assert j.groups[..l][..k] == j.groups[..k];
    EffectsUpTo(rank, j.base, j.groups[..l], k);
  }

  /** Survivors are the entries of the kept groups, log by log. */
  lemma {:induction false} SurvivorsAre(rank: Ranking, js: seq<Journal>, kept: seq<nat>, n: nat, e: Entry)
    requires n <= |js| && n <= |kept|
    ensures e in Survivors(rank, js, kept, n) <==> exists i | 0 <= i < n :: e in FirstGroups(rank, js[i], kept[i])
  {
    hide FirstGroups;
    if n == 0 {
    } else {
      SurvivorsAre(rank, js, kept, n - 1, e);
    }
  }

  // ------------------------------------------------------------------ every step keeps it

  lemma NewJournal(crc: Crc, number: nat, base: nat)
    requires base < MAX_SEQUENCE
    ensures JournalOk(crc, Journal(number, base, [], 0, 0)) && Last(Journal(number, base, [], 0, 0)) == base
  {
  }

  /** A database just created, with its first log. */
  function NewDatabase(nextFile: nat, number: nat): Disk {
    Disk(seq(NUM_LEVELS, i => []), nextFile, 0, number, [Journal(number, 0, [], 0, 0)], {}, {})
  }

  lemma NewDatabaseInv(crc: Crc, nextFile: nat, number: nat)
    ensures Inv(crc, NewDatabase(nextFile, number))
  {
    NewJournal(crc, number, 0);
    NoLevels();
    hide JournalOk, LevelsInvariant, Stored, NumbersBelow;
  }

  lemma NoLevels()
    ensures var levels: seq<seq<File>> := seq(NUM_LEVELS, i => []);
            LevelsInvariant(levels) && Stored(levels) == {} && forall next :: NumbersBelow(levels, next)
  {
  }

  lemma LoggedIs(crc: Crc, dest: Bytes, synced: nat, base: nat, last: nat, groups: seq<seq<Op>>, acked: nat)
    requires Logged(crc, dest, synced, base, last, groups, acked)
    ensures dest == LogFile(crc, [], Records(base, groups)) && last == LastOf(base, groups) < MAX_SEQUENCE
  {
  }

  lemma GroupJournal(crc: Crc, j: Journal, ops: seq<Op>, sync: bool)
    requires JournalOk(crc, j) && AllEncodable(ops) && Last(j) + |ops| < MAX_SEQUENCE
    ensures JournalOk(crc, AppendGroup(crc, j, ops, sync))
    ensures Last(AppendGroup(crc, j, ops, sync)) == Last(j) + |ops|
  {
    hide LogFile, Records, EncodeBatch, EncodeRecord, AllEncodable, Logged, LastOf, InBlock, IsBatch;
    var dest, last, groups := Whole(crc, j), Last(j), j.groups + [ops];
    MakeBatch(last + 1, ops);
    var dest' := dest + EncodeRecord(crc, InBlock(|dest|), EncodeBatch(last + 1, ops), true);
    GroupLogged(crc, dest, j.synced, j.base, last, j.groups, j.acked, last + 1, ops, EncodeBatch(last + 1, ops), dest');
    LoggedIs(crc, dest', j.synced, j.base, last + |ops|, groups, j.acked);
  }

  lemma MakeBatch(s: nat, ops: seq<Op>)
    requires AllEncodable(ops) && s <= MAX_SEQUENCE
    ensures IsBatch(EncodeBatch(s, ops), s, ops)
  {
  }

  /** The history with newer entries, and the tables with the same entries. */
  lemma HistoryGrows(stored: set<Entry>, history: set<Entry>, base: nat, added: set<Entry>, last: nat)
    requires HistoryOk(stored, history, base) && base <= last
    requires Unique(added) && Between(added, base, last)
    ensures HistoryOk(stored + added, history + added, last)
  {
    hide Lookup;
    Database.WriteIsFaithful(stored, history, added, base, base);
    Database.SameReadsLater(stored + added, history + added, base, last);
  }

  /** Past every entry there is nothing new to see. */
  lemma LookupPastAll(es: set<Entry>, base: nat, u: UserKey, s: nat, s': nat)
    requires Unique(es) && Database.SequencesAtMost(es, base) && s >= base && s' >= base
    ensures Lookup(es, u, s) == Lookup(es, u, s')
  {
    AnswerExists(es, u, s);
    var r :| Answers(es, u, s, r);
    assert Answers(es, u, s', r);
    LookupIs(es, u, s, r);
    LookupIs(es, u, s', r);
  }

  /** A compaction that keeps the reads from some number on keeps those of everything stored. */
  lemma HistoryStays(stored: set<Entry>, stored': set<Entry>, history: set<Entry>, base: nat, smallest: nat)
    requires HistoryOk(stored, history, base) && stored' <= stored && SameReads(stored, stored', smallest)
    ensures HistoryOk(stored', history, base)
  {
    hide Lookup;
    forall u: UserKey, s: nat | s >= base
      ensures Lookup(stored', u, s) == Lookup(history, u, s)
    {
      var later := if s >= smallest then s else smallest;
      LookupPastAll(stored, base, u, s, later);
      LookupPastAll(stored', base, u, s, later);
    }
  }

  /** What a crash keeps of the logs lies after the history. */
  lemma {:induction false} SurvivorsRange(crc: Crc, rank: Ranking, d: Disk, kept: seq<nat>, n: nat)
    requires Inv(crc, d) && MayKeep(d.journals, kept) && n <= |d.journals|
    ensures Unique(Survivors(rank, d.journals, kept, n))
    ensures Between(Survivors(rank, d.journals, kept, n), d.journals[0].base,
                    if n == 0 then d.journals[0].base else Last(d.journals[n - 1]))
  {
    hide FirstGroups, JournalOk, LevelsInvariant, HistoryOk, LastOf;
    if n == 0 {
    } else {
      SurvivorsRange(crc, rank, d, kept, n - 1);
      FirstGroupsFacts(crc, rank, d.journals[n - 1], kept[n - 1]);
    }
  }

  lemma FlushKeepsInv(crc: Crc, rank: Ranking, d: Disk, levels: seq<seq<File>>, nextFile: nat, last: nat, d': Disk)
    requires Inv(crc, d) && FlushStep(rank, d, levels, nextFile, last, d')
    ensures Inv(crc, d')
  {
    hide FirstGroups, JournalOk, HistoryOk, LevelsInvariant, LastOf, Stored, NumbersBelow, Effects;
    var full := d.journals[0];
    FirstGroupsFacts(crc, rank, full, |full.groups|);
    assert full.groups[..|full.groups|] == full.groups;
    HistoryGrows(Stored(d.levels), d.history, full.base, FirstGroups(rank, full, |full.groups|), Last(full));
  }

  lemma CompactKeepsInv(crc: Crc, d: Disk, levels: seq<seq<File>>, nextFile: nat, last: nat, smallest: nat, d': Disk)
    requires Inv(crc, d) && CompactStep(d, levels, nextFile, last, smallest, d')
    ensures Inv(crc, d')
  {
    hide JournalOk, HistoryOk, LevelsInvariant, SameReads, LastOf, Stored, NumbersBelow;
    HistoryStays(Stored(d.levels), Stored(levels), d.history, d.journals[0].base, smallest);
  }

  lemma CrashKeepsInv(crc: Crc, rank: Ranking, d: Disk, kept: seq<nat>, levels: seq<seq<File>>, nextFile: nat,
                      last: nat, number: nat, d': Disk)
    requires Inv(crc, d) && CrashStep(rank, d, kept, levels, nextFile, last, number, d')
    ensures Inv(crc, d')
  {
    hide FirstGroups, JournalOk, HistoryOk, LevelsInvariant, LastOf, Stored, NumbersBelow, Survivors;
    var n := |d.journals|;
    var survivors := Survivors(rank, d.journals, kept, n);
    FirstGroupsFacts(crc, rank, d.journals[n - 1], 0);
    SurvivorsRange(crc, rank, d, kept, n);
    NewJournal(crc, number, last);
    assert Between(survivors, d.journals[0].base, last);
    HistoryGrows(Stored(d.levels), d.history, d.journals[0].base, survivors, last);
  }

  lemma WriteKeepsInv(crc: Crc, d: Disk, ops: seq<Op>, sync: bool, d': Disk)
    requires Inv(crc, d) && WriteStep(crc, d, ops, sync, d')
    ensures Inv(crc, d')
  {
    hide JournalOk, HistoryOk, LevelsInvariant, Last, Stored, NumbersBelow, AppendGroup, AllEncodable;
    var j := d.journals[|d.journals| - 1];
    GroupJournal(crc, j, ops, sync);
    GroupKeepsPlace(crc, j, ops, sync);
  }

  lemma GroupKeepsPlace(crc: Crc, j: Journal, ops: seq<Op>, sync: bool)
    ensures AppendGroup(crc, j, ops, sync).number == j.number && AppendGroup(crc, j, ops, sync).base == j.base
  {
  }

  lemma SwitchKeepsInv(crc: Crc, rank: Ranking, d: Disk, number: nat, d': Disk)
    requires Inv(crc, d) && SwitchStep(d, number, d')
    ensures Inv(crc, d')
  {
    hide JournalOk, HistoryOk, LevelsInvariant, LastOf, Stored, NumbersBelow;
    FirstGroupsFacts(crc, rank, d.journals[0], 0);
    NewJournal(crc, number, Last(d.journals[0]));
  }

  /** Every step of a running database, and every crash with the recovery after it, keeps the
      invariant: at any time reading the tables gives what the history says. */
  lemma StepKeepsInv(crc: Crc, rank: Ranking, d: Disk, a: Action, d': Disk)
    requires Inv(crc, d) && Step(crc, rank, d, a, d')
    ensures Inv(crc, d')
  {
    hide Inv, WriteStep, SwitchStep, FlushStep, CompactStep, CrashStep;
    match a
    case Write(ops, sync) => WriteKeepsInv(crc, d, ops, sync, d');
    case Switch(number) => SwitchKeepsInv(crc, rank, d, number, d');
    case Flush(levels, nextFile, last) => FlushKeepsInv(crc, rank, d, levels, nextFile, last, d');
    case Compact(levels, nextFile, last, smallest) => CompactKeepsInv(crc, d, levels, nextFile, last, smallest, d');
    case DeleteObsolete => DeleteKeepsInv(crc, d, d');
    case CrashAndReopen(kept, levels, nextFile, last, number) =>
      CrashKeepsInv(crc, rank, d, kept, levels, nextFile, last, number, d');
  }

  lemma DeleteKeepsInv(crc: Crc, d: Disk, d': Disk)
    requires Inv(crc, d) && d' == d.(obsolete := {})
    ensures Inv(crc, d')
  {
    hide JournalsOk, HistoryOk, LevelsInvariant, LastOf, Stored, NumbersBelow;
    assert JournalsOk(crc, d'.journals);
  }

  // ------------------------------------------------------------------------- whole runs

  /** Nothing can take e away any more: it is in the history, or its group is synced. */
  ghost predicate Durable(rank: Ranking, d: Disk, e: Entry) {
    e in d.history || exists i | 0 <= i < |d.journals| :: e in FirstGroups(rank, d.journals[i], d.journals[i].acked)
  }

  /** Once the leader of a group has its sync, every entry of this log up to the group is durable. */
  lemma SyncedIsDurable(crc: Crc, rank: Ranking, d: Disk, ops: seq<Op>, d': Disk, e: Entry)
    requires Inv(crc, d) && WriteStep(crc, d, ops, true, d')
    requires var j := d'.journals[|d'.journals| - 1]; e in FirstGroups(rank, j, |j.groups|)
    ensures Durable(rank, d', e)
  {
    hide FirstGroups, LogFile, JournalOk, LevelsInvariant, HistoryOk, LastOf, Stored, NumbersBelow;
    var i := |d.journals| - 1;
    assert d'.journals[i].acked == |d'.journals[i].groups|;
  }

  lemma AckedGrows(crc: Crc, rank: Ranking, j: Journal, ops: seq<Op>, sync: bool)
    requires JournalOk(crc, j) && AllEncodable(ops) && Last(j) + |ops| < MAX_SEQUENCE
    ensures var j' := AppendGroup(crc, j, ops, sync);
            FirstGroups(rank, j, j.acked) <= FirstGroups(rank, j', j'.acked)
  {
    hide Effects, LastOf, JournalOk, FirstGroups, AllEncodable, Whole;
    var j' := AppendGroup(crc, j, ops, sync);
    AckedExist(crc, j);
    GroupJournal(crc, j, ops, sync);
    AckedExist(crc, j');
    SameFirstGroups(rank, j, j', j.acked);
    FirstGroupsGrow(crc, rank, j', j.acked, j'.acked);
  }

  lemma SameFirstGroups(rank: Ranking, j: Journal, j': Journal, k: nat)
    requires j.base == j'.base && k <= |j.groups| && j.groups <= j'.groups
    ensures FirstGroups(rank, j, k) == FirstGroups(rank, j', k)
  {
    assert j.groups[..k] == j'.groups[..k];
  }

  lemma AckedExist(crc: Crc, j: Journal)
    requires JournalOk(crc, j)
    ensures j.acked <= |j.groups|
  {
  }

  lemma SurvivorsHave(crc: Crc, rank: Ranking, d: Disk, kept: seq<nat>, i: nat, e: Entry)
    requires Inv(crc, d) && MayKeep(d.journals, kept) && i < |d.journals|
    requires e in FirstGroups(rank, d.journals[i], d.journals[i].acked)
    ensures e in Survivors(rank, d.journals, kept, |d.journals|)
  {
    hide FirstGroups, JournalOk, LevelsInvariant, HistoryOk, LastOf;
    FirstGroupsGrow(crc, rank, d.journals[i], d.journals[i].acked, kept[i]);
    SurvivorsAre(rank, d.journals, kept, |d.journals|, e);
  }

  /** No step and no crash takes back what is durable. */
  lemma StepKeepsDurable(crc: Crc, rank: Ranking, d: Disk, a: Action, d': Disk, e: Entry)
    requires Inv(crc, d) && Step(crc, rank, d, a, d') && Durable(rank, d, e)
    ensures Durable(rank, d', e)
  {
    hide FirstGroups, JournalOk, LevelsInvariant, HistoryOk, Last, NumbersBelow, AllEncodable, SameReads, Stored,
         Survivors, AppendGroup;
    if e in d.history {
    } else {
      var i :| 0 <= i < |d.journals| && e in FirstGroups(rank, d.journals[i], d.journals[i].acked);
      match a
      case Write(ops, sync) =>
        AckedGrows(crc, rank, d.journals[|d.journals| - 1], ops, sync);
        assert e in FirstGroups(rank, d'.journals[i], d'.journals[i].acked);
      case Switch(number) =>
        assert d'.journals[0] == d.journals[i];
      case Flush(_, _, _) =>
        if i == 0 {
          AckedExist(crc, d.journals[0]);
          FirstGroupsGrow(crc, rank, d.journals[0], d.journals[0].acked, |d.journals[0].groups|);
        } else {
          assert d'.journals[0] == d.journals[i];
        }
      case Compact(_, _, _, _) =>
        assert d'.journals[i] == d.journals[i];
      case DeleteObsolete =>
        assert d'.journals[i] == d.journals[i];
      case CrashAndReopen(kept, _, _, _, _) =>
        SurvivorsHave(crc, rank, d, kept, i, e);
    }
  }

  /** A run of a database from its creation. */
  ghost predicate Run(crc: Crc, rank: Ranking, ds: seq<Disk>, actions: seq<Action>) {
    && |ds| == |actions| + 1
    && (exists nextFile, number :: ds[0] == NewDatabase(nextFile, number))
    && forall i | 0 <= i < |actions| :: ds[i].journals != [] && Step(crc, rank, ds[i], actions[i], ds[i + 1])
  }

  lemma RunStarts(crc: Crc, rank: Ranking, ds: seq<Disk>, actions: seq<Action>)
    requires Run(crc, rank, ds, actions)
    ensures Inv(crc, ds[0])
  {
    var nextFile, number :| ds[0] == NewDatabase(nextFile, number);
    hide Inv, Step;
    NewDatabaseInv(crc, nextFile, number);
  }

  /** Over any run, with any number of crashes: the invariant holds throughout, and an entry that is
      durable at some point is durable ever after. */
  lemma {:induction false} DurableForEver(crc: Crc, rank: Ranking, ds: seq<Disk>, actions: seq<Action>, i: nat, j: nat,
                                          e: Entry)
    requires Run(crc, rank, ds, actions) && i <= j < |ds|
    ensures Inv(crc, ds[j])
    ensures Durable(rank, ds[i], e) ==> Durable(rank, ds[j], e)
    decreases j
  {
    hide Inv, Step, Durable, NewDatabase;
    if j == 0 {
      RunStarts(crc, rank, ds, actions);
    } else {
      DurableForEver(crc, rank, ds, actions, if i < j then i else j - 1, j - 1, e);
      StepKeepsInv(crc, rank, ds[j - 1], actions[j - 1], ds[j]);
      if i < j && Durable(rank, ds[i], e) {
        StepKeepsDurable(crc, rank, ds[j - 1], actions[j - 1], ds[j], e);
      }
    }
  }

  /** What a reopened database reads: the history and, of each log, the entries of its first kept
      groups, which include every synced one. */
  lemma ReopenedReads(crc: Crc, rank: Ranking, d: Disk, kept: seq<nat>, levels: seq<seq<File>>, nextFile: nat,
                      last: nat, number: nat, d': Disk)
    requires Inv(crc, d) && CrashStep(rank, d, kept, levels, nextFile, last, number, d')
    ensures |kept| == |d.journals| && forall i | 0 <= i < |kept| :: d.journals[i].acked <= kept[i]
    ensures forall e :: e in d'.history <==>
              e in d.history || exists i | 0 <= i < |kept| :: e in FirstGroups(rank, d.journals[i], kept[i])
    ensures SameReads(Stored(levels), d'.history, last)
  {
    CrashKeepsInv(crc, rank, d, kept, levels, nextFile, last, number, d');
    hide FirstGroups, LevelsInvariant, JournalOk, Stored, SameReads, NumbersBelow, LastOf;
    forall e
      ensures e in d'.history <==>
                e in d.history || exists i | 0 <= i < |kept| :: e in FirstGroups(rank, d.journals[i], kept[i])
    {
      SurvivorsAre(rank, d.journals, kept, |kept|, e);
    }
  }

  // ------------------------------------------- is what survives what was written first?

  /** The first n of all the groups in the two logs. */
  ghost predicate AreFirst(rank: Ranking, es: set<Entry>, full: Journal, j: Journal, n: nat) {
    && n <= |full.groups + j.groups|
    && LastOf(full.base, (full.groups + j.groups)[..n]) <= MAX_SEQUENCE
    && es == Effects(rank, full.base, (full.groups + j.groups)[..n])
  }

  /** A crash that keeps k groups of the full log and l of the next leaves the first writes made. */
  ghost predicate FirstSurvive(rank: Ranking, full: Journal, j: Journal, k: nat, l: nat) {
    exists n: nat :: AreFirst(rank, FirstGroups(rank, full, k) + FirstGroups(rank, j, l), full, j, n)
  }

  /** Every crash that can happen leaves the first writes made. */
  ghost predicate AnyCrashKeepsFirst(rank: Ranking, full: Journal, j: Journal) {
    forall k: nat, l: nat | full.acked <= k <= |full.groups| && j.acked <= l <= |j.groups| ::
      FirstSurvive(rank, full, j, k, l)
  }

  /** With two logs, the full one is never synced when it is left for the next.  Whatever crash comes,
      the surviving writes are the first ones, in the order they were made, exactly if the full log
      has no operation that is not synced, or the next log has no operation yet. */
  lemma CrashesKeepFirstIff(crc: Crc, rank: Ranking, full: Journal, j: Journal)
    requires JournalOk(crc, full) && JournalOk(crc, j) && j.base == Last(full)
    ensures full.acked <= |full.groups| && j.acked <= |j.groups|
    ensures AnyCrashKeepsFirst(rank, full, j)
            <==> LastOf(full.base, full.groups[..full.acked]) == Last(full) || Last(j) == j.base
  {
    hide JournalOk, LastOf, FirstSurvive;
    AckedExist(crc, full);
    AckedExist(crc, j);
    forall k: nat, l: nat | full.acked <= k <= |full.groups| && l <= |j.groups|
      ensures LastOf(full.base, full.groups[..full.acked]) == Last(full) || Last(j) == j.base
              ==> FirstSurvive(rank, full, j, k, l)
    {
      SurvivorsAreFirstIff(crc, rank, full, j, k, l);
      LastOfBetween(full.base, full.groups, full.acked, k);
      LastOfBetween(j.base, j.groups, 0, l);
    }
    SurvivorsAreFirstIff(crc, rank, full, j, full.acked, |j.groups|);
    assert j.groups[..|j.groups|] == j.groups;
  }

  lemma LastOfBetween(base: nat, groups: seq<seq<Op>>, k: nat, l: nat)
    requires k <= l <= |groups|
    ensures base <= LastOf(base, groups[..k]) <= LastOf(base, groups[..l]) <= LastOf(base, groups)
  {
    LastOfPrefix(base, groups[..l], k);
    assert groups[..l][..k] == groups[..k];
    LastOfPrefix(base, groups, l);
  }

  /** After one crash the surviving writes are the first ones exactly if no operation of the full log
      was lost or none of the next log was kept. */
  lemma SurvivorsAreFirstIff(crc: Crc, rank: Ranking, full: Journal, j: Journal, k: nat, l: nat)
    requires JournalOk(crc, full) && JournalOk(crc, j) && j.base == Last(full) && k <= |full.groups| && l <= |j.groups|
    ensures FirstSurvive(rank, full, j, k, l)
            <==> LastOf(full.base, full.groups[..k]) == Last(full) || LastOf(j.base, j.groups[..l]) == j.base
  {
    hide JournalOk, LastOf, Effects, FirstGroups, HasNumber;
    var es := FirstGroups(rank, full, k) + FirstGroups(rank, j, l);
    if LastOf(full.base, full.groups[..k]) == Last(full) {
      AllOfFull(crc, rank, full, j, k, l);
    } else if LastOf(j.base, j.groups[..l]) == j.base {
      NoneOfNext(crc, rank, full, j, k, l);
    } else {
      GapLeft(crc, rank, full, j, k, l);
      if n: nat :| AreFirst(rank, es, full, j, n) {
        FirstHaveAll(rank, es, full, j, n, Last(full));
        assert false;
      }
    }
  }

  lemma AllOfFull(crc: Crc, rank: Ranking, full: Journal, j: Journal, k: nat, l: nat)
    requires JournalOk(crc, full) && JournalOk(crc, j) && j.base == Last(full) && k <= |full.groups| && l <= |j.groups|
    requires LastOf(full.base, full.groups[..k]) == Last(full)
    ensures AreFirst(rank, FirstGroups(rank, full, k) + FirstGroups(rank, j, l), full, j, |full.groups| + l)
  {
    hide JournalOk, LastOf, Effects, FirstGroups;
    FirstGroupsFacts(crc, rank, full, k);
    FirstGroupsFacts(crc, rank, j, l);
    EffectsUpTo(rank, full.base, full.groups, k);
    EffectsRange(rank, full.base, full.groups);
    assert (full.groups + j.groups)[..|full.groups| + l] == full.groups + j.groups[..l];
    LastOfConcat(full.base, full.groups, j.groups[..l]);
    EffectsConcat(rank, full.base, full.groups, j.groups[..l]);
  }

  lemma {:induction false} LastOfConcat(base: nat, a: seq<seq<Op>>, b: seq<seq<Op>>)
    ensures LastOf(base, a + b) == LastOf(LastOf(base, a), b)
    decreases |b|
  {
    if b == [] {
      assert a + b == a;
    } else {
      var front := b[..|b| - 1];
      assert (a + b)[..|a + b| - 1] == a + front;
      LastOfConcat(base, a, front);
    }
  }

  lemma NoneOfNext(crc: Crc, rank: Ranking, full: Journal, j: Journal, k: nat, l: nat)
    requires JournalOk(crc, full) && JournalOk(crc, j) && j.base == Last(full) && k <= |full.groups| && l <= |j.groups|
    requires LastOf(j.base, j.groups[..l]) == j.base
    ensures AreFirst(rank, FirstGroups(rank, full, k) + FirstGroups(rank, j, l), full, j, k)
  {
    hide JournalOk, LastOf, Effects, FirstGroups;
    FirstGroupsFacts(crc, rank, full, k);
    FirstGroupsFacts(crc, rank, j, l);
    assert FirstGroups(rank, j, l) == {};
    assert (full.groups + j.groups)[..k] == full.groups[..k];
  }

  /** The last number of the full log is lost, and the number after it is kept. */
  lemma GapLeft(crc: Crc, rank: Ranking, full: Journal, j: Journal, k: nat, l: nat)
    requires JournalOk(crc, full) && JournalOk(crc, j) && j.base == Last(full) && k <= |full.groups| && l <= |j.groups|
    requires LastOf(full.base, full.groups[..k]) != Last(full) && LastOf(j.base, j.groups[..l]) != j.base
    ensures var es := FirstGroups(rank, full, k) + FirstGroups(rank, j, l);
            full.base < Last(full) && !HasNumber(es, Last(full)) && HasNumber(es, Last(full) + 1)
  {
    hide JournalOk, LastOf, Effects, FirstGroups;
    FirstGroupsFacts(crc, rank, full, k);
    FirstGroupsFacts(crc, rank, j, l);
    EffectsRange(rank, j.base, j.groups[..l]);
    assert HasNumber(FirstGroups(rank, j, l), j.base + 1);
    var e :| e in FirstGroups(rank, j, l) && e.key.sequence == j.base + 1;
    assert e in FirstGroups(rank, full, k) + FirstGroups(rank, j, l);
  }

  lemma FirstHaveAll(rank: Ranking, es: set<Entry>, full: Journal, j: Journal, n: nat, q: nat)
    requires AreFirst(rank, es, full, j, n) && HasNumber(es, q + 1) && full.base < q
    ensures HasNumber(es, q)
  {
    hide LastOf, Effects;
    EffectsRange(rank, full.base, (full.groups + j.groups)[..n]);
  }

  /** A write without sync, a full log, and a synced write to the next log. */
  ghost function TwoWrites(crc: Crc): seq<Journal> {
    var next := Journal(4, 1, [[Put([1], [2])]], 1, 0);
    [Journal(3, 0, [[Put([0], [1])]], 0, 0), next.(synced := |Whole(crc, next)|)]
  }

  /** A crash may keep the second write and lose the first. */
  lemma SecondWriteAlone(crc: Crc, rank: Ranking)
    requires rank([0]) != rank([1])
    ensures JournalsOk(crc, TwoWrites(crc)) && MayKeep(TwoWrites(crc), [0, 1])
    ensures var survivors := Survivors(rank, TwoWrites(crc), [0, 1], 2);
            Lookup(survivors, rank([0]), 2) == None && Lookup(survivors, rank([1]), 2) == Some([2])
  {
    hide JournalOk, Whole, FirstGroups;
    TwoWritesOk(crc);
    var js := TwoWrites(crc);
    var e := Entry(InternalKey(rank([1]), 2, Value), [2]);
    SecondWriteEntry(rank, js[1]);
    NothingKept(rank, js[0]);
    assert Survivors(rank, js, [0, 1], 1) == {};
    assert Survivors(rank, js, [0, 1], 2) == {e};
    assert Answers({e}, rank([1]), 2, Some(e));
    LookupIs({e}, rank([1]), 2, Some(e));
    assert Answers({e}, rank([0]), 2, None);
    LookupIs({e}, rank([0]), 2, None);
  }

  lemma NothingKept(rank: Ranking, j: Journal)
    ensures FirstGroups(rank, j, 0) == {}
  {
    assert j.groups[..0] == [];
  }

  lemma SecondWriteEntry(rank: Ranking, j: Journal)
    requires j.base == 1 && j.groups == [[Put([1], [2])]]
    ensures FirstGroups(rank, j, 1) == {Entry(InternalKey(rank([1]), 2, Value), [2])}
  {
    var ops := RankedOps(rank, [Put([1], [2])]);
    assert ops == [Put(rank([1]), [2])];
    assert Database.BatchEntries(1, ops) == {Database.MakeEntry(2, ops[0])};
    assert j.groups[..1] == j.groups && j.groups[..|j.groups| - 1] == [];
    assert LastOf(1, []) == 1 && LastOf(1, j.groups) == 2;
    assert Effects(rank, 1, j.groups) == {} + Database.BatchEntries(1, ops);
  }

  lemma TwoWritesOk(crc: Crc)
    ensures JournalsOk(crc, TwoWrites(crc))
  {
    NewJournal(crc, 3, 0);
    GroupJournal(crc, Journal(3, 0, [], 0, 0), [Put([0], [1])], false);
    NewJournal(crc, 4, 1);
    GroupJournal(crc, Journal(4, 1, [], 0, 0), [Put([1], [2])], true);
  }

  // ------------------------------------------------------------ the steps the engine takes

  /** CompactMemTable makes a Flush step. */
  lemma FlushIsStep(crc: Crc, rank: Ranking, d: Disk, es: seq<Entry>, levels: seq<seq<File>>, last: nat)
    requires Inv(crc, d) && |d.journals| == 2 && d.journals[1].base <= last <= Last(d.journals[1])
    requires Sorted(es) && Members(es) == FirstGroups(rank, d.journals[0], |d.journals[0].groups|)
    requires Database.Flushed(d.levels, levels, es, d.nextFile)
    ensures Installs(d, levels, d.nextFile + 1, FirstGroups(rank, d.journals[0], |d.journals[0].groups|))
  {
    hide FirstGroups, JournalOk, LastOf, SameReads, Added, LevelsInvariant;
    if es == [] {
      assert Members(es) == {};
    } else {
      var full := d.journals[0];
      FirstGroupsFacts(crc, rank, full, |full.groups|);
      var level: nat, f: File :| level <= Database.MAX_MEM_COMPACT_LEVEL && WellFormed(f) && f.entries == es
        && f.number == d.nextFile
        && ClearDownTo(d.levels, level, f) && Added(d.levels, levels, level, f);
      NewestOfAll(es, d.levels, full.base);
      FlushKeepsInvariant(d.levels, levels, level, f, d.nextFile);
      Database.AddedNumbers(d.levels, levels, level, f, d.nextFile);
    }
  }

  lemma NewestOfAll(es: seq<Entry>, levels: seq<seq<File>>, base: nat)
    requires Database.SequencesAtMost(Stored(levels), base) && forall e | e in Members(es) :: e.key.sequence > base
    ensures NewerThanLevels(es, levels)
  {
    forall i, f | 0 <= i < |levels| && f in levels[i]
      ensures NewerRun(es, f.entries)
    {
      forall a, b | a in es && b in f.entries
        ensures a.key.sequence > b.key.sequence
      {
        assert a in Members(es) && b in Stored(levels);
      }
    }
  }

  /** A compaction that exposes nothing makes a Compact step, whatever is in the memtables and whatever
      has been flushed since it began. */
  lemma CompactionIsStep(crc: Crc, d: Disk, levels: seq<seq<File>>, nextFile: nat, last: nat, level: nat,
                         inputs0: seq<File>, inputs1: seq<File>, input: seq<Entry>, smallest: nat, outputs: seq<File>)
    requires Inv(crc, d) && var j := d.journals[|d.journals| - 1]; smallest <= Last(j) && j.base <= last <= Last(j)
    requires LevelsInvariant(levels) && NumbersBelow(levels, nextFile) && smallest < MAX_SEQUENCE
    requires InputsUnderway(d.levels, level, inputs0, inputs1) && level + 1 < |d.levels|
             && IsMerge(input, inputs0 + inputs1)
    requires Installed(Store([], None, d.levels), Store([], None, levels), level, inputs0, inputs1, input, smallest,
                       outputs)
    requires ExposesNothing(Store([], None, d.levels), level, inputs1, input, smallest)
    ensures CompactStep(d, levels, nextFile, last, smallest,
                        d.(levels := levels, nextFile := nextFile, lastSequence := last))
  {
    hide LevelsInvariant, NumbersBelow, InputsUnderway, JournalOk, HistoryOk, Installed, ExposesNothing,
         SameReads, LastOf, IsMerge, Stored;
    LevelsAlone(d.levels);
    LevelsAlone(levels);
    Database.CompactionOutcome(Store([], None, d.levels), Store([], None, levels), level, inputs0, inputs1, input,
                               smallest, outputs);
  }

  lemma LevelsAlone(levels: seq<seq<File>>)
    requires LevelsInvariant(levels)
    ensures StoreInvariant(Store([], None, levels)) && Contents(Store([], None, levels)) == Stored(levels)
  {
    assert Members([]) == {};
  }
}
