// Opening a database after a crash: DBImpl::Recover and DB::Open (db/db_impl.cc), from the logs that
// the directory lists to the edit that names the rebuilt tables.
module Reopening {
  import opened Wrappers
  import opened Coding
  import opened DbFormat
  import opened Reads
  import opened Tables
  import opened CompactionSetup
  import opened Builder
  import opened Install
  import opened Lsm
  import Database
  import opened LogFormat
  import LogReader
  import opened Batches
  import opened Recovery
  import opened Durability

  /** A log file as the directory has it after the crash. */
  datatype LogFound = LogFound(number: nat, file: Bytes)

  /** A file holds a first part of what was written to the log, at least as far as the last sync. */
  ghost predicate Holds(crc: Crc, found: LogFound, j: Journal) {
    && found.number == j.number
    && LogReader.Torn(found.file, Whole(crc, j)) && j.synced <= |found.file|
  }

  ghost predicate FilesHold(crc: Crc, found: seq<LogFound>, js: seq<Journal>) {
    |found| == |js| && forall i | 0 <= i < |js| :: Holds(crc, found[i], js[i])
  }

  /** The directory lists logs no longer needed, then those needed, in the order of their numbers. */
  ghost predicate Directory(crc: Crc, found: seq<LogFound>, d: Disk) {
    && |d.journals| <= |found|
    && (forall i | 0 <= i < |found| - |d.journals| :: found[i].number in d.obsolete)
    && FilesHold(crc, found[|found| - |d.journals|..], d.journals)
  }

  /** Which logs to recover: the ones the manifest still needs, and the previous log of a database that
      an older version of LevelDB has left. */
  method LogsToRecover(found: seq<LogFound>, minLog: nat, prevLog: nat, ghost crc: Crc, ghost d: Disk)
    returns (logs: seq<LogFound>)
    requires Inv(crc, d) && Directory(crc, found, d) && minLog == d.logNumber && prevLog !in d.obsolete
    ensures FilesHold(crc, logs, d.journals)
  {
    hide *;
    ghost var stale := |found| - |d.journals|;
    NumbersSplit(crc, found, d);
    logs := [];
    for i := 0 to |found|
      invariant logs == if i <= stale then [] else found[stale..i]
    {
      if found[i].number >= minLog || found[i].number == prevLog {
        logs := logs + [found[i]];
      }
    }
    assert found[stale..|found|] == found[stale..];
  }

  lemma NumbersSplit(crc: Crc, found: seq<LogFound>, d: Disk)
    requires Inv(crc, d) && Directory(crc, found, d)
    ensures 0 <= |found| - |d.journals| && d.journals != []
    ensures forall i | 0 <= i < |found| :: found[i].number >= d.logNumber <==> i >= |found| - |d.journals|
    ensures forall i | 0 <= i < |found| - |d.journals| :: found[i].number in d.obsolete
    ensures FilesHold(crc, found[|found| - |d.journals|..], d.journals)
  {
    hide JournalOk, LevelsInvariant, HistoryOk, LastOf, Whole, LogReader.Torn;
    var stale := |found| - |d.journals|;
    forall i | stale <= i < |found|
      ensures found[i].number >= d.logNumber
    {
      assert found[i] == found[stale..][i - stale] && Holds(crc, found[stale..][i - stale], d.journals[i - stale]);
    }
  }

  // ------------------------------------------------------------------ one log after the other

  /** The last sequence number before log n. */
  ghost function LastBefore(js: seq<Journal>, n: nat): nat
    requires 0 < |js| && n <= |js|
  {
    if n == 0 then js[0].base else Last(js[n - 1])
  }

  /** What recovery has established after the first n logs. */
  ghost predicate Replayed(rank: Ranking, js: seq<Journal>, kept: seq<nat>, n: nat, first: nat, tables: seq<File>,
                           next: nat, maxSequence: nat)
    requires 0 < |js|
  {
    && n <= |js| == |kept|
    && (forall i | 0 <= i < n :: js[i].acked <= kept[i] <= |js[i].groups|)
    && Rebuilt(tables, [], first, next, Survivors(rank, js, kept, n), js[0].base, LastBefore(js, n))
    && Database.SequencesAtMost(Survivors(rank, js, kept, n), maxSequence)
    && maxSequence <= LastBefore(js, n)
  }

  /** Tables rebuilt from a later log go after those rebuilt before. */
  lemma RebuiltJoin(a: seq<File>, b: seq<File>, first: nat, mid: nat, mid': nat, next: nat,
                    seenA: set<Entry>, seenB: set<Entry>, base: nat, lastA: nat, baseB: nat, lastB: nat)
    requires Rebuilt(a, [], first, mid, seenA, base, lastA) && Rebuilt(b, [], mid', next, seenB, baseB, lastB)
    requires mid <= mid' && base <= lastA <= baseB <= lastB
    ensures Rebuilt(a + b, [], first, next, seenA + seenB, base, lastB)
  {
    JoinedMembers(a, b);
    JoinedRecent(a, b, first, mid, mid', next, seenA, seenB, base, lastA, baseB, lastB);
    hide TablesRecent, LevelEntries;
    assert Members([]) == {};
    assert Between(LevelEntries(a + b), base, lastB) && Between(Members([]), lastB, lastB);
  }

  lemma JoinedMembers(a: seq<File>, b: seq<File>)
    ensures LevelEntries(a + b) == LevelEntries(a) + LevelEntries(b)
  {
    forall e
      ensures e in LevelEntries(a + b) <==> e in LevelEntries(a) || e in LevelEntries(b)
    {
      if e in LevelEntries(a) {
        var f :| f in a && e in f.entries;
        assert f in a + b;
      }
      if e in LevelEntries(b) {
        var f :| f in b && e in f.entries;
        assert f in a + b;
      }
    }
  }

  lemma JoinedRecent(a: seq<File>, b: seq<File>, first: nat, mid: nat, mid': nat, next: nat,
                     seenA: set<Entry>, seenB: set<Entry>, base: nat, lastA: nat, baseB: nat, lastB: nat)
    requires Rebuilt(a, [], first, mid, seenA, base, lastA) && Rebuilt(b, [], mid', next, seenB, baseB, lastB)
    requires mid <= mid' && lastA <= baseB
    ensures TablesRecent(a + b, first, next)
  {
    hide WellFormed, Sorted;
    assert Members([]) == {};
    forall f, g | f in a && g in b
      ensures Newer(g, f)
    {
      assert forall e | e in f.entries :: e in LevelEntries(a);
      assert forall e | e in g.entries :: e in LevelEntries(b);
    }
    forall i, j | 0 <= i < j < |a + b|
      ensures (a + b)[i].number < (a + b)[j].number && Newer((a + b)[j], (a + b)[i])
    {
      if j < |a| {
      } else if i < |a| {
        assert a[i] in a && b[j - |a|] in b;
      } else {
        assert b[i - |a|].number < b[j - |a|].number;
      }
    }
  }

  lemma ReplayStart(crc: Crc, rank: Ranking, d: Disk, kept: seq<nat>, first: nat)
    requires Inv(crc, d) && |kept| == |d.journals|
    ensures d.journals != [] && Replayed(rank, d.journals, kept, 0, first, [], first, 0)
  {
    hide JournalOk, LevelsInvariant, HistoryOk, LastOf;
    var base := d.journals[0].base;
    assert Between(LevelEntries([]), base, base) && Between(Members([]), base, base);
    assert LevelEntries([]) + Members([]) == {};
  }

  lemma {:induction false} SameSurvivors(rank: Ranking, js: seq<Journal>, kept: seq<nat>, kept': seq<nat>, n: nat)
    requires n <= |js| && n <= |kept| && n <= |kept'| && kept[..n] == kept'[..n]
    ensures Survivors(rank, js, kept, n) == Survivors(rank, js, kept', n)
  {
    hide FirstGroups;
    if n == 0 {
    } else {
      assert kept[n - 1] == kept[..n][n - 1] == kept'[n - 1];
      assert kept[..n - 1] == kept[..n][..n - 1];
      assert kept'[..n - 1] == kept'[..n][..n - 1];
      SameSurvivors(rank, js, kept, kept', n - 1);
    }
  }

  /** One more log is replayed, into tables with the numbers from next on. */
  lemma ReplayStep(crc: Crc, rank: Ranking, d: Disk, kept: seq<nat>, n: nat, first: nat, tables: seq<File>, next: nat,
                   maxSequence: nat, k: nat, more: seq<File>, next': nat, maxSequence': nat)
    requires Inv(crc, d) && n < |d.journals| && Replayed(rank, d.journals, kept, n, first, tables, next, maxSequence)
    requires var j := d.journals[n];
      && j.acked <= k <= |j.groups|
      && Recovered(rank, j.base, j.groups, k, next, maxSequence, more, [], next', maxSequence')
    ensures Replayed(rank, d.journals, kept[n := k], n + 1, first, tables + more, next', maxSequence')
  {
    hide Rebuilt, LastOf, JournalOk, LevelsInvariant, HistoryOk, Survivors, FirstGroups, Effects;
    var js, j := d.journals, d.journals[n];
    FirstGroupsFacts(crc, rank, j, k);
    NoGroups(j);
    NextSurvivors(rank, js, kept, n, k);
    RebuiltJoin(tables, more, first, next, next, next', Survivors(rank, js, kept, n), FirstGroups(rank, j, k),
                js[0].base, LastBefore(js, n), j.base, LastOf(j.base, j.groups[..k]));
    RebuiltLater(tables + more, first, next', Survivors(rank, js, kept[n := k], n + 1), js[0].base,
                 LastOf(j.base, j.groups[..k]), Last(j));
  }

  lemma NoGroups(j: Journal)
    ensures LastOf(j.base, j.groups[..0]) == j.base
  {
  }

  lemma NextSurvivors(rank: Ranking, js: seq<Journal>, kept: seq<nat>, n: nat, k: nat)
    requires n < |js| == |kept|
    ensures Survivors(rank, js, kept[n := k], n + 1) == Survivors(rank, js, kept, n) + FirstGroups(rank, js[n], k)
  {
    hide FirstGroups;
    assert kept[n := k][..n] == kept[..n];
    SameSurvivors(rank, js, kept, kept[n := k], n);
  }

  lemma RebuiltLater(tables: seq<File>, first: nat, next: nat, seen: set<Entry>, base: nat, last: nat, last': nat)
    requires Rebuilt(tables, [], first, next, seen, base, last) && last <= last'
    ensures Rebuilt(tables, [], first, next, seen, base, last')
  {
    hide TablesRecent, LevelEntries;
    assert Members([]) == {};
    assert Between(LevelEntries(tables), base, last') && Between(Members([]), last', last');
  }

  /** Numbers used for something else are skipped. */
  lemma NumbersSkipped(rank: Ranking, js: seq<Journal>, kept: seq<nat>, n: nat, first: nat, tables: seq<File>,
                       next: nat, maxSequence: nat, next': nat)
    requires js != [] && Replayed(rank, js, kept, n, first, tables, next, maxSequence) && next <= next'
    ensures Replayed(rank, js, kept, n, first, tables, next', maxSequence)
  {
    hide LevelEntries, Survivors, LastOf, WellFormed, Newer;
  }

  /** What the log's file still holds: at least the groups synced. */
  lemma SyncedKept(crc: Crc, found: LogFound, j: Journal, k: nat)
    requires JournalOk(crc, j) && Holds(crc, found, j)
    requires Survive(crc, InBlock(0), Records(j.base, j.groups), |found.file|, k)
    ensures j.acked <= k <= |j.groups|
  {
    StartOfFile();
    var records := Records(j.base, j.groups);
    RecordsPrefix(j.base, j.groups, j.acked);
    LogFileFromStart(crc, records[..j.acked]);
    hide EncodeAll, LogFile, Records, Loggable;
    SurviveCovers(crc, 0, records, |found.file|, k, j.acked);
  }

  lemma Readable(crc: Crc, logs: seq<LogFound>, js: seq<Journal>, n: nat)
    requires JournalsOk(crc, js) && FilesHold(crc, logs, js) && n < |js|
    ensures var j := js[n];
            n < |logs| && JournalOk(crc, j) && Holds(crc, logs[n], j) && logs[n].number == j.number
              && Loggable(j.base, j.groups)
            && LogReader.Torn(logs[n].file, LogFile(crc, [], Records(j.base, j.groups)))
  {
    hide LogFile, Records, Loggable, LastOf, LogReader.Torn;
    assert JournalOk(crc, js[n]) && Holds(crc, logs[n], js[n]);
  }

  /** RecoverLogFile on one of the logs, and MarkFileNumberUsed. */
  method RecoverLog(crc: Crc, rank: Ranking, log: LogFound, options: Options, next: nat, maxSequence: nat,
                    ghost j: Journal)
    returns (tables: seq<File>, tablesNext: nat, next': nat, maxSequence': nat, saveManifest: bool, status: Status,
             ghost k: nat)
    requires JournalOk(crc, j) && Holds(crc, log, j) && Loggable(j.base, j.groups)
    requires LogReader.Torn(log.file, LogFile(crc, [], Records(j.base, j.groups)))
    ensures status == Ok && j.acked <= k <= |j.groups|
    ensures Recovered(rank, j.base, j.groups, k, next, maxSequence, tables, [], tablesNext, maxSequence')
    ensures tablesNext <= next' && log.number < next'
  {
    hide *;
    var corruptions;
    tables, tablesNext, maxSequence', saveManifest, status, corruptions, k :=
      RecoverLogFile(crc, rank, log.file, options, next, maxSequence, j.base, j.groups);
    SyncedKept(crc, log, j, k);
    next' := if tablesNext <= log.number then log.number + 1 else tablesNext;
  }

  /** The logs in the order of their numbers, each into tables newer than those before. */
  method RecoverLogs(crc: Crc, rank: Ranking, logs: seq<LogFound>, options: Options, nextFile: nat, ghost d: Disk)
    returns (tables: seq<File>, next: nat, maxSequence: nat, saveManifest: bool, status: Status, ghost kept: seq<nat>)
    requires Inv(crc, d) && d.journals != [] && FilesHold(crc, logs, d.journals)
    ensures status == Ok
    ensures Replayed(rank, d.journals, kept, |d.journals|, nextFile, tables, next, maxSequence)
    ensures forall i | 0 <= i < |d.journals| :: d.journals[i].number < next
  {
    hide *;
    HasJournals(crc, logs, d);
    tables, next, maxSequence, saveManifest, status := [], nextFile, 0, false, Ok;
    kept := seq(|d.journals|, i => 0);
    ReplayStart(crc, rank, d, kept, nextFile);
    for i := 0 to |logs|
      invariant status == Ok && |kept| == |d.journals|
      invariant Replayed(rank, d.journals, kept, i, nextFile, tables, next, maxSequence)
      invariant forall l | 0 <= l < i :: d.journals[l].number < next
    {
      Readable(crc, logs, d.journals, i);
      var more, tablesNext, save;
      ghost var k;
      ghost var maxBefore := maxSequence;
      ghost var before := next;
      more, tablesNext, next, maxSequence, save, status,
        k := RecoverLog(crc, rank, logs[i], options, next, maxSequence, d.journals[i]);
      ReplayStep(crc, rank, d, kept, i, nextFile, tables, before, maxBefore, k, more, tablesNext, maxSequence);
      tables := tables + more;
      saveManifest := saveManifest || save;
      kept := kept[i := k];
      NumbersSkipped(rank, d.journals, kept, i + 1, nextFile, tables, tablesNext, maxSequence, next);
      NextGoesUp(before, tablesNext, next, rank, d.journals[i], k, maxBefore, more, maxSequence);
    }
  }

  lemma NextGoesUp(before: nat, tablesNext: nat, next: nat, rank: Ranking, j: Journal, k: nat, maxBefore: nat,
                   more: seq<File>, maxSequence: nat)
    requires Recovered(rank, j.base, j.groups, k, before, maxBefore, more, [], tablesNext, maxSequence)
             && tablesNext <= next
    ensures before <= next
  {
  }

  lemma HasJournals(crc: Crc, logs: seq<LogFound>, d: Disk)
    requires Inv(crc, d) && FilesHold(crc, logs, d.journals)
    ensures JournalsOk(crc, d.journals) && |logs| == |d.journals| > 0
  {
  }

  datatype OpenStatus = Opened | MissingFiles | NotRecovered(status: Status)

  /** Every table that the manifest names is in the directory. */
  ghost predicate TablesPresent(levels: seq<seq<File>>, present: set<nat>) {
    forall i, f | 0 <= i < |levels| && f in levels[i] :: f.number in present
  }

  /** AddLiveFiles, without the numbers that the directory lists: is any left? */
  method AllPresent(levels: seq<seq<File>>, present: set<nat>) returns (r: bool)
    ensures r <==> TablesPresent(levels, present)
  {
    r := true;
    for i := 0 to |levels|
      invariant r <==> TablesPresent(levels[..i], present)
    {
      assert levels[..i + 1] == levels[..i] + [levels[i]];
      for j := 0 to |levels[i]|
        invariant r <==> TablesPresent(levels[..i], present) && forall f | f in levels[i][..j] :: f.number in present
      {
        assert levels[i][..j + 1] == levels[i][..j] + [levels[i][j]];
        r := r && levels[i][j].number in present;
      }
      assert levels[i][..|levels[i]|] == levels[i];
    }
    assert levels[..|levels|] == levels;
  }

  /** DB::Open on an existing database: recover the logs, install the rebuilt tables, and start a new
      log.  If a table is missing nothing is changed; otherwise it is the step after a crash, for every
      state the crash can leave: what it keeps is what CrashAndReopen says. */
  method Open(crc: Crc, rank: Ranking, levels: seq<seq<File>>, pointers: seq<Option<InternalKey>>, nextFile: nat,
              lastSequence: nat, logNumber: nat, prevLog: nat, present: set<nat>, found: seq<LogFound>,
                options: Options,
              ghost d: Disk)
    returns (levels': seq<seq<File>>, pointers': seq<Option<InternalKey>>, nextFile': nat, lastSequence': nat,
             number: nat,
             status: OpenStatus, ghost kept: seq<nat>)
    requires Inv(crc, d) && Directory(crc, found, d) && |pointers| == NUM_LEVELS && d.journals != []
    requires levels == d.levels && nextFile == d.nextFile && lastSequence == d.lastSequence && logNumber == d.logNumber
    requires prevLog !in d.obsolete
    ensures status == if TablesPresent(levels, present) then Opened else MissingFiles
    ensures status == MissingFiles ==> levels' == levels && pointers' == pointers
    ensures status == Opened ==>
              CrashStep(rank, d, kept, levels', nextFile', lastSequence', number,
                        Disk(levels', nextFile', lastSequence', number, [Journal(number, lastSequence', [], 0, 0)],
                             d.obsolete + LogNumbers(d.journals), d.history + AllSurvivors(rank, d, kept)))
  {
    hide *;
    levels', pointers', nextFile', lastSequence', number, kept := levels, pointers, nextFile, lastSequence, 0, [];
    var complete := AllPresent(levels, present);
    if !complete {
      return levels', pointers', nextFile', lastSequence', number, MissingFiles, kept;
    }
    var logs := LogsToRecover(found, logNumber, prevLog, crc, d);
    var tables, next, maxSequence, saveManifest, recovered;
    tables, next, maxSequence, saveManifest, recovered, kept := RecoverLogs(crc, rank, logs, options, nextFile, d);
    lastSequence' := if lastSequence < maxSequence then maxSequence else lastSequence;
    number, nextFile' := next, next + 1;
    CanInstall(crc, d, tables);
    levels', pointers' := Database.ApplyEdit(levels, pointers, RecoveryEdit(tables));
    OpenIsCrashStep(crc, rank, d, kept, tables, next, maxSequence, levels', lastSequence');
    status := if recovered == Ok then Opened else NotRecovered(recovered);
  }

  ghost function AllSurvivors(rank: Ranking, d: Disk, kept: seq<nat>): set<Entry> {
    if |kept| == |d.journals| then Survivors(rank, d.journals, kept, |d.journals|) else {}
  }

  lemma CanInstall(crc: Crc, d: Disk, tables: seq<File>)
    requires Inv(crc, d)
    ensures LevelsShape(d.levels) && LevelsInRange(RecoveryEdit(tables))
  {
    AdditionsMembers(0, tables);
    hide JournalsOk, HistoryOk, LevelsRecent, NumbersUnique, NumbersBelow, Stored, LastOf;
  }

  lemma OpenIsCrashStep(crc: Crc, rank: Ranking, d: Disk, kept: seq<nat>, tables: seq<File>, next: nat,
                        maxSequence: nat, levels': seq<seq<File>>, last: nat)
    requires Inv(crc, d) && d.journals != []
    requires Replayed(rank, d.journals, kept, |d.journals|, d.nextFile, tables, next, maxSequence)
    requires forall i | 0 <= i < |d.journals| :: d.journals[i].number < next
    requires |levels'| == NUM_LEVELS
    requires forall i | 0 <= i < NUM_LEVELS :: levels'[i] == Edited(d.levels[i], i, RecoveryEdit(tables))
    requires last == if d.lastSequence < maxSequence then maxSequence else d.lastSequence
    ensures CrashStep(rank, d, kept, levels', next + 1, last, next,
                      Disk(levels', next + 1, last, next, [Journal(next, last, [], 0, 0)],
                           d.obsolete + LogNumbers(d.journals), d.history + AllSurvivors(rank, d, kept)))
  {
    hide JournalOk, LevelsInvariant, Rebuilt, Survivors, Edited, LastOf, Stored, LogNumbers, Unique, SameReads,
         NumbersBelow, StoreInvariant, Contents;
    var n := |d.journals|;
    RebuiltStore(tables, d.nextFile, next, Survivors(rank, d.journals, kept, n), d.journals[0].base,
                 Last(d.journals[n - 1]), d.levels, levels');
    InstalledBelow(d.levels, levels', tables, d.nextFile, next, Survivors(rank, d.journals, kept, n),
                   d.journals[0].base, Last(d.journals[n - 1]));
  }

  lemma InstalledBelow(levels: seq<seq<File>>, levels': seq<seq<File>>, tables: seq<File>, first: nat, next: nat,
                       seen: set<Entry>, base: nat, last: nat)
    requires Rebuilt(tables, [], first, next, seen, base, last)
    requires LevelsInvariant(levels) && NumbersBelow(levels, first) && |levels'| == NUM_LEVELS
    requires forall i | 0 <= i < NUM_LEVELS :: levels'[i] == Edited(levels[i], i, RecoveryEdit(tables))
    requires StoreInvariant(Store([], None, levels')) && Contents(Store([], None, levels')) == Stored(levels) + seen
    ensures LevelsInvariant(levels') && NumbersBelow(levels', next + 1) && Stored(levels') == Stored(levels) + seen
  {
    RebuiltRecent(tables, [], first, next, seen, base, last);
    TablesInstalled(levels, levels', tables, first, next);
    NewNumbersBelow(levels, levels', tables, first, next);
    hide *;
    OnlyLevels(levels');
  }

  lemma OnlyLevels(levels: seq<seq<File>>)
    requires StoreInvariant(Store([], None, levels))
    ensures LevelsInvariant(levels) && Contents(Store([], None, levels)) == Stored(levels)
  {
    assert Members([]) == {};
  }

  lemma NewNumbersBelow(levels: seq<seq<File>>, levels': seq<seq<File>>, tables: seq<File>, first: nat, next: nat)
    requires NumbersBelow(levels, first) && TablesRecent(tables, first, next) && WithTables(levels, levels', tables)
    ensures NumbersBelow(levels', next + 1)
  {
    hide WellFormed, Newer, Ordered;
    forall i, f | 0 <= i < |levels'| && f in levels'[i]
      ensures f.number < next + 1
    {
      assert f in levels[i] || f in tables;
    }
  }
}
