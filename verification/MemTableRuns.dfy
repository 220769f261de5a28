// The memtable of the database object is a sorted run of entries; the real one is a skip list of
// encoded buffers (db/memtable.cc).  Insert for insert they hold the same, and so answer alike.
module MemTableRuns {
  import opened Wrappers
  import opened Coding
  import opened DbFormat
  import opened Reads
  import opened Tables
  import opened MemTables
  import SkipLists
  import Database
  import DbIterator

  /** The memtable holds exactly the entries of the run. */
  ghost predicate StandsFor(table: MemTable, run: seq<Entry>)
    reads table, table.table
  {
    table.Valid() && Sorted(run) && table.Contents() == Members(run)
  }

  /** One operation, into both. */
  method AddToBoth(table: MemTable, run: seq<Entry>, s: SequenceNumber, op: Operation<Bytes>, height: nat)
    returns (run': seq<Entry>)
    requires StandsFor(table, run) && 1 <= height <= SkipLists.MAX_HEIGHT
    requires Sized(op.key, if op.Put? then op.value else [])
    requires forall e | e in run :: e.key.user != table.rank(op.key) || e.key.sequence != s
    modifies table, table.table
    ensures StandsFor(table, run')
    ensures Members(run') == Members(run) + {Database.MakeEntry(s, Ranked(table.rank, op))}
  {
    hide MemTable.Valid, MemTable.Contents, Sorted;
    var e := Database.MakeEntry(s, Ranked(table.rank, op));
    assert forall x | x in table.Contents() :: x in run;
    run' := Database.InsertIntoRun(run, e);
    match op {
      case Put(key, value) => table.Add(s, Value, key, value, height);
      case Delete(key) => table.Add(s, Deletion, key, [], height);
    }
  }

  /** A read of the memtable tells what the search of the run finds. */
  method GetFromBoth(table: MemTable, run: seq<Entry>, key: Bytes, s: SequenceNumber)
    returns (told: Outcome, hit: Option<Entry>)
    requires StandsFor(table, run) && |key| + 8 < UINT32
    ensures Answers(Members(run), table.rank(key), s, hit) && told == Told(hit)
  {
    told := table.Get(key, s);
    hit := SearchRun(run, table.rank(key), s);
    DbIterator.SortedIsUnique(run);
    ghost var h :| Answers(table.Contents(), table.rank(key), s, h) && told == Told(h);
    AnswerUnique(Members(run), table.rank(key), s, hit, h);
  }
}
