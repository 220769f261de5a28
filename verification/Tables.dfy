// Table files, and the searches over the file list of one level (db/version_set.cc).
module Tables {
  import opened Wrappers
  import opened Coding
  import opened DbFormat
  import opened Reads

  /** A table file: its metadata and the sorted entries it stores. */
  datatype File = File(number: nat, size: nat, smallest: InternalKey, largest: InternalKey, entries: seq<Entry>)

  ghost predicate WellFormed(f: File) {
    && f.entries != []
    && Sorted(f.entries)
    && f.smallest == f.entries[0].key
    && f.largest == f.entries[|f.entries| - 1].key
  }

  ghost predicate AllWellFormed(files: seq<File>) {
    forall f | f in files :: WellFormed(f)
  }

  /** A level above 0: files in key order, their ranges disjoint as ranges of internal keys.
      Two neighbours may still share a user key, the newer entries being in the first. */
  ghost predicate LevelSorted(files: seq<File>) {
    && AllWellFormed(files)
    && forall i, j | 0 <= i < j < |files| :: Precedes(files[i].largest, files[j].smallest)
  }

  lemma EntryInRange(f: File, e: Entry)
    requires WellFormed(f) && e in f.entries
    ensures !Before(e.key, f.smallest) && !Before(f.largest, e.key)
    ensures f.smallest.user <= e.key.user <= f.largest.user
  {
  }

  lemma RangeOrdered(f: File)
    requires WellFormed(f)
    ensures !Before(f.largest, f.smallest) && f.smallest.user <= f.largest.user
  {
    EntryInRange(f, f.entries[0]);
  }

  lemma LargestOrdered(files: seq<File>, i: nat, j: nat)
    requires LevelSorted(files) && i < j < |files|
    ensures Precedes(files[i].largest, files[j].largest) && Precedes(files[i].smallest, files[j].smallest)
  {
    RangeOrdered(files[i]);
    RangeOrdered(files[j]);
  }

  ghost function Members(es: seq<Entry>): set<Entry> {
    set e | e in es
  }

  ghost function LevelEntries(files: seq<File>): set<Entry> {
    set f, e | f in files && e in f.entries :: e
  }

  // ------------------------------------------------------------------- one table

  /** Position of the first entry at or after target: what a table's Seek finds. */
  method SeekInTable(es: seq<Entry>, target: InternalKey) returns (i: nat)
    requires Sorted(es)
    ensures i <= |es|
    ensures forall j | 0 <= j < i :: Before(es[j].key, target)
    ensures forall j | i <= j < |es| :: !Before(es[j].key, target)
  {
    i := 0;
    while i < |es| && Before(es[i].key, target)
      invariant i <= |es|
      invariant forall j | 0 <= j < i :: Before(es[j].key, target)
    {
      i := i + 1;
    }
  }

  /** Reads one sorted run: the first entry at or after the lookup key, if its user key matches
      (TableCache::Get with SaveValue; MemTable::Get). */
  method SearchRun(es: seq<Entry>, u: UserKey, s: SequenceNumber) returns (r: Option<Entry>)
    requires Sorted(es)
    ensures Answers(Members(es), u, s, r)
  {
    var i := SeekInTable(es, LookupKey(u, s));
    if i < |es| && es[i].key.user == u {
      r := Some(es[i]);
    } else {
      r := None;
    }
  }

  // -------------------------------------------------------------------- FindFile

  /** Linear search for the first file whose largest key is at or after key. */
  function FirstFile(files: seq<File>, key: InternalKey): (r: nat)
    ensures r <= |files|
    ensures forall i | 0 <= i < r :: Before(files[i].largest, key)
    ensures r < |files| ==> !Before(files[r].largest, key)
  {
    if files == [] || !Before(files[0].largest, key) then 0 else 1 + FirstFile(files[1..], key)
  }

  /** The binary search agrees with the linear one. */
  method FindFile(files: seq<File>, key: InternalKey) returns (right: nat)
    requires LevelSorted(files)
    ensures right == FirstFile(files, key)
  {
    var left := 0;
    right := |files|;
    while left < right
      invariant left <= right <= |files|
      invariant forall i | 0 <= i < left :: Before(files[i].largest, key)
      invariant right < |files| ==> !Before(files[right].largest, key)
    {
      var mid := (left + right) / 2;
      if Compare(files[mid].largest, key) < 0 {
        forall i | 0 <= i < mid
          ensures Before(files[i].largest, key)
        {
          LargestOrdered(files, i, mid);
        }
        left := mid + 1;
      } else {
        right := mid;
      }
    }
  }

  /** What is visible in the files from i on is no newer than what file i itself shows, if file i is
      the first that reaches the lookup key. */
  lemma FirstFileIsNewest(files: seq<File>, u: UserKey, s: SequenceNumber, i: nat, j: nat, e: Entry) returns (n: Entry)
    requires LevelSorted(files) && i <= j < |files| && e in files[j].entries && Visible(e, u, s)
    requires !Before(files[i].largest, LookupKey(u, s))
    ensures n in files[i].entries && Visible(n, u, s) && e.key.sequence <= n.key.sequence
    ensures files[i].smallest.user <= u
  {
    EntryInRange(files[j], e);
    RangeOrdered(files[i]);
    if i < j {
      n := files[i].entries[|files[i].entries| - 1];
      assert Before(files[i].largest, files[j].smallest);
      LookupKeySplits(n.key, u, s);
    } else {
      n := e;
    }
  }

  /** One file is enough: for a sorted level the answer lies in the file FindFile names, or nowhere. */
  lemma OneFileAnswers(files: seq<File>, u: UserKey, s: SequenceNumber, r: Option<Entry>)
    requires LevelSorted(files)
    requires var i := FirstFile(files, LookupKey(u, s));
             if i == |files| || u < files[i].smallest.user then r == None
             else Answers(Members(files[i].entries), u, s, r)
    ensures Answers(LevelEntries(files), u, s, r)
  {
    hide LevelSorted;
    var key := LookupKey(u, s);
    var i := FirstFile(files, key);
    forall e | e in LevelEntries(files) && Visible(e, u, s)
      ensures r.Some? && e.key.sequence <= r.value.key.sequence
    {
      var f :| f in files && e in f.entries;
      var j :| 0 <= j < |files| && files[j] == f;
      InSortedLevel(files, j, e);
      LookupKeySplits(e.key, u, s);
      assert i <= j;
      var n := FirstFileIsNewest(files, u, s, i, j, e);
      assert n in Members(files[i].entries);
    }
    if r.Some? {
      assert r.value in files[i].entries;
    }
  }

  lemma InSortedLevel(files: seq<File>, j: nat, e: Entry)
    requires LevelSorted(files) && j < |files| && e in files[j].entries
    ensures !Before(files[j].largest, e.key)
  {
    EntryInRange(files[j], e);
  }

  // ------------------------------------------------------------ overlapping ranges

  /** A bound on user keys; None is the null pointer, meaning unbounded. */
  type Bound = Option<UserKey>

  predicate AfterFile(k: Bound, f: File) {
    k.Some? && k.value > f.largest.user
  }

  predicate BeforeFile(k: Bound, f: File) {
    k.Some? && k.value < f.smallest.user
  }

  predicate Overlaps(f: File, lo: Bound, hi: Bound) {
    !AfterFile(lo, f) && !BeforeFile(hi, f)
  }

  /** Both the scan (level 0) and the binary search (other levels) decide overlap exactly. */
  method SomeFileOverlapsRange(disjointSortedFiles: bool, files: seq<File>, lo: Bound, hi: Bound) returns (r: bool)
    requires disjointSortedFiles ==> LevelSorted(files)
    ensures r <==> exists f :: f in files && Overlaps(f, lo, hi)
  {
    if !disjointSortedFiles {
      for i := 0 to |files|
        invariant forall j | 0 <= j < i :: !Overlaps(files[j], lo, hi)
      {
        var f := files[i];
        if AfterFile(lo, f) || BeforeFile(hi, f) {
        } else {
          assert f in files && Overlaps(f, lo, hi);
          return true;
        }
      }
      return false;
    }
    var index := 0;
    if lo.Some? {
      index := FindFile(files, LookupKey(lo.value, MAX_SEQUENCE));
    }
    if index >= |files| {
      return false;
    }
    r := !BeforeFile(hi, files[index]);
    forall j | 0 <= j < index
      ensures AfterFile(lo, files[j])
    {
    }
    forall j | index < j < |files|
      ensures files[index].smallest.user <= files[j].smallest.user
    {
      LargestOrdered(files, index, j);
    }
    if r {
      assert Overlaps(files[index], lo, hi);
    }
  }

  // ------------------------------------------------------------------------- sizes

  method TotalFileSize(files: seq<File>) returns (sum: nat)
    ensures sum == SizeSum(files)
  {
    sum := 0;
    for i := 0 to |files|
      invariant sum == SizeSum(files[..i])
    {
      assert files[..i + 1][..i] == files[..i];
      sum := sum + files[i].size;
    }
    assert files[..|files|] == files;
  }

  function SizeSum(files: seq<File>): nat {
    if files == [] then 0 else SizeSum(files[..|files| - 1]) + files[|files| - 1].size
  }
}
