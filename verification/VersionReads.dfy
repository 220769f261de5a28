// Point reads over a version (db/version_set.cc: Version::Get) and over the whole store
// (db/db_impl.cc: DBImpl::Get).
module VersionReads {
  import opened Wrappers
  import opened DbFormat
  import opened Reads
  import opened Tables
  import opened CompactionInputs
  import opened CompactionSetup
  import opened Lsm

  /** NewestFirst: higher file numbers first. */
  ghost predicate NewestFirst(files: seq<File>) {
    forall i, j | 0 <= i < j < |files| :: files[i].number >= files[j].number
  }

  /** The level-0 files whose user-key range takes in u, highest number first. */
  method OverlappingNewestFirst(files: seq<File>, u: UserKey) returns (tmp: seq<File>)
    ensures NewestFirst(tmp)
    ensures forall f :: f in tmp <==> f in files && f.smallest.user <= u <= f.largest.user
  {
    tmp := [];
    for i := 0 to |files|
      invariant NewestFirst(tmp)
      invariant forall f :: f in tmp <==> f in files[..i] && f.smallest.user <= u <= f.largest.user
    {
      var f := files[i];
      assert files[..i + 1] == files[..i] + [f];
      if u >= f.smallest.user && u <= f.largest.user {
        tmp := InsertByNumber(tmp, f);
      }
    }
    assert files[..|files|] == files;
  }

  method InsertByNumber(tmp: seq<File>, f: File) returns (r: seq<File>)
    requires NewestFirst(tmp)
    ensures NewestFirst(r)
    ensures forall g :: g in r <==> g in tmp || g == f
  {
    var k := 0;
    while k < |tmp| && tmp[k].number > f.number
      invariant k <= |tmp|
      invariant forall i | 0 <= i < k :: tmp[i].number > f.number
    {
      k := k + 1;
    }
    r := tmp[..k] + [f] + tmp[k..];
    forall i, j | 0 <= i < j < |r|
      ensures r[i].number >= r[j].number
    {
      assert r[i] == if i < k then tmp[i] else if i == k then f else tmp[i - 1];
      assert r[j] == if j < k then tmp[j] else if j == k then f else tmp[j - 1];
    }
    assert tmp == tmp[..k] + tmp[k..];
  }

  ghost predicate NoneVisible(es: set<Entry>, u: UserKey, s: nat) {
    forall e | e in es :: !Visible(e, u, s)
  }

  ghost predicate LevelZeroRecent(files: seq<File>) {
    && (forall f, g | f in files && g in files && f.number > g.number :: Newer(f, g))
    && (forall f, g | f in files && g in files && f.number == g.number :: f == g)
  }

  /** The files searched before position i held nothing visible. */
  ghost predicate SearchedInVain(tmp: seq<File>, i: nat, u: UserKey, s: nat) {
    i <= |tmp| && forall k | 0 <= k < i :: NoneVisible(Members(tmp[k].entries), u, s)
  }

  lemma VisibleIsOverlapping(files: seq<File>, tmp: seq<File>, u: UserKey, s: nat, o: Entry) returns (j: nat)
    requires AllWellFormed(files) && o in LevelEntries(files) && Visible(o, u, s)
    requires forall f :: f in tmp <==> f in files && f.smallest.user <= u <= f.largest.user
    ensures j < |tmp| && o in Members(tmp[j].entries)
  {
    var g :| g in files && o in g.entries;
    EntryInRange(g, o);
    j :| 0 <= j < |tmp| && tmp[j] == g;
  }

  lemma FirstHitAnswers(files: seq<File>, tmp: seq<File>, i: nat, u: UserKey, s: nat, r: Option<Entry>)
    requires AllWellFormed(files) && LevelZeroRecent(files) && NewestFirst(tmp)
    requires forall f :: f in tmp <==> f in files && f.smallest.user <= u <= f.largest.user
    requires SearchedInVain(tmp, i, u, s) && i < |tmp|
    requires r.Some? && Answers(Members(tmp[i].entries), u, s, r)
    ensures Answers(LevelEntries(files), u, s, r)
  {
    var f := tmp[i];
    assert f in tmp && f in files && r.value in f.entries;
    forall o | o in LevelEntries(files) && Visible(o, u, s)
      ensures o.key.sequence <= r.value.key.sequence
    {
      var j := VisibleIsOverlapping(files, tmp, u, s, o);
      var g := tmp[j];
      assert g in tmp && o in Members(g.entries);
      if g != f {
        assert i < j && Newer(f, g);
      }
    }
  }

  method SearchLevelZero(files: seq<File>, u: UserKey, s: SequenceNumber) returns (r: Option<Entry>)
    requires AllWellFormed(files) && LevelZeroRecent(files)
    ensures Answers(LevelEntries(files), u, s, r)
  {
    var tmp := OverlappingNewestFirst(files, u);
    r := None;
    for i := 0 to |tmp|
      invariant r == None && SearchedInVain(tmp, i, u, s)
    {
      var f := tmp[i];
      assert f in tmp && WellFormed(f);
      r := SearchRun(f.entries, u, s);
      if r.Some? {
        FirstHitAnswers(files, tmp, i, u, s, r);
        return;
      }
    }
    forall o | o in LevelEntries(files)
      ensures !Visible(o, u, s)
    {
      if Visible(o, u, s) {
        var j := VisibleIsOverlapping(files, tmp, u, s, o);
      }
    }
  }

  method SearchSortedLevel(files: seq<File>, u: UserKey, s: SequenceNumber) returns (r: Option<Entry>)
    requires LevelSorted(files)
    ensures Answers(LevelEntries(files), u, s, r)
  {
    var index := FindFile(files, LookupKey(u, s));
    r := None;
    if index < |files| && u >= files[index].smallest.user {
      assert files[index] in files;
      r := SearchRun(files[index].entries, u, s);
    }
    OneFileAnswers(files, u, s, r);
  }

  lemma StoredByLevel(levels: seq<seq<File>>, e: Entry) returns (i: nat, f: File)
    requires e in Stored(levels)
    ensures i < |levels| && f in levels[i] && e in f.entries && e in LevelEntries(levels[i])
  {
    i, f :| 0 <= i < |levels| && f in levels[i] && e in f.entries;
  }

  lemma LevelAnswersAll(levels: seq<seq<File>>, u: UserKey, s: nat, level: nat, r: Option<Entry>)
    requires LevelsInvariant(levels) && level < |levels| && r.Some?
    requires forall k | 0 <= k < level :: NoneVisible(LevelEntries(levels[k]), u, s)
    requires Answers(LevelEntries(levels[level]), u, s, r)
    ensures Answers(Stored(levels), u, s, r)
  {
    var d := r.value;
    var f :| f in levels[level] && d in f.entries;
    assert d in Stored(levels);
    forall o | o in Stored(levels) && Visible(o, u, s)
      ensures o.key.sequence <= d.key.sequence
    {
      var j, g := StoredByLevel(levels, o);
      assert j >= level;
      if j > level {
        assert Newer(f, g);
      }
    }
  }

  /** Version::Get: level by level, stopping at the first level that has an answer. */
  method VersionGet(levels: seq<seq<File>>, u: UserKey, s: SequenceNumber) returns (r: Option<Entry>)
    requires LevelsInvariant(levels)
    ensures Answers(Stored(levels), u, s, r)
  {
    r := None;
    for level := 0 to NUM_LEVELS
      invariant r == None
      invariant forall k | 0 <= k < level :: NoneVisible(LevelEntries(levels[k]), u, s)
    {
      if level == 0 {
        r := SearchLevelZero(levels[0], u, s);
      } else {
        r := SearchSortedLevel(levels[level], u, s);
      }
      if r.Some? {
        LevelAnswersAll(levels, u, s, level, r);
        return;
      }
    }
    forall o | o in Stored(levels)
      ensures !Visible(o, u, s)
    {
      var j, g := StoredByLevel(levels, o);
    }
  }

  lemma RunAnswersBelow(es: seq<Entry>, below: set<Entry>, u: UserKey, s: nat, r: Option<Entry>)
    requires Answers(Members(es), u, s, r) && r.Some?
    requires forall a, b | a in es && b in below && a.key.user == b.key.user :: a.key.sequence > b.key.sequence
    ensures Answers(Members(es) + below, u, s, r)
  {
  }

  lemma NewerThanStored(es: seq<Entry>, levels: seq<seq<File>>)
    requires NewerThanLevels(es, levels)
    ensures forall a, b | a in es && b in Stored(levels) && a.key.user == b.key.user :: a.key.sequence > b.key.sequence
  {
    forall a, b | a in es && b in Stored(levels) && a.key.user == b.key.user
      ensures a.key.sequence > b.key.sequence
    {
      var i, f := StoredByLevel(levels, b);
      assert NewerRun(es, f.entries);
    }
  }

  /** DBImpl::Get: memtable, then immutable memtable, then the version.  The first hit is the
      newest visible entry of the whole store. */
  method StoreGet(st: Store, u: UserKey, s: SequenceNumber) returns (r: Option<Entry>)
    requires StoreInvariant(st)
    ensures Answers(Contents(st), u, s, r)
  {
    var imm := ImmEntries(st.imm);
    NewerThanStored(st.mem, st.levels);
    NewerThanStored(imm, st.levels);
    assert Contents(st) == Members(st.mem) + (Members(imm) + Stored(st.levels));
    r := SearchRun(st.mem, u, s);
    if r.Some? {
      RunAnswersBelow(st.mem, Members(imm) + Stored(st.levels), u, s, r);
      return;
    }
    if st.imm.Some? {
      r := SearchRun(st.imm.value, u, s);
      if r.Some? {
        RunAnswersBelow(imm, Stored(st.levels), u, s, r);
        return;
      }
    }
    r := VersionGet(st.levels, u, s);
  }
}
