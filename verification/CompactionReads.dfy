// What a compaction does to reads.
//
// SetupOtherInputs closes inputs_[0] under boundary files but not inputs_[1], and
// IsBaseLevelForKey looks only below the output level.  So a deletion marker at the end of
// inputs_[1] can be dropped while older values of its user key stay behind in the next file of
// the output level.  The theorems say exactly when that changes a read.
module CompactionReads {
  import opened Wrappers
  import opened Coding
  import opened DbFormat
  import opened Reads
  import opened Tables
  import opened CompactionInputs
  import opened CompactionSetup
  import opened CompactionWork
  import opened Builder
  import opened Lsm

  /** The files of the output level that the compaction leaves alone. */
  ghost function LeftBehind(levels: seq<seq<File>>, level: nat, inputs1: seq<File>): set<Entry>
    requires level + 1 < |levels|
  {
    set f, e | f in levels[level + 1] && f !in inputs1 && e in f.entries :: e
  }

  /** The merged input: the entries of all input files, sorted. */
  ghost predicate IsMerge(input: seq<Entry>, inputs: seq<File>) {
    Sorted(input) && Members(input) == LevelEntries(inputs)
  }

  /** A deletion marker, the newest entry of its key for the oldest snapshot, is dropped although a
      value it hides stays behind in the output level. */
  ghost predicate Exposes(st: Store, level: nat, inputs1: seq<File>, input: seq<Entry>, smallest: nat, i: nat)
    requires level + 1 < |st.levels|
  {
    && i < |input|
    && var k := input[i].key;
    && k.kind.Deletion?
    && IsBaseLevel(st.levels, level, k.user)
    && IsNewest(Contents(st), k.user, smallest, input[i])
    && Lookup(LeftBehind(st.levels, level, inputs1), k.user, k.sequence).Some?
  }

  ghost predicate ExposesNothing(st: Store, level: nat, inputs1: seq<File>, input: seq<Entry>, smallest: nat)
    requires level + 1 < |st.levels|
  {
    forall i | 0 <= i < |input| :: !Exposes(st, level, inputs1, input, smallest, i)
  }

  /** Everything outside the input files. */
  ghost function Rest(st: Store, level: nat, inputs0: seq<File>, inputs1: seq<File>): set<Entry> {
    MemEntries(st) + Staying(st.levels, level, inputs0, inputs1)
  }

  lemma NotBaseBelow(levels: seq<seq<File>>, level: nat, j: nat, g: File, o: Entry)
    requires WellFormed(g) && o in g.entries
    requires level + 2 <= j < |levels| && g in levels[j]
    ensures !IsBaseLevel(levels, level, o.key.user)
  {
    EntryInRange(g, o);
  }

  lemma OlderFileIsLeftBehind(levels: seq<seq<File>>, level: nat, inputs0: seq<File>, inputs1: seq<File>,
                              e: Entry, h: File, o: Entry, j: nat, g: File)
    requires LevelsInvariant(levels) && InputsUnderway(levels, level, inputs0, inputs1)
    requires h in inputs0 + inputs1 && e in h.entries && IsBaseLevel(levels, level, e.key.user)
    requires j < |levels| && g in levels[j] && !(j == level && g in inputs0) && !(j == level + 1 && g in inputs1)
    requires o in g.entries && o.key.user == e.key.user && o.key.sequence < e.key.sequence
    ensures j == level + 1
  {
    if j <= level {
      StayingNewerThanInputs(levels, level, inputs0, inputs1, j, g);
    } else if j >= level + 2 {
      NotBaseBelow(levels, level, j, g, o);
    }
  }

  lemma InputLevel(levels: seq<seq<File>>, level: nat, inputs0: seq<File>, inputs1: seq<File>, h: File) returns (i: nat)
    requires InputsUnderway(levels, level, inputs0, inputs1) && h in inputs0 + inputs1
    ensures (i == level || i == level + 1) && i < |levels|
    ensures h in levels[i] && if i == level then h in inputs0 else h in inputs1
  {
    i := if h in inputs0 then level else level + 1;
  }

  lemma MemNewerThanInput(st: Store, level: nat, inputs0: seq<File>, inputs1: seq<File>, h: File)
    requires StoreInvariant(st) && InputsUnderway(st.levels, level, inputs0, inputs1) && h in inputs0 + inputs1
    ensures NewerRun(st.mem, h.entries) && NewerRun(ImmEntries(st.imm), h.entries)
  {
    var i := InputLevel(st.levels, level, inputs0, inputs1, h);
  }

  lemma InputFile(inputs: seq<File>, e: Entry) returns (h: File)
    requires e in LevelEntries(inputs)
    ensures h in inputs && e in h.entries
  {
    h :| h in inputs && e in h.entries;
  }

  lemma StayingFile(levels: seq<seq<File>>, level: nat, inputs0: seq<File>, inputs1: seq<File>, o: Entry)
    returns (j: nat, g: File)
    requires o in Staying(levels, level, inputs0, inputs1)
    ensures j < |levels| && g in levels[j] && !(j == level && g in inputs0) && !(j == level + 1 && g in inputs1)
    ensures o in g.entries
  {
    j, g :| 0 <= j < |levels| && g in levels[j] && !(j == level && g in inputs0)
            && !(j == level + 1 && g in inputs1) && o in g.entries;
  }

  lemma MemEntryNewer(st: Store, level: nat, inputs0: seq<File>, inputs1: seq<File>, h: File, e: Entry, o: Entry)
    requires StoreInvariant(st) && InputsUnderway(st.levels, level, inputs0, inputs1)
    requires h in inputs0 + inputs1 && e in h.entries && o in MemEntries(st) && o.key.user == e.key.user
    ensures o.key.sequence > e.key.sequence
  {
    hide StoreInvariant, InputsUnderway;
    MemNewerThanInput(st, level, inputs0, inputs1, h);
  }

  /** Under a base-level key, older entries outside the inputs can only be left behind in the
      output level. */
  lemma OlderIsLeftBehind(st: Store, level: nat, inputs0: seq<File>, inputs1: seq<File>, e: Entry, o: Entry)
    requires StoreInvariant(st) && InputsUnderway(st.levels, level, inputs0, inputs1)
    requires IsBaseLevel(st.levels, level, e.key.user) && e in LevelEntries(inputs0 + inputs1)
    requires o in Rest(st, level, inputs0, inputs1) && o.key.user == e.key.user && o.key.sequence < e.key.sequence
    ensures level + 1 < |st.levels| && o in LeftBehind(st.levels, level, inputs1)
  {
    hide StoreInvariant, InputsUnderway, IsBaseLevel, LevelEntries, MemEntries, Staying, LevelsInvariant, LevelsShape;
    StoreLevels(st);
    var h := InputFile(inputs0 + inputs1, e);
    if o in MemEntries(st) {
      MemEntryNewer(st, level, inputs0, inputs1, h, e, o);
    }
    var j, g := StayingFile(st.levels, level, inputs0, inputs1, o);
    OlderFileIsLeftBehind(st.levels, level, inputs0, inputs1, e, h, o, j, g);
  }

  lemma LeftBehindStays(st: Store, level: nat, inputs0: seq<File>, inputs1: seq<File>, o: Entry)
    requires InputsUnderway(st.levels, level, inputs0, inputs1) && o in LeftBehind(st.levels, level, inputs1)
    ensures o in Rest(st, level, inputs0, inputs1)
  {
    var f :| f in st.levels[level + 1] && f !in inputs1 && o in f.entries;
  }

  /** Reading below a dropped base-level entry sees only what is left behind. */
  lemma RestReadsLeftBehind(st: Store, level: nat, inputs0: seq<File>, inputs1: seq<File>, e: Entry)
    requires StoreInvariant(st) && InputsUnderway(st.levels, level, inputs0, inputs1)
    requires IsBaseLevel(st.levels, level, e.key.user) && e in LevelEntries(inputs0 + inputs1)
    requires Unique(Rest(st, level, inputs0, inputs1) + LevelEntries(inputs0 + inputs1))
    requires e !in Rest(st, level, inputs0, inputs1)
    ensures Lookup(Rest(st, level, inputs0, inputs1), e.key.user, e.key.sequence)
            == Lookup(LeftBehind(st.levels, level, inputs1), e.key.user, e.key.sequence)
  {
    var rest := Rest(st, level, inputs0, inputs1);
    var left := LeftBehind(st.levels, level, inputs1);
    var u, s := e.key.user, e.key.sequence;
    forall o | Visible(o, u, s)
      ensures o in rest <==> o in left
    {
      if o in rest {
        assert o in rest + LevelEntries(inputs0 + inputs1) && e in rest + LevelEntries(inputs0 + inputs1);
        assert o.key.sequence < e.key.sequence;
        OlderIsLeftBehind(st, level, inputs0, inputs1, e, o);
      }
      if o in left {
        LeftBehindStays(st, level, inputs0, inputs1, o);
      }
    }
    AnswerExists(rest, u, s);
    var r :| Answers(rest, u, s, r);
    assert Answers(left, u, s, r);
    assert Unique(left) by {
      forall a | a in left ensures a in rest { LeftBehindStays(st, level, inputs0, inputs1, a); }
    }
    LookupIs(rest, u, s, r);
    LookupIs(left, u, s, r);
  }

  /** Everything the theorems assume of one compaction: the store's invariant, inputs as
      SetupOtherInputs leaves them, whatever has been flushed since, their merge,
      and a snapshot below the "none seen" mark. */
  ghost predicate Compacting(st: Store, level: nat, inputs0: seq<File>, inputs1: seq<File>, input: seq<Entry>,
                             smallest: nat) {
    && StoreInvariant(st)
    && InputsUnderway(st.levels, level, inputs0, inputs1)
    && IsMerge(input, inputs0 + inputs1)
    && smallest < MAX_SEQUENCE
  }

  lemma InputNotInMem(st: Store, level: nat, inputs0: seq<File>, inputs1: seq<File>, h: File, e: Entry)
    requires StoreInvariant(st) && InputsUnderway(st.levels, level, inputs0, inputs1)
    requires h in inputs0 + inputs1 && e in h.entries
    ensures e !in MemEntries(st)
  {
    hide StoreInvariant, InputsUnderway;
    MemNewerThanInput(st, level, inputs0, inputs1, h);
  }

  lemma InputNotInRest(st: Store, level: nat, inputs0: seq<File>, inputs1: seq<File>, e: Entry)
    requires StoreInvariant(st) && InputsUnderway(st.levels, level, inputs0, inputs1)
    requires e in LevelEntries(inputs0 + inputs1)
    ensures e !in Rest(st, level, inputs0, inputs1)
  {
    StoreLevels(st);
    hide StoreInvariant, LevelsInvariant, LevelsShape, InputsUnderway, MemEntries, LevelEntries, Staying;
    var h := InputFile(inputs0 + inputs1, e);
    InputNotInMem(st, level, inputs0, inputs1, h, e);
    var i := InputLevel(st.levels, level, inputs0, inputs1, h);
    if e in Staying(st.levels, level, inputs0, inputs1) {
      var j, g := StayingFile(st.levels, level, inputs0, inputs1, e);
      InSameFile(st.levels, j, i, g, h, e);
    }
  }

  lemma InSameFile(levels: seq<seq<File>>, i: nat, j: nat, f: File, g: File, e: Entry)
    requires LevelsInvariant(levels) && i < |levels| && j < |levels|
    requires f in levels[i] && g in levels[j] && e in f.entries && e in g.entries
    ensures i == j && f == g
  {
    assert !Newer(f, g) && !Newer(g, f);
    if i == j && i > 0 && f != g {
      SortedIsDisjoint(levels[i], f, g);
      EntryInRange(f, e);
      EntryInRange(g, e);
    }
  }

  lemma ResurrectsIsExposure(st: Store, level: nat, inputs0: seq<File>, inputs1: seq<File>, input: seq<Entry>,
                             smallest: nat, e: Entry)
    requires Compacting(st, level, inputs0, inputs1, input, smallest)
    requires Contents(st) == Rest(st, level, inputs0, inputs1) + Members(input) && Unique(Contents(st))
    requires Resurrects(Rest(st, level, inputs0, inputs1), Members(input),
                        Members(Kept(input, |input|, smallest, st.levels, level)), smallest, e)
    ensures !ExposesNothing(st, level, inputs1, input, smallest)
  {
    var rest := Rest(st, level, inputs0, inputs1);
    KeptMembers(input, |input|, smallest, st.levels, level);
    var i :| 0 <= i < |input| && input[i] == e;
    DropIsSafe(input, i, smallest, st.levels, level);
    assert !Hidden(Members(input), e, smallest);
    InputNotInRest(st, level, inputs0, inputs1, e);
    RestReadsLeftBehind(st, level, inputs0, inputs1, e);
    assert Exposes(st, level, inputs1, input, smallest, i);
  }

  lemma ExposureResurrects(st: Store, level: nat, inputs0: seq<File>, inputs1: seq<File>, input: seq<Entry>,
                           smallest: nat, i: nat)
    requires Compacting(st, level, inputs0, inputs1, input, smallest)
    requires Contents(st) == Rest(st, level, inputs0, inputs1) + Members(input) && Unique(Contents(st))
    requires Exposes(st, level, inputs1, input, smallest, i)
    ensures Resurrects(Rest(st, level, inputs0, inputs1), Members(input),
                       Members(Kept(input, |input|, smallest, st.levels, level)), smallest, input[i])
  {
    var e := input[i];
    var kept := Kept(input, |input|, smallest, st.levels, level);
    KeptMembers(input, |input|, smallest, st.levels, level);
    forall j | 0 <= j < |input| && input[j] == e
      ensures Drops(input, j, smallest, st.levels, level)
    {
    }
    InputNotInRest(st, level, inputs0, inputs1, e);
    RestReadsLeftBehind(st, level, inputs0, inputs1, e);
  }

  ghost predicate Installed(st: Store, st': Store, level: nat, inputs0: seq<File>, inputs1: seq<File>,
                            input: seq<Entry>, smallest: nat, outputs: seq<File>)
    requires level + 1 < |st.levels|
  {
    && st'.mem == st.mem && st'.imm == st.imm
    && Moved(st.levels, st'.levels, level, inputs0, inputs1, outputs)
    && ConcatEntries(outputs) == Kept(input, |input|, smallest, st.levels, level)
  }

  /** Before and after: the rest with the inputs, and the rest with what was kept of them. */
  lemma ContentsSplit(st: Store, st': Store, level: nat, inputs0: seq<File>, inputs1: seq<File>,
                      input: seq<Entry>, smallest: nat, outputs: seq<File>)
    requires InputsUnderway(st.levels, level, inputs0, inputs1) && IsMerge(input, inputs0 + inputs1)
    requires Installed(st, st', level, inputs0, inputs1, input, smallest, outputs)
    ensures Contents(st) == Rest(st, level, inputs0, inputs1) + Members(input)
    ensures Contents(st')
            == Rest(st, level, inputs0, inputs1) + Members(Kept(input, |input|, smallest, st.levels, level))
  {
    MovedContents(st.levels, st'.levels, level, inputs0, inputs1, outputs);
    ConcatMembers(outputs);
    UnionAssociates(MemEntries(st), Staying(st.levels, level, inputs0, inputs1), Members(input));
    UnionAssociates(MemEntries(st), Staying(st.levels, level, inputs0, inputs1), LevelEntries(outputs));
  }

  lemma UnionAssociates(a: set<Entry>, b: set<Entry>, c: set<Entry>)
    ensures a + (b + c) == a + b + c
  {
  }

  lemma NoExposureNoResurrection(st: Store, level: nat, inputs0: seq<File>, inputs1: seq<File>, input: seq<Entry>,
                                 smallest: nat)
    requires Compacting(st, level, inputs0, inputs1, input, smallest) && Unique(Contents(st))
    requires Contents(st) == Rest(st, level, inputs0, inputs1) + Members(input)
    requires ExposesNothing(st, level, inputs1, input, smallest)
    ensures forall e :: !Resurrects(Rest(st, level, inputs0, inputs1), Members(input),
                                    Members(Kept(input, |input|, smallest, st.levels, level)), smallest, e)
  {
    forall e | Resurrects(Rest(st, level, inputs0, inputs1), Members(input),
                          Members(Kept(input, |input|, smallest, st.levels, level)), smallest, e)
      ensures false
    {
      ResurrectsIsExposure(st, level, inputs0, inputs1, input, smallest, e);
    }
  }

  /** The exact effect of a compaction on reads: every read at every snapshot from the oldest one on
      is unchanged if and only if no dropped marker exposes a value left behind. */
  lemma CompactionPreservesReadsIff(st: Store, st': Store, level: nat, inputs0: seq<File>, inputs1: seq<File>,
                                    input: seq<Entry>, smallest: nat, outputs: seq<File>)
    requires Compacting(st, level, inputs0, inputs1, input, smallest)
    requires Installed(st, st', level, inputs0, inputs1, input, smallest, outputs)
    ensures SameReads(Contents(st), Contents(st'), smallest) <==> ExposesNothing(st, level, inputs1, input, smallest)
  {
    ContentsSplit(st, st', level, inputs0, inputs1, input, smallest, outputs);
    ContentsUnique(st);
    DropsAreSafe(input, smallest, st.levels, level);
    SameReadsIff(Rest(st, level, inputs0, inputs1), Members(input),
                 Members(Kept(input, |input|, smallest, st.levels, level)), smallest);
    if ExposesNothing(st, level, inputs1, input, smallest) {
      NoExposureNoResurrection(st, level, inputs0, inputs1, input, smallest);
    } else {
      var i :| 0 <= i < |input| && Exposes(st, level, inputs1, input, smallest, i);
      ExposureResurrects(st, level, inputs0, inputs1, input, smallest, i);
    }
  }

  /** What a compaction whose smallest snapshot is the sentinel does to a read at the sentinel: before,
      it returns the newest entry if that is one of the inputs; after, what the other files say. */
  lemma SentinelReads(st: Store, st': Store, level: nat, inputs0: seq<File>, inputs1: seq<File>,
                      input: seq<Entry>, outputs: seq<File>, u: UserKey)
    requires StoreInvariant(st) && InputsUnderway(st.levels, level, inputs0, inputs1)
             && IsMerge(input, inputs0 + inputs1)
    requires Installed(st, st', level, inputs0, inputs1, input, MAX_SEQUENCE, outputs)
    ensures Lookup(Contents(st'), u, MAX_SEQUENCE) == Lookup(Rest(st, level, inputs0, inputs1), u, MAX_SEQUENCE)
    ensures forall e | e in input && IsNewest(Contents(st), u, MAX_SEQUENCE, e) ::
              Lookup(Contents(st), u, MAX_SEQUENCE) == ValueOf(Some(e))
    ensures (forall e | e in input :: !IsNewest(Contents(st), u, MAX_SEQUENCE, e)) ==>
              Lookup(Contents(st), u, MAX_SEQUENCE) == Lookup(Contents(st'), u, MAX_SEQUENCE)
  {
    hide *;
    SentinelLeaves(st, st', level, inputs0, inputs1, input, outputs);
    ReadsWithout(Contents(st), Contents(st'), input, u);
  }

  lemma SentinelLeaves(st: Store, st': Store, level: nat, inputs0: seq<File>, inputs1: seq<File>, input: seq<Entry>,
                       outputs: seq<File>)
    requires StoreInvariant(st) && InputsUnderway(st.levels, level, inputs0, inputs1)
             && IsMerge(input, inputs0 + inputs1)
    requires Installed(st, st', level, inputs0, inputs1, input, MAX_SEQUENCE, outputs)
    ensures Contents(st') == Rest(st, level, inputs0, inputs1) && Contents(st) == Contents(st') + Members(input)
    ensures Unique(Contents(st))
  {
    hide StoreInvariant, InputsUnderway, Installed, Kept, Rest, Contents, IsMerge;
    ContentsSplit(st, st', level, inputs0, inputs1, input, MAX_SEQUENCE, outputs);
    ContentsUnique(st);
    SentinelSnapshotDropsAll(input, |input|, st.levels, level);
    var nothing: seq<Entry> := [];
    assert Members(nothing) == {};
  }

  lemma ReadsWithout(es: set<Entry>, rest: set<Entry>, input: seq<Entry>, u: UserKey)
    requires Unique(es) && es == rest + Members(input)
    ensures forall e | e in input && IsNewest(es, u, MAX_SEQUENCE, e) :: Lookup(es, u, MAX_SEQUENCE) == ValueOf(Some(e))
    ensures (forall e | e in input :: !IsNewest(es, u, MAX_SEQUENCE, e))
            ==> Lookup(es, u, MAX_SEQUENCE) == Lookup(rest, u, MAX_SEQUENCE)
  {
    AnswerExists(es, u, MAX_SEQUENCE);
    var r :| Answers(es, u, MAX_SEQUENCE, r);
    LookupIs(es, u, MAX_SEQUENCE, r);
    forall e | e in input && IsNewest(es, u, MAX_SEQUENCE, e)
      ensures Lookup(es, u, MAX_SEQUENCE) == ValueOf(Some(e))
    {
      LookupIs(es, u, MAX_SEQUENCE, Some(e));
    }
    if forall e | e in input :: !IsNewest(es, u, MAX_SEQUENCE, e) {
      assert Answers(rest, u, MAX_SEQUENCE, r);
      LookupIs(rest, u, MAX_SEQUENCE, r);
    }
  }

  /** The reads at the sentinel survive such a compaction exactly if the other files say of every user
      key what its newest entry says, wherever that is an input. */
  lemma SentinelReadsIff(st: Store, st': Store, level: nat, inputs0: seq<File>, inputs1: seq<File>,
                         input: seq<Entry>, outputs: seq<File>)
    requires StoreInvariant(st) && InputsUnderway(st.levels, level, inputs0, inputs1)
             && IsMerge(input, inputs0 + inputs1)
    requires Installed(st, st', level, inputs0, inputs1, input, MAX_SEQUENCE, outputs)
    ensures (forall u: UserKey :: Lookup(Contents(st), u, MAX_SEQUENCE) == Lookup(Contents(st'), u, MAX_SEQUENCE))
            <==> forall e | e in input && IsNewest(Contents(st), e.key.user, MAX_SEQUENCE, e) ::
                   ValueOf(Some(e)) == Lookup(Rest(st, level, inputs0, inputs1), e.key.user, MAX_SEQUENCE)
  {
    hide StoreInvariant, InputsUnderway, Installed, Kept, Rest, Contents, IsMerge, Lookup;
    forall u: UserKey
      ensures Lookup(Contents(st'), u, MAX_SEQUENCE) == Lookup(Rest(st, level, inputs0, inputs1), u, MAX_SEQUENCE)
      ensures forall e | e in input && IsNewest(Contents(st), u, MAX_SEQUENCE, e) ::
                Lookup(Contents(st), u, MAX_SEQUENCE) == ValueOf(Some(e)) && e.key.user == u
      ensures (forall e | e in input :: !IsNewest(Contents(st), u, MAX_SEQUENCE, e)) ==>
                Lookup(Contents(st), u, MAX_SEQUENCE) == Lookup(Contents(st'), u, MAX_SEQUENCE)
    {
      SentinelReads(st, st', level, inputs0, inputs1, input, outputs, u);
    }
  }

  // ------------------------------------------------------- a guard the caller could check

  /** A file left behind that starts after the inputs with a user key of inputs_[1] is a boundary file
      of them. */
  lemma ContinuationIsBoundary(inputs1: seq<File>, h: File, g: File, u: UserKey)
    requires AllWellFormed(inputs1) && h in inputs1
    requires u <= h.largest.user && g.smallest.user <= u <= g.largest.user
    requires forall f | f in inputs1 :: Precedes(f.largest, g.smallest)
    ensures inputs1 != [] && IsBoundary(g, LargestKey(inputs1))
  {
    var l := LargestKeyIs(inputs1);
    var k :| 0 <= k < |inputs1| && inputs1[k] == h;
    assert inputs1[l] in inputs1;
  }

  /** A file that shares a user key with one of inputs_[0] overlaps the range they span. */
  lemma SharesSpannedKey(inputs0: seq<File>, h: File, g: File, u: UserKey)
    requires AllWellFormed(inputs0) && h in inputs0
    requires h.smallest.user <= u <= h.largest.user && g.smallest.user <= u <= g.largest.user
    ensures Overlaps(g, UserRange(inputs0).0, UserRange(inputs0).1)
  {
    UserRangeCovers(inputs0, h);
  }

  lemma LeftBehindIsNewer(levels: seq<seq<File>>, level: nat, inputs0: seq<File>, inputs1: seq<File>, e: Entry,
                          o: Entry)
    requires LevelsInvariant(levels) && InputsUnderway(levels, level, inputs0, inputs1)
    requires NoBoundaryLeft(levels[level + 1], inputs1)
    requires e in LevelEntries(inputs0 + inputs1) && o in LeftBehind(levels, level, inputs1)
    requires e.key.user == o.key.user
    ensures o.key.sequence > e.key.sequence
  {
    var h :| h in inputs0 + inputs1 && e in h.entries;
    var g :| g in levels[level + 1] && g !in inputs1 && o in g.entries;
    InputsWellFormed(levels, level, inputs0, inputs1);
    LevelsParts(levels);
    hide LevelsInvariant, LevelsRecent, NumbersUnique, WellFormed, LevelSorted, UserRange, UpperClosed;
    EntryInRange(h, e);
    EntryInRange(g, o);
    if h in inputs0 {
      SharesSpannedKey(inputs0, h, g, e.key.user);
    }
    SharedKeyIsApart(g, h, inputs0, inputs1, e.key.user);
    if forall f | f in inputs0 + inputs1 :: Precedes(f.largest, g.smallest) {
      ContinuationIsBoundary(inputs1, h, g, e.key.user);
    } else {
      assert Precedes(g.largest, h.smallest);
    }
  }

  lemma InputsWellFormed(levels: seq<seq<File>>, level: nat, inputs0: seq<File>, inputs1: seq<File>)
    requires LevelsInvariant(levels) && InputsUnderway(levels, level, inputs0, inputs1)
    ensures AllWellFormed(inputs0) && AllWellFormed(inputs1) && level + 1 < |levels| && AllWellFormed(levels[level + 1])
  {
  }

  lemma SharedKeyIsApart(g: File, h: File, inputs0: seq<File>, inputs1: seq<File>, u: UserKey)
    requires inputs0 != [] && Beside(g, inputs0, inputs1) && h in inputs0 + inputs1
    requires h.smallest.user <= u <= h.largest.user && g.smallest.user <= u <= g.largest.user
    ensures Apart(g, inputs0 + inputs1) && !Overlaps(g, UserRange(inputs0).0, UserRange(inputs0).1)
  {
    assert Overlaps(h, Some(g.smallest.user), Some(g.largest.user));
  }

  lemma LeftBehindUnique(st: Store, level: nat, inputs1: seq<File>)
    requires StoreInvariant(st) && level + 1 < |st.levels|
    ensures Unique(LeftBehind(st.levels, level, inputs1))
  {
    ContentsUnique(st);
    hide StoreInvariant;
    forall a | a in LeftBehind(st.levels, level, inputs1)
      ensures a in Contents(st)
    {
      var f :| f in st.levels[level + 1] && a in f.entries;
      assert a in Stored(st.levels);
    }
  }

  /** If no file of the output level continues the last user key of inputs_[1] - that is, if
      FindSmallestBoundaryFile finds nothing there - the compaction changes no read. */
  lemma BoundaryClosedExposesNothing(st: Store, level: nat, inputs0: seq<File>, inputs1: seq<File>, input: seq<Entry>,
                                     smallest: nat)
    requires Compacting(st, level, inputs0, inputs1, input, smallest)
    requires NoBoundaryLeft(st.levels[level + 1], inputs1)
    ensures ExposesNothing(st, level, inputs1, input, smallest)
  {
    hide StoreInvariant, LevelsInvariant, LevelsShape, InputsUnderway, NoBoundaryLeft, Contents, LeftBehind,
         IsBaseLevel, Lookup;
    StoreLevels(st);
    InputsWellFormed(st.levels, level, inputs0, inputs1);
    var left := LeftBehind(st.levels, level, inputs1);
    LeftBehindUnique(st, level, inputs1);
    forall i | 0 <= i < |input|
      ensures !Exposes(st, level, inputs1, input, smallest, i)
    {
      var e := input[i];
      assert e in Members(input);
      forall o | o in left
        ensures !Visible(o, e.key.user, e.key.sequence)
      {
        if o.key.user == e.key.user {
          LeftBehindIsNewer(st.levels, level, inputs0, inputs1, e, o);
        }
      }
      LookupIs(left, e.key.user, e.key.sequence, None);
    }
  }

  // ----------------------------------------------------------------- the failing case

  function OneFile(number: nat, entries: seq<Entry>): File
    requires entries != []
  {
    File(number, 1, entries[0].key, entries[|entries| - 1].key, entries)
  }

  const NEWEST := Entry(InternalKey(1, 20, Value), [1])
  const OLDER := Entry(InternalKey(1, 10, Value), [2])
  const MARKER := Entry(InternalKey(5, 9, Deletion), [])
  const STALE := Entry(InternalKey(5, 5, Value), [3])

  /** One file with user key 1 above two files that share user key 5. */
  ghost predicate Straddled(st: Store, upper: File, lower: File, continued: File) {
    && upper == OneFile(9, [NEWEST])
    && lower == OneFile(7, [OLDER, MARKER])
    && continued == OneFile(8, [STALE])
    && st == Store([], None, [[], [upper], [lower, continued], [], [], [], []])
  }

  lemma StraddledMember(st: Store, upper: File, lower: File, continued: File, i: nat, f: File)
    requires Straddled(st, upper, lower, continued) && i < NUM_LEVELS && f in st.levels[i]
    ensures (i == 1 && f == upper) || (i == 2 && (f == lower || f == continued))
  {
  }

  lemma StraddledShape(st: Store, upper: File, lower: File, continued: File)
    requires Straddled(st, upper, lower, continued)
    ensures LevelsShape(st.levels)
  {
    var levels := st.levels;
    assert WellFormed(upper) && WellFormed(lower) && WellFormed(continued);
    forall i | 0 <= i < NUM_LEVELS
      ensures AllWellFormed(levels[i]) && Ordered(levels[i]) && LevelSorted(levels[i])
    {
      forall f | f in levels[i]
        ensures WellFormed(f)
      {
        StraddledMember(st, upper, lower, continued, i, f);
      }
      if i == 2 {
        assert levels[2] == [lower, continued];
      } else {
        assert |levels[i]| <= 1;
      }
    }
  }

  lemma StraddledPair(st: Store, upper: File, lower: File, continued: File, i: nat, j: nat, f: File, g: File)
    requires Straddled(st, upper, lower, continued)
    requires i < NUM_LEVELS && j < NUM_LEVELS && f in st.levels[i] && g in st.levels[j]
    ensures i > 0
    ensures i < j ==> Newer(f, g)
    ensures f.number == g.number ==> i == j && f == g
  {
    StraddledMember(st, upper, lower, continued, i, f);
    StraddledMember(st, upper, lower, continued, j, g);
    assert Newer(upper, lower) && Newer(upper, continued);
  }

  lemma StraddledRecent(st: Store, upper: File, lower: File, continued: File)
    requires Straddled(st, upper, lower, continued)
    ensures LevelsRecent(st.levels) && NumbersUnique(st.levels)
  {
    forall i, j, f, g | 0 <= i < |st.levels| && 0 <= j < |st.levels| && f in st.levels[i] && g in st.levels[j]
      ensures i > 0 && (i < j ==> Newer(f, g)) && (f.number == g.number ==> i == j && f == g)
    {
      StraddledPair(st, upper, lower, continued, i, j, f, g);
    }
  }

  lemma StraddledLevels(st: Store, upper: File, lower: File, continued: File)
    requires Straddled(st, upper, lower, continued)
    ensures StoreInvariant(st)
  {
    StraddledShape(st, upper, lower, continued);
    StraddledRecent(st, upper, lower, continued);
  }

  lemma StraddledInputs(st: Store, upper: File, lower: File, continued: File)
    requires Straddled(st, upper, lower, continued)
    ensures InputsChosen(st.levels, 1, [upper], [lower]) && InputsUnderway(st.levels, 1, [upper], [lower])
    ensures IsMerge([NEWEST, OLDER, MARKER], [upper] + [lower])
  {
    var files := [lower, continued];
    var range := UserRange([upper]);
    assert range == (Some(1), Some(1));
    OverlappingBand(files, Some(1), Some(1), 0, 1);
    assert files[0..1] == [lower];
    var both := [upper] + [lower];
    assert both[0] == upper && both[1] == lower;
    StraddledMerge(upper, lower);
    assert Apart(continued, both);
    ChosenUnderway(st.levels, 1, [upper], [lower]);
  }

  lemma StraddledMerge(upper: File, lower: File)
    requires upper == OneFile(9, [NEWEST]) && lower == OneFile(7, [OLDER, MARKER])
    ensures LevelEntries([upper] + [lower]) == {NEWEST, OLDER, MARKER} == Members([NEWEST, OLDER, MARKER])
  {
    var both := [upper] + [lower];
    assert both == [upper, lower];
    assert upper.entries == [NEWEST] && lower.entries == [OLDER, MARKER];
    assert NEWEST in upper.entries && OLDER in lower.entries && MARKER in lower.entries;
    assert upper in both && lower in both;
    forall e | e in LevelEntries(both)
      ensures e in {NEWEST, OLDER, MARKER}
    {
      var f :| f in both && e in f.entries;
    }
    assert [NEWEST, OLDER, MARKER][0] == NEWEST && [NEWEST, OLDER, MARKER][1] == OLDER
           && [NEWEST, OLDER, MARKER][2] == MARKER;
  }

  lemma StraddledContents(st: Store, upper: File, lower: File, continued: File)
    requires Straddled(st, upper, lower, continued)
    ensures MARKER in Contents(st) && Contents(st) <= {NEWEST, OLDER, MARKER, STALE}
    ensures LeftBehind(st.levels, 1, [lower]) == {STALE}
  {
    var levels := st.levels;
    assert lower.entries[1] == MARKER && levels[2][0] == lower;
    assert continued.entries[0] == STALE && levels[2][1] == continued;
    assert lower in levels[2] && MARKER in lower.entries && continued in levels[2] && STALE in continued.entries;
    assert MARKER in Stored(levels) && STALE in LeftBehind(levels, 1, [lower]);
    forall e | e in Stored(levels)
      ensures e in {NEWEST, OLDER, MARKER, STALE}
    {
      var i: nat, f: File :| 0 <= i < |levels| && f in levels[i] && e in f.entries;
      StraddledMember(st, upper, lower, continued, i, f);
    }
    forall e | e in LeftBehind(levels, 1, [lower])
      ensures e == STALE
    {
      var f: File :| f in levels[2] && f !in [lower] && e in f.entries;
      StraddledMember(st, upper, lower, continued, 2, f);
      assert f == continued;
    }
  }

  /** Without the guard a deleted key comes back: user key 5, deleted at sequence 9, reads as
      absent before this compaction and as its old value after it. */
  lemma StraddlingKeyResurrects(st: Store, st': Store, upper: File, lower: File, continued: File, outputs: seq<File>)
    requires Straddled(st, upper, lower, continued)
    requires Installed(st, st', 1, [upper], [lower], [NEWEST, OLDER, MARKER], 20, outputs)
    ensures !SameReads(Contents(st), Contents(st'), 20)
  {
    hide *;
    StraddledLevels(st, upper, lower, continued);
    StraddledInputs(st, upper, lower, continued);
    StraddledContents(st, upper, lower, continued);
    StraddledCompacts(st, upper, lower, continued);
    StraddledExposes(st, lower);
    CompactionPreservesReadsIff(st, st', 1, [upper], [lower], [NEWEST, OLDER, MARKER], 20, outputs);
  }

  lemma StraddledCompacts(st: Store, upper: File, lower: File, continued: File)
    requires Straddled(st, upper, lower, continued) && StoreInvariant(st)
    requires InputsUnderway(st.levels, 1, [upper], [lower]) && IsMerge([NEWEST, OLDER, MARKER], [upper] + [lower])
    ensures Compacting(st, 1, [upper], [lower], [NEWEST, OLDER, MARKER], 20)
    ensures |st.levels| == NUM_LEVELS && forall i | 3 <= i < NUM_LEVELS :: st.levels[i] == []
  {
  }

  lemma StraddledExposes(st: Store, lower: File)
    requires |st.levels| == NUM_LEVELS && forall i | 3 <= i < NUM_LEVELS :: st.levels[i] == []
    requires MARKER in Contents(st) && Contents(st) <= {NEWEST, OLDER, MARKER, STALE}
    requires LeftBehind(st.levels, 1, [lower]) == {STALE}
    ensures !ExposesNothing(st, 1, [lower], [NEWEST, OLDER, MARKER], 20)
  {
    assert IsNewest(Contents(st), 5, 20, MARKER);
    LookupIs({STALE}, 5, 9, Some(STALE));
    assert Exposes(st, 1, [lower], [NEWEST, OLDER, MARKER], 20, 2);
  }
}
