// The manifest: VersionSet::LogAndApply, WriteSnapshot and Recover (db/version_set.cc).
module Manifest {
  import opened Wrappers
  import opened Coding
  import opened DbFormat
  import opened Tables
  import opened Builder
  import opened BuilderRuns
  import opened Install
  import opened LogFormat
  import LogWriter
  import LogReader
  import EditCodec
  import Seqs
  import opened ManifestFormat

  const NO_POINTERS: seq<Option<InternalKey>> := [None, None, None, None, None, None, None]

  // ---------------------------------------------------------------- what a run amounts to

  /** The number fields of a run of edits: the last edit that sets one decides. */
  datatype Head = Head(logNumber: Option<nat>, prevLogNumber: Option<nat>, nextFileNumber: Option<nat>,
                       lastSequence: Option<nat>)

  function Later(a: Option<nat>, b: Option<nat>): Option<nat> {
    if b.Some? then b else a
  }

  function HeadOf(edits: seq<VersionEdit>): Head {
    if edits == [] then Head(None, None, None, None)
    else
      var h, e := HeadOf(edits[..|edits| - 1]), edits[|edits| - 1];
      Head(Later(h.logNumber, e.logNumber), Later(h.prevLogNumber, e.prevLogNumber),
           Later(h.nextFileNumber, e.nextFileNumber), Later(h.lastSequence, e.lastSequence))
  }

  function PointersOf(edits: seq<VersionEdit>): (r: seq<Option<InternalKey>>)
    ensures |r| == NUM_LEVELS
  {
    if edits == [] then NO_POINTERS
    else ApplyPointers(PointersOf(edits[..|edits| - 1]), edits[|edits| - 1].compactPointers)
  }

  /** The version that LogAndApply made of a run, one edit at a time. */
  ghost predicate MadeBy(levels: seq<seq<File>>, edits: seq<VersionEdit>) {
    |levels| == NUM_LEVELS && forall l | 0 <= l < NUM_LEVELS :: levels[l] == OneByOne([], edits, l)
  }

  ghost predicate AddsOnce(adds: seq<(nat, File)>) {
    forall l | 0 <= l < NUM_LEVELS :: AddOnce([], adds, l)
  }

  /** Edits as they are in a manifest. */
  ghost predicate Recordable(n: Naming, disk: Disk, name: Bytes, edits: seq<VersionEdit>) {
    forall i | 0 <= i < |edits| ::
      && Writable(n, disk, edits[i]) && Normal(edits[i]) == edits[i]
      && (edits[i].comparator.Some? ==> edits[i].comparator.value == name)
  }

  lemma OneByOneMembers(edits: seq<VersionEdit>, l: nat, f: File)
    requires AddOnce([], AllAdds(edits), l) && f in OneByOne([], edits, l)
    ensures (l, f) in AllAdds(edits)
  {
    hide OneByOne, Pending, AllAdds, AddOnce, AddedIn;
    assert Ordered([]);
    BatchedIsOneByOne([], edits, l);
    PendingFacts([], edits, l);
    SaveMembers([], Pending(edits, l));
    AddedInIs(AllAdds(edits), l);
  }

  // --------------------------------------------------------------------------- recovery

  datatype RecoverStatus = Ok | Corruption(message: string) | InvalidArgument

  datatype Recovered = Recovered(
    status: RecoverStatus,
    levels: seq<seq<File>>,
    compactPointers: seq<Option<InternalKey>>,
    manifestFileNumber: nat,
    nextFileNumber: nat,
    lastSequence: nat,
    logNumber: nat,
    prevLogNumber: nat)

  /** What Recover makes of the number fields. */
  ghost predicate HeadRestored(r: Recovered, h: Head) {
    && (r.status.Ok? <==> h.nextFileNumber.Some? && h.logNumber.Some? && h.lastSequence.Some?)
    && (r.status.Ok? ==>
          && r.manifestFileNumber == h.nextFileNumber.value && r.nextFileNumber == h.nextFileNumber.value + 1
          && r.logNumber == h.logNumber.value && r.lastSequence == h.lastSequence.value
          && r.prevLogNumber == if h.prevLogNumber.Some? then h.prevLogNumber.value else 0)
  }

  /** The builder after the first k edits. */
  ghost predicate BuiltFrom(base: seq<seq<File>>, levels: seq<LevelState>, pointers: seq<Option<InternalKey>>,
                            edits: seq<VersionEdit>, k: nat) {
    && k <= |edits| && |base| == |levels| == NUM_LEVELS
    && (forall l | 0 <= l < NUM_LEVELS :: base[l] == [] && levels[l] == Pending(edits[..k], l))
    && pointers == PointersOf(edits[..k])
  }

  lemma BuiltNext(base: seq<seq<File>>, levels: seq<LevelState>, pointers: seq<Option<InternalKey>>,
                  levels': seq<LevelState>, edits: seq<VersionEdit>, k: nat)
    requires k < |edits| && BuiltFrom(base, levels, pointers, edits, k) && |levels'| == NUM_LEVELS
    requires forall l | 0 <= l < NUM_LEVELS :: levels'[l] == ApplyToLevel(levels[l], l, edits[k])
    ensures BuiltFrom(base, levels', ApplyPointers(pointers, edits[k].compactPointers), edits, k + 1)
    ensures HeadOf(edits[..k + 1]) == var h, e := HeadOf(edits[..k]), edits[k];
              Head(Later(h.logNumber, e.logNumber), Later(h.prevLogNumber, e.prevLogNumber),
                   Later(h.nextFileNumber, e.nextFileNumber), Later(h.lastSequence, e.lastSequence))
  {
    assert edits[..k + 1][..k] == edits[..k];
  }

  lemma {:induction false} AllAddsPrefix(edits: seq<VersionEdit>, k: nat)
    requires k <= |edits|
    ensures AllAdds(edits[..k]) <= AllAdds(edits)
  {
    if k == |edits| {
      assert edits[..k] == edits;
    } else {
      AllAddsPrefix(edits[..|edits| - 1], k);
      assert edits[..|edits| - 1][..k] == edits[..k];
    }
  }

  /** What the builder saves is what the run had made. */
  lemma SavedIsMade(base: seq<seq<File>>, levels: seq<LevelState>, pointers: seq<Option<InternalKey>>,
                    edits: seq<VersionEdit>, k: nat, saved: seq<seq<File>>)
    requires BuiltFrom(base, levels, pointers, edits, k) && AddsOnce(AllAdds(edits)) && |saved| == NUM_LEVELS
    requires forall l | 0 <= l < NUM_LEVELS :: saved[l] == SaveLevel(base[l], levels[l])
    ensures MadeBy(saved, edits[..k]) && pointers == PointersOf(edits[..k])
  {
    hide SaveLevel, Pending, OneByOne, PointersOf, AllAdds;
    AllAddsPrefix(edits, k);
    var some, all := AllAdds(edits[..k]), AllAdds(edits);
    assert all == some + all[|some|..];
    forall l | 0 <= l < NUM_LEVELS
      ensures saved[l] == OneByOne([], edits[..k], l)
    {
      AddOncePrefix([], some, all[|some|..], l);
      BatchedIsOneByOne([], edits[..k], l);
    }
  }

  /** VersionEdit::DecodeFrom of record k of a manifest. */
  method DecodeRecord(n: Naming, disk: Disk, record: Bytes, ghost name: Bytes, ghost edits: seq<VersionEdit>,
                      ghost k: nat)
    returns (edit: VersionEdit, status: RecoverStatus)
    requires Recordable(n, disk, name, edits) && k < |edits| && record == RecordsOf(n, edits)[k]
    ensures status == Ok && edit == edits[k] && LevelsInRange(edit)
    ensures edit.comparator.Some? ==> edit.comparator.value == name
  {
    hide RecordOf, WriteEdit, EditCodec.Encodable, EditCodec.ParseItems, EditCodec.Assemble, Normal, ReadEdit;
    RecordIs(n, edits[k]);
    WrittenEncodable(n, disk, edits[k]);
    ReadsBack(n, disk, edits[k]);
    var decoder := new EditCodec.VersionEdit();
    var s := decoder.DecodeFrom(record);
    PointersFresh(WriteEdit(n, edits[k]));
    status := match s case Ok => Ok case Corruption(message) => Corruption(message);
    edit := ReadEdit(n, disk, decoder.fields);
  }

  lemma RecordIs(n: Naming, e: VersionEdit)
    ensures RecordOf(n, e) == EditCodec.EncodeItems(EditCodec.ItemsOf(WriteEdit(n, e)))
  {
  }

  lemma PointersFresh(w: EditCodec.Edit)
    ensures w.(compactPointers := EditCodec.FRESH.compactPointers + w.compactPointers) == w
  {
    Seqs.NothingBefore(w.compactPointers);
  }

  /** Reads a manifest, of which the tail may be torn off, with one builder for all its edits.  The
      version, the compaction pointers and the numbers are those that LogAndApply had arrived at,
      one edit at a time, with the last edit that survives whole. */
  method Recover(crc: Crc, n: Naming, disk: Disk, name: Bytes, manifest: Bytes, ghost edits: seq<VersionEdit>)
    returns (r: Recovered, ghost k: nat)
    requires Recordable(n, disk, name, edits) && AddsOnce(AllAdds(edits))
    requires LogReader.Torn(manifest, LogFile(crc, [], RecordsOf(n, edits)))
    ensures Survive(crc, InBlock(0), RecordsOf(n, edits), |manifest|, k) && k <= |edits|
    ensures MadeBy(r.levels, edits[..k])
    ensures r.compactPointers == PointersOf(edits[..k])
    ensures HeadRestored(r, HeadOf(edits[..k]))
  {
    hide Recordable, AddsOnce, LogReader.Torn, LogFile, RecordsOf, Survive, InBlock, MadeBy, PointersOf, HeadOf,
         BuiltFrom, ApplyToLevel, ApplyPointers, SaveLevel, LogReader.RecordStart, LogReader.Reader.Valid,
         LogReader.Reader.Position, LevelsInRange, AllAdds;
    ghost var records := RecordsOf(n, edits);
    RecoveryStarts(crc, n, edits);
    k := 0;
    var builder := new VersionBuilder(seq(NUM_LEVELS, _ => []), NO_POINTERS);
    assert BuiltFrom(builder.base, builder.levels, builder.compactPointers, edits, 0) by {
      NothingBuilt(builder.base, builder.levels, edits);
    }
    var head := Head(None, None, None, None);
    var status: RecoverStatus := Ok;
    var reader := new LogReader.Reader(crc, manifest, true);
    var ok, record := reader.ReadNext([], records, k);
    while ok && status.Ok?
      invariant reader.Valid() && reader.crc == crc && reader.file == manifest && reader.Position() <= |manifest|
      invariant builder.Valid() && status.Ok? && k <= |edits| && fresh(builder) && fresh(reader)
      invariant BuiltFrom(builder.base, builder.levels, builder.compactPointers, edits, k)
      invariant head == HeadOf(edits[..k])
      invariant ok ==>
        && k < |edits| && record == records[k]
        && reader.Position() == LogReader.RecordStart(crc, [], records, k + 1)
      invariant !ok ==> Survive(crc, InBlock(0), records, |manifest|, k)
      decreases ok, |manifest| - reader.Position()
    {
      ghost var levels0, pointers0 := builder.levels, builder.compactPointers;
      var edit;
      edit, status := DecodeRecord(n, disk, record, name, edits, k);
      if status.Ok? && edit.comparator.Some? && edit.comparator.value != name {
        status := InvalidArgument;
      }
      if status.Ok? {
        builder.Apply(edit);
      }
      BuiltNext(builder.base, levels0, pointers0, builder.levels, edits, k);
      head := Head(Later(head.logNumber, edit.logNumber), Later(head.prevLogNumber, edit.prevLogNumber),
                   Later(head.nextFileNumber, edit.nextFileNumber), Later(head.lastSequence, edit.lastSequence));
      k := k + 1;
      ok, record := reader.ReadNext([], records, k);
    }
    if head.nextFileNumber.None? {
      status := Corruption("no meta-nextfile entry in descriptor");
    } else if head.logNumber.None? {
      status := Corruption("no meta-lognumber entry in descriptor");
    } else if head.lastSequence.None? {
      status := Corruption("no last-sequence-number entry in descriptor");
    }
    var v := builder.SaveTo();
    SavedIsMade(builder.base, builder.levels, builder.compactPointers, edits, k, v);
    r := Recovered(status, v, builder.compactPointers, 0, 0, 0, 0, 0);
    if status.Ok? {
      r := Recovered(status, v, builder.compactPointers, head.nextFileNumber.value, head.nextFileNumber.value + 1,
                     head.lastSequence.value, head.logNumber.value,
                     if head.prevLogNumber.Some? then head.prevLogNumber.value else 0);
    }
  }

  lemma RecoveryStarts(crc: Crc, n: Naming, edits: seq<VersionEdit>)
    ensures LogReader.RecordStart(crc, [], RecordsOf(n, edits), 0) == 0
    ensures |RecordsOf(n, edits)| == |edits| && HeadOf(edits[..0]) == Head(None, None, None, None)
  {
    assert RecordsOf(n, edits)[..0] == [] && edits[..0] == [];
  }

  lemma NothingBuilt(base: seq<seq<File>>, levels: seq<LevelState>, edits: seq<VersionEdit>)
    requires base == seq(NUM_LEVELS, _ => []) && levels == seq(NUM_LEVELS, _ => NO_CHANGES)
    ensures BuiltFrom(base, levels, NO_POINTERS, edits, 0)
  {
    assert edits[..0] == [];
  }

  // ------------------------------------------------------------------------- snapshots

  function SnapshotPointers(pointers: seq<Option<InternalKey>>): seq<(nat, InternalKey)> {
    if pointers == [] then []
    else
      var l := |pointers| - 1;
      SnapshotPointers(pointers[..l]) + if pointers[l].Some? then [(l, pointers[l].value)] else []
  }

  function SnapshotFiles(levels: seq<seq<File>>): seq<(nat, File)> {
    if levels == [] then []
    else
      var l := |levels| - 1;
      SnapshotFiles(levels[..l]) + Additions(l, levels[l])
  }

  /** The edit that stands for a whole version. */
  function SnapshotOf(name: Bytes, levels: seq<seq<File>>, pointers: seq<Option<InternalKey>>): VersionEdit {
    VersionEdit(Some(name), None, None, None, None, SnapshotPointers(pointers), [], SnapshotFiles(levels))
  }

  /** Levels in order, in which every file has a number of its own. */
  ghost predicate LevelsDistinct(levels: seq<seq<File>>) {
    && |levels| == NUM_LEVELS
    && forall l | 0 <= l < NUM_LEVELS ::
         Ordered(levels[l]) && forall f, g | f in levels[l] && g in levels[l] && f.number == g.number :: f == g
  }

  lemma {:induction false} SnapshotFilesMembers(levels: seq<seq<File>>)
    ensures forall p :: p in SnapshotFiles(levels) <==> p.0 < |levels| && p.1 in levels[p.0]
  {
    if levels == [] {
    } else {
      var l := |levels| - 1;
      SnapshotFilesMembers(levels[..l]);
      AdditionsMembers(l, levels[l]);
    }
  }

  lemma {:induction false} SnapshotAddsOnce(levels: seq<seq<File>>, level: nat)
    requires forall l | 0 <= l < |levels| ::
               Ordered(levels[l]) && forall f, g | f in levels[l] && g in levels[l] && f.number == g.number :: f == g
    ensures AddOnce([], SnapshotFiles(levels), level)
  {
    if levels == [] {
    } else {
      var l := |levels| - 1;
      SnapshotAddsOnce(levels[..l], level);
      SnapshotFilesMembers(levels[..l]);
      var before, added := SnapshotFiles(levels[..l]), Additions(l, levels[l]);
      hide Ordered;
      assert forall i | 0 <= i < |before| :: before[i] in before;
      forall i, j | 0 <= i < j < |added|
        ensures added[i].1.number != added[j].1.number
      {
        OrderedDistinct(levels[l], i, j);
      }
    }
  }

  lemma OrderedDistinct(files: seq<File>, i: nat, j: nat)
    requires Ordered(files) && i < j < |files|
    requires forall f, g | f in files && g in files && f.number == g.number :: f == g
    ensures files[i].number != files[j].number
  {
    assert BySmallest(files[i], files[j]);
    assert files[i] in files && files[j] in files;
  }

  /** The snapshot edit rebuilds the version from nothing. */
  lemma SnapshotMakes(name: Bytes, levels: seq<seq<File>>, pointers: seq<Option<InternalKey>>)
    requires LevelsDistinct(levels)
    ensures MadeBy(levels, [SnapshotOf(name, levels, pointers)])
    ensures AllAdds([SnapshotOf(name, levels, pointers)]) == SnapshotFiles(levels)
    ensures AddsOnce(SnapshotFiles(levels))
  {
    var snapshot := SnapshotOf(name, levels, pointers);
    var edits := [snapshot];
    assert edits[..0] == [];
    SnapshotFilesMembers(levels);
    hide SnapshotFiles, Edited, Ordered;
    Seqs.NothingBefore(snapshot.newFiles);
    forall l | 0 <= l < NUM_LEVELS
      ensures levels[l] == OneByOne([], edits, l) && AddOnce([], SnapshotFiles(levels), l)
    {
      SnapshotAddsOnce(levels, l);
      assert Ordered([]) by {
        NothingOrdered();
      }
      EditedLevel([], l, snapshot);
      AddedInIs(snapshot.newFiles, l);
      OrderedUnique(levels[l], Edited([], l, snapshot));
    }
  }

  lemma NothingOrdered()
    ensures Ordered([])
  {
  }

  lemma {:induction false} SnapshotLast(pointers: seq<Option<InternalKey>>, l: nat)
    ensures LastFor(SnapshotPointers(pointers), l) == if l < |pointers| then pointers[l] else None
  {
    if pointers == [] {
    } else {
      var n := |pointers| - 1;
      SnapshotLast(pointers[..n], l);
      var front, whole := SnapshotPointers(pointers[..n]), SnapshotPointers(pointers);
      if pointers[n].Some? {
        assert whole[..|whole| - 1] == front;
      } else {
        assert whole == front;
      }
    }
  }

  // ---------------------------------------------------------------- the invariant of a manifest

  /** The manifest's records are the edits, and the edits amount to the version. */
  ghost predicate Manifested(crc: Crc, n: Naming, disk: Disk, name: Bytes, dest: Bytes, edits: seq<VersionEdit>,
                             levels: seq<seq<File>>, pointers: seq<Option<InternalKey>>) {
    && Recordable(n, disk, name, edits) && AddsOnce(AllAdds(edits))
    && dest == LogFile(crc, [], RecordsOf(n, edits))
    && MadeBy(levels, edits) && pointers == PointersOf(edits)
  }

  /** Everything a snapshot of the version would have to write can be written. */
  ghost predicate Spelled(n: Naming, disk: Disk, levels: seq<seq<File>>, pointers: seq<Option<InternalKey>>) {
    && (forall l, f | 0 <= l < |levels| && f in levels[l] :: FileWritable(n, disk, f))
    && (forall l | 0 <= l < |pointers| && pointers[l].Some? :: KeyWritable(n, pointers[l].value))
  }

  /** LogAndApply fills in the numbers the caller has left out. */
  function Filled(edit: VersionEdit, logNumber: nat, prevLogNumber: nat, nextFileNumber: nat,
                  lastSequence: nat): VersionEdit {
    edit.(logNumber := if edit.logNumber.Some? then edit.logNumber else Some(logNumber),
          prevLogNumber := if edit.prevLogNumber.Some? then edit.prevLogNumber else Some(prevLogNumber),
          nextFileNumber := Some(nextFileNumber),
          lastSequence := Some(lastSequence))
  }

  lemma EditRecorded(crc: Crc, n: Naming, disk: Disk, name: Bytes, dest: Bytes, edits: seq<VersionEdit>,
                     levels: seq<seq<File>>, pointers: seq<Option<InternalKey>>, e: VersionEdit,
                     dest': Bytes, levels': seq<seq<File>>)
    requires Manifested(crc, n, disk, name, dest, edits, levels, pointers)
    requires Writable(n, disk, e) && (e.comparator.Some? ==> e.comparator.value == name)
    requires AddsOnce(AllAdds(edits) + e.newFiles)
    requires dest' == dest + EncodeRecord(crc, InBlock(|dest|), RecordOf(n, e), true)
    requires |levels'| == NUM_LEVELS && forall l | 0 <= l < NUM_LEVELS :: levels'[l] == Edited(levels[l], l, e)
    ensures Manifested(crc, n, disk, name, dest', edits + [Normal(e)], levels',
                       ApplyPointers(pointers, e.compactPointers))
    ensures HeadOf(edits + [Normal(e)]) == var h := HeadOf(edits);
              Head(Later(h.logNumber, e.logNumber), Later(h.prevLogNumber, e.prevLogNumber),
                   Later(h.nextFileNumber, e.nextFileNumber), Later(h.lastSequence, e.lastSequence))
  {
    hide Writable, RecordOf, EncodeRecord, InBlock, LogFile, AddsOnce, Edited, SortPairs;
    var edits' := edits + [Normal(e)];
    assert edits'[..|edits|] == edits;
    NormalWritable(n, disk, e);
    NormalTwice(e);
    assert RecordsOf(n, edits') == RecordsOf(n, edits) + [RecordOf(n, e)];
    LogGrows(crc, [], RecordsOf(n, edits), RecordOf(n, e));
    forall l | 0 <= l < NUM_LEVELS
      ensures levels'[l] == OneByOne([], edits', l)
    {
      NormalEdits(levels[l], l, e);
    }
  }

  /** A new manifest starts with the snapshot of the current version. */
  lemma SnapshotRecorded(crc: Crc, n: Naming, disk: Disk, name: Bytes, levels: seq<seq<File>>,
                         pointers: seq<Option<InternalKey>>, dest: Bytes)
    requires LevelsDistinct(levels) && |pointers| == NUM_LEVELS && Spelled(n, disk, levels, pointers) && |name| < UINT32
    requires dest == EncodeRecord(crc, InBlock(0), RecordOf(n, SnapshotOf(name, levels, pointers)), true)
    ensures Manifested(crc, n, disk, name, dest, [SnapshotOf(name, levels, pointers)], levels, pointers)
    ensures AllAdds([SnapshotOf(name, levels, pointers)]) == SnapshotFiles(levels)
  {
    hide SnapshotFiles, SnapshotPointers, Writable, RecordOf, EncodeRecord, InBlock, LogFile, MadeBy, AddsOnce,
         AllAdds, PointersOf, LevelsDistinct, Spelled, RecordsOf;
    var snapshot := SnapshotOf(name, levels, pointers);
    SnapshotMakes(name, levels, pointers);
    HasLevels(levels);
    SnapshotWritable(n, disk, name, levels, pointers);
    OneRecord(n, snapshot);
    FirstRecord(crc, RecordOf(n, snapshot));
    SnapshotPointersRestored(name, levels, pointers);
    assert Normal(snapshot) == snapshot;
  }

  lemma HasLevels(levels: seq<seq<File>>)
    requires LevelsDistinct(levels)
    ensures |levels| == NUM_LEVELS
  {
  }

  lemma OneRecord(n: Naming, e: VersionEdit)
    ensures RecordsOf(n, [e]) == [RecordOf(n, e)]
  {
    hide RecordOf;
  }

  lemma SnapshotPointersRestored(name: Bytes, levels: seq<seq<File>>, pointers: seq<Option<InternalKey>>)
    requires |pointers| == NUM_LEVELS
    ensures PointersOf([SnapshotOf(name, levels, pointers)]) == pointers
  {
    hide SnapshotFiles, SnapshotPointers, ApplyPointers;
    var edits := [SnapshotOf(name, levels, pointers)];
    assert edits[..0] == [];
    forall l | 0 <= l < NUM_LEVELS
      ensures PointersOf(edits)[l] == pointers[l]
    {
      SnapshotLast(pointers, l);
      AppliedPointer(NO_POINTERS, SnapshotPointers(pointers), l);
    }
  }

  lemma FirstRecord(crc: Crc, record: Bytes)
    ensures LogFile(crc, [], [record]) == EncodeRecord(crc, InBlock(0), record, true)
  {
    hide EncodeRecord;
    assert [record][..0] == [];
    assert EncodeAll(crc, 0, []) == [];
  }

  lemma {:induction false} SnapshotPointersMembers(pointers: seq<Option<InternalKey>>)
    ensures forall p | p in SnapshotPointers(pointers) :: p.0 < |pointers| && pointers[p.0] == Some(p.1)
  {
    if pointers == [] {
    } else {
      SnapshotPointersMembers(pointers[..|pointers| - 1]);
    }
  }

  lemma SnapshotWritable(n: Naming, disk: Disk, name: Bytes, levels: seq<seq<File>>, pointers: seq<Option<InternalKey>>)
    requires |levels| == |pointers| == NUM_LEVELS && Spelled(n, disk, levels, pointers) && |name| < UINT32
    ensures Writable(n, disk, SnapshotOf(name, levels, pointers))
  {
    hide FileWritable, KeyWritable, SnapshotFiles, SnapshotPointers;
    SnapshotFilesMembers(levels);
    SnapshotPointersMembers(pointers);
  }

  /** The version a run of edits makes keeps its levels in order, each number once a level. */
  lemma MadeDistinct(levels: seq<seq<File>>, edits: seq<VersionEdit>)
    requires MadeBy(levels, edits) && AddsOnce(AllAdds(edits))
    ensures LevelsDistinct(levels)
    ensures forall l, f | 0 <= l < NUM_LEVELS && f in levels[l] :: (l, f) in AllAdds(edits)
  {
    hide OneByOne, Pending, AllAdds, SaveLevel;
    forall l | 0 <= l < NUM_LEVELS
      ensures Ordered(levels[l])
      ensures forall f | f in levels[l] :: (l, f) in AllAdds(edits)
    {
      assert Ordered([]) by {
        NothingOrdered();
      }
      BatchedIsOneByOne([], edits, l);
      forall f | f in levels[l]
        ensures (l, f) in AllAdds(edits)
      {
        OneByOneMembers(edits, l, f);
      }
    }
    hide Ordered;
    forall l, f, g | 0 <= l < NUM_LEVELS && f in levels[l] && g in levels[l] && f.number == g.number
      ensures f == g
    {
      var adds := AllAdds(edits);
      var i :| 0 <= i < |adds| && adds[i] == (l, f);
      var j :| 0 <= j < |adds| && adds[j] == (l, g);
      assert AddOnce([], adds, l);
    }
  }

  /** The last pointer set for a level. */
  function LastFor(changes: seq<(nat, InternalKey)>, l: nat): Option<InternalKey> {
    if changes == [] then None
    else if changes[|changes| - 1].0 == l then Some(changes[|changes| - 1].1)
    else LastFor(changes[..|changes| - 1], l)
  }

  lemma {:induction false} AppliedPointer(pointers: seq<Option<InternalKey>>, changes: seq<(nat, InternalKey)>, l: nat)
    requires l < |pointers|
    ensures ApplyPointers(pointers, changes)[l] == if LastFor(changes, l).Some? then LastFor(changes, l)
            else pointers[l]
    ensures LastFor(changes, l).Some? ==> (l, LastFor(changes, l).value) in changes
  {
    if changes == [] {
    } else {
      AppliedPointer(pointers, changes[..|changes| - 1], l);
    }
  }

  /** Setting the same compaction pointers a second time changes nothing. */
  lemma PointersTwice(pointers: seq<Option<InternalKey>>, changes: seq<(nat, InternalKey)>)
    ensures ApplyPointers(ApplyPointers(pointers, changes), changes) == ApplyPointers(pointers, changes)
  {
    hide ApplyPointers;
    var once := ApplyPointers(pointers, changes);
    forall l | 0 <= l < |pointers|
      ensures ApplyPointers(once, changes)[l] == once[l]
    {
      AppliedPointer(pointers, changes, l);
      AppliedPointer(once, changes, l);
    }
  }

  lemma StaysSpelled(n: Naming, disk: Disk, levels: seq<seq<File>>, pointers: seq<Option<InternalKey>>, e: VersionEdit,
                     levels': seq<seq<File>>)
    requires Spelled(n, disk, levels, pointers) && Writable(n, disk, e) && |levels| == |levels'| == NUM_LEVELS
    requires forall l | 0 <= l < NUM_LEVELS :: levels'[l] == Edited(levels[l], l, e)
    requires forall l | 0 <= l < NUM_LEVELS :: Ordered(levels[l])
    ensures Spelled(n, disk, levels', ApplyPointers(pointers, e.compactPointers))
  {
    hide FileWritable, KeyWritable, Ordered, ApplyPointers, Edited;
    forall l, f | 0 <= l < NUM_LEVELS && f in levels'[l]
      ensures FileWritable(n, disk, f)
    {
      EditedFrom(levels[l], l, e, f);
    }
    forall l | 0 <= l < |pointers|
      ensures var p := ApplyPointers(pointers, e.compactPointers)[l]; p.Some? ==> KeyWritable(n, p.value)
    {
      AppliedPointer(pointers, e.compactPointers, l);
    }
  }

  lemma EditedFrom(base: seq<File>, level: nat, e: VersionEdit, f: File)
    requires f in Edited(base, level, e) && Ordered(base)
    ensures f in base || (level, f) in e.newFiles
  {
    hide SaveLevel, AddFiles, Ordered;
    var st := ApplyToLevel(NO_CHANGES, level, e);
    SaveMembers(base, st);
    var st1 := LevelState(NO_CHANGES.deleted + DeletedIn(e, level), NO_CHANGES.added);
    assert Ordered(NO_CHANGES.added) by {
      NothingOrdered();
    }
    AddFilesKeeps(st1, level, e.newFiles);
    AddedInIs(e.newFiles, level);
  }

  // --------------------------------------------------------------------------- the class

  class VersionSet {
    const crc: Crc
    const naming: Naming
    const name: Bytes
    const disk: Disk
    var current: seq<seq<File>>
    var compactPointers: seq<Option<InternalKey>>
    var logNumber: nat
    var prevLogNumber: nat
    var nextFileNumber: nat
    var lastSequence: nat
    var descriptor: LogWriter.Writer?
    ghost var edits: seq<VersionEdit>
    ghost var savedNext: nat
    ghost var savedSequence: nat

    ghost predicate Valid()
      reads this, descriptor
    {
      && |name| < UINT32 && |compactPointers| == NUM_LEVELS
      && LevelsDistinct(current) && Spelled(naming, disk, current, compactPointers)
      && logNumber < UINT64 && prevLogNumber < UINT64 && nextFileNumber < UINT64 && lastSequence < UINT64
      && (descriptor != null ==>
            && descriptor.Valid() && descriptor.crc == crc
            && Manifested(crc, naming, disk, name, descriptor.dest, edits, current, compactPointers)
            && HeadOf(edits) == Head(Some(logNumber), Some(prevLogNumber), Some(savedNext), Some(savedSequence)))
    }

    /** Everything the manifest adds, once the next LogAndApply has its manifest. */
    ghost function AddedSoFar(): seq<(nat, File)>
      reads this
    {
      if descriptor == null then SnapshotFiles(current) else AllAdds(edits)
    }

    /** A version set that has just read its version and has no manifest open yet. */
    constructor (crc: Crc, naming: Naming, name: Bytes, disk: Disk, levels: seq<seq<File>>,
                 pointers: seq<Option<InternalKey>>, logNumber: nat, prevLogNumber: nat, next: nat, last: nat)
      requires |name| < UINT32 && |pointers| == NUM_LEVELS && LevelsDistinct(levels)
               && Spelled(naming, disk, levels, pointers)
      requires logNumber < UINT64 && prevLogNumber < UINT64 && next < UINT64 && last < UINT64
      ensures Valid() && current == levels && compactPointers == pointers && descriptor == null
    {
      this.crc, this.naming, this.name, this.disk := crc, naming, name, disk;
      current, compactPointers := levels, pointers;
      this.logNumber, this.prevLogNumber, nextFileNumber, lastSequence := logNumber, prevLogNumber, next, last;
      descriptor, edits, savedNext, savedSequence := null, [], 0, 0;
    }

    /** NewFileNumber */
    method NewFileNumber() returns (r: nat)
      requires Valid() && nextFileNumber + 1 < UINT64
      modifies this`nextFileNumber
      ensures Valid() && r == old(nextFileNumber) && nextFileNumber == r + 1
    {
      hide LevelsDistinct, Spelled, Manifested, HeadOf;
      r := nextFileNumber;
      nextFileNumber := nextFileNumber + 1;
    }

    method SetLastSequence(s: nat)
      requires Valid() && lastSequence <= s < UINT64
      modifies this`lastSequence
      ensures Valid() && lastSequence == s
    {
      hide LevelsDistinct, Spelled, Manifested, HeadOf;
      lastSequence := s;
    }

    /** LogAndApply, when no write to the manifest fails. */
    method LogAndApply(edit: VersionEdit)
      requires Valid() && Writable(naming, disk, edit)
      requires edit.logNumber.Some? ==> logNumber <= edit.logNumber.value < nextFileNumber
      requires edit.comparator.Some? ==> edit.comparator.value == name
      requires AddsOnce(AddedSoFar() + edit.newFiles)
      modifies this, descriptor
      ensures Valid() && descriptor != null && fresh({descriptor} - {old(descriptor)})
      ensures nextFileNumber == old(nextFileNumber) && lastSequence == old(lastSequence)
      ensures |old(current)| == NUM_LEVELS
      ensures forall l | 0 <= l < NUM_LEVELS ::
                current[l] == Edited(old(current)[l], l,
                                     Filled(edit, old(logNumber), old(prevLogNumber), nextFileNumber, lastSequence))
      ensures compactPointers == ApplyPointers(old(compactPointers), edit.compactPointers)
      ensures logNumber == if edit.logNumber.Some? then edit.logNumber.value else old(logNumber)
      ensures prevLogNumber == if edit.prevLogNumber.Some? then edit.prevLogNumber.value else old(prevLogNumber)
      ensures savedNext == nextFileNumber && savedSequence == lastSequence
    {
      hide LevelsDistinct, Spelled, Manifested, SnapshotFiles, SnapshotOf, RecordOf, EncodeRecord, AllAdds, InBlock,
           HeadOf, Writable, ApplyPointers, Edited, AddsOnce, Normal, Filled;
      var e := Filled(edit, logNumber, prevLogNumber, nextFileNumber, lastSequence);
      FilledWritable(naming, disk, name, edit, logNumber, prevLogNumber, nextFileNumber, lastSequence, e);
      ghost var levels0 := current;
      var v, pointers := BuildVersion(naming, disk, current, compactPointers, e);
      ghost var before := OpenManifest(pointers, e);
      ghost var dest0, edits0 := descriptor.dest, edits;
      var record := Encode(naming, e);
      descriptor.AddRecord(record);
      EditRecorded(crc, naming, disk, name, dest0, edits0, levels0, before, e, descriptor.dest, v);
      edits := edits + [Normal(e)];
      current, compactPointers := v, pointers;
      logNumber, prevLogNumber := e.logNumber.value, e.prevLogNumber.value;
      savedNext, savedSequence := nextFileNumber, lastSequence;
      ManifestedDistinct(crc, naming, disk, name, descriptor.dest, edits, current, compactPointers);
    }

    /** Makes sure there is a manifest: a new one starts with a snapshot, which already holds the
        compaction pointers of the edit about to be logged. */
    method OpenManifest(pointers: seq<Option<InternalKey>>, ghost e: VersionEdit)
      returns (ghost before: seq<Option<InternalKey>>)
      requires Valid() && pointers == ApplyPointers(compactPointers, e.compactPointers)
      requires |pointers| == NUM_LEVELS && Spelled(naming, disk, current, pointers)
      modifies this`descriptor, this`edits
      ensures descriptor != null && descriptor.Valid() && descriptor.crc == crc
      ensures if old(descriptor) == null then fresh(descriptor) else descriptor == old(descriptor)
      ensures Manifested(crc, naming, disk, name, descriptor.dest, edits, current, before)
      ensures AllAdds(edits) == old(AddedSoFar())
      ensures ApplyPointers(before, e.compactPointers) == pointers
    {
      hide LevelsDistinct, Spelled, Manifested, SnapshotFiles, SnapshotOf, AllAdds, HeadOf, ApplyPointers;
      before := compactPointers;
      if descriptor == null {
        PointersTwice(compactPointers, e.compactPointers);
        descriptor := WriteSnapshot(pointers);
        edits := [SnapshotOf(name, current, pointers)];
        before := pointers;
      }
    }

    /** WriteSnapshot, into a new manifest. */
    method WriteSnapshot(pointers: seq<Option<InternalKey>>) returns (log: LogWriter.Writer)
      requires |name| < UINT32 && |pointers| == NUM_LEVELS && LevelsDistinct(current)
               && Spelled(naming, disk, current, pointers)
      ensures fresh(log) && log.Valid() && log.crc == crc
      ensures Manifested(crc, naming, disk, name, log.dest, [SnapshotOf(name, current, pointers)], current, pointers)
      ensures AllAdds([SnapshotOf(name, current, pointers)]) == SnapshotFiles(current)
    {
      hide LevelsDistinct, Spelled, Manifested, SnapshotFiles, SnapshotPointers, RecordOf, EncodeRecord, AllAdds,
           InBlock;
      var ps: seq<(nat, InternalKey)>, fs: seq<(nat, File)> := [], [];
      NothingSnapshot();
      for level := 0 to NUM_LEVELS
        invariant ps == SnapshotPointers(pointers[..level])
      {
        PointersUpTo(pointers, level);
        if pointers[level].Some? {
          ps := ps + [(level, pointers[level].value)];
        }
      }
      HasLevels(current);
      for level := 0 to NUM_LEVELS
        invariant fs == SnapshotFiles(current[..level])
      {
        FilesUpTo(current, level);
        fs := fs + Additions(level, current[level]);
      }
      assert pointers[..NUM_LEVELS] == pointers && current[..NUM_LEVELS] == current;
      var snapshot := VersionEdit(Some(name), None, None, None, None, ps, [], fs);
      log := new LogWriter.Writer(crc, []);
      var record := Encode(naming, snapshot);
      log.AddRecord(record);
      assert log.dest == EncodeRecord(crc, InBlock(0), record, true);
      SnapshotRecorded(crc, naming, disk, name, current, pointers, log.dest);
    }
  }

  lemma NothingSnapshot()
    ensures SnapshotPointers([]) == [] && SnapshotFiles([]) == []
  {
  }

  lemma PointersUpTo(pointers: seq<Option<InternalKey>>, l: nat)
    requires l < |pointers|
    ensures SnapshotPointers(pointers[..l + 1])
            == SnapshotPointers(pointers[..l]) + if pointers[l].Some? then [(l, pointers[l].value)] else []
  {
    assert pointers[..l + 1][..l] == pointers[..l];
  }

  lemma FilesUpTo(levels: seq<seq<File>>, l: nat)
    requires l < |levels|
    ensures SnapshotFiles(levels[..l + 1]) == SnapshotFiles(levels[..l]) + Additions(l, levels[l])
  {
    assert levels[..l + 1][..l] == levels[..l];
  }

  /** EncodeTo of an edit. */
  method Encode(n: Naming, e: VersionEdit) returns (record: Bytes)
    ensures record == RecordOf(n, e)
  {
    hide EditCodec.ParseItems, EditCodec.EncodeItems, EditCodec.ItemsOf, WriteEdit, EditCodec.Encodable;
    var encoder := new EditCodec.VersionEdit();
    encoder.fields := WriteEdit(n, e);
    record := encoder.EncodeTo();
    RecordIs(n, e);
  }

  lemma FilledWritable(n: Naming, disk: Disk, name: Bytes, edit: VersionEdit, logNumber: nat, prevLogNumber: nat,
                       next: nat, last: nat, e: VersionEdit)
    requires Writable(n, disk, edit) && logNumber < UINT64 && prevLogNumber < UINT64 && next < UINT64 && last < UINT64
    requires e == Filled(edit, logNumber, prevLogNumber, next, last)
    ensures Writable(n, disk, e)
    ensures e.newFiles == edit.newFiles && e.compactPointers == edit.compactPointers && e.comparator == edit.comparator
    ensures e.logNumber.Some? && e.logNumber.value
            == (if edit.logNumber.Some? then edit.logNumber.value else logNumber) < UINT64
    ensures e.prevLogNumber.Some?
    ensures e.prevLogNumber.value
            == (if edit.prevLogNumber.Some? then edit.prevLogNumber.value else prevLogNumber) < UINT64
    ensures e.nextFileNumber == Some(next) && e.lastSequence == Some(last)
  {
  }

  lemma ManifestedDistinct(crc: Crc, n: Naming, disk: Disk, name: Bytes, dest: Bytes, edits: seq<VersionEdit>,
                           levels: seq<seq<File>>, pointers: seq<Option<InternalKey>>)
    requires Manifested(crc, n, disk, name, dest, edits, levels, pointers)
    ensures LevelsDistinct(levels)
  {
    MadeDistinct(levels, edits);
  }

  /** Builder: Apply and SaveTo for one edit. */
  method BuildVersion(ghost n: Naming, ghost disk: Disk, levels: seq<seq<File>>, pointers: seq<Option<InternalKey>>,
                      e: VersionEdit)
    returns (v: seq<seq<File>>, pointers': seq<Option<InternalKey>>)
    requires LevelsDistinct(levels) && |pointers| == NUM_LEVELS && Spelled(n, disk, levels, pointers)
             && Writable(n, disk, e)
    ensures |levels| == |v| == |pointers'| == NUM_LEVELS
    ensures forall l | 0 <= l < NUM_LEVELS :: v[l] == Edited(levels[l], l, e)
    ensures pointers' == ApplyPointers(pointers, e.compactPointers)
    ensures Spelled(n, disk, v, pointers') && Spelled(n, disk, levels, pointers')
  {
    hide Ordered, SaveLevel, ApplyPointers, AddFiles, FileWritable, KeyWritable, Spelled;
    var builder := new VersionBuilder(levels, pointers);
    builder.Apply(e);
    v := builder.SaveTo();
    pointers' := builder.compactPointers;
    StaysSpelled(n, disk, levels, pointers, e, v);
    PointersStaySpelled(n, disk, levels, pointers, v, pointers');
  }

  lemma PointersStaySpelled(n: Naming, disk: Disk, levels: seq<seq<File>>, pointers: seq<Option<InternalKey>>,
                            levels': seq<seq<File>>, pointers': seq<Option<InternalKey>>)
    requires Spelled(n, disk, levels, pointers) && Spelled(n, disk, levels', pointers')
    ensures Spelled(n, disk, levels, pointers')
  {
  }

  /** After any run of LogAndApply calls, reading the manifest back gives the current version, the
      compaction pointers, the log numbers, and the counters as of the last call. */
  method Reopen(vs: VersionSet) returns (r: Recovered)
    requires vs.Valid() && vs.descriptor != null
    ensures r.status == Ok && r.levels == vs.current && r.compactPointers == vs.compactPointers
    ensures r.logNumber == vs.logNumber && r.prevLogNumber == vs.prevLogNumber
    ensures r.lastSequence == vs.savedSequence
    ensures r.manifestFileNumber == vs.savedNext && r.nextFileNumber == vs.savedNext + 1
  {
    ghost var edits := vs.edits;
    WholeManifest(vs.crc, vs.naming, vs.disk, vs.name, vs.descriptor.dest, edits, vs.current, vs.compactPointers);
    hide LevelsDistinct, Spelled, HeadOf, Manifested, Recordable, AddsOnce, AllAdds, Survive, RecordsOf, LogFile,
         InBlock, PointersOf, MadeBy, LogReader.Torn;
    ghost var k;
    r, k := Recover(vs.crc, vs.naming, vs.disk, vs.name, vs.descriptor.dest, edits);
    AllSurvive(vs.crc, vs.naming, vs.disk, vs.name, vs.descriptor.dest, edits, vs.current, vs.compactPointers, k);
    assert edits[..k] == edits;
    SameMade(r.levels, vs.current, edits);
  }

  lemma WholeManifest(crc: Crc, n: Naming, disk: Disk, name: Bytes, dest: Bytes, edits: seq<VersionEdit>,
                      levels: seq<seq<File>>, pointers: seq<Option<InternalKey>>)
    requires Manifested(crc, n, disk, name, dest, edits, levels, pointers)
    ensures Recordable(n, disk, name, edits) && AddsOnce(AllAdds(edits)) && MadeBy(levels, edits)
            && pointers == PointersOf(edits)
    ensures LogReader.Torn(dest, LogFile(crc, [], RecordsOf(n, edits)))
  {
    hide Recordable, AddsOnce, AllAdds, MadeBy, PointersOf, LogFile, RecordsOf;
  }

  lemma AllSurvive(crc: Crc, n: Naming, disk: Disk, name: Bytes, dest: Bytes, edits: seq<VersionEdit>,
                   levels: seq<seq<File>>, pointers: seq<Option<InternalKey>>, k: nat)
    requires Manifested(crc, n, disk, name, dest, edits, levels, pointers)
    requires Survive(crc, InBlock(0), RecordsOf(n, edits), |dest|, k)
    ensures k == |edits|
  {
    hide Recordable, AddsOnce, AllAdds, MadeBy, PointersOf, RecordsOf, EncodeAll;
    var records := RecordsOf(n, edits);
    assert records[..|records|] == records;
    SurviveUnique(crc, 0, records, |dest|, k, |records|);
  }

  lemma SameMade(a: seq<seq<File>>, b: seq<seq<File>>, edits: seq<VersionEdit>)
    requires MadeBy(a, edits) && MadeBy(b, edits)
    ensures a == b
  {
    hide OneByOne;
  }
}
