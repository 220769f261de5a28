# LevelDB's engine and nanopb's codec, modelled and proved in Dafny

The app vendors two libraries whose correctness it depends on: LevelDB, a log-structured merge-tree
key-value store, and nanopb, a table-driven protobuf codec.  This project models both and proves
what they are for.

**LevelDB.**  A database is a set of entries, each a user key, a sequence number and a value or a
deletion marker; a read at a snapshot returns the newest entry of its key that is no newer than the
snapshot (`Reads.dfy`).  Everything else is measured against that sentence:

- `DbFormat`, `Tables`, `Lsm`, `VersionReads`: the internal-key order, tables, the level invariant
  with its preservation by flushes, moves and compactions, and the search shortcuts of a read.
- `CompactionInputs`, `InputGaps`, `CompactionSetup`, `Merger`, `CompactionWork`, `CompactionReads`,
  `NestedFlush`: how a compaction chooses its files, merges them, drops entries and cuts its outputs,
  what that does to reads, and what a flush in the middle of it does.
- `Builder`, `BuilderRuns`, `Install`, `VersionRefs`: version edits, reference counts, and which
  files may be deleted.
- `Database`: the object itself, a class whose ghost field `history` holds every entry ever written.
  `Valid` is the structure every operation keeps; `Faithful` says that every read at every live
  snapshot returns what the history says.
- `SkipLists`, `MemTables`, `MemTableRuns`, `DbIterator`, `Scans`, `Snapshots`: the concurrent skip
  list, the memtable over it, the two-way database iterator as a cursor and as an iterator over a
  whole database, and the list of snapshots.
- `LogFormat`, `LogBlocks`, `LogWriter`, `LogReader`, `Batches`, `Recovery`: the write-ahead log in
  bytes, write batches in bytes, and recovery after a crash that tears the log anywhere after the
  last sync.
- `Durability`, `Reopening`: runs of a database and its files with any number of writes, log
  switches, flushes, compactions and crashes, and opening the database again after each.
- `EditCodec`, `ManifestFormat`, `Manifest`: version edits in bytes, and reopening a database from
  its manifest.
- `WriteQueue`, `GroupCommit`: group commit, and a state machine over every interleaving of writers
  and readers.

**nanopb.**  `PbVarint`, `PbAccept`, `PbFormat`, `PbEncode`, `PbIter`, `PbDecode`, `PbDecodeLoop`,
`PbFits`, `PbRequired` and `PbRoundTrip` model messages as trees over a list of field descriptors, and prove
the encoder with its sizing passes, the decoder with its wrap-around iterator and bitmap, and that
the two are inverse.  They follow the encoding of the Protocol Buffers documentation (sections "Base
128 Varints", "Signed Integers" and "Packed Repeated Fields").

`Coding` holds the fixed-width and variable-width integers that both sides use; `Wrappers` and `Seqs`
are helpers.

Code that updates state is a class or a method with loops, and its contract ties the new state to a
specification function; the lemmas say what the specification means.  `dafny verify dfyconfig.toml`
checks everything.

## Where the code does not do what it seems to promise

- **A compaction can bring a deleted key back.**  `SetupOtherInputs` adds boundary files to
  `inputs_[0]` but not to `inputs_[1]` (version_set.cc:1407-1410), and `IsBaseLevelForKey` does not
  look at the output level.  If a user key of `inputs_[1]` continues into a file of that level that
  is left out, its deletion marker can be dropped while the old value stays.
  `CompactionReads.CompactionPreservesReadsIff` gives the exact condition,
  `CompactionReads.BoundaryClosedExposesNothing` the guard that avoids it, and
  `CompactionReads.StraddlingKeyResurrects` a database in which it happens.
- **A memtable flush in the middle of a manual compaction can break a level.**  `DoCompactionWork`
  flushes a full memtable while it runs (db_impl.cc:908-918), and `PickLevelForMemTableOutput` looks
  only at the files that are there, not at the range the outputs will cover.  `CompactRange` may take
  inputs with gaps between them; a table put into such a gap at the output level may end up inside an
  output.  `NestedFlush.LevelLeftSortedIff`: after one flush the level left behind is sorted exactly
  if no output covers the flushed table.  `NestedFlush.FlushedHoweverCutIff`, before anything is
  installed: it is sorted however the outputs are cut exactly if the kept entries all lie on one side
  of the table.  `NestedFlush.FlushIntoGap` gives levels where neither holds, and the level left,
  where a binary search misses the flushed key.  The inputs of an automatic compaction never leave a
  gap (`Database.Database.BeginCompaction`), so no flush disturbs it (`NestedFlush.NoGapIsSafe`).
- **A compaction at the largest sequence number drops everything.**  Rule (A) uses
  `kMaxSequenceNumber` for "none seen yet" (db_impl.cc:931-958), so with that as its smallest snapshot
  it drops every entry of any input (`CompactionWork.SentinelSnapshotDropsAll`).
  `CompactionWork.DropsAreSafeIff`: what the loop drops is safe to drop exactly if the smallest
  snapshot is below it, or if every user key's newest input entry is a deletion anyway.
  `CompactionReads.SentinelReadsIff`: reads at that number survive exactly if, for every newest entry
  that is an input, the other files say the same of its key.  What
  `Database` promises about reads after a compaction is therefore subject to that condition.
- **`VersionEdit::Clear` keeps `compact_pointers_`** (version_edit.cc:26-39), although it is named
  as a full reset.  `EditCodec.FreshObjectRestores`: an edit reads back exactly if the object had none.
- **One builder for many edits is not always one edit at a time.**  A file number that is deleted and
  added again at the same level brings back the old file too: `BuilderRuns.BatchStepIff` gives the
  exact condition, `BuilderRuns.ReusedNumberRevives` an edit that meets it.  LevelDB writes no such
  edit, since a table's number comes from `NewFileNumber` and is never given out again, and a trivial
  move adds a number only to the next level down; on manifests that add each number once a level,
  `BuilderRuns.BatchedIsOneByOne` proves the two agree.
- **What a crash loses need not be the latest writes.**  `MakeRoomForWrite` closes a full log without
  syncing it (db_impl.cc:1356-1360).  Until its memtable is flushed, a crash can cut unsynced writes
  off its end and keep later, synced writes of the next log.  `Durability.CrashesKeepFirstIff`: every
  crash that can come leaves the first writes made, in their order, exactly if the full log has no
  unsynced operation or the next log has no operation yet; `Durability.SecondWriteAlone` is a crash
  where neither holds.  Every write that was acknowledged as synced survives in any case
  (`Durability.DurableForEver`).
- **A char array filled to its last byte is encoded by nanopb but not decoded**, since the decoder
  insists on room for a NUL (pb_decode.c:1468-1501; the encoder takes the whole array,
  pb_encode.c:875-899).  `PbRoundTrip.RoundTripIff` shows that this is the only way a message fails
  to come back; `PbRoundTrip.UnterminatedIsLost` is the whole family, in a message of one field.
- **nanopb's 32-bit varint decoder takes some numbers that are not 32-bit or sign-extended 32-bit
  numbers**, and cuts them to 32 bits.  It checks the bytes past the low 32 bits one by one
  (pb_decode.c:220-237), and bits 4 to 6 of the fifth byte only if that byte is the last
  (pb_decode.c:241-246).  `PbAccept.Decode32AcceptsIff` says which inputs it accepts;
  `PbAccept.AcceptedIsExtendedIff` says which of these are 32-bit or sign-extended numbers.  Two that
  are not: the ten bytes of `PbAccept.LooseSignExtension` and the six of `PbAccept.CutUnnoticed`.
- **Table files being flushed lose their protection early.**  `WriteLevel0Table` erases the number from
  `pending_outputs_` before the file is in a version (db_impl.cc:513), so in that window it is safe
  only because `DeleteObsoleteFiles` runs on the same background thread.
  `VersionRefs.SweepDuringFlush`: a sweep in that window deletes the table.

## Model

| member | source | states |
|---|---|---|
| Coding.Fixed32RoundTrip | Project_2Q_2019/Pods/leveldb-library/util/coding.cc:9-19 | a 32-bit number written little-endian in four bytes reads back as itself |
| Coding.Fixed64RoundTrip | Project_2Q_2019/Pods/leveldb-library/util/coding.cc:20-34 | the same for 64 bits and eight bytes |
| Coding.Varint32RoundTrip | Project_2Q_2019/Pods/leveldb-library/util/coding.cc:47-79 | a 32-bit varint reads back as itself within the five bytes the reader allows, and leaves whatever follows |
| Coding.Varint64RoundTrip | Project_2Q_2019/Pods/leveldb-library/util/coding.cc:81-96 | the same for 64 bits and ten bytes |
| Coding.SliceRoundTrip | Project_2Q_2019/Pods/leveldb-library/util/coding.cc:98-101 | a length-prefixed string reads back and leaves whatever follows |
| DbFormat.PackSequenceAndType | Project_2Q_2019/Pods/leveldb-library/db/dbformat.cc:14-18 | sequence number and type share 64 bits without loss |
| DbFormat.Compare | Project_2Q_2019/Pods/leveldb-library/db/dbformat.cc:51-67 | comparing user keys, then packed trailers, is the order by user key up, sequence down, type down; equal only for equal keys |
| DbFormat.LookupKeySplits | Project_2Q_2019/Pods/leveldb-library/db/dbformat.cc:121-138 | the keys at or after a lookup key are exactly the later user keys and the entries its snapshot may see |
| Reads.SameReadsIff | Project_2Q_2019/Pods/leveldb-library/db/db_impl.cc:931-979 | dropping hidden entries and obsolete markers keeps every read from the oldest snapshot on, exactly if no dropped marker uncovers a value |
| Reads.NewestOnTop | Project_2Q_2019/Pods/leveldb-library/db/db_impl.cc:1122-1136 | entries newer than two stores that read alike leave them reading alike |
| Tables.SearchRun | Project_2Q_2019/Pods/leveldb-library/db/version_set.cc:263-276 | the first entry at or after the lookup key answers a read of a sorted run |
| Tables.FindFile | Project_2Q_2019/Pods/leveldb-library/db/version_set.cc:88-106 | the binary search over a sorted level finds the file a linear scan finds |
| Tables.SomeFileOverlapsRange | Project_2Q_2019/Pods/leveldb-library/db/version_set.cc:122-157 | both the scan and the binary search decide exactly whether some file overlaps a range |
| Tables.OneFileAnswers | Project_2Q_2019/Pods/leveldb-library/db/version_set.cc:387-417 | in a sorted level one file decides a read, even if its user key straddles two files |
| Lsm.MovedKeepsInvariant | Project_2Q_2019/Pods/leveldb-library/db/version_set.cc:1403-1462 | moving a closed set of inputs down a level, whatever entries are dropped, keeps levels sorted and disjoint and newer entries above older ones |
| Lsm.MovedContents | Project_2Q_2019/Pods/leveldb-library/db/db_impl.cc:860-876 | what the levels hold after a compaction is what stayed and what the outputs hold |
| Lsm.FlushKeepsInvariant | Project_2Q_2019/Pods/leveldb-library/db/version_set.cc:491-516 | a flushed memtable may go below level 0 if it clears every level down to its own; the levels then hold what they held and the memtable |
| VersionReads.OverlappingNewestFirst | Project_2Q_2019/Pods/leveldb-library/db/version_set.cc:354-370 | level-0 candidates: exactly the files whose range takes in the key, newest first |
| VersionReads.SearchLevelZero | Project_2Q_2019/Pods/leveldb-library/db/version_set.cc:354-417 | the first hit among overlapping level-0 files is the newest visible entry of the level |
| VersionReads.SearchSortedLevel | Project_2Q_2019/Pods/leveldb-library/db/version_set.cc:371-417 | one binary search and one table decide a deeper level |
| VersionReads.VersionGet | Project_2Q_2019/Pods/leveldb-library/db/version_set.cc:326-421 | the first level with an answer has the newest visible entry of all levels |
| VersionReads.StoreGet | Project_2Q_2019/Pods/leveldb-library/db/db_impl.cc:1100-1136 | memtable, immutable memtable, then the version: the first hit is the newest visible entry of the whole store |
| CompactionInputs.GetOverlappingInputs | Project_2Q_2019/Pods/leveldb-library/db/version_set.cc:519-559 | on level 0 the restarting scan ends with the files of the least range-closed interval around the request; elsewhere with exactly the overlapping files |
| CompactionInputs.OverlappingGrows | Project_2Q_2019/Pods/leveldb-library/db/version_set.cc:1421-1433 | a wider range selects at least as many files, and the very same ones if as many |
| CompactionInputs.OverlappingIsSegment | Project_2Q_2019/Pods/leveldb-library/db/version_set.cc:519-559 | on a sorted level the overlapping files are consecutive |
| CompactionInputs.GetRange | Project_2Q_2019/Pods/leveldb-library/db/version_set.cc:1205-1225 | the smallest and the largest key over all inputs |
| CompactionInputs.FindSmallestBoundaryFile | Project_2Q_2019/Pods/leveldb-library/db/version_set.cc:1344-1364 | finds the file with the smallest start among those that continue the user key, or none if there is none |
| CompactionInputs.AddBoundaryInputs | Project_2Q_2019/Pods/leveldb-library/db/version_set.cc:1378-1401 | ends with no file of the level continuing the inputs' largest user key; the inputs stay consecutive, and stay as they were if nothing continued them |
| CompactionInputs.BoundaryIsNext | Project_2Q_2019/Pods/leveldb-library/db/version_set.cc:1378-1401 | on a sorted level the smallest boundary file is the very next one |
| InputGaps.LeastKeepsNoGap | Project_2Q_2019/Pods/leveldb-library/db/version_set.cc:537-557 | the least range-closed set of files around inputs without a gap has none either |
| InputGaps.ChainKeepsNoGap | Project_2Q_2019/Pods/leveldb-library/db/version_set.cc:1378-1401 | nor do boundary files add one |
| CompactionSetup.SelectedClosed | Project_2Q_2019/Pods/leveldb-library/db/version_set.cc:1403-1407 | inputs closed under boundary files leave nothing older behind in their level |
| CompactionSetup.LevelZeroHasNoBoundary | Project_2Q_2019/Pods/leveldb-library/db/version_set.cc:1407-1407 | on level 0 range closure already takes in every boundary file |
| CompactionSetup.OverlapClosesLower | Project_2Q_2019/Pods/leveldb-library/db/version_set.cc:1409-1411 | taking every overlapping file of the next level leaves room there for any outputs |
| CompactionSetup.PickInputs | Project_2Q_2019/Pods/leveldb-library/db/version_set.cc:1270-1324 | the automatic choice is range-closed on level 0 and holds the file it started from |
| CompactionSetup.RangeInputs | Project_2Q_2019/Pods/leveldb-library/db/version_set.cc:1464-1495 | the manual choice, cut off at a byte limit except on level 0, is empty only if nothing overlaps |
| CompactionSetup.GrowInputs | Project_2Q_2019/Pods/leveldb-library/db/version_set.cc:1416-1447 | growing inputs_[0] never changes inputs_[1], and keeps inputs_[0] closed |
| CompactionSetup.SetupOtherInputs | Project_2Q_2019/Pods/leveldb-library/db/version_set.cc:1403-1462 | the chosen inputs are closed on both levels, and inputs_[1] is what overlaps inputs_[0] before and after growing |
| Merger.FindSmallest | Project_2Q_2019/Pods/leveldb-library/table/merger.cc:148-162 | the child with the smallest current key, or none if all are exhausted |
| Merger.MergeAll | Project_2Q_2019/Pods/leveldb-library/table/merger.cc:31-130 | merging sorted runs gives one sorted run with exactly their entries |
| CompactionWork.Compaction.IsBaseLevelForKey | Project_2Q_2019/Pods/leveldb-library/db/version_set.cc:1533-1552 | the advancing cursors answer as a scan of all levels from L+2 on, for keys that never go down |
| CompactionWork.Compaction.ShouldStopBefore | Project_2Q_2019/Pods/leveldb-library/db/version_set.cc:1554-1576 | passes exactly the grandparents that end before the key, counts their bytes from the second key on, and stops, starting the count anew, exactly if they exceed the limit |
| CompactionWork.DropIsSafe | Project_2Q_2019/Pods/leveldb-library/db/db_impl.cc:931-979 | what the loop drops is hidden by a newer entry old enough for every snapshot, or is a marker with nothing older kept under it |
| CompactionWork.KeptMembers | Project_2Q_2019/Pods/leveldb-library/db/db_impl.cc:920-1009 | exactly the entries that neither rule drops are kept |
| CompactionWork.SentinelSnapshotDropsAll | Project_2Q_2019/Pods/leveldb-library/db/db_impl.cc:931-958 | with the largest sequence number as smallest snapshot every entry of any input is dropped |
| CompactionWork.DropsAreSafeIff | Project_2Q_2019/Pods/leveldb-library/db/db_impl.cc:931-979 | what the loop drops of any input is safe to drop exactly if the smallest snapshot is below the sentinel, or the newest entry of every user key is a deletion |
| CompactionWork.DecideDrop | Project_2Q_2019/Pods/leveldb-library/db/db_impl.cc:931-967 | drops an entry exactly by the two rules, from the user key and sequence number it remembers |
| CompactionWork.PiecesSorted | Project_2Q_2019/Pods/leveldb-library/db/db_impl.cc:921-927 | cutting a sorted run into non-empty files gives a sorted level, also between two entries of one user key |
| CompactionWork.DoCompactionWork | Project_2Q_2019/Pods/leveldb-library/db/db_impl.cc:878-1036 | however the outputs are cut, together they hold exactly the kept entries in order, as a sorted level with consecutive new numbers |
| CompactionReads.CompactionPreservesReadsIff | Project_2Q_2019/Pods/leveldb-library/db/db_impl.cc:878-1036 | all reads at all snapshots from the oldest on survive a compaction, exactly if no dropped marker exposes a value left behind in the output level |
| CompactionReads.SentinelReadsIff | Project_2Q_2019/Pods/leveldb-library/db/db_impl.cc:931-958 | at the largest sequence number reads survive a compaction under the sentinel exactly if of every newest entry among the inputs the other files say the same |
| CompactionReads.SentinelReads | Project_2Q_2019/Pods/leveldb-library/db/db_impl.cc:931-958 | what a read at the largest sequence number returns before and after such a compaction |
| CompactionReads.OlderIsLeftBehind | Project_2Q_2019/Pods/leveldb-library/db/version_set.cc:1533-1552 | under a base-level key, older entries outside the inputs can only lie in the output level |
| CompactionReads.LeftBehindIsNewer | Project_2Q_2019/Pods/leveldb-library/db/version_set.cc:1403-1414 | if no file there continues inputs_[1], what is left behind is newer than the inputs |
| CompactionReads.BoundaryClosedExposesNothing | Project_2Q_2019/Pods/leveldb-library/db/version_set.cc:1403-1414 | if no left-out file of the output level continues the last user key of inputs_[1], no value is exposed |
| CompactionReads.StraddlingKeyResurrects | Project_2Q_2019/Pods/leveldb-library/db/version_set.cc:1409-1411 | a deleted key comes back in a database where the guard fails |
| NestedFlush.LevelLeftSortedIff | Project_2Q_2019/Pods/leveldb-library/db/db_impl.cc:908-918 | after a flush into the output level and then the outputs, the level is sorted exactly if no output covers the flushed table |
| NestedFlush.SortedHoweverCutIff | Project_2Q_2019/Pods/leveldb-library/db/db_impl.cc:860-876 | beforehand, and after any flushes: the output level will be sorted however the kept entries are cut exactly if they lie on one side of every file that stays |
| NestedFlush.FlushedHoweverCutIff | Project_2Q_2019/Pods/leveldb-library/db/db_impl.cc:908-918 | after one flush: exactly if the kept entries lie on one side of the flushed table |
| NestedFlush.FlushKeepsUnderway | Project_2Q_2019/Pods/leveldb-library/db/db_impl.cc:908-918 | any number of flushes leave the inputs files of their levels, with nothing older beside them |
| NestedFlush.FlushKeepsChosenIff | Project_2Q_2019/Pods/leveldb-library/db/db_impl.cc:908-918 | the room between the inputs stays free exactly if the table is not put into the output level between them |
| Lsm.MovedKeepsInvariantIff | Project_2Q_2019/Pods/leveldb-library/db/db_impl.cc:860-876 | whatever was flushed since, installing the outputs keeps the level invariant exactly if they have room beside the files that stay |
| NestedFlush.NoGapIsSafe | Project_2Q_2019/Pods/leveldb-library/db/db_impl.cc:908-918 | a compaction whose inputs leave no gap is never disturbed by a flush |
| NestedFlush.FlushKeepsBaseLevel | Project_2Q_2019/Pods/leveldb-library/db/version_set.cc:1533-1552 | for every key of the inputs a flush leaves the base-level answer of the input version as it was |
| NestedFlush.SameKept | Project_2Q_2019/Pods/leveldb-library/db/version_set.cc:1533-1552 | asking the input version or the levels as they are later, the compaction keeps the same entries |
| NestedFlush.FlushIntoGap | Project_2Q_2019/Pods/leveldb-library/db/version_set.cc:491-516 | a manual compaction, a flush between its two inputs, and an output level that is no longer sorted |
| Builder.VersionBuilder.Apply | Project_2Q_2019/Pods/leveldb-library/db/version_set.cc:653-696 | pointers, then deletions, then additions, each of which cancels a deletion of its number |
| Builder.VersionBuilder.SaveOneLevel | Project_2Q_2019/Pods/leveldb-library/db/version_set.cc:698-739 | the two-cursor walk saves the merge of base and added files without the deleted ones |
| Builder.SaveMembers | Project_2Q_2019/Pods/leveldb-library/db/version_set.cc:698-755 | exactly the files of base or added whose number is not deleted are saved |
| Builder.SaveOrdered | Project_2Q_2019/Pods/leveldb-library/db/version_set.cc:698-739 | the saved level is ordered if base and added are |
| Builder.OrderedUnique | Project_2Q_2019/Pods/leveldb-library/db/version_set.cc:592-605 | an ordered list of files is determined by its members |
| BuilderRuns.BatchStepIff | Project_2Q_2019/Pods/leveldb-library/db/version_set.cc:653-755 | one builder for one more edit equals saving first and applying the edit, exactly if the edit revives no dropped file |
| BuilderRuns.ReusedNumberRevives | Project_2Q_2019/Pods/leveldb-library/db/version_set.cc:653-696 | a number deleted and then added again at its level: one builder for both edits saves the old file too |
| BuilderRuns.BatchedIsOneByOne | Project_2Q_2019/Pods/leveldb-library/db/version_set.cc:886-1011 | Recover's single builder makes of a whole run of edits what LogAndApply made one edit at a time |
| Install.EditedLevel | Project_2Q_2019/Pods/leveldb-library/db/version_set.cc:653-755 | applying an edit removes its deletions and adds its additions, in order |
| Install.MoveEditMoves | Project_2Q_2019/Pods/leveldb-library/db/db_impl.cc:716-735 | the edit of a move or compaction takes the inputs out of two levels and puts the outputs into the lower one |
| Install.AddEditAdds | Project_2Q_2019/Pods/leveldb-library/db/db_impl.cc:491-533 | the edit of a flush adds one file to one level |
| Database.PickLevelForMemTableOutput | Project_2Q_2019/Pods/leveldb-library/db/version_set.cc:491-516 | the level chosen for a flush is at most 2 and clear of overlap all the way down |
| Database.Database.Get | Project_2Q_2019/Pods/leveldb-library/db/db_impl.cc:1100-1145 | returns what the specification says of the store, and so, when faithful, of the whole history |
| Database.Database.GetSnapshot | Project_2Q_2019/Pods/leveldb-library/db/db_impl.cc:1166-1169 | a new snapshot is the last sequence number and keeps every live read |
| Database.Database.ReleaseSnapshot | Project_2Q_2019/Pods/leveldb-library/db/db_impl.cc:1171-1175 | releasing any snapshot keeps the reads of those that stay |
| Database.Database.Write | Project_2Q_2019/Pods/leveldb-library/db/db_impl.cc:1185-1256 | the batch gets consecutive sequence numbers after the last one, up to the largest there is, all of it enters store and history, and faithfulness is kept |
| Database.Database.SwitchMemTable | Project_2Q_2019/Pods/leveldb-library/db/db_impl.cc:1342-1365 | retiring a full memtable changes no contents |
| Database.Database.CompactMemTable | Project_2Q_2019/Pods/leveldb-library/db/db_impl.cc:535-566 | the immutable memtable becomes one table, as far down as nothing overlaps it; contents, structure and reads stay, also in the middle of a compaction, whose inputs stay as chosen exactly if the table does not land between them |
| Database.Database.ChooseInputs | Project_2Q_2019/Pods/leveldb-library/db/db_impl.cc:688-715 | whatever way a compaction is requested its inputs are what the level invariant needs, and if automatic they leave no gap |
| Database.Database.BackgroundCompaction | Project_2Q_2019/Pods/leveldb-library/db/db_impl.cc:688-767 | a move, or a merge of the chosen inputs with the kept entries as outputs; structure survives, and reads survive exactly if no value is exposed, in particular under the boundary guard |
| Database.Database.BeginCompaction | Project_2Q_2019/Pods/leveldb-library/db/db_impl.cc:688-735 | chooses the inputs, and moves the one file or fixes the oldest snapshot and lets go of the mutex; contents and reads stay |
| Database.Database.FinishCompaction | Project_2Q_2019/Pods/leveldb-library/db/db_impl.cc:878-1036 | after any writes, reads, snapshots, releases and flushes in between: installs the kept entries of the inputs chosen at the beginning; structure survives exactly if the outputs have room beside what was flushed, reads from the snapshot noted at the beginning exactly if no value is exposed |
| Database.Database.AbandonCompaction | Project_2Q_2019/Pods/leveldb-library/db/db_impl.cc:735-751 | a failed compaction changes nothing that is read |
| Database.WritesExposeNothing | Project_2Q_2019/Pods/leveldb-library/db/db_impl.cc:878-1036 | writes during a compaction do not change what it exposes |
| Database.CompactionOutcome | Project_2Q_2019/Pods/leveldb-library/db/db_impl.cc:860-876 | a compaction adds no entries and keeps reads exactly if it exposes nothing |
| Database.WriteIsFaithful | Project_2Q_2019/Pods/leveldb-library/db/db_impl.cc:1201-1237 | a batch on top of a faithful store leaves it faithful |
| DbIterator.LiveListIsReads | Project_2Q_2019/Pods/leveldb-library/db/db_iter.cc:168-198 | the list an iterator walks has a key with a value exactly if a point read at its sequence number returns that value |
| DbIterator.LiveListSorted | Project_2Q_2019/Pods/leveldb-library/db/db_iter.cc:141-166 | that list is strictly increasing |
| DbIterator.DBIter.CursorAgrees | Project_2Q_2019/Pods/leveldb-library/db/db_iter.cc:60-84 | valid, key and value are those of the cursor |
| DbIterator.DBIter.FindNextUserEntry | Project_2Q_2019/Pods/leveldb-library/db/db_iter.cc:168-198 | moves to the first live key after the place it is given |
| DbIterator.DBIter.Next | Project_2Q_2019/Pods/leveldb-library/db/db_iter.cc:141-166 | moves the cursor one key on, also right after moving backwards |
| DbIterator.DBIter.FindPrevUserEntry | Project_2Q_2019/Pods/leveldb-library/db/db_iter.cc:227-267 | moves to the last live key before the place it is given, or finds none |
| DbIterator.DBIter.Prev | Project_2Q_2019/Pods/leveldb-library/db/db_iter.cc:200-225 | moves the cursor one key back, off the list from the first, also right after moving forwards |
| DbIterator.DBIter.Seek | Project_2Q_2019/Pods/leveldb-library/db/db_iter.cc:269-281 | the cursor stands on the first live key at or after the target |
| DbIterator.DBIter.SeekToFirst | Project_2Q_2019/Pods/leveldb-library/db/db_iter.cc:283-292 | the cursor stands at the start |
| DbIterator.DBIter.SeekToLast | Project_2Q_2019/Pods/leveldb-library/db/db_iter.cc:294-299 | the cursor stands on the last key, if there is one |
| Scans.AddIterators | Project_2Q_2019/Pods/leveldb-library/db/version_set.cc:233-252 | the files of level 0 and one run for each deeper level: the runs are sorted and together hold what the store holds |
| Scans.NewInternalIterator | Project_2Q_2019/Pods/leveldb-library/db/db_impl.cc:1059-1086 | memtables and tables merge into one sorted run with exactly the contents of the store |
| Scans.NewIterator | Project_2Q_2019/Pods/leveldb-library/db/db_impl.cc:1147-1157 | the iterator lists exactly the keys and values that point reads at its snapshot return, and those of the history when the database is faithful |
| SkipLists.NextKeepsInv | Project_2Q_2019/Pods/leveldb-library/db/skiplist.h:337-368 | with Insert split into its single stores and any number of readers between them, every state keeps each level sorted and a sublist of the one below |
| SkipLists.SearchesFind | Project_2Q_2019/Pods/leveldb-library/db/skiplist.h:261-281 | a search that ran through any number of inserts returns a node at or after its key with no key of its start lying between |
| SkipLists.LinkKeepsGood | Project_2Q_2019/Pods/leveldb-library/db/skiplist.h:362-367 | linking a node into one level adds exactly its key, at the bottom level only |
| SkipLists.SkipList.FindGreaterOrEqual | Project_2Q_2019/Pods/leveldb-library/db/skiplist.h:261-281 | the node after the last one before the key, and that last one on every level |
| SkipLists.SkipList.FindLessThan | Project_2Q_2019/Pods/leveldb-library/db/skiplist.h:283-303 | the last node before the key, or the head |
| SkipLists.SkipList.FindLast | Project_2Q_2019/Pods/leveldb-library/db/skiplist.h:304-323 | the last node, or the head of an empty list |
| SkipLists.SkipList.Insert | Project_2Q_2019/Pods/leveldb-library/db/skiplist.h:337-368 | the list then holds exactly one key more |
| SkipLists.SkipList.Contains | Project_2Q_2019/Pods/leveldb-library/db/skiplist.h:371-380 | whether the key is in the list |
| SkipLists.Iterator.Seek | Project_2Q_2019/Pods/leveldb-library/db/skiplist.h:224-227 | the first key at or after the target, and none is skipped |
| SkipLists.Iterator.Next | Project_2Q_2019/Pods/leveldb-library/db/skiplist.h:207-211 | moves one place on in the sorted list |
| SkipLists.Iterator.Prev | Project_2Q_2019/Pods/leveldb-library/db/skiplist.h:213-222 | moves one place back, or off the list |
| MemTables.EntryReadsBack | Project_2Q_2019/Pods/leveldb-library/db/memtable.cc:75-98 | the buffer Add fills reads back as its internal key and value |
| MemTables.ComparatorAgrees | Project_2Q_2019/Pods/leveldb-library/db/memtable.cc:28-35 | KeyComparator on encoded entries is the order the skip list keeps |
| MemTables.SeekAnswers | Project_2Q_2019/Pods/leveldb-library/db/memtable.cc:100-135 | the first entry at or after the lookup key decides what the memtable has to say |
| MemTables.MemTable.Add | Project_2Q_2019/Pods/leveldb-library/db/memtable.cc:75-98 | the memtable then holds exactly one entry more |
| MemTables.MemTable.Get | Project_2Q_2019/Pods/leveldb-library/db/memtable.cc:100-135 | reports the value or deletion of the newest entry the snapshot may see, or that there is none |
| MemTableRuns.AddToBoth | Project_2Q_2019/Pods/leveldb-library/db/memtable.cc:75-98 | adding an operation to the encoded memtable and to the sorted run it stands for keeps them in agreement |
| MemTableRuns.GetFromBoth | Project_2Q_2019/Pods/leveldb-library/db/memtable.cc:100-135 | a read of the encoded memtable tells what the newest visible entry of the run says |
| Snapshots.SnapshotList.New | Project_2Q_2019/Pods/leveldb-library/db/snapshot.h:57-70 | appends a snapshot to the ring |
| Snapshots.SnapshotList.Delete | Project_2Q_2019/Pods/leveldb-library/db/snapshot.h:79-86 | unlinks a snapshot wherever it is; the others keep their order |
| Snapshots.SnapshotList.Oldest | Project_2Q_2019/Pods/leveldb-library/db/snapshot.h:47-50 | no live snapshot has a smaller number |
| Snapshots.Unlinked | Project_2Q_2019/Pods/leveldb-library/db/snapshot.h:79-86 | pointing two neighbours at each other takes exactly one node out of the ring |
| LogFormat.MaskRoundTrip | Project_2Q_2019/Pods/leveldb-library/util/crc32c.h:29-38 | unmasking inverts masking for every 32-bit checksum |
| LogFormat.FrameParses | Project_2Q_2019/Pods/leveldb-library/db/log_writer.cc:82-108 | length, type, payload and checksum are recovered from the seven-byte header |
| LogBlocks.LogIsFramed | Project_2Q_2019/Pods/leveldb-library/db/log_writer.cc:34-80 | any records appended at any offset become a run of frames that hold them in order, each frame within one block |
| LogFormat.SurviveUnique | Project_2Q_2019/Pods/leveldb-library/db/log_reader.cc:189-271 | how many records lie wholly inside a prefix of a log is one number |
| LogWriter.Writer.AddRecord | Project_2Q_2019/Pods/leveldb-library/db/log_writer.cc:34-80 | appends exactly the record's fragments, from any block offset |
| LogWriter.Writer.EmitPhysicalRecord | Project_2Q_2019/Pods/leveldb-library/db/log_writer.cc:82-108 | appends one frame and moves the block offset by its size |
| LogReader.Reader.ParseHeader | Project_2Q_2019/Pods/leveldb-library/db/log_reader.cc:219-271 | a frame is returned if it is whole in the file; if torn, end of file, with nothing reported |
| LogReader.Reader.ReadPhysicalRecord | Project_2Q_2019/Pods/leveldb-library/db/log_reader.cc:189-271 | the same, after skipping a block trailer |
| LogReader.Reader.ReadRecord | Project_2Q_2019/Pods/leveldb-library/db/log_reader.cc:56-174 | a record of any length is put together from its fragments if whole in the file; otherwise end of file, with nothing reported |
| LogReader.Reader.ReadAll | Project_2Q_2019/Pods/leveldb-library/db/log_reader.cc:56-174 | on any byte-prefix of a log: the first records, as many as lie wholly inside it and no others, and no corruption |
| Batches.BatchRoundTrip | Project_2Q_2019/Pods/leveldb-library/db/write_batch.cc:42-80 | a batch of any operations replays as those operations, with matching count and sequence number |
| Batches.WriteBatch.Put | Project_2Q_2019/Pods/leveldb-library/db/write_batch.cc:98-103 | a batch that held operations then holds them and one put |
| Batches.WriteBatch.Delete | Project_2Q_2019/Pods/leveldb-library/db/write_batch.cc:105-109 | the same with one deletion |
| Batches.WriteBatch.Append | Project_2Q_2019/Pods/leveldb-library/db/write_batch.cc:144-149 | a batch then holds its own operations and those of the other, in order |
| Batches.WriteBatch.SetSequence | Project_2Q_2019/Pods/leveldb-library/db/write_batch.cc:94-96 | changes the sequence number and nothing else |
| Batches.WriteBatch.Iterate | Project_2Q_2019/Pods/leveldb-library/db/write_batch.cc:42-80 | hands exactly the operations of the batch to the handler, and reports each malformed input |
| Recovery.Log.WriteGroup | Project_2Q_2019/Pods/leveldb-library/db/db_impl.cc:1201-1237 | the group is logged with the next sequence numbers, and acknowledged as synced exactly if its leader syncs |
| Recovery.SyncedSurvive | Project_2Q_2019/Pods/leveldb-library/db/db_impl.cc:1213-1221 | a crash that keeps all synced bytes keeps every acknowledged sync write |
| Recovery.InsertInto | Project_2Q_2019/Pods/leveldb-library/db/write_batch.cc:118-137 | the operations enter the memtable numbered Sequence, Sequence+1 and so on |
| Recovery.WriteLevel0Table | Project_2Q_2019/Pods/leveldb-library/db/db_impl.cc:491-533 | a full memtable becomes a table without losing or reordering anything |
| Recovery.RecoverLogFile | Project_2Q_2019/Pods/leveldb-library/db/db_impl.cc:371-489 | any torn log is replayed to exactly the effect of the groups that survive whole, with no corruption reported |
| Recovery.CrashAndRecover | Project_2Q_2019/Pods/leveldb-library/db/db_impl.cc:371-489 | after any writes and any crash past the last sync: a prefix of the groups that includes every acknowledged sync write |
| Recovery.RecoveredStore | Project_2Q_2019/Pods/leveldb-library/db/db_impl.cc:411-453 | installing the rebuilt tables gives a valid store with what the version held and what the surviving groups wrote |
| Durability.StepKeepsInv | Project_2Q_2019/Pods/leveldb-library/db/db_impl.cc:535-566 | every write, log switch, flush, compaction, deletion of old logs and crash with reopening keeps the tables reading like the history and the logs adjoining it |
| Durability.SyncedIsDurable | Project_2Q_2019/Pods/leveldb-library/db/db_impl.cc:1213-1221 | once a sync write is acknowledged, it and all earlier writes of its log are durable |
| Durability.StepKeepsDurable | Project_2Q_2019/Pods/leveldb-library/db/db_impl.cc:313-369 | no step and no crash takes back a durable entry |
| Durability.DurableForEver | Project_2Q_2019/Pods/leveldb-library/include/leveldb/options.h:164-182 | over any run from the creation of the database on, with any number of crashes, what was durable once stays durable |
| Durability.ReopenedReads | Project_2Q_2019/Pods/leveldb-library/db/db_impl.cc:313-369 | after a crash the database reads as its history and, of each log still needed, the first groups, all synced ones among them |
| Durability.CrashesKeepFirstIff | Project_2Q_2019/Pods/leveldb-library/db/db_impl.cc:1345-1365 | with two logs every crash leaves the first writes made exactly if the full log has no unsynced operation or the next has no operation |
| Durability.SurvivorsAreFirstIff | Project_2Q_2019/Pods/leveldb-library/db/db_impl.cc:1345-1365 | one crash leaves the first writes made exactly if the full log lost no operation or none of the next was kept |
| Durability.NewDatabaseInv | Project_2Q_2019/Pods/leveldb-library/db/db_impl.cc:180-222 | the invariant holds of a database just created, where every run starts |
| Durability.SecondWriteAlone | Project_2Q_2019/Pods/leveldb-library/db/db_impl.cc:1356-1360 | a crash that keeps a second write and loses the first |
| Durability.FlushIsStep | Project_2Q_2019/Pods/leveldb-library/db/db_impl.cc:535-566 | what CompactMemTable installs is a flush step, after which the flushed log is not needed |
| Durability.CompactionIsStep | Project_2Q_2019/Pods/leveldb-library/db/db_impl.cc:860-876 | a compaction of the levels that exposes nothing is a compaction step |
| Reopening.LogsToRecover | Project_2Q_2019/Pods/leveldb-library/db/db_impl.cc:322-340 | exactly the logs that the manifest still needs, in their order |
| Reopening.AllPresent | Project_2Q_2019/Pods/leveldb-library/db/db_impl.cc:327-347 | whether every table the manifest names is in the directory |
| Reopening.RecoverLogs | Project_2Q_2019/Pods/leveldb-library/db/db_impl.cc:351-367 | log after log, tables newer than all before them, with at least the synced groups of each and a bound on every sequence number |
| Reopening.Open | Project_2Q_2019/Pods/leveldb-library/db/db_impl.cc:1474-1515 | a missing table stops it with nothing changed; otherwise opening after any crash is the crash step: rebuilt tables installed, counters past everything recovered, a new log |
| EditCodec.ItemsRoundTrip | Project_2Q_2019/Pods/leveldb-library/db/version_edit.cc:107-205 | the tagged fields of an edit parse back in order |
| EditCodec.AssembleRestores | Project_2Q_2019/Pods/leveldb-library/db/version_edit.cc:107-205 | assembling the parsed fields restores the edit, after the pointers the object already had |
| EditCodec.FreshObjectRestores | Project_2Q_2019/Pods/leveldb-library/db/version_edit.cc:26-39 | decoding restores an edit exactly if the object had no compaction pointers |
| EditCodec.VersionEdit.Clear | Project_2Q_2019/Pods/leveldb-library/db/version_edit.cc:26-39 | resets every field but the compaction pointers |
| EditCodec.VersionEdit.EncodeTo | Project_2Q_2019/Pods/leveldb-library/db/version_edit.cc:41-85 | the record says exactly the fields of the edit |
| EditCodec.VersionEdit.DecodeFrom | Project_2Q_2019/Pods/leveldb-library/db/version_edit.cc:107-205 | an encoded edit is restored, and each malformed input is reported |
| ManifestFormat.KeyRoundTrip | Project_2Q_2019/Pods/leveldb-library/db/dbformat.h:165-175 | an internal key parses back from its bytes |
| ManifestFormat.ReadsBack | Project_2Q_2019/Pods/leveldb-library/db/version_edit.cc:41-85 | an edit survives being spelled as a record |
| Manifest.VersionSet.LogAndApply | Project_2Q_2019/Pods/leveldb-library/db/version_set.cc:801-884 | the new version is the edit applied to the current one, the manifest gains its record, and the numbers are filled in |
| Manifest.VersionSet.WriteSnapshot | Project_2Q_2019/Pods/leveldb-library/db/version_set.cc:1088-1116 | a new manifest starts with a record that rebuilds the current version |
| Manifest.SnapshotMakes | Project_2Q_2019/Pods/leveldb-library/db/version_set.cc:1088-1116 | the snapshot edit rebuilds the version from nothing |
| Manifest.Recover | Project_2Q_2019/Pods/leveldb-library/db/version_set.cc:886-1011 | from any torn manifest: the version, pointers and numbers as of the last edit that survives whole |
| Manifest.Reopen | Project_2Q_2019/Pods/leveldb-library/db/version_set.cc:886-1011 | after any run of LogAndApply calls, reopening gives the current version, pointers, log numbers and last saved counters |
| Manifest.PointersTwice | Project_2Q_2019/Pods/leveldb-library/db/version_set.cc:818-842 | logging a pointer both in the snapshot and in the edit changes nothing |
| WriteQueue.BuildBatchGroup | Project_2Q_2019/Pods/leveldb-library/db/db_impl.cc:1260-1306 | the group is the longest front of the queue that is allowed, its batches joined in order; a caller's own batch is never changed |
| WriteQueue.GroupIsLongest | Project_2Q_2019/Pods/leveldb-library/db/db_impl.cc:1268-1300 | fronts of the queue within the size limit and without a sync write under another leader: exactly those up to the group |
| WriteQueue.CoveredSync | Project_2Q_2019/Pods/leveldb-library/db/db_impl.cc:1283-1288 | no sync write is covered by a leader that does not sync |
| GroupCommit.NextKeepsInv | Project_2Q_2019/Pods/leveldb-library/db/db_impl.cc:1185-1256 | every step of every interleaving keeps queue, groups, memtable, temporary batch and snapshots in order |
| GroupCommit.GetSeesWholeGroups | Project_2Q_2019/Pods/leveldb-library/db/db_impl.cc:1100-1145 | a Get sees exactly the groups finished when it took its snapshot |
| GroupCommit.BatchSeenWholeOrNot | Project_2Q_2019/Pods/leveldb-library/db/db_impl.cc:1201-1237 | of the batch of any writer of any finished group a Get sees every effect or none |
| GroupCommit.BatchAt | Project_2Q_2019/Pods/leveldb-library/db/db_impl.cc:1260-1306 | the batches of a group take adjoining sequence ranges in queue order |
| GroupCommit.GroupsAdjoin | Project_2Q_2019/Pods/leveldb-library/db/db_impl.cc:1202-1204 | each group takes its numbers right after those of the group before it, and the last number given out is the end of the last |
| GroupCommit.ServedInOrder | Project_2Q_2019/Pods/leveldb-library/db/db_impl.cc:1239-1256 | writers are served exactly once, in order of arrival, with their leader's answer, and no sync write under a leader that does not sync |
| GroupCommit.OneAtATime | Project_2Q_2019/Pods/leveldb-library/db/db_impl.cc:1185-1200 | at most one thread leads, and the temporary batch is empty when a group is put together |
| VersionRefs.Unref | Project_2Q_2019/Pods/leveldb-library/db/version_set.cc:474-483 | the last reference takes a version out of the list and drops its files; all counts stay right |
| VersionRefs.DropFiles | Project_2Q_2019/Pods/leveldb-library/db/version_set.cc:68-86 | each file loses one holder, and its record goes with the last |
| VersionRefs.VersionSet.SaveTo | Project_2Q_2019/Pods/leveldb-library/db/version_set.cc:698-755 | the new version holds a reference to exactly the files that are not deleted |
| VersionRefs.KeptMembers | Project_2Q_2019/Pods/leveldb-library/db/version_set.cc:741-755 | exactly the files not deleted at their level are kept, each as often as it was there |
| VersionRefs.VersionSet.EndBuilder | Project_2Q_2019/Pods/leveldb-library/db/version_set.cc:628-647 | the builder lets its own files and its base version go |
| VersionRefs.VersionSet.AppendVersion | Project_2Q_2019/Pods/leveldb-library/db/version_set.cc:784-799 | the new version is current and the old one loses that reference |
| VersionRefs.VersionSet.AddLiveFiles | Project_2Q_2019/Pods/leveldb-library/db/version_set.cc:1167-1177 | collects exactly the tables of the listed versions |
| VersionRefs.VersionSet.DeleteObsoleteFiles | Project_2Q_2019/Pods/leveldb-library/db/db_impl.cc:223-278 | keeps a table exactly if a listed version has it or it is still being written; after a background error deletes nothing |
| VersionRefs.SweepDuringFlush | Project_2Q_2019/Pods/leveldb-library/db/db_impl.cc:505-533 | a table that no listed version has yet survives a sweep exactly while its number is among the pending outputs |
| VersionRefs.VersionSet.UsedVersionIsLive | Project_2Q_2019/Pods/leveldb-library/db/version_set.cc:474-483 | whoever holds a version finds it listed, with all its tables live |
| PbVarint.EncodeVarint64 | Project_2Q_2019/Pods/nanopb/pb_encode.c:608-628 | the ten-byte loop writes the varint of every 64-bit number, in at most ten bytes |
| PbVarint.DecodeVarint64 | Project_2Q_2019/Pods/nanopb/pb_decode.c:255-276 | the loop with its bit position reads what the recursive definition of a varint says |
| PbVarint.DecodeVarint32 | Project_2Q_2019/Pods/nanopb/pb_decode.c:187-253 | the loop of the 32-bit decoder, bit by bit: groups are joined by a bitwise or at a position that wraps at 8 bits; where the 64-bit decoder accepts too, the same bytes are taken and the result is its low 32 bits |
| PbVarint.Varint64ReadsBack | Project_2Q_2019/Pods/nanopb/pb_encode.c:608-628 | every 64-bit number takes at most ten bytes and reads back, whatever follows |
| PbVarint.Varint32ReadsBack | Project_2Q_2019/Pods/nanopb/pb_decode.c:187-253 | every 32-bit number reads back through the 32-bit decoder |
| PbVarint.NegativeReadsBack | Project_2Q_2019/Pods/nanopb/pb_decode.c:216-228 | a negative number written in ten bytes reads back as its low 32 bits |
| PbVarint.DecodersAgree | Project_2Q_2019/Pods/nanopb/pb_decode.c:187-276 | when both decoders accept the same bytes they consume the same bytes, and the narrow result is the wide one modulo 2^32 |
| PbAccept.Decode32AcceptsIff | Project_2Q_2019/Pods/nanopb/pb_decode.c:206-247 | of the inputs the 64-bit decoder takes, exactly which the 32-bit decoder takes, byte by byte |
| PbAccept.AcceptedIsExtendedIff | Project_2Q_2019/Pods/nanopb/pb_decode.c:206-247 | an accepted input is a 32-bit or a sign-extended number exactly if its bits above bit 31 are all clear or all set |
| PbAccept.LooseSignExtension | Project_2Q_2019/Pods/nanopb/pb_decode.c:220-237 | ten accepted bytes whose value is neither |
| PbAccept.CutUnnoticed | Project_2Q_2019/Pods/nanopb/pb_decode.c:241-246 | six accepted bytes whose bits 32 to 34 are dropped |
| PbVarint.ZigZagRoundTrip | Project_2Q_2019/Pods/nanopb/pb_encode.c:630-639 | zigzag is undone for every 64-bit integer, and its value is the interleaving of the specification |
| PbVarint.ZigZagOnto | Project_2Q_2019/Pods/nanopb/pb_decode.c:1269-1281 | every 64-bit pattern is the zigzag of the integer it decodes to |
| PbEncode.OStream.Write | Project_2Q_2019/Pods/nanopb/pb_encode.c:103-129 | succeeds exactly if the bytes fit, and then appends or only counts them |
| PbEncode.WritePacked | Project_2Q_2019/Pods/nanopb/pb_encode.c:158-200 | tag, size and entries of a packed array, with a first pass for the size |
| PbEncode.WriteArray | Project_2Q_2019/Pods/nanopb/pb_encode.c:147-236 | a packed array, or every entry with its own tag; too many entries are refused |
| PbEncode.WriteSubmessage | Project_2Q_2019/Pods/nanopb/pb_encode.c:717-765 | the two passes agree: the size written is the size of the message written |
| PbEncode.WriteMessage | Project_2Q_2019/Pods/nanopb/pb_encode.c:528-550 | every field in turn; an error or lack of room anywhere fails the whole |
| PbEncode.EncodedSize | Project_2Q_2019/Pods/nanopb/pb_encode.c:567-576 | the sizing pass gives the exact size of the encoding, or fails if there is none |
| PbEncode.EncodeToBuffer | Project_2Q_2019/Pods/nanopb/pb_encode.c:528-550 | encoding into a buffer succeeds exactly if the sizing pass gives at most its capacity, and writes exactly that many bytes |
| PbIter.FieldIter.Next | Project_2Q_2019/Pods/nanopb/pb_common.c:21-75 | moves on and wraps, with the count of required fields passed always right |
| PbIter.FieldIter.Find | Project_2Q_2019/Pods/nanopb/pb_common.c:77-95 | goes all the way round: finds the first match from where it stood, or fails exactly if no field has the tag |
| PbFits.MessageFits | Project_2Q_2019/Pods/nanopb/pb_decode.c:925-1073 | whatever bytes are decoded into a struct, no array or string grows beyond its member and no number leaves its range |
| PbFits.DefaultsFit | Project_2Q_2019/Pods/nanopb/pb_decode.c:836-919 | default values fit their struct |
| PbDecodeLoop.CheckRequired | Project_2Q_2019/Pods/nanopb/pb_decode.c:1030-1070 | comparing words of the bitmap decides exactly whether the first 64 required fields were all seen |
| PbDecodeLoop.CountRequired | Project_2Q_2019/Pods/nanopb/pb_decode.c:1031-1046 | seeking to the end of the table counts the required fields, from wherever the iterator stood |
| PbDecodeLoop.IStream.Skip | Project_2Q_2019/Pods/nanopb/pb_decode.c:278-331 | an unknown field of any wire type is passed over exactly |
| PbDecodeLoop.TakeField | Project_2Q_2019/Pods/nanopb/pb_decode.c:406-480 | decode_static_field: required, optional, packed and unpacked repeated fields, each refusing what does not fit |
| PbDecodeLoop.DecodeNoinit | Project_2Q_2019/Pods/nanopb/pb_decode.c:925-1073 | the loop with iterator and bitmap computes what the recursive reading of the bytes says |
| PbDecodeLoop.Decode | Project_2Q_2019/Pods/nanopb/pb_decode.c:1075-1087 | the same, starting from defaults |
| PbRequired.DecodesIffAllRequired | Project_2Q_2019/Pods/nanopb/pb_decode.c:925-1073 | decoding succeeds exactly if the bytes parse and each of the first 64 required fields came, in any order |
| PbRoundTrip.RoundTripIff | Project_2Q_2019/Pods/nanopb/pb_encode.c:528-550 | a message whose length prefixes fit 32 bits comes back as it was exactly if it fits its struct, NULs included |
| PbRoundTrip.MessageReads | Project_2Q_2019/Pods/nanopb/pb_decode.c:1075-1087 | encoding and then decoding a fitting message, nested to any depth, gives it back |
| PbRoundTrip.MessageEncodes | Project_2Q_2019/Pods/nanopb/pb_encode.c:341-426 | a message that fits its struct is never refused by the encoder |
| PbRoundTrip.DecodedRoundTrips | Project_2Q_2019/Pods/nanopb/pb_decode.c:1075-1087 | whatever was decoded can be encoded again, and its encoding decodes to the same |
| PbRoundTrip.UnterminatedIsLost | Project_2Q_2019/Pods/nanopb/pb_encode.c:875-899 | a char array filled to its last byte is encoded but never decoded |

## Left out

- CompactionReads.CompactionPreservesReadsIff: a corrupt internal key in the merged input, which the loop keeps and which resets its state (db_impl.cc:932-937), is not modelled.
- Database.Database.FinishCompaction: once outputs without room are installed the level is not sorted, and nothing is promised of what the database does from there on.
- CompactionWork.DoCompactionWork: corrupt keys of the input, shutting down and write errors are left out; a compaction that fails is `Database.Database.AbandonCompaction`.
- Database.Database.BackgroundCompaction: which level to compact is a parameter; sizes, scores, seek statistics and the compaction pointers of SetupOtherInputs only choose it.
- Database.Database.Write: the memtable is a sorted run here; `MemTableRuns` ties it to the skip list of encoded entries in `MemTables`.
- MemTables.MemTable.Add: reference counts, arena memory and memory usage are not modelled; a deletion's value is whatever the caller passes.
- LogReader.Reader.ReadAll: reading from an initial offset other than a block start and the resynchronisation that goes with it are not modelled; a file is a byte string that ends where the crash cut it.
- LogFormat.FrameParses: CRC32C is an uninterpreted function of the bytes it covers, so nothing is said about detecting corrupted bytes.
- Recovery.RecoverLogFile: `reuse_logs` is left out; paranoid checks have nothing to report on a torn log.
- Reopening.Open: the directory listing comes sorted by log number; `create_if_missing` and `error_if_exists` (db_impl.cc:292-308) are left out.  The manifest read is `Manifest.Recover`.
- Durability.StepKeepsInv: a torn manifest, which gives the state before or after the last edit, is `Manifest.Recover`; here an edit is logged whole or not at all.
- Manifest.VersionSet.LogAndApply: writes to the manifest succeed; a failed write, which throws the new version away, is `VersionRefs.VersionSet.Abandon`.  The contents of a table are looked up by its number, since the manifest does not hold them.  No (level, number) may be added twice: with such an edit Recover would not agree (`BuilderRuns.ReusedNumberRevives`), and LevelDB writes none.
- GroupCommit.NextKeepsInv: memory orders are sequentially consistent, and a thread runs under the mutex in one step; condition-variable wake-ups may be spurious.
- SkipLists.SearchesFind: one writer, as the class demands; a reader may start at any level, which covers a stale maximum height.  Loads and stores are sequentially consistent.
- VersionRefs.VersionSet.SaveTo: the builder's set of added files is a list of distinct files, and the order of the merge is left to `Builder.VersionBuilder.SaveOneLevel`.
- Snapshots.SnapshotList.New: a snapshot is named by a number instead of a pointer, and a deleted one's node is not used again.
- EditCodec.VersionEdit.DecodeFrom: an edit is one record value with all fields of the class, and file names of sizes beyond 64 bits are not representable.
- PbRoundTrip.RoundTripIff: a string, packed array or nested message of 4 GB or more is excluded, since the decoder reads its size as a 32-bit number.
- PbDecodeLoop.DecodeNoinit: for a message type without fields, tag 0 matches the terminator of the field table in the code; here it is skipped as unknown.  What a failed decoding leaves in the struct is not modelled.
- PbEncode.WriteMessage: sizes are unbounded, so overflow of `size_t` is not modelled.
- User keys are integers standing for their place in the comparator's order (`Naming` and `Ranking` map their bytes); only comparisons of user keys matter to the engine.
- Table blocks, Bloom filters, caches, arenas and two-level iterators: a table is its sorted sequence of entries; the merging iterator is modelled forwards only (`Merger`), and the database iterator walks the merged run both ways.
- Env, threads, statistics, read sampling, RepairDB, dumpfile, the C bindings, GetProperty and approximate sizes.
- nanopb oneofs, proto3 singular fields, fixed-count arrays, extensions, callbacks, pointer fields and per-field default values; wire types of known fields are not checked, as in the code.
- The Swift app, RxSwift, CodableFirebase, GTMSessionFetcher and BoringSSL: user interface, wrappers and declarations.
