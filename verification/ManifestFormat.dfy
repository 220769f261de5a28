// Version edits as manifest records: internal keys as bytes (db/dbformat.h), edits as records.  A
// table's contents are not in the manifest; they are found on disk under the table's number.
module ManifestFormat {
  import opened Wrappers
  import opened Coding
  import opened DbFormat
  import opened Tables
  import opened Builder
  import opened Install
  import EditCodec

  /** How user keys are spelled, and where a spelling stands in the comparator's order. */
  datatype Naming = Naming(keyOf: Bytes -> UserKey, bytesOf: UserKey -> Bytes)

  type Disk = nat -> seq<Entry>

  predicate KeyWritable(n: Naming, k: InternalKey) {
    n.keyOf(n.bytesOf(k.user)) == k.user && |n.bytesOf(k.user)| + 8 < UINT32
  }

  /** AppendInternalKey */
  function EncodeKey(n: Naming, k: InternalKey): (r: Bytes)
    ensures |r| == |n.bytesOf(k.user)| + 8
  {
    KeyBytes(n.bytesOf(k.user), k.sequence, k.kind)
  }

  /** ParseInternalKey */
  function ParseKey(n: Naming, b: Bytes): Option<InternalKey> {
    if |b| < 8 then None
    else
      var num := DecodeFixed(b[|b| - 8..]);
      if num / 256 <= MAX_SEQUENCE && num % 256 <= 1 then
        Some(InternalKey(n.keyOf(b[..|b| - 8]), num / 256, if num % 256 == 0 then Deletion else Value))
      else None
  }

  lemma KeyRoundTrip(n: Naming, k: InternalKey)
    requires KeyWritable(n, k)
    ensures ParseKey(n, EncodeKey(n, k)) == Some(k)
  {
    hide DecodeFixed, EncodeFixed;
    var b, trailer := EncodeKey(n, k), PackSequenceAndType(k.sequence, k.kind);
    Fixed64RoundTrip(trailer);
    assert b[|b| - 8..] == Fixed64(trailer) && b[..|b| - 8] == n.bytesOf(k.user);
  }

  function KeyOf(n: Naming, b: Bytes): InternalKey {
    match ParseKey(n, b) case None => InternalKey(0, 0, Deletion) case Some(k) => k
  }

  // --------------------------------------------------------------------- whole edits

  /** The pairs in std::set order, each once. */
  function SortPairs(ps: seq<(nat, nat)>): seq<(nat, nat)> {
    if ps == [] then [] else EditCodec.InsertPair(SortPairs(ps[..|ps| - 1]), ps[|ps| - 1])
  }

  lemma {:induction false} SortPairsProperties(ps: seq<(nat, nat)>)
    ensures EditCodec.SortedPairs(SortPairs(ps))
    ensures forall p :: p in SortPairs(ps) <==> p in ps
  {
    if ps == [] {
    } else {
      var n := |ps| - 1;
      SortPairsProperties(ps[..n]);
      EditCodec.InsertPairProperties(SortPairs(ps[..n]), ps[n]);
      assert forall p :: p in ps <==> p in ps[..n] || p == ps[n];
    }
  }

  function WritePointers(n: Naming, ps: seq<(nat, InternalKey)>): (r: seq<(nat, Bytes)>)
    ensures |r| == |ps|
  {
    seq(|ps|, i requires 0 <= i < |ps| => (ps[i].0, EncodeKey(n, ps[i].1)))
  }

  function WriteFiles(n: Naming, fs: seq<(nat, File)>): (r: seq<(nat, EditCodec.Meta)>)
    ensures |r| == |fs|
  {
    seq(|fs|, i requires 0 <= i < |fs| =>
      (fs[i].0, EditCodec.Meta(fs[i].1.number, fs[i].1.size, EncodeKey(n, fs[i].1.smallest),
                               EncodeKey(n, fs[i].1.largest))))
  }

  function WriteEdit(n: Naming, e: VersionEdit): EditCodec.Edit {
    EditCodec.Edit(e.comparator, e.logNumber, e.prevLogNumber, e.nextFileNumber, e.lastSequence,
                   WritePointers(n, e.compactPointers), SortPairs(e.deletedFiles), WriteFiles(n, e.newFiles))
  }

  function ReadPointers(n: Naming, ps: seq<(nat, Bytes)>): (r: seq<(nat, InternalKey)>)
    ensures |r| == |ps|
  {
    seq(|ps|, i requires 0 <= i < |ps| => (ps[i].0, KeyOf(n, ps[i].1)))
  }

  function ReadFiles(n: Naming, disk: Disk, fs: seq<(nat, EditCodec.Meta)>): (r: seq<(nat, File)>)
    ensures |r| == |fs|
  {
    seq(|fs|, i requires 0 <= i < |fs| =>
      (fs[i].0, File(fs[i].1.number, fs[i].1.fileSize, KeyOf(n, fs[i].1.smallest), KeyOf(n, fs[i].1.largest),
                     disk(fs[i].1.number))))
  }

  function ReadEdit(n: Naming, disk: Disk, e: EditCodec.Edit): VersionEdit {
    VersionEdit(e.comparator, e.logNumber, e.prevLogNumber, e.nextFileNumber, e.lastSequence,
                ReadPointers(n, e.compactPointers), e.deletedFiles, ReadFiles(n, disk, e.newFiles))
  }

  /** Numbers fit 64 bits, lengths 32, keys can be spelled, and tables are on disk. */
  ghost predicate Writable(n: Naming, disk: Disk, e: VersionEdit) {
    && (e.comparator.Some? ==> |e.comparator.value| < UINT32)
    && (e.logNumber.Some? ==> e.logNumber.value < UINT64)
    && (e.prevLogNumber.Some? ==> e.prevLogNumber.value < UINT64)
    && (e.nextFileNumber.Some? ==> e.nextFileNumber.value < UINT64)
    && (e.lastSequence.Some? ==> e.lastSequence.value < UINT64)
    && (forall p | p in e.compactPointers :: p.0 < NUM_LEVELS && KeyWritable(n, p.1))
    && (forall p | p in e.deletedFiles :: p.0 < NUM_LEVELS && p.1 < UINT64)
    && (forall p | p in e.newFiles :: p.0 < NUM_LEVELS && FileWritable(n, disk, p.1))
  }

  ghost predicate FileWritable(n: Naming, disk: Disk, f: File) {
    && f.number < UINT64 && f.size < UINT64
    && KeyWritable(n, f.smallest) && KeyWritable(n, f.largest)
    && f.entries == disk(f.number)
  }

  /** An edit as it comes back: the deleted files are a set, so only their order can differ. */
  function Normal(e: VersionEdit): VersionEdit {
    e.(deletedFiles := SortPairs(e.deletedFiles))
  }

  lemma ReadsBack(n: Naming, disk: Disk, e: VersionEdit)
    requires Writable(n, disk, e)
    ensures ReadEdit(n, disk, WriteEdit(n, e)) == Normal(e)
  {
    hide EncodeKey, ParseKey, KeyOf, SortPairs, KeyWritable;
    var w := WriteEdit(n, e);
    forall i | 0 <= i < |e.compactPointers|
      ensures ReadPointers(n, w.compactPointers)[i] == e.compactPointers[i]
    {
      assert e.compactPointers[i] in e.compactPointers;
      KeyReadsBack(n, e.compactPointers[i].1);
    }
    assert ReadPointers(n, w.compactPointers) == e.compactPointers;
    forall i | 0 <= i < |e.newFiles|
      ensures ReadFiles(n, disk, w.newFiles)[i] == e.newFiles[i]
    {
      assert e.newFiles[i] in e.newFiles;
      KeyReadsBack(n, e.newFiles[i].1.smallest);
      KeyReadsBack(n, e.newFiles[i].1.largest);
    }
    assert ReadFiles(n, disk, w.newFiles) == e.newFiles;
  }

  lemma KeyReadsBack(n: Naming, k: InternalKey)
    requires KeyWritable(n, k)
    ensures KeyOf(n, EncodeKey(n, k)) == k
  {
    hide ParseKey, EncodeKey, KeyWritable;
    KeyRoundTrip(n, k);
  }

  lemma WrittenEncodable(n: Naming, disk: Disk, e: VersionEdit)
    requires Writable(n, disk, e)
    ensures EditCodec.Encodable(WriteEdit(n, e))
  {
    hide EncodeKey, SortPairs;
    var w := WriteEdit(n, e);
    SortPairsProperties(e.deletedFiles);
    var head := EditCodec.HeadItems(w);
    var ps := EditCodec.PointerItems(w.compactPointers);
    var ds := EditCodec.DeletedItems(w.deletedFiles);
    var fs := EditCodec.NewItems(w.newFiles);
    HeadEncodable(n, disk, e);
    forall i | 0 <= i < |ps|
      ensures EditCodec.EncodableItem(ps[i])
    {
      assert e.compactPointers[i] in e.compactPointers;
    }
    forall i | 0 <= i < |ds|
      ensures EditCodec.EncodableItem(ds[i])
    {
      assert w.deletedFiles[i] in w.deletedFiles;
    }
    forall i | 0 <= i < |fs|
      ensures EditCodec.EncodableItem(fs[i])
    {
      assert e.newFiles[i] in e.newFiles;
    }
    hide EditCodec.EncodableItem, EditCodec.HeadItems, EditCodec.PointerItems, EditCodec.DeletedItems,
         EditCodec.NewItems, Writable;
    AllEncodableConcat(head, ps);
    AllEncodableConcat(head + ps, ds);
    AllEncodableConcat(head + ps + ds, fs);
  }

  lemma AllEncodableConcat(a: seq<EditCodec.Item>, b: seq<EditCodec.Item>)
    requires forall i | 0 <= i < |a| :: EditCodec.EncodableItem(a[i])
    requires forall i | 0 <= i < |b| :: EditCodec.EncodableItem(b[i])
    ensures forall i | 0 <= i < |a + b| :: EditCodec.EncodableItem((a + b)[i])
  {
    hide EditCodec.EncodableItem;
  }

  lemma HeadEncodable(n: Naming, disk: Disk, e: VersionEdit)
    requires Writable(n, disk, e)
    ensures var head := EditCodec.HeadItems(WriteEdit(n, e));
            forall i | 0 <= i < |head| :: EditCodec.EncodableItem(head[i])
  {
    var w := WriteEdit(n, e);
    var a := EditCodec.NameItems(w.comparator);
    var b := EditCodec.NumberItems(EditCodec.LOG_NUMBER, w.logNumber);
    var c := EditCodec.NumberItems(EditCodec.PREV_LOG_NUMBER, w.prevLogNumber);
    var d := EditCodec.NumberItems(EditCodec.NEXT_FILE_NUMBER, w.nextFileNumber);
    var f := EditCodec.NumberItems(EditCodec.LAST_SEQUENCE, w.lastSequence);
    AllEncodableConcat(a, b);
    AllEncodableConcat(a + b, c);
    AllEncodableConcat(a + b + c, d);
    AllEncodableConcat(a + b + c + d, f);
  }

  // ------------------------------------------------------------------------ records

  function RecordOf(n: Naming, e: VersionEdit): Bytes {
    EditCodec.EncodeItems(EditCodec.ItemsOf(WriteEdit(n, e)))
  }

  function RecordsOf(n: Naming, edits: seq<VersionEdit>): (r: seq<Bytes>)
    ensures |r| == |edits|
  {
    seq(|edits|, i requires 0 <= i < |edits| => RecordOf(n, edits[i]))
  }

  lemma {:induction false} NormalTwice(e: VersionEdit)
    ensures Normal(Normal(e)) == Normal(e)
  {
    SortPairsProperties(e.deletedFiles);
    SortSorted(SortPairs(e.deletedFiles));
  }

  lemma {:induction false} SortSorted(ps: seq<(nat, nat)>)
    requires EditCodec.SortedPairs(ps)
    ensures SortPairs(ps) == ps
  {
    if ps == [] {
    } else {
      var n := |ps| - 1;
      SortSorted(ps[..n]);
      assert n > 0 ==> EditCodec.PairBefore(ps[..n][n - 1], ps[n]);
      assert ps == ps[..n] + [ps[n]];
    }
  }

  lemma NormalEdits(base: seq<File>, level: nat, e: VersionEdit)
    ensures Edited(base, level, Normal(e)) == Edited(base, level, e)
  {
    SortPairsProperties(e.deletedFiles);
    assert DeletedIn(Normal(e), level) == DeletedIn(e, level);
  }

  lemma NormalWritable(n: Naming, disk: Disk, e: VersionEdit)
    requires Writable(n, disk, e)
    ensures Writable(n, disk, Normal(e)) && RecordOf(n, Normal(e)) == RecordOf(n, e) && LevelsInRange(Normal(e))
  {
    SortPairsProperties(e.deletedFiles);
    NormalTwice(e);
    hide EditCodec.EncodeItems, EditCodec.ItemsOf;
    assert WriteEdit(n, Normal(e)) == WriteEdit(n, e);
  }
}
