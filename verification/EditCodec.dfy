// db/version_edit.cc: the byte form of a version edit.  Internal keys are byte strings here, as
// they are in the source: decoding does not look into them.
module EditCodec {
  import opened Wrappers
  import opened Seqs
  import opened Coding
  import opened DbFormat

  const COMPARATOR := 1
  const LOG_NUMBER := 2
  const NEXT_FILE_NUMBER := 3
  const LAST_SEQUENCE := 4
  const COMPACT_POINTER := 5
  const DELETED_FILE := 6
  const NEW_FILE := 7
  const PREV_LOG_NUMBER := 9

  datatype Meta = Meta(number: nat, fileSize: nat, smallest: Bytes, largest: Bytes)

  /** The fields of an edit; an absent number or name is one whose has_ flag is off. */
  datatype Edit = Edit(
    comparator: Option<Bytes>,
    logNumber: Option<nat>,
    prevLogNumber: Option<nat>,
    nextFileNumber: Option<nat>,
    lastSequence: Option<nat>,
    compactPointers: seq<(nat, Bytes)>,
    deletedFiles: seq<(nat, nat)>,
    newFiles: seq<(nat, Meta)>)

  const FRESH := Edit(None, None, None, None, None, [], [], [])

  datatype DecodeStatus = Ok | Corruption(message: string)

  // ------------------------------------------------------------ the set of deleted files

  predicate PairBefore(a: (nat, nat), b: (nat, nat)) {
    a.0 < b.0 || (a.0 == b.0 && a.1 < b.1)
  }

  /** std::set iterates in order and holds no pair twice. */
  ghost predicate SortedPairs(s: seq<(nat, nat)>) {
    forall i, j | 0 <= i < j < |s| :: PairBefore(s[i], s[j])
  }

  /** std::set insertion. */
  function InsertPair(s: seq<(nat, nat)>, p: (nat, nat)): seq<(nat, nat)> {
    if s == [] then [p]
    else
      var n := |s| - 1;
      if PairBefore(s[n], p) then s + [p]
      else if s[n] == p then s
      else InsertPair(s[..n], p) + [s[n]]
  }

  lemma {:induction false} InsertPairProperties(s: seq<(nat, nat)>, p: (nat, nat))
    requires SortedPairs(s)
    ensures SortedPairs(InsertPair(s, p))
    ensures forall q :: q in InsertPair(s, p) <==> q in s || q == p
  {
    if s == [] {
    } else {
      var n := |s| - 1;
      if !PairBefore(s[n], p) && s[n] != p {
        InsertPairProperties(s[..n], p);
        var front := InsertPair(s[..n], p);
        assert forall q :: q in s <==> q in s[..n] || q == s[n];
        forall i | 0 <= i < |front|
          ensures PairBefore(front[i], s[n])
        {
          assert front[i] in front;
        }
      }
    }
  }

  // ---------------------------------------------------------------- one field at a time

  datatype Item =
    | Comparator(name: Bytes)
    | LogNumber(n: nat)
    | PrevLogNumber(n: nat)
    | NextFile(n: nat)
    | LastSequence(n: nat)
    | CompactPointer(level: nat, key: Bytes)
    | DeletedFile(level: nat, n: nat)
    | NewFile(level: nat, meta: Meta)

  /** What the source can write without losing bits: 64-bit numbers, 32-bit lengths, known levels. */
  predicate EncodableItem(item: Item) {
    match item
    case Comparator(name) => |name| < UINT32
    case CompactPointer(level, key) => level < NUM_LEVELS && |key| < UINT32
    case DeletedFile(level, n) => level < NUM_LEVELS && n < UINT64
    case NewFile(level, m) =>
      && level < NUM_LEVELS && m.number < UINT64 && m.fileSize < UINT64
      && |m.smallest| < UINT32 && |m.largest| < UINT32
    case _ => item.n < UINT64
  }

  function EncodeMeta(m: Meta): Bytes {
    EncodeVarint(m.number) + (EncodeVarint(m.fileSize) + (PutSlice(m.smallest) + PutSlice(m.largest)))
  }

  function Tag(item: Item): nat {
    match item
    case Comparator(_) => COMPARATOR
    case LogNumber(_) => LOG_NUMBER
    case PrevLogNumber(_) => PREV_LOG_NUMBER
    case NextFile(_) => NEXT_FILE_NUMBER
    case LastSequence(_) => LAST_SEQUENCE
    case CompactPointer(_, _) => COMPACT_POINTER
    case DeletedFile(_, _) => DELETED_FILE
    case NewFile(_, _) => NEW_FILE
  }

  function EncodeBody(item: Item): Bytes {
    match item
    case Comparator(name) => PutSlice(name)
    case CompactPointer(level, key) => EncodeVarint(level) + PutSlice(key)
    case DeletedFile(level, n) => EncodeVarint(level) + EncodeVarint(n)
    case NewFile(level, m) => EncodeVarint(level) + EncodeMeta(m)
    case _ => EncodeVarint(item.n)
  }

  function EncodeItem(item: Item): (r: Bytes)
    ensures r != []
  {
    EncodeVarint(Tag(item)) + EncodeBody(item)
  }

  function EncodeItems(items: seq<Item>): Bytes {
    if items == [] then [] else EncodeItem(items[0]) + EncodeItems(items[1..])
  }

  /** Levels are read back only if they exist. */
  function GetLevel(input: Bytes): (r: Option<(nat, Bytes)>)
    ensures r.Some? ==> |r.value.1| < |input| && r.value.0 < NUM_LEVELS
  {
    match GetVarint32(input)
    case None => None
    case Some((v, rest)) => if v < NUM_LEVELS then Some((v, rest)) else None
  }

  function GetMeta(input: Bytes): (r: Option<(Meta, Bytes)>)
    ensures r.Some? ==> |r.value.1| < |input|
  {
    match GetVarint64(input)
    case None => None
    case Some((number, rest)) =>
      match GetVarint64(rest)
      case None => None
      case Some((size, rest)) =>
        match GetSlice(rest)
        case None => None
        case Some((smallest, rest)) =>
          match GetSlice(rest)
          case None => None
          case Some((largest, rest)) => Some((Meta(number, size, smallest, largest), rest))
  }

  datatype Parsed = Parsed(item: Item, rest: Bytes) | Failed(message: string)

  /** What follows the tag of a field. */
  function ReadBody(tag: nat, input: Bytes): (r: Parsed)
    ensures r.Parsed? ==> |r.rest| < |input|
  {
    if tag == COMPARATOR then
      match GetSlice(input) case None => Failed("comparator name")
        case Some((name, rest)) => Parsed(Comparator(name), rest)
    else if tag == LOG_NUMBER then
      match GetVarint64(input) case None => Failed("log number") case Some((n, rest)) => Parsed(LogNumber(n), rest)
    else if tag == PREV_LOG_NUMBER then
      match GetVarint64(input) case None => Failed("previous log number")
        case Some((n, rest)) => Parsed(PrevLogNumber(n), rest)
    else if tag == NEXT_FILE_NUMBER then
      match GetVarint64(input) case None => Failed("next file number") case Some((n, rest)) => Parsed(NextFile(n), rest)
    else if tag == LAST_SEQUENCE then
      match GetVarint64(input) case None => Failed("last sequence number")
        case Some((n, rest)) => Parsed(LastSequence(n), rest)
    else if tag == COMPACT_POINTER then
      match GetLevel(input)
      case None => Failed("compaction pointer")
      case Some((level, rest)) =>
        match GetSlice(rest) case None => Failed("compaction pointer")
          case Some((key, rest)) => Parsed(CompactPointer(level, key), rest)
    else if tag == DELETED_FILE then
      match GetLevel(input)
      case None => Failed("deleted file")
      case Some((level, rest)) =>
        match GetVarint64(rest) case None => Failed("deleted file")
          case Some((n, rest)) => Parsed(DeletedFile(level, n), rest)
    else if tag == NEW_FILE then
      match GetLevel(input)
      case None => Failed("new-file entry")
      case Some((level, rest)) =>
        match GetMeta(rest) case None => Failed("new-file entry")
          case Some((m, rest)) => Parsed(NewFile(level, m), rest)
    else Failed("unknown tag")
  }

  /** The fields of a record up to the first bad one, and how decoding ends. */
  function ParseItems(input: Bytes): (r: (seq<Item>, DecodeStatus))
    decreases |input|
  {
    match GetVarint32(input)
    case None => ([], if input == [] then Ok else Corruption("invalid tag"))
    case Some((tag, rest)) =>
      match ReadBody(tag, rest)
      case Failed(message) => ([], Corruption(message))
      case Parsed(item, rest) =>
        var (items, status) := ParseItems(rest);
        ([item] + items, status)
  }

  lemma MetaRoundTrip(m: Meta, rest: Bytes)
    requires EncodableItem(NewFile(0, m))
    ensures GetMeta(EncodeMeta(m) + rest) == Some((m, rest))
  {
    hide EncodeVarint, GetVarint64, PutSlice, GetSlice;
    var a, b, c, d := EncodeVarint(m.number), EncodeVarint(m.fileSize), PutSlice(m.smallest), PutSlice(m.largest);
    assert (a + (b + (c + d))) + rest == a + (b + (c + (d + rest)));
    Varint64RoundTrip(m.number, b + (c + (d + rest)));
    Varint64RoundTrip(m.fileSize, c + (d + rest));
    SliceRoundTrip(m.smallest, d + rest);
    SliceRoundTrip(m.largest, rest);
  }

  lemma BodyRoundTrip(item: Item, rest: Bytes)
    requires EncodableItem(item)
    ensures ReadBody(Tag(item), EncodeBody(item) + rest) == Parsed(item, rest)
  {
    hide EncodeVarint, GetVarint64, GetVarint32, PutSlice, GetSlice, EncodeMeta, GetMeta;
    match item {
      case Comparator(name) => SliceRoundTrip(name, rest);
      case CompactPointer(level, key) =>
        assert (EncodeVarint(level) + PutSlice(key)) + rest == EncodeVarint(level) + (PutSlice(key) + rest);
        Varint32RoundTrip(level, PutSlice(key) + rest);
        SliceRoundTrip(key, rest);
      case DeletedFile(level, n) =>
        assert (EncodeVarint(level) + EncodeVarint(n)) + rest == EncodeVarint(level) + (EncodeVarint(n) + rest);
        Varint32RoundTrip(level, EncodeVarint(n) + rest);
        Varint64RoundTrip(n, rest);
      case NewFile(level, m) =>
        assert (EncodeVarint(level) + EncodeMeta(m)) + rest == EncodeVarint(level) + (EncodeMeta(m) + rest);
        Varint32RoundTrip(level, EncodeMeta(m) + rest);
        MetaRoundTrip(m, rest);
      case _ => Varint64RoundTrip(item.n, rest);
    }
  }

  lemma {:induction false} ItemsRoundTrip(items: seq<Item>)
    requires forall i | 0 <= i < |items| :: EncodableItem(items[i])
    ensures ParseItems(EncodeItems(items)) == (items, Ok)
  {
    hide EncodeVarint, GetVarint32, EncodeBody, ReadBody, EncodableItem;
    if items == [] {
      NoVarint();
    } else {
      var item, later := items[0], EncodeItems(items[1..]);
      assert EncodeItems(items) == EncodeVarint(Tag(item)) + (EncodeBody(item) + later);
      Varint32RoundTrip(Tag(item), EncodeBody(item) + later);
      BodyRoundTrip(item, later);
      ItemsRoundTrip(items[1..]);
      assert [item] + items[1..] == items;
    }
  }

  lemma NoVarint()
    ensures GetVarint32([]) == None
  {
  }

  // ------------------------------------------------------------------ edits and fields

  function NameItems(o: Option<Bytes>): (r: seq<Item>)
    ensures |r| <= 1
  {
    match o case None => [] case Some(name) => [Comparator(name)]
  }

  function NumberItem(tag: nat, n: nat): Item {
    if tag == LOG_NUMBER then LogNumber(n)
    else if tag == PREV_LOG_NUMBER then PrevLogNumber(n)
    else if tag == NEXT_FILE_NUMBER then NextFile(n)
    else LastSequence(n)
  }

  function NumberItems(tag: nat, o: Option<nat>): (r: seq<Item>)
    ensures |r| <= 1
  {
    match o case None => [] case Some(n) => [NumberItem(tag, n)]
  }

  function PointerItems(ps: seq<(nat, Bytes)>): (r: seq<Item>)
    ensures |r| == |ps|
  {
    seq(|ps|, i requires 0 <= i < |ps| => CompactPointer(ps[i].0, ps[i].1))
  }

  function DeletedItems(ds: seq<(nat, nat)>): (r: seq<Item>)
    ensures |r| == |ds|
  {
    seq(|ds|, i requires 0 <= i < |ds| => DeletedFile(ds[i].0, ds[i].1))
  }

  function NewItems(fs: seq<(nat, Meta)>): (r: seq<Item>)
    ensures |r| == |fs|
  {
    seq(|fs|, i requires 0 <= i < |fs| => NewFile(fs[i].0, fs[i].1))
  }

  function HeadItems(e: Edit): seq<Item> {
    NameItems(e.comparator)
    + NumberItems(LOG_NUMBER, e.logNumber)
    + NumberItems(PREV_LOG_NUMBER, e.prevLogNumber)
    + NumberItems(NEXT_FILE_NUMBER, e.nextFileNumber)
    + NumberItems(LAST_SEQUENCE, e.lastSequence)
  }

  /** The fields of an edit in the order EncodeTo writes them. */
  function ItemsOf(e: Edit): seq<Item> {
    HeadItems(e) + PointerItems(e.compactPointers) + DeletedItems(e.deletedFiles) + NewItems(e.newFiles)
  }

  /** One round of the loop of DecodeFrom, once its field is read. */
  function ApplyItem(e: Edit, item: Item): Edit {
    match item
    case Comparator(name) => e.(comparator := Some(name))
    case LogNumber(n) => e.(logNumber := Some(n))
    case PrevLogNumber(n) => e.(prevLogNumber := Some(n))
    case NextFile(n) => e.(nextFileNumber := Some(n))
    case LastSequence(n) => e.(lastSequence := Some(n))
    case CompactPointer(level, key) => e.(compactPointers := e.compactPointers + [(level, key)])
    case DeletedFile(level, n) => e.(deletedFiles := InsertPair(e.deletedFiles, (level, n)))
    case NewFile(level, m) => e.(newFiles := e.newFiles + [(level, m)])
  }

  function Assemble(e: Edit, items: seq<Item>): Edit {
    if items == [] then e else ApplyItem(Assemble(e, items[..|items| - 1]), items[|items| - 1])
  }

  /** VersionEdit::Clear forgets everything but the compaction pointers. */
  function Cleared(e: Edit): Edit {
    FRESH.(compactPointers := e.compactPointers)
  }

  ghost predicate Encodable(e: Edit) {
    && SortedPairs(e.deletedFiles)
    && forall i | 0 <= i < |ItemsOf(e)| :: EncodableItem(ItemsOf(e)[i])
  }

  lemma {:induction false} AssembleConcat(e: Edit, a: seq<Item>, b: seq<Item>)
    ensures Assemble(e, a + b) == Assemble(Assemble(e, a), b)
  {
    if b == [] {
      assert a + b == a;
    } else {
      AssembleConcat(e, a, b[..|b| - 1]);
      assert (a + b)[..|a + b| - 1] == a + b[..|b| - 1];
    }
  }

  lemma {:induction false} AssemblePointers(e: Edit, ps: seq<(nat, Bytes)>)
    ensures Assemble(e, PointerItems(ps)) == e.(compactPointers := e.compactPointers + ps)
  {
    if ps == [] {
      assert e.compactPointers + ps == e.compactPointers;
    } else {
      var n := |ps| - 1;
      AssemblePointers(e, ps[..n]);
      assert PointerItems(ps)[..n] == PointerItems(ps[..n]);
      assert e.compactPointers + ps == (e.compactPointers + ps[..n]) + [ps[n]];
    }
  }

  lemma {:induction false} AssembleDeleted(e: Edit, ds: seq<(nat, nat)>)
    requires e.deletedFiles == [] && SortedPairs(ds)
    ensures Assemble(e, DeletedItems(ds)) == e.(deletedFiles := ds)
  {
    if ds == [] {
    } else {
      var n := |ds| - 1;
      AssembleDeleted(e, ds[..n]);
      assert DeletedItems(ds)[..n] == DeletedItems(ds[..n]);
      assert ds == ds[..n] + [ds[n]];
      assert n > 0 ==> PairBefore(ds[..n][n - 1], ds[n]);
    }
  }

  lemma {:induction false} AssembleNew(e: Edit, fs: seq<(nat, Meta)>)
    ensures Assemble(e, NewItems(fs)) == e.(newFiles := e.newFiles + fs)
  {
    if fs == [] {
      assert e.newFiles + fs == e.newFiles;
    } else {
      var n := |fs| - 1;
      AssembleNew(e, fs[..n]);
      assert NewItems(fs)[..n] == NewItems(fs[..n]);
      assert e.newFiles + fs == (e.newFiles + fs[..n]) + [fs[n]];
    }
  }

  lemma AssembleHead(e: Edit, pointers: seq<(nat, Bytes)>)
    ensures Assemble(FRESH.(compactPointers := pointers), HeadItems(e))
            == Edit(e.comparator, e.logNumber, e.prevLogNumber, e.nextFileNumber, e.lastSequence, pointers, [], [])
  {
    hide Assemble;
    var e0 := FRESH.(compactPointers := pointers);
    var a := NameItems(e.comparator);
    var b := NumberItems(LOG_NUMBER, e.logNumber);
    var c := NumberItems(PREV_LOG_NUMBER, e.prevLogNumber);
    var d := NumberItems(NEXT_FILE_NUMBER, e.nextFileNumber);
    var f := NumberItems(LAST_SEQUENCE, e.lastSequence);
    AssembleConcat(e0, a + b + c + d, f);
    AssembleConcat(e0, a + b + c, d);
    AssembleConcat(e0, a + b, c);
    AssembleConcat(e0, a, b);
    AssembleOne(e0, a);
    AssembleOne(Assemble(e0, a), b);
    AssembleOne(Assemble(e0, a + b), c);
    AssembleOne(Assemble(e0, a + b + c), d);
    AssembleOne(Assemble(e0, a + b + c + d), f);
  }

  lemma AssembleOne(e: Edit, items: seq<Item>)
    requires |items| <= 1
    ensures Assemble(e, items) == if items == [] then e else ApplyItem(e, items[0])
  {
    if |items| == 1 {
      assert items[..0] == [];
    }
  }

  /** Putting the fields of an edit into a cleared object restores the edit, after the compaction
      pointers that Clear has left in the object. */
  lemma AssembleRestores(e: Edit, pointers: seq<(nat, Bytes)>)
    requires SortedPairs(e.deletedFiles)
    ensures Assemble(FRESH.(compactPointers := pointers), ItemsOf(e))
            == e.(compactPointers := pointers + e.compactPointers)
  {
    hide Assemble, HeadItems, PointerItems, DeletedItems, NewItems, SortedPairs;
    var e0 := FRESH.(compactPointers := pointers);
    var a, b, c, d := HeadItems(e), PointerItems(e.compactPointers), DeletedItems(e.deletedFiles), NewItems(e.newFiles);
    AssembleConcat(e0, a + b + c, d);
    AssembleConcat(e0, a + b, c);
    AssembleConcat(e0, a, b);
    AssembleHead(e, pointers);
    AssemblePointers(Assemble(e0, a), e.compactPointers);
    AssembleDeleted(Assemble(e0, a + b), e.deletedFiles);
    AssembleNew(Assemble(e0, a + b + c), e.newFiles);
    NothingBefore(e.newFiles);
  }

  // ------------------------------------------------------------------------- the class

  class VersionEdit {
    var fields: Edit

    constructor ()
      ensures fields == FRESH
    {
      fields := FRESH;
    }

    /** The compaction pointers stay. */
    method Clear()
      modifies this
      ensures fields == FRESH.(compactPointers := old(fields.compactPointers))
    {
      fields := Edit(None, None, None, None, None, fields.compactPointers, [], []);
    }

    /** The record says, in order, exactly the fields of the edit. */
    method EncodeTo() returns (dst: Bytes)
      ensures dst == EncodeItems(ItemsOf(fields))
      ensures Encodable(fields) ==> ParseItems(dst) == (ItemsOf(fields), Ok)
    {
      hide EncodeItem, EncodeItems, ParseItems, HeadItems, PointerItems, DeletedItems, NewItems;
      dst := EncodeHead(fields);
      ghost var head := HeadItems(fields);
      var pointers, deleted, files := fields.compactPointers, fields.deletedFiles, fields.newFiles;
      ghost var ps, ds, fs := PointerItems(pointers), DeletedItems(deleted), NewItems(files);
      assert head + ps[..0] == head;
      for i := 0 to |pointers|
        invariant dst == EncodeItems(head + ps[..i])
      {
        PointerItemAt(pointers, i);
        EncodeNext(head, ps, i);
        dst := dst + EncodeItem(CompactPointer(pointers[i].0, pointers[i].1));
      }
      assert ps[..|ps|] == ps && head + ps + ds[..0] == head + ps;
      for i := 0 to |deleted|
        invariant dst == EncodeItems(head + ps + ds[..i])
      {
        DeletedItemAt(deleted, i);
        EncodeNext(head + ps, ds, i);
        dst := dst + EncodeItem(DeletedFile(deleted[i].0, deleted[i].1));
      }
      assert ds[..|ds|] == ds && head + ps + ds + fs[..0] == head + ps + ds;
      for i := 0 to |files|
        invariant dst == EncodeItems(head + ps + ds + fs[..i])
      {
        NewItemAt(files, i);
        EncodeNext(head + ps + ds, fs, i);
        dst := dst + EncodeItem(NewFile(files[i].0, files[i].1));
      }
      assert fs[..|fs|] == fs;
      if Encodable(fields) {
        ItemsRoundTrip(ItemsOf(fields));
      }
    }

    /** Decoding puts the fields of the record, up to the first bad one, into the cleared object.
        A record that EncodeTo made of an edit gives back that edit, behind the compaction
        pointers the object had before. */
    method DecodeFrom(src: Bytes) returns (status: DecodeStatus)
      modifies this
      ensures status == ParseItems(src).1
      ensures fields == Assemble(Cleared(old(fields)), ParseItems(src).0)
      ensures forall e | Encodable(e) && src == EncodeItems(ItemsOf(e)) ::
                status == Ok && fields == e.(compactPointers := old(fields.compactPointers) + e.compactPointers)
    {
      hide ReadBody, GetVarint32, EncodeItems, ItemsOf, Encodable, ParseItems, Assemble;
      Clear();
      ghost var start, parsed: seq<Item> := fields, [];
      var input := src;
      AssembleOne(start, []);
      NothingBefore(ParseItems(input).0);
      while true
        invariant ParseItems(src) == (parsed + ParseItems(input).0, ParseItems(input).1)
        invariant fields == Assemble(start, parsed)
        decreases |input|
      {
        ParseStep(input);
        ghost var more := ParseItems(input).0;
        match GetVarint32(input) {
          case None =>
            status := if input == [] then Ok else Corruption("invalid tag");
            break;
          case Some((tag, rest)) =>
            match ReadBody(tag, rest) {
              case Failed(message) =>
                status := Corruption(message);
                break;
              case Parsed(item, rest') =>
                AssembleNext(start, parsed, item);
                fields := ApplyItem(fields, item);
                NextParsed(parsed, item, ParseItems(rest').0);
                parsed := parsed + [item];
                input := rest';
            }
        }
      }
      assert parsed + [] == parsed;
      DecodeRestores(src, old(fields));
    }
  }

  /** Reading an edit back into an object restores it exactly when the object had no compaction
      pointers of its own, as a freshly constructed one has none. */
  lemma FreshObjectRestores(e: Edit, used: Edit)
    requires Encodable(e)
    ensures Assemble(Cleared(used), ParseItems(EncodeItems(ItemsOf(e))).0) == e <==> used.compactPointers == []
  {
    hide Assemble, ParseItems, EncodeItems, ItemsOf;
    DecodeRestores(EncodeItems(ItemsOf(e)), used);
    var restored := e.(compactPointers := used.compactPointers + e.compactPointers);
    NothingBefore(e.compactPointers);
    assert |restored.compactPointers| == |used.compactPointers| + |e.compactPointers|;
  }

  lemma DecodeRestores(src: Bytes, used: Edit)
    ensures forall e | Encodable(e) && src == EncodeItems(ItemsOf(e)) ::
              && ParseItems(src).1 == Ok
              && Assemble(Cleared(used), ParseItems(src).0)
                 == e.(compactPointers := used.compactPointers + e.compactPointers)
  {
    hide EncodeItems, ItemsOf, ParseItems, Assemble;
    forall e | Encodable(e) && src == EncodeItems(ItemsOf(e))
      ensures ParseItems(src).1 == Ok
      ensures Assemble(Cleared(used), ParseItems(src).0)
              == e.(compactPointers := used.compactPointers + e.compactPointers)
    {
      ItemsRoundTrip(ItemsOf(e));
      AssembleRestores(e, used.compactPointers);
    }
  }

  lemma ParseStep(input: Bytes)
    ensures ParseItems(input) == match GetVarint32(input)
                                 case None => ([], if input == [] then Ok else Corruption("invalid tag"))
                                 case Some((tag, rest)) =>
                                   match ReadBody(tag, rest)
                                   case Failed(message) => ([], Corruption(message))
                                   case Parsed(item, rest) =>
                                     ([item] + ParseItems(rest).0, ParseItems(rest).1)
  {
    hide GetVarint32, ReadBody;
  }

  lemma NextParsed(parsed: seq<Item>, item: Item, rest: seq<Item>)
    ensures parsed + ([item] + rest) == (parsed + [item]) + rest
  {
  }

  lemma AssembleNext(e: Edit, items: seq<Item>, item: Item)
    ensures Assemble(e, items + [item]) == ApplyItem(Assemble(e, items), item)
  {
    assert (items + [item])[..|items|] == items;
  }

  lemma {:induction false} EncodeItemsConcat(a: seq<Item>, b: seq<Item>)
    ensures EncodeItems(a + b) == EncodeItems(a) + EncodeItems(b)
  {
    hide EncodeItem;
    if a == [] {
      assert a + b == b;
    } else {
      EncodeItemsConcat(a[1..], b);
      assert (a + b)[1..] == a[1..] + b;
    }
  }

  lemma EncodeOne(item: Item)
    ensures EncodeItems([item]) == EncodeItem(item)
  {
    hide EncodeItem;
    assert EncodeItems([item][1..]) == [];
  }

  lemma EncodeNext(before: seq<Item>, items: seq<Item>, i: nat)
    requires i < |items|
    ensures EncodeItems(before + items[..i + 1]) == EncodeItems(before + items[..i]) + EncodeItem(items[i])
  {
    hide EncodeItem, EncodeItems;
    EncodeOne(items[i]);
    EncodeItemsConcat(before + items[..i], [items[i]]);
    assert before + items[..i + 1] == (before + items[..i]) + [items[i]];
  }

  lemma PointerItemAt(ps: seq<(nat, Bytes)>, i: nat)
    requires i < |ps|
    ensures PointerItems(ps)[i] == CompactPointer(ps[i].0, ps[i].1)
  {
  }

  lemma DeletedItemAt(ds: seq<(nat, nat)>, i: nat)
    requires i < |ds|
    ensures DeletedItems(ds)[i] == DeletedFile(ds[i].0, ds[i].1)
  {
  }

  lemma NewItemAt(fs: seq<(nat, Meta)>, i: nat)
    requires i < |fs|
    ensures NewItems(fs)[i] == NewFile(fs[i].0, fs[i].1)
  {
  }

  /** The optional fields of an edit, each written if it is set. */
  method EncodeHead(e: Edit) returns (dst: Bytes)
    ensures dst == EncodeItems(HeadItems(e))
  {
    hide EncodeItem, EncodeItems;
    ghost var written: seq<Item> := [];
    dst := [];
    NoItems();
    if e.comparator.Some? {
      dst, written := WriteItem(dst, written, Comparator(e.comparator.value));
    }
    assert written == NameItems(e.comparator);
    if e.logNumber.Some? {
      dst, written := WriteItem(dst, written, LogNumber(e.logNumber.value));
    }
    assert written == NameItems(e.comparator) + NumberItems(LOG_NUMBER, e.logNumber);
    ghost var some := written;
    if e.prevLogNumber.Some? {
      dst, written := WriteItem(dst, written, PrevLogNumber(e.prevLogNumber.value));
    }
    assert written == some + NumberItems(PREV_LOG_NUMBER, e.prevLogNumber);
    some := written;
    if e.nextFileNumber.Some? {
      dst, written := WriteItem(dst, written, NextFile(e.nextFileNumber.value));
    }
    assert written == some + NumberItems(NEXT_FILE_NUMBER, e.nextFileNumber);
    some := written;
    if e.lastSequence.Some? {
      dst, written := WriteItem(dst, written, LastSequence(e.lastSequence.value));
    }
    assert written == some + NumberItems(LAST_SEQUENCE, e.lastSequence);
  }

  lemma NoItems()
    ensures EncodeItems([]) == []
  {
  }

  method WriteItem(dst: Bytes, ghost written: seq<Item>, item: Item) returns (dst': Bytes, ghost written': seq<Item>)
    requires dst == EncodeItems(written)
    ensures written' == written + [item] && dst' == EncodeItems(written')
  {
    hide EncodeItem, EncodeItems;
    EncodeOne(item);
    EncodeItemsConcat(written, [item]);
    dst', written' := dst + EncodeItem(item), written + [item];
  }
}
