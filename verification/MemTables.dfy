// The memtable (db/memtable.cc): length-prefixed entries in a skip list.  An entry's key in the list
// is its place in the order that KeyComparator puts encoded entries in.
module MemTables {
  import opened Wrappers
  import opened Coding
  import opened DbFormat
  import opened Reads
  import opened SkipLists

  // ---------------------------------------------------------------------------- entries

  /** The buffer that Add fills. */
  function EncodeEntry(key: Bytes, s: SequenceNumber, t: ValueType, value: Bytes): Bytes {
    PutSlice(KeyBytes(key, s, t)) + PutSlice(value)
  }

  /** GetLengthPrefixedSlice of a well-formed buffer. */
  function Prefixed(b: Bytes): (Bytes, Bytes) {
    match GetSlice(b) case None => ([], []) case Some(r) => r
  }

  /** The user key and the packed trailer of an encoded internal key. */
  function Split(key: Bytes): (Bytes, nat) {
    if |key| < 8 then ([], 0) else (key[..|key| - 8], DecodeFixed(key[|key| - 8..]))
  }

  predicate Sized(key: Bytes, value: Bytes) {
    |key| + 8 < UINT32 && |value| < UINT32
  }

  /** What Add wrote is what the readers of a buffer find in it. */
  lemma EntryReadsBack(key: Bytes, s: SequenceNumber, t: ValueType, value: Bytes)
    requires Sized(key, value)
    ensures var buffer := EncodeEntry(key, s, t, value);
            && Prefixed(buffer) == (KeyBytes(key, s, t), PutSlice(value))
            && Prefixed(Prefixed(buffer).1) == (value, [])
            && Split(Prefixed(buffer).0) == (key, PackSequenceAndType(s, t))
  {
    hide GetSlice, PutSlice, EncodeFixed, DecodeFixed;
    SliceRoundTrip(KeyBytes(key, s, t), PutSlice(value));
    SliceRoundTrip(value, []);
    assert PutSlice(value) + [] == PutSlice(value);
    KeySplits(key, s, t);
  }

  lemma KeySplits(key: Bytes, s: SequenceNumber, t: ValueType)
    ensures Split(KeyBytes(key, s, t)) == (key, PackSequenceAndType(s, t))
  {
    hide EncodeFixed, DecodeFixed;
    var b, trailer := KeyBytes(key, s, t), PackSequenceAndType(s, t);
    Fixed64RoundTrip(trailer);
    assert b[|b| - 8..] == Fixed64(trailer) && b[..|b| - 8] == key;
  }

  // ------------------------------------------------------------------------------ order

  /** A number for a user key and a trailer: user keys up, trailers down. */
  function OrderAt(user: UserKey, trailer: nat): int {
    user * 0x1_0000_0000_0000_0000 + 0xFFFF_FFFF_FFFF_FFFF - trailer
  }

  function PlaceOf(rank: Ranking, buffer: Bytes): int {
    var (key, trailer) := Split(Prefixed(buffer).0);
    OrderAt(rank(key), trailer)
  }

  /** KeyComparator: the internal key comparison on two encoded entries. */
  function CompareEntries(rank: Ranking, a: Bytes, b: Bytes): int {
    var (akey, anum) := Split(Prefixed(a).0);
    var (bkey, bnum) := Split(Prefixed(b).0);
    if rank(akey) < rank(bkey) then -1
    else if rank(akey) > rank(bkey) then 1
    else if anum > bnum then -1 else if anum < bnum then 1 else 0
  }

  lemma PlacesOrder(u: UserKey, trailer: nat, u': UserKey, trailer': nat)
    requires trailer < UINT64 && trailer' < UINT64
    ensures OrderAt(u, trailer) < OrderAt(u', trailer') <==> u < u' || (u == u' && trailer > trailer')
  {
  }

  /** The skip list's order of places is the order KeyComparator gives to the entries. */
  lemma ComparatorAgrees(rank: Ranking, a: Bytes, b: Bytes)
    ensures CompareEntries(rank, a, b) < 0 <==> PlaceOf(rank, a) < PlaceOf(rank, b)
    ensures CompareEntries(rank, a, b) > 0 <==> PlaceOf(rank, a) > PlaceOf(rank, b)
  {
    hide OrderAt, Prefixed, DecodeFixed;
    var (akey, anum) := Split(Prefixed(a).0);
    var (bkey, bnum) := Split(Prefixed(b).0);
    SplitFits(Prefixed(a).0);
    SplitFits(Prefixed(b).0);
    PlacesOrder(rank(akey), anum, rank(bkey), bnum);
    PlacesOrder(rank(bkey), bnum, rank(akey), anum);
  }

  lemma SplitFits(key: Bytes)
    ensures Split(key).1 < UINT64
  {
    if |key| >= 8 {
      FixedBound(key[|key| - 8..]);
      Pow256Values();
    }
  }

  // ---------------------------------------------------------------------- what is stored

  /** The entry in a buffer. */
  function EntryIn(rank: Ranking, buffer: Bytes): Entry {
    var (key, trailer) := Split(Prefixed(buffer).0);
    Entry(InternalKey(rank(key), if trailer / 256 <= MAX_SEQUENCE then trailer / 256 else 0,
                      if trailer % 256 == 0 then Deletion else Value),
          Prefixed(Prefixed(buffer).1).0)
  }

  /** A buffer that Add has filled. */
  ghost predicate Filled(buffer: Bytes) {
    exists key, s: SequenceNumber, t, value :: Sized(key, value) && buffer == EncodeEntry(key, s, t, value)
  }

  lemma FilledMeans(rank: Ranking, buffer: Bytes)
    requires Filled(buffer)
    ensures var e, trailer := EntryIn(rank, buffer), Split(Prefixed(buffer).0).1;
            && trailer == PackSequenceAndType(e.key.sequence, e.key.kind)
            && trailer < UINT64 && trailer / 256 == e.key.sequence && trailer % 256 == TypeByte(e.key.kind)
            && e.key.user == rank(Split(Prefixed(buffer).0).0)
            && PlaceOf(rank, buffer) == OrderAt(e.key.user, trailer)
  {
    hide Prefixed, Split, EncodeEntry, OrderAt;
    var key, s: SequenceNumber, t, value :| Sized(key, value) && buffer == EncodeEntry(key, s, t, value);
    EntryReadsBack(key, s, t, value);
  }

  /** A visible entry is at or after the lookup key, and a newer one comes first. */
  lemma VisibleAfter(u: UserKey, s: SequenceNumber, k: InternalKey)
    ensures var seek := OrderAt(u, PackSequenceAndType(s, Value));
            OrderAt(k.user, PackSequenceAndType(k.sequence, k.kind)) >= seek
            <==> k.user > u || (k.user == u && k.sequence <= s)
  {
    PlacesOrder(k.user, PackSequenceAndType(k.sequence, k.kind), u, PackSequenceAndType(s, Value));
  }

  lemma EarlierIsNewer(k: InternalKey, k': InternalKey)
    requires OrderAt(k.user, PackSequenceAndType(k.sequence, k.kind)) <= OrderAt(k'.user,
               PackSequenceAndType(k'.sequence, k'.kind))
    ensures k.user < k'.user || (k.user == k'.user && k.sequence >= k'.sequence)
  {
    PlacesOrder(k'.user, PackSequenceAndType(k'.sequence, k'.kind), k.user, PackSequenceAndType(k.sequence, k.kind));
  }

  datatype Outcome = Hit(value: Bytes) | Deleted | Missing

  /** What a reader is told about the entry that answers it. */
  function Told(r: Option<Entry>): Outcome {
    match r
    case None => Missing
    case Some(e) => if e.key.kind.Value? then Hit(e.value) else Deleted
  }

  ghost predicate Indexed(rank: Ranking, buffers: map<int, Bytes>, keys: set<int>) {
    && buffers.Keys == keys
    && forall o | o in buffers :: Filled(buffers[o]) && PlaceOf(rank, buffers[o]) == o
  }

  ghost function Stored(rank: Ranking, buffers: map<int, Bytes>): set<Entry> {
    set o | o in buffers :: EntryIn(rank, buffers[o])
  }

  /** The first entry at or after the lookup key decides what the whole memtable has to say. */
  lemma SeekAnswers(rank: Ranking, buffers: map<int, Bytes>, u: UserKey, s: SequenceNumber, hit: Option<int>)
    requires Indexed(rank, buffers, buffers.Keys)
    requires var seek := OrderAt(u, PackSequenceAndType(s, Value));
             && (hit.Some? ==> hit.value in buffers && hit.value >= seek)
             && forall o | o in buffers && o >= seek :: hit.Some? && hit.value <= o
    ensures Answers(Stored(rank, buffers), u, s,
                    if hit.Some? && EntryIn(rank, buffers[hit.value]).key.user == u
                      then Some(EntryIn(rank, buffers[hit.value])) else None)
  {
    hide EntryIn, Filled, PlaceOf, OrderAt, PackSequenceAndType;
    forall o | o in buffers && Visible(EntryIn(rank, buffers[o]), u, s)
      ensures hit.Some?
      ensures var e := EntryIn(rank, buffers[hit.value]);
              e.key.user == u && e.key.sequence <= s && EntryIn(rank, buffers[o]).key.sequence <= e.key.sequence
    {
      var k := EntryIn(rank, buffers[o]).key;
      FilledMeans(rank, buffers[o]);
      VisibleAfter(u, s, k);
      var first := EntryIn(rank, buffers[hit.value]).key;
      FilledMeans(rank, buffers[hit.value]);
      EarlierIsNewer(first, k);
      VisibleAfter(u, s, first);
    }
    if hit.Some? {
      FilledMeans(rank, buffers[hit.value]);
      VisibleAfter(u, s, EntryIn(rank, buffers[hit.value]).key);
    }
  }

  lemma StoredGrows(rank: Ranking, buffers: map<int, Bytes>, o: int, buffer: Bytes)
    requires o !in buffers
    ensures Stored(rank, buffers[o := buffer]) == Stored(rank, buffers) + {EntryIn(rank, buffer)}
  {
    hide EntryIn;
    var more := buffers[o := buffer];
    assert forall p | p in buffers :: p in more && more[p] == buffers[p];
    assert o in more && more[o] == buffer;
  }

  class MemTable {
    const rank: Ranking
    const table: SkipList
    var buffers: map<int, Bytes>

    ghost predicate Valid()
      reads this, table
    {
      table.Valid() && Indexed(rank, buffers, Present(table.Sh(), table.chains))
    }

    ghost function Contents(): set<Entry>
      reads this
    {
      Stored(rank, buffers)
    }

    constructor (rank: Ranking)
      ensures Valid() && fresh(table) && Contents() == {} && this.rank == rank
    {
      this.rank := rank;
      table := new SkipList();
      buffers := map[];
    }

    /** MemTable::Add, of an internal key that is not there yet. */
    method Add(s: SequenceNumber, t: ValueType, key: Bytes, value: Bytes, height: nat)
      requires Valid() && Sized(key, value) && 1 <= height <= MAX_HEIGHT
      requires forall e | e in Contents() :: e.key != InternalKey(rank(key), s, t)
      modifies this, table
      ensures Valid()
      ensures Contents() == old(Contents()) + {Entry(InternalKey(rank(key), s, t), value)}
    {
      hide EncodeEntry, Prefixed, Split, OrderAt, Good, Present;
      var buffer := EncodeEntry(key, s, t, value);
      EntryReadsBack(key, s, t, value);
      assert Filled(buffer);
      FilledMeans(rank, buffer);
      assert EntryIn(rank, buffer) == Entry(InternalKey(rank(key), s, t), value);
      var o := PlaceOf(rank, buffer);
      assert forall p | p in buffers :: EntryIn(rank, buffers[p]) in Contents();
      if o in buffers {
        FilledMeans(rank, buffers[o]);
        SamePlace(EntryIn(rank, buffers[o]).key, InternalKey(rank(key), s, t));
      }
      StoredGrows(rank, buffers, o, buffer);
      table.Insert(o, height);
      buffers := buffers[o := buffer];
    }

    /** MemTable::Get: of all entries of the key that the snapshot may see, the newest decides. */
    method Get(key: Bytes, s: SequenceNumber) returns (r: Outcome)
      requires Valid() && |key| + 8 < UINT32
      ensures exists hit :: Answers(Contents(), rank(key), s, hit) && r == Told(hit)
    {
      hide EncodeEntry, Prefixed, Split, OrderAt, Good, Present, EntryIn, Filled, PlaceOf, Answers, SeekIndex;
      var iter := new Iterator(table);
      var seek := OrderAt(rank(key), PackSequenceAndType(s, Value));
      iter.Seek(seek);
      ghost var hit := if iter.node == NIL then None else Some(table.keys[iter.node]);
      SeekAnswers(rank, buffers, rank(key), s, hit);
      ghost var answer := if hit.Some? && EntryIn(rank, buffers[hit.value]).key.user == rank(key)
                          then Some(EntryIn(rank, buffers[hit.value])) else None;
      assert Answers(Contents(), rank(key), s, answer);
      if iter.node == NIL {
        return Missing;
      }
      var buffer := buffers[table.keys[iter.node]];
      FilledMeans(rank, buffer);
      var (found, after) := Prefixed(buffer);
      var (user, tag) := Split(found);
      ValueIn(rank, buffer);
      if rank(user) == rank(key) {
        if tag % 256 == 1 {
          return Hit(Prefixed(after).0);
        }
        return Deleted;
      }
      r := Missing;
    }
  }

  lemma ValueIn(rank: Ranking, buffer: Bytes)
    ensures EntryIn(rank, buffer).value == Prefixed(Prefixed(buffer).1).0
  {
  }

  lemma SamePlace(k: InternalKey, k': InternalKey)
    requires OrderAt(k.user, PackSequenceAndType(k.sequence, k.kind))
             == OrderAt(k'.user, PackSequenceAndType(k'.sequence, k'.kind))
    ensures k == k'
  {
    PlacesOrder(k.user, PackSequenceAndType(k.sequence, k.kind), k'.user, PackSequenceAndType(k'.sequence, k'.kind));
    PlacesOrder(k'.user, PackSequenceAndType(k'.sequence, k'.kind), k.user, PackSequenceAndType(k.sequence, k.kind));
  }
}
