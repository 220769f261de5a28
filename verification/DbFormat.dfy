// Internal keys (db/dbformat.h, db/dbformat.cc).
//
// A user key stands for its place in the order of the user's comparator.  The engine only ever
// compares user keys, so the integers lose nothing: any finite set of keys under any total
// order is order-isomorphic to a set of integers.
module DbFormat {
  import opened Coding

  type UserKey = int

  /** The place of a user key in the comparator's order. */
  type Ranking = Bytes -> UserKey

  /** One entry of a write batch, with its key as bytes or by its place. */
  datatype Operation<K> = Put(key: K, value: Bytes) | Delete(key: K)

  function Ranked(rank: Ranking, op: Operation<Bytes>): Operation<UserKey> {
    match op
    case Put(k, v) => Put(rank(k), v)
    case Delete(k) => Delete(rank(k))
  }

  datatype ValueType = Deletion | Value

  const MAX_SEQUENCE: nat := 0xFF_FFFF_FFFF_FFFF

  type SequenceNumber = n: nat | n <= MAX_SEQUENCE

  datatype InternalKey = InternalKey(user: UserKey, sequence: SequenceNumber, kind: ValueType)

  datatype Entry = Entry(key: InternalKey, value: Bytes)

  const NUM_LEVELS := 7

  function TypeByte(t: ValueType): (r: nat)
    ensures r < 256
  {
    match t case Deletion => 0 case Value => 1
  }

  function PackSequenceAndType(s: SequenceNumber, t: ValueType): (r: nat)
    ensures r < UINT64 && r / 256 == s && r % 256 == TypeByte(t)
  {
    s * 256 + TypeByte(t)
  }

  /** AppendInternalKey: the user key, and eight bytes of sequence number and type. */
  function KeyBytes(key: Bytes, s: SequenceNumber, t: ValueType): (r: Bytes)
    ensures |r| == |key| + 8
  {
    key + Fixed64(PackSequenceAndType(s, t))
  }

  /** The order of internal keys: user key up, then sequence down, then type down. */
  predicate Before(a: InternalKey, b: InternalKey) {
    || a.user < b.user
    || (a.user == b.user && a.sequence > b.sequence)
    || (a.user == b.user && a.sequence == b.sequence && a.kind.Value? && b.kind.Deletion?)
  }

  /** Three-way comparison, deciding ties on the packed 64-bit trailer. */
  function Compare(a: InternalKey, b: InternalKey): (r: int)
    ensures r < 0 <==> Before(a, b)
    ensures r > 0 <==> Before(b, a)
    ensures r == 0 <==> a == b
  {
    if a.user < b.user then -1
    else if a.user > b.user then 1
    else
      var anum := PackSequenceAndType(a.sequence, a.kind);
      var bnum := PackSequenceAndType(b.sequence, b.kind);
      if anum > bnum then -1 else if anum < bnum then 1 else 0
  }

  /** The key to seek to when reading user at snapshot s (LookupKey, kValueTypeForSeek). */
  function LookupKey(user: UserKey, s: SequenceNumber): InternalKey {
    InternalKey(user, s, Value)
  }

  /** Entries at or after the lookup key are exactly those of later users and the visible ones. */
  lemma LookupKeySplits(k: InternalKey, user: UserKey, s: SequenceNumber)
    ensures !Before(k, LookupKey(user, s)) <==> k.user > user || (k.user == user && k.sequence <= s)
  {
  }

  /** Before, for keys that also differ in user key or sequence number. */
  predicate Precedes(a: InternalKey, b: InternalKey) {
    a.user < b.user || (a.user == b.user && a.sequence > b.sequence)
  }

  /** A sorted run: every entry of a user key has its own sequence number. */
  ghost predicate Sorted(es: seq<Entry>) {
    forall i, j | 0 <= i < j < |es| :: Precedes(es[i].key, es[j].key)
  }
}
