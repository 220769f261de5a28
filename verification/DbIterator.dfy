// The user-level iterator (db/db_iter.cc).
//
// DBIter walks the merged entries of memtables and tables, where one user key may have many
// versions.  It must look like a cursor over the list of user keys that are live at its sequence
// number, in both directions and through every change of direction.
module DbIterator {
  import opened Wrappers
  import opened Coding
  import opened DbFormat
  import opened Reads
  import opened Tables

  // -------------------------------------------------------------------- the live keys

  /** Entry i may be seen at snapshot s. */
  ghost predicate Seen(es: seq<Entry>, s: nat, i: int) {
    0 <= i < |es| && es[i].key.sequence <= s
  }

  /** Entry i is what its user key reads as at snapshot s: the first visible one, and a value. */
  ghost predicate Live(es: seq<Entry>, s: nat, i: int) {
    && Seen(es, s, i) && es[i].key.kind.Value?
    && forall j | 0 <= j < i && Seen(es, s, j) :: es[j].key.user != es[i].key.user
  }

  /** The live keys among the first n entries, with their values. */
  ghost function LiveList(es: seq<Entry>, s: nat, n: nat): seq<(UserKey, Bytes)>
    requires n <= |es|
  {
    if n == 0 then []
    else LiveList(es, s, n - 1) + if Live(es, s, n - 1) then [(es[n - 1].key.user, es[n - 1].value)] else []
  }

  ghost predicate NoneLive(es: seq<Entry>, s: nat, lo: int, hi: int) {
    forall i | lo <= i < hi :: !Live(es, s, i)
  }

  lemma {:induction false} NoneLiveSameList(es: seq<Entry>, s: nat, m: nat, n: nat)
    requires m <= n <= |es| && NoneLive(es, s, m, n)
    ensures LiveList(es, s, m) == LiveList(es, s, n)
  {
    if m < n {
      NoneLiveSameList(es, s, m, n - 1);
    }
  }

  lemma {:induction false} LiveListGrows(es: seq<Entry>, s: nat, m: nat, n: nat)
    requires m <= n <= |es|
    ensures LiveList(es, s, m) <= LiveList(es, s, n)
  {
    if m < n {
      LiveListGrows(es, s, m, n - 1);
    }
  }

  /** A live entry sits in the list right after the live entries before it. */
  lemma LivePosition(es: seq<Entry>, s: nat, i: nat)
    requires i < |es| && Live(es, s, i)
    ensures |LiveList(es, s, i)| < |LiveList(es, s, |es|)|
    ensures LiveList(es, s, |es|)[|LiveList(es, s, i)|] == (es[i].key.user, es[i].value)
  {
    LiveListGrows(es, s, i + 1, |es|);
    assert LiveList(es, s, i + 1) == LiveList(es, s, i) + [(es[i].key.user, es[i].value)];
    assert LiveList(es, s, i + 1)[|LiveList(es, s, i)|] == (es[i].key.user, es[i].value);
  }

  lemma {:induction false} LiveListMembers(es: seq<Entry>, s: nat, n: nat)
    requires n <= |es|
    ensures forall p :: p in LiveList(es, s, n)
                        <==> exists i :: 0 <= i < n && Live(es, s, i) && p == (es[i].key.user, es[i].value)
  {
    if n == 0 {
    } else {
      LiveListMembers(es, s, n - 1);
    }
  }

  /** The live list is exactly what point reads find: a user key is in it with a value if and only
      if reading the key at the snapshot returns that value. */
  lemma LiveListIsReads(es: seq<Entry>, s: nat, u: UserKey, v: Bytes)
    requires Sorted(es)
    ensures (u, v) in LiveList(es, s, |es|) <==> Lookup(Members(es), u, s) == Some(v)
  {
    hide *;
    LiveListMembers(es, s, |es|);
    if (u, v) in LiveList(es, s, |es|) {
      var i :| 0 <= i < |es| && Live(es, s, i) && (u, v) == (es[i].key.user, es[i].value);
      LiveIsRead(es, s, i);
    }
    if Lookup(Members(es), u, s) == Some(v) {
      var i := ReadIsLive(es, s, u, v);
    }
  }

  lemma LiveIsRead(es: seq<Entry>, s: nat, i: nat)
    requires Sorted(es) && i < |es| && Live(es, s, i)
    ensures Lookup(Members(es), es[i].key.user, s) == Some(es[i].value)
  {
    SortedIsUnique(es);
    FirstSeenIsNewest(es, s, i);
    LookupIs(Members(es), es[i].key.user, s, Some(es[i]));
  }

  lemma ReadIsLive(es: seq<Entry>, s: nat, u: UserKey, v: Bytes) returns (i: nat)
    requires Sorted(es) && Lookup(Members(es), u, s) == Some(v)
    ensures i < |es| && Live(es, s, i) && es[i].key.user == u && es[i].value == v
  {
    SortedIsUnique(es);
    AnswerExists(Members(es), u, s);
    var r :| Answers(Members(es), u, s, r);
    LookupIs(Members(es), u, s, r);
    i :| 0 <= i < |es| && es[i] == r.value;
    forall j | 0 <= j < i && Seen(es, s, j)
      ensures es[j].key.user != u
    {
      assert es[j] in Members(es) && Precedes(es[j].key, es[i].key);
    }
  }

  lemma SortedIsUnique(es: seq<Entry>)
    requires Sorted(es)
    ensures Unique(Members(es))
  {
    forall a, b | a in Members(es) && b in Members(es) && a.key.user == b.key.user && a.key.sequence == b.key.sequence
      ensures a == b
    {
      var i :| 0 <= i < |es| && es[i] == a;
      var j :| 0 <= j < |es| && es[j] == b;
    }
  }

  lemma FirstSeenIsNewest(es: seq<Entry>, s: nat, i: nat)
    requires Sorted(es) && i < |es| && Seen(es, s, i)
    requires forall j | 0 <= j < i && Seen(es, s, j) :: es[j].key.user != es[i].key.user
    ensures IsNewest(Members(es), es[i].key.user, s, es[i])
  {
    forall o | o in Members(es) && Visible(o, es[i].key.user, s)
      ensures o.key.sequence <= es[i].key.sequence
    {
      var j :| 0 <= j < |es| && es[j] == o;
      assert Seen(es, s, j);
    }
  }

  /** The live list is in strictly increasing user-key order. */
  lemma {:induction false} LiveListSorted(es: seq<Entry>, s: nat, n: nat)
    requires Sorted(es) && n <= |es|
    ensures forall i, j | 0 <= i < j < |LiveList(es, s, n)| :: LiveList(es, s, n)[i].0 < LiveList(es, s, n)[j].0
  {
    if n == 0 {
    } else {
      LiveListSorted(es, s, n - 1);
      LiveListMembers(es, s, n - 1);
      var front := LiveList(es, s, n - 1);
      if Live(es, s, n - 1) {
        forall i | 0 <= i < |front|
          ensures front[i].0 < es[n - 1].key.user
        {
          assert front[i] in front;
          var k :| 0 <= k < n - 1 && Live(es, s, k) && front[i] == (es[k].key.user, es[k].value);
          assert Precedes(es[k].key, es[n - 1].key);
        }
      }
    }
  }

  // --------------------------------------------------------------------- the iterator

  datatype Direction = Forward | Reverse

  class DBIter {
    const entries: seq<Entry>
    const sequence: SequenceNumber
    var pos: Option<nat>          // the internal iterator; None when it is not valid
    var direction: Direction
    var valid: bool
    var savedKey: Option<UserKey> // None after clear()
    var savedValue: Bytes
    ghost var current: nat        // the entry this iterator stands for, or |entries|

    ghost predicate Valid()
      reads this
    {
      && Sorted(entries)
      && (pos.Some? ==> pos.value < |entries|)
      && current <= |entries|
      && (valid <==> current < |entries|)
      && (valid ==> Live(entries, sequence, current))
      && (valid && direction == Forward ==> pos == Some(current))
      && (valid && direction == Reverse ==>
            && savedKey == Some(entries[current].key.user)
            && savedValue == entries[current].value
            && BeforeCurrent(pos, current))
    }

    /** The internal iterator stands before the entries of the current key, with nothing visible
        in between. */
    ghost predicate BeforeCurrent(p: Option<nat>, c: nat)
      requires c < |entries|
    {
      && (p.Some? ==> p.value < c && entries[p.value].key.user < entries[c].key.user)
      && forall j | 0 <= j < c && Seen(entries, sequence, j) :: p.Some? && j <= p.value
    }

    /** The list this iterator is a cursor over, and the cursor. */
    ghost function Keys(): seq<(UserKey, Bytes)> {
      LiveList(entries, sequence, |entries|)
    }

    ghost function Position(): nat
      requires current <= |entries|
      reads this
    {
      |LiveList(entries, sequence, current)|
    }

    /** valid, key and value are those of the cursor. */
    lemma CursorAgrees()
      requires Valid()
      ensures valid <==> Position() < |Keys()|
      ensures valid ==> Keys()[Position()] == (entries[current].key.user, entries[current].value)
    {
      if valid {
        LivePosition(entries, sequence, current);
      }
    }

    constructor (entries: seq<Entry>, sequence: SequenceNumber)
      requires Sorted(entries)
      ensures Valid() && !valid && this.entries == entries && this.sequence == sequence
    {
      this.entries, this.sequence := entries, sequence;
      pos, direction, valid, savedKey, savedValue := None, Forward, false, None, [];
      current := |entries|;
    }

    method Key() returns (k: UserKey)
      requires Valid() && valid
      ensures Position() < |Keys()| && k == Keys()[Position()].0
    {
      CursorAgrees();
      k := if direction == Forward then entries[pos.value].key.user else savedKey.value;
    }

    method Value() returns (v: Bytes)
      requires Valid() && valid
      ensures Position() < |Keys()| && v == Keys()[Position()].1
    {
      CursorAgrees();
      v := if direction == Forward then entries[pos.value].value else savedValue;
    }

    // The internal iterator.

    method IterNext()
      requires Sorted(entries) && pos.Some? && pos.value < |entries|
      modifies this`pos
      ensures pos == if old(pos).value + 1 < |entries| then Some(old(pos).value + 1) else None
    {
      pos := if pos.value + 1 < |entries| then Some(pos.value + 1) else None;
    }

    method IterPrev()
      requires pos.Some? && pos.value < |entries|
      modifies this`pos
      ensures pos == if old(pos).value > 0 then Some(old(pos).value - 1) else None
    {
      pos := if pos.value > 0 then Some(pos.value - 1) else None;
    }

    /** What FindNextUserEntry may rely on at internal position i, looking for the first live entry
        after base. */
    ghost predicate Searching(i: nat, skipping: bool, skip: Option<UserKey>, base: int)
    {
      && -1 <= base < |entries| && i <= |entries|
      && (skipping ==> skip.Some?)
      // nothing live was passed over
      && (forall j | base < j < i :: !Live(entries, sequence, j))
      // an entry whose key was already seen is one that will be skipped
      && (forall j, m | 0 <= j < i <= m < |entries| && Seen(entries, sequence, j)
          && entries[j].key.user == entries[m].key.user ::
            skipping && entries[m].key.user <= skip.value)
      // and what will be skipped is not wanted
      && (skipping ==> forall m | i <= m < |entries| && entries[m].key.user <= skip.value ::
          m <= base || !Live(entries, sequence, m))
      // up to base there is nothing to see but base itself
      && (i <= base ==> Live(entries, sequence, base) && skipping && skip == Some(entries[base].key.user))
      && (forall m | i <= m < base :: !Seen(entries, sequence, m))
    }

    lemma StepOverDeletion(i: nat, skipping: bool, skip: Option<UserKey>, base: int)
      requires Sorted(entries) && Searching(i, skipping, skip, base) && i < |entries|
      requires Seen(entries, sequence, i) && entries[i].key.kind.Deletion?
      ensures Searching(i + 1, true, Some(entries[i].key.user), base)
    {
    }

    lemma StepOverHidden(i: nat, skipping: bool, skip: Option<UserKey>, base: int)
      requires Sorted(entries) && Searching(i, skipping, skip, base) && i < |entries|
      requires skipping && entries[i].key.user <= skip.value
      ensures Searching(i + 1, skipping, skip, base)
    {
    }

    lemma StepOverUnseen(i: nat, skipping: bool, skip: Option<UserKey>, base: int)
      requires Sorted(entries) && Searching(i, skipping, skip, base) && i < |entries|
      requires !Seen(entries, sequence, i)
      ensures Searching(i + 1, skipping, skip, base)
    {
    }

    lemma FoundIsLive(i: nat, skipping: bool, skip: Option<UserKey>, base: int)
      requires Sorted(entries) && Searching(i, skipping, skip, base) && i < |entries|
      requires Seen(entries, sequence, i) && entries[i].key.kind.Value?
      requires !(skipping && entries[i].key.user <= skip.value)
      ensures Live(entries, sequence, i) && base < i && NoneLive(entries, sequence, base + 1, i)
    {
    }

    lemma NothingFound(skipping: bool, skip: Option<UserKey>, base: int)
      requires Searching(|entries|, skipping, skip, base)
      ensures base < |entries| && NoneLive(entries, sequence, base + 1, |entries|)
    {
    }

    /** Moves to the first live entry after base. */
    method FindNextUserEntry(skipping0: bool, skip0: Option<UserKey>, ghost base: int)
      requires Sorted(entries) && direction == Forward && pos.Some? && pos.value < |entries|
      requires Searching(pos.value, skipping0, skip0, base)
      modifies this`pos, this`valid, this`savedKey, this`current
      ensures Valid() && direction == Forward
      ensures base < current && NoneLive(entries, sequence, base + 1, current)
    {
      var skipping, skip := skipping0, skip0;
      ghost var i := pos.value;
      assert skipping ==> skip.Some?;
      hide Searching, Live, NoneLive, Sorted, Valid;
      while pos.Some?
        invariant i <= |entries| && Searching(i, skipping, skip, base)
        invariant pos == if i < |entries| then Some(i) else None
        invariant skipping ==> skip.Some?
        decreases |entries| - i
      {
        var ikey := entries[pos.value].key;
        if ikey.sequence <= sequence {
          if ikey.kind.Deletion? {
            StepOverDeletion(i, skipping, skip, base);
            skip := Some(ikey.user);
            skipping := true;
          } else if skipping && ikey.user <= skip.value {
            StepOverHidden(i, skipping, skip, base);
          } else {
            FoundIsLive(i, skipping, skip, base);
            valid := true;
            savedKey := None;
            current := pos.value;
            LandedIsValid();
            return;
          }
        } else {
          StepOverUnseen(i, skipping, skip, base);
        }
        IterNext();
        i := i + 1;
      }
      NothingFound(skipping, skip, base);
      savedKey := None;
      valid := false;
      current := |entries|;
      LandedIsValid();
    }

    lemma LandedIsValid()
      requires Sorted(entries) && direction == Forward && current <= |entries|
      requires valid ==> pos == Some(current) && current < |entries| && Live(entries, sequence, current)
      requires !valid ==> pos.None? && current == |entries|
      ensures Valid()
    {
    }

    /** DBIter::Next moves the cursor one key on. */
    method Next()
      requires Valid() && valid
      modifies this
      ensures Valid() && Position() == old(Position()) + 1
    {
      ghost var base := current;
      if direction == Reverse {
        direction := Forward;
        if pos.None? {
          pos := if |entries| > 0 then Some(0) else None;
        } else {
          IterNext();
        }
        if pos.None? {
          assert false; // the current key's entries lie ahead
        }
      } else {
        savedKey := Some(entries[pos.value].key.user);
      }
      FindNextUserEntry(true, savedKey, base);
      Advanced(base, current);
    }

    lemma Advanced(base: nat, next: nat)
      requires base < next <= |entries| && Live(entries, sequence, base) && NoneLive(entries, sequence, base + 1, next)
      ensures |LiveList(entries, sequence, next)| == |LiveList(entries, sequence, base)| + 1
    {
      NoneLiveSameList(entries, sequence, base + 1, next);
    }

    /** Scanning backward at position i: c is the visible value seen last, if no older key and no
        deletion came after it; nothing above c is live. */
    ghost predicate Scanning(i: int, bound: nat, c: Option<nat>) {
      && -1 <= i < bound <= |entries|
      && match c
         case None => NoneLive(entries, sequence, i + 1, bound)
         case Some(k) =>
           && i < k < bound && Seen(entries, sequence, k) && entries[k].key.kind.Value?
           && NoneLive(entries, sequence, k + 1, bound)
           && forall j | i < j < k :: !Seen(entries, sequence, j)
    }

    lemma ScanUnseen(i: int, bound: nat, c: Option<nat>)
      requires Scanning(i, bound, c) && 0 <= i && !Seen(entries, sequence, i)
      ensures Scanning(i - 1, bound, c)
    {
    }

    lemma ScanSeen(i: int, bound: nat, c: Option<nat>)
      requires Sorted(entries) && Scanning(i, bound, c) && 0 <= i && Seen(entries, sequence, i)
      requires c.Some? ==> entries[i].key.user >= entries[c.value].key.user
      ensures Scanning(i - 1, bound, if entries[i].key.kind.Deletion? then None else Some(i))
    {
    }

    lemma ScanStops(i: int, bound: nat, k: nat)
      requires Sorted(entries) && Scanning(i, bound, Some(k))
      requires 0 <= i ==> entries[i].key.user < entries[k].key.user
      ensures Live(entries, sequence, k)
      ensures BeforeCurrent(if i < 0 then None else Some(i), k)
    {
    }

    /** Moves to the last live entry before bound, given that none lies between pos and bound. */
    method FindPrevUserEntry(ghost bound: nat)
      requires Sorted(entries) && direction == Reverse && (pos.Some? ==> pos.value < |entries|)
      requires Scanning(if pos.None? then -1 else pos.value, bound, None)
      modifies this
      ensures Valid() && (valid ==> current < bound && NoneLive(entries, sequence, current + 1, bound))
      ensures !valid ==> NoneLive(entries, sequence, 0, bound)
    {
      var valueType := Deletion;
      ghost var i: int := if pos.None? then -1 else pos.value;
      ghost var c: Option<nat> := None;
      hide Sorted, Live, NoneLive, BeforeCurrent;
      while pos.Some?
        invariant Scanning(i, bound, c) && direction == Reverse
        invariant pos == if i < 0 then None else Some(i)
        invariant valueType.Value? <==> c.Some?
        invariant c.Some? ==> savedKey == Some(entries[c.value].key.user) && savedValue == entries[c.value].value
        decreases i + 1
      {
        var e := entries[pos.value];
        if e.key.sequence <= sequence {
          if valueType.Value? && e.key.user < savedKey.value {
            break;
          }
          ScanSeen(i, bound, c);
          valueType := e.key.kind;
          if valueType.Deletion? {
            savedKey := None;
            savedValue := [];
            c := None;
          } else {
            savedKey := Some(e.key.user);
            savedValue := e.value;
            c := Some(pos.value);
          }
        } else {
          ScanUnseen(i, bound, c);
        }
        IterPrev();
        i := i - 1;
      }
      if valueType.Deletion? {
        valid := false;
        savedKey := None;
        savedValue := [];
        direction := Forward;
        current := |entries|;
      } else {
        ScanStops(i, bound, c.value);
        valid := true;
        current := c.value;
      }
    }

    /** Going back from the current entry to the last one with a smaller user key passes nothing
        visible. */
    lemma SkippedSameKey(c: nat, i: int)
      requires Sorted(entries) && c < |entries| && Live(entries, sequence, c) && -1 <= i < c
      requires forall j | i < j < c :: entries[j].key.user >= entries[c].key.user
      ensures Scanning(i, c, None)
    {
      forall j | i < j < c
        ensures entries[j].key.user == entries[c].key.user
      {
        assert Precedes(entries[j].key, entries[c].key);
      }
    }

    /** DBIter::Prev moves the cursor one key back, off the list if it was on the first. */
    method Prev()
      requires Valid() && valid
      modifies this
      ensures Valid() && (valid <==> old(Position()) > 0)
      ensures valid ==> Position() == old(Position()) - 1
    {
      ghost var c := current;
      if direction == Forward {
        savedKey := Some(entries[pos.value].key.user);
        ghost var i: int := c;
        while true
          invariant pos == Some(i) && 0 <= i <= c && current == c
          invariant savedKey == Some(entries[c].key.user)
          invariant forall j | i <= j < c :: entries[j].key.user >= entries[c].key.user
          decreases i
        {
          IterPrev();
          i := i - 1;
          if pos.None? {
            SkippedSameKey(c, -1);
            NoneLiveSameList(entries, sequence, 0, c);
            valid := false;
            savedKey := None;
            savedValue := [];
            current := |entries|;
            return;
          }
          if entries[pos.value].key.user < savedKey.value {
            break;
          }
        }
        SkippedSameKey(c, i);
        direction := Reverse;
      } else {
        assert Scanning(if pos.None? then -1 else pos.value, c, None);
      }
      FindPrevUserEntry(c);
      if valid {
        Advanced(current, c);
      } else {
        NoneLiveSameList(entries, sequence, 0, c);
      }
    }

    lemma SeekSplitsKeys(p: nat, c: nat, target: UserKey)
      requires Sorted(entries) && p <= c <= |entries| && NoneLive(entries, sequence, p, c)
      requires c < |entries| ==> Live(entries, sequence, c)
      requires forall j | 0 <= j < p :: Before(entries[j].key, LookupKey(target, sequence))
      requires forall j | p <= j < |entries| :: !Before(entries[j].key, LookupKey(target, sequence))
      ensures |LiveList(entries, sequence, c)| <= |Keys()|
      ensures forall j | 0 <= j < |LiveList(entries, sequence, c)| :: Keys()[j].0 < target
      ensures forall j | |LiveList(entries, sequence, c)| <= j < |Keys()| :: Keys()[j].0 >= target
    {
      NoneLiveSameList(entries, sequence, p, c);
      LiveListMembers(entries, sequence, p);
      LiveListGrows(entries, sequence, p, |entries|);
      forall j | 0 <= j < |LiveList(entries, sequence, c)|
        ensures Keys()[j].0 < target
      {
        assert Keys()[j] == LiveList(entries, sequence, p)[j];
        assert LiveList(entries, sequence, p)[j] in LiveList(entries, sequence, p);
        var i :| 0 <= i < p && Live(entries, sequence, i)
                 && LiveList(entries, sequence, p)[j] == (entries[i].key.user, entries[i].value);
      }
      if c < |entries| {
        LivePosition(entries, sequence, c);
        LiveListSorted(entries, sequence, |entries|);
      }
    }

    /** The cursor stands on the first live key at or after target. */
    method Seek(target: UserKey)
      requires Valid()
      modifies this
      ensures Valid() && Position() <= |Keys()|
      ensures forall j | 0 <= j < Position() :: Keys()[j].0 < target
      ensures forall j | Position() <= j < |Keys()| :: Keys()[j].0 >= target
    {
      direction := Forward;
      savedValue := [];
      savedKey := Some(target);
      var p := SeekInTable(entries, LookupKey(target, sequence));
      pos := if p < |entries| then Some(p) else None;
      if pos.Some? {
        FindNextUserEntry(false, savedKey, p - 1);
      } else {
        valid := false;
        current := |entries|;
      }
      LiveListGrows(entries, sequence, current, |entries|);
      SeekSplitsKeys(p, current, target);
    }

    method SeekToFirst()
      requires Valid()
      modifies this
      ensures Valid() && Position() == 0
    {
      direction := Forward;
      savedValue := [];
      pos := if |entries| > 0 then Some(0) else None;
      if pos.Some? {
        FindNextUserEntry(false, savedKey, -1);
        NoneLiveSameList(entries, sequence, 0, current);
      } else {
        valid := false;
        current := |entries|;
      }
    }

    method SeekToLast()
      requires Valid()
      modifies this
      ensures Valid() && (valid <==> |Keys()| > 0)
      ensures valid ==> Position() == |Keys()| - 1
    {
      direction := Reverse;
      savedValue := [];
      pos := if |entries| > 0 then Some(|entries| - 1) else None;
      FindPrevUserEntry(|entries|);
      if valid {
        Advanced(current, |entries|);
      } else {
        NoneLiveSameList(entries, sequence, 0, |entries|);
      }
    }
  }
}
