// What a read means: the specification every part of the engine is measured against.
//
// The database is a set of versioned entries.  A read of a user key at a snapshot s returns the
// newest entry of that key with a sequence number at most s; a tombstone counts as absent.
module Reads {
  import opened Wrappers
  import opened Coding
  import opened DbFormat

  /** At most one entry for a user key and sequence number. */
  ghost predicate Unique(es: set<Entry>) {
    forall a, b | a in es && b in es && a.key.user == b.key.user && a.key.sequence == b.key.sequence :: a == b
  }

  ghost predicate Visible(e: Entry, u: UserKey, s: nat) {
    e.key.user == u && e.key.sequence <= s
  }

  ghost predicate IsNewest(es: set<Entry>, u: UserKey, s: nat, e: Entry) {
    && e in es
    && Visible(e, u, s)
    && forall o | o in es && Visible(o, u, s) :: o.key.sequence <= e.key.sequence
  }

  /** r is what a search of es for u at s has to find: the newest visible entry, or nothing. */
  ghost predicate Answers(es: set<Entry>, u: UserKey, s: nat, r: Option<Entry>) {
    match r
    case Some(e) => IsNewest(es, u, s, e)
    case None => forall o | o in es :: !Visible(o, u, s)
  }

  function ValueOf(r: Option<Entry>): Option<Bytes> {
    if r.Some? && r.value.key.kind.Value? then Some(r.value.value) else None
  }

  lemma {:induction false} AnswerExists(es: set<Entry>, u: UserKey, s: nat)
    ensures exists r :: Answers(es, u, s, r)
  {
    if e :| e in es && Visible(e, u, s) {
      var rest := es - {e};
      AnswerExists(rest, u, s);
      var r :| Answers(rest, u, s, r);
      var best := if r.Some? && r.value.key.sequence > e.key.sequence then r else Some(e);
      assert Answers(es, u, s, best);
    } else {
      assert Answers(es, u, s, None);
    }
  }

  lemma AnswerUnique(es: set<Entry>, u: UserKey, s: nat, r: Option<Entry>, r': Option<Entry>)
    requires Unique(es) && Answers(es, u, s, r) && Answers(es, u, s, r')
    ensures r == r'
  {
  }

  /** The value a read of u at s returns. */
  ghost function Lookup(es: set<Entry>, u: UserKey, s: nat): Option<Bytes> {
    AnswerExists(es, u, s);
    var r :| Answers(es, u, s, r);
    ValueOf(r)
  }

  lemma LookupIs(es: set<Entry>, u: UserKey, s: nat, r: Option<Entry>)
    requires Unique(es) && Answers(es, u, s, r)
    ensures Lookup(es, u, s) == ValueOf(r)
  {
    AnswerExists(es, u, s);
    var r' :| Answers(es, u, s, r') && Lookup(es, u, s) == ValueOf(r');
    AnswerUnique(es, u, s, r, r');
  }

  // ------------------------------------------------------ dropping entries safely

  /** Some entry in inputs, itself old enough for every snapshot, hides e. */
  ghost predicate Hidden(inputs: set<Entry>, e: Entry, smallest: nat) {
    exists n :: n in inputs && Visible(n, e.key.user, smallest) && n.key.sequence > e.key.sequence
  }

  /** e is a tombstone old enough for every snapshot and nothing older of its key is kept. */
  ghost predicate Obsolete(kept: set<Entry>, e: Entry, smallest: nat) {
    && e.key.kind.Deletion?
    && e.key.sequence <= smallest
    && forall o | o in kept && o.key.user == e.key.user :: o.key.sequence >= e.key.sequence
  }

  /** Every entry of inputs that is not kept is hidden or obsolete. */
  ghost predicate SafeDrops(inputs: set<Entry>, kept: set<Entry>, smallest: nat) {
    && kept <= inputs
    && forall e | e in inputs && e !in kept :: Hidden(inputs, e, smallest) || Obsolete(kept, e, smallest)
  }

  /** A dropped tombstone is the newest entry of its key at smallest, and it hid a value in rest. */
  ghost predicate Resurrects(rest: set<Entry>, inputs: set<Entry>, kept: set<Entry>, smallest: nat, e: Entry) {
    && e in inputs && e !in kept
    && e.key.kind.Deletion?
    && IsNewest(rest + inputs, e.key.user, smallest, e)
    && Lookup(rest, e.key.user, e.key.sequence).Some?
  }

  ghost predicate SameReads(a: set<Entry>, b: set<Entry>, smallest: nat) {
    forall u: UserKey, s: nat | s >= smallest :: Lookup(a, u, s) == Lookup(b, u, s)
  }

  /** With the newest entry dropped, what is left to read lies in rest, below it. */
  lemma ReadBelowDropped(rest: set<Entry>, inputs: set<Entry>, kept: set<Entry>, smallest: nat, s: nat, e: Entry)
    requires Unique(rest + inputs) && SafeDrops(inputs, kept, smallest) && s >= smallest
    requires e in inputs && e !in kept && IsNewest(rest + inputs, e.key.user, s, e)
    ensures e.key.kind.Deletion? && IsNewest(rest + inputs, e.key.user, smallest, e)
    ensures Lookup(rest + kept, e.key.user, s) == Lookup(rest, e.key.user, e.key.sequence)
  {
    var u := e.key.user;
    assert !Hidden(inputs, e, smallest);
    assert Obsolete(kept, e, smallest);
    forall o | o in rest + inputs && Visible(o, u, smallest)
      ensures o.key.sequence <= e.key.sequence
    {
      assert Visible(o, u, s);
    }
    AnswerExists(rest, u, e.key.sequence);
    var r :| Answers(rest, u, e.key.sequence, r);
    forall o | o in rest + kept && Visible(o, u, s)
      ensures o in rest && Visible(o, u, e.key.sequence)
    {
      assert o in rest + inputs && e in rest + inputs;
      assert o.key.sequence <= e.key.sequence;
    }
    assert Answers(rest + kept, u, s, r);
    LookupIs(rest + kept, u, s, r);
    LookupIs(rest, u, e.key.sequence, r);
  }

  lemma ReadUnchanged(rest: set<Entry>, inputs: set<Entry>, kept: set<Entry>, smallest: nat, u: UserKey, s: nat)
    requires Unique(rest + inputs) && SafeDrops(inputs, kept, smallest) && s >= smallest
    requires forall e :: !Resurrects(rest, inputs, kept, smallest, e)
    ensures Lookup(rest + inputs, u, s) == Lookup(rest + kept, u, s)
  {
    AnswerExists(rest + inputs, u, s);
    var r :| Answers(rest + inputs, u, s, r);
    LookupIs(rest + inputs, u, s, r);
    if r.Some? && r.value !in rest + kept {
      ReadBelowDropped(rest, inputs, kept, smallest, s, r.value);
      assert !Resurrects(rest, inputs, kept, smallest, r.value);
    } else {
      assert Answers(rest + kept, u, s, r);
      LookupIs(rest + kept, u, s, r);
    }
  }

  /** Safe drops keep every read at every live snapshot exactly when no value is resurrected. */
  lemma SameReadsIff(rest: set<Entry>, inputs: set<Entry>, kept: set<Entry>, smallest: nat)
    requires Unique(rest + inputs) && SafeDrops(inputs, kept, smallest)
    ensures SameReads(rest + inputs, rest + kept, smallest)
            <==> forall e :: !Resurrects(rest, inputs, kept, smallest, e)
  {
    if forall e :: !Resurrects(rest, inputs, kept, smallest, e) {
      forall u: UserKey, s: nat | s >= smallest
        ensures Lookup(rest + inputs, u, s) == Lookup(rest + kept, u, s)
      {
        ReadUnchanged(rest, inputs, kept, smallest, u, s);
      }
    } else {
      var e :| Resurrects(rest, inputs, kept, smallest, e);
      var u := e.key.user;
      LookupIs(rest + inputs, u, smallest, Some(e));
      ReadBelowDropped(rest, inputs, kept, smallest, smallest, e);
      assert Lookup(rest + inputs, u, smallest) != Lookup(rest + kept, u, smallest);
    }
  }

  // ------------------------------------------------------------------- adding entries

  /** Entries newer than everything in a and b are read the same way on top of either. */
  lemma NewestOnTop(a: set<Entry>, b: set<Entry>, newer: set<Entry>, last: nat, u: UserKey, s: nat)
    requires Unique(a + newer) && Unique(b + newer)
    requires forall e | e in a + b :: e.key.sequence <= last
    requires forall e | e in newer :: e.key.sequence > last
    requires Lookup(a, u, s) == Lookup(b, u, s)
    ensures Lookup(a + newer, u, s) == Lookup(b + newer, u, s)
  {
    AnswerExists(newer, u, s);
    var r :| Answers(newer, u, s, r);
    if r.Some? {
      OnTopAnswers(a, newer, last, u, s, r);
      OnTopAnswers(b, newer, last, u, s, r);
    } else {
      OnTopReadsBelow(a, newer, u, s);
      OnTopReadsBelow(b, newer, u, s);
    }
  }

  lemma OnTopAnswers(a: set<Entry>, newer: set<Entry>, last: nat, u: UserKey, s: nat, r: Option<Entry>)
    requires Unique(a + newer) && r.Some? && Answers(newer, u, s, r)
    requires forall e | e in a :: e.key.sequence <= last
    requires forall e | e in newer :: e.key.sequence > last
    ensures Lookup(a + newer, u, s) == ValueOf(r)
  {
    assert Answers(a + newer, u, s, r);
    LookupIs(a + newer, u, s, r);
  }

  lemma OnTopReadsBelow(a: set<Entry>, newer: set<Entry>, u: UserKey, s: nat)
    requires Unique(a + newer) && Answers(newer, u, s, None)
    ensures Lookup(a + newer, u, s) == Lookup(a, u, s)
  {
    AnswerExists(a, u, s);
    var r :| Answers(a, u, s, r);
    assert Answers(a + newer, u, s, r);
    LookupIs(a + newer, u, s, r);
    LookupIs(a, u, s, r);
  }
}
