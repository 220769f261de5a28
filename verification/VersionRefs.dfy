// Reference counts of versions and file records, and what DeleteObsoleteFiles may delete
// (db/version_set.cc: Version, Builder, AppendVersion, AddLiveFiles; db/db_impl.cc).  Versions and
// file records are named by numbers that are never used twice.
module VersionRefs {
  import opened Wrappers

  /** A file at a level of a version: the record it points to. */
  datatype Slot = Slot(level: nat, record: nat)

  datatype Version = Version(id: nat, refs: nat, slots: seq<Slot>)

  datatype FileMetaData = FileMetaData(number: nat, refs: nat)

  /** The builder of LogAndApply: its base version, the pending deletions, and the records it has
      made. */
  datatype Builder = Builder(base: nat, deleted: set<(nat, nat)>, added: seq<Slot>)

  // ----------------------------------------------------------------- who holds a record

  ghost function Records(slots: seq<Slot>): multiset<nat> {
    if slots == [] then multiset{} else Records(slots[1..]) + multiset{slots[0].record}
  }

  ghost function RecordsOf(versions: seq<Version>): multiset<nat> {
    if versions == [] then multiset{}
    else RecordsOf(versions[..|versions| - 1]) + Records(versions[|versions| - 1].slots)
  }

  /** Exactly the records somebody holds are allocated, each with as many references as holders. */
  ghost predicate Counted(files: map<nat, FileMetaData>, held: multiset<nat>) {
    && (forall f | f in files :: f in held && files[f].refs == held[f])
    && (forall f | f in held :: f in files)
  }

  lemma {:induction false} RecordsMember(slots: seq<Slot>, i: nat)
    requires i < |slots|
    ensures slots[i].record in Records(slots)
  {
    if i == 0 {
    } else {
      RecordsMember(slots[1..], i - 1);
    }
  }

  lemma {:induction false} RecordsOfRemove(versions: seq<Version>, i: nat)
    requires i < |versions|
    ensures RecordsOf(versions) == RecordsOf(versions[..i] + versions[i + 1..]) + Records(versions[i].slots)
  {
    hide Records;
    var n := |versions| - 1;
    var rest := versions[..i] + versions[i + 1..];
    RemoveEarlier(versions, i);
    if i == n {
      assert rest == versions[..n];
    } else {
      RecordsOfRemove(versions[..n], i);
    }
  }

  /** Taking out an element that is not the last leaves the last where it was. */
  lemma RemoveEarlier<T>(s: seq<T>, i: nat)
    requires i < |s|
    ensures var n, rest := |s| - 1, s[..i] + s[i + 1..];
            i < n ==> rest[..n - 1] == s[..n][..i] + s[..n][i + 1..] && rest[n - 1] == s[n]
  {
  }

  lemma RecordsOfAppend(versions: seq<Version>, v: Version)
    ensures RecordsOf(versions + [v]) == RecordsOf(versions) + Records(v.slots)
  {
    assert (versions + [v])[..|versions|] == versions;
  }

  /** Changing the count of a version does not change what it holds. */
  lemma RecordsOfSame(versions: seq<Version>, i: nat, v: Version)
    requires i < |versions| && v.slots == versions[i].slots
    ensures RecordsOf(versions[i := v]) == RecordsOf(versions)
  {
    RecordsOfRemove(versions, i);
    RecordsOfRemove(versions[i := v], i);
    assert versions[i := v][..i] + versions[i := v][i + 1..] == versions[..i] + versions[i + 1..];
  }

  /** One holder less: the record goes when it was the last. */
  function Dropped(files: map<nat, FileMetaData>, f: nat): map<nat, FileMetaData>
    requires f in files
  {
    if files[f].refs <= 1 then files - {f} else files[f := files[f].(refs := files[f].refs - 1)]
  }

  lemma DroppedCounted(files: map<nat, FileMetaData>, held: multiset<nat>, f: nat)
    requires Counted(files, held) && f in held
    ensures f in files && Counted(Dropped(files, f), held - multiset{f})
  {
  }

  lemma TakenCounted(files: map<nat, FileMetaData>, held: multiset<nat>, f: nat)
    requires Counted(files, held) && f in files
    ensures Counted(files[f := files[f].(refs := files[f].refs + 1)], held + multiset{f})
  {
  }

  /** The loop of ~Version and of ~Builder over the files they let go. */
  method DropFiles(files: map<nat, FileMetaData>, slots: seq<Slot>, ghost held: multiset<nat>)
    returns (files': map<nat, FileMetaData>)
    requires Counted(files, held + Records(slots))
    ensures Counted(files', held)
    ensures forall f | f in files' :: f in files && files'[f].number == files[f].number
  {
    hide Counted;
    files' := files;
    assert slots[0..] == slots;
    for i := 0 to |slots|
      invariant Counted(files', held + Records(slots[i..]))
      invariant forall f | f in files' :: f in files && files'[f].number == files[f].number
    {
      var f := slots[i].record;
      assert slots[i..][0] == slots[i];
      DroppedCounted(files', held + Records(slots[i..]), f);
      assert slots[i..][1..] == slots[i + 1..];
      assert held + Records(slots[i..]) - multiset{f} == held + Records(slots[i + 1..]);
      files' := Dropped(files', f);
    }
    assert slots[|slots|..] == [] && held + Records([]) == held;
  }

  // ------------------------------------------------------------------ who holds a version

  ghost predicate InList(versions: seq<Version>, id: nat) {
    exists i :: 0 <= i < |versions| && versions[i].id == id
  }

  /** The list holds exactly the versions somebody uses, each once, with as many references as
      uses. */
  ghost predicate Listed(versions: seq<Version>, uses: multiset<nat>) {
    DistinctIds(versions) && RefsMatch(versions, uses) && AllListed(versions, uses)
  }

  ghost predicate DistinctIds(versions: seq<Version>) {
    forall i, j | 0 <= i < j < |versions| :: versions[i].id != versions[j].id
  }

  ghost predicate RefsMatch(versions: seq<Version>, uses: multiset<nat>) {
    forall v | v in versions :: v.id in uses && v.refs == uses[v.id]
  }

  ghost predicate AllListed(versions: seq<Version>, uses: multiset<nat>) {
    forall id | id in uses :: InList(versions, id)
  }

  function Removed(versions: seq<Version>, i: nat): seq<Version>
    requires i < |versions|
  {
    versions[..i] + versions[i + 1..]
  }

  function WithRefs(versions: seq<Version>, i: nat, refs: nat): seq<Version>
    requires i < |versions|
  {
    versions[i := versions[i].(refs := refs)]
  }

  lemma RemovedMembers(versions: seq<Version>, i: nat)
    requires DistinctIds(versions) && i < |versions|
    ensures DistinctIds(Removed(versions, i))
    ensures forall v :: v in Removed(versions, i) <==> v in versions && v.id != versions[i].id
  {
    var rest := Removed(versions, i);
    assert forall k | 0 <= k < |rest| :: rest[k] == versions[if k < i then k else k + 1];
    forall v | v in versions && v.id != versions[i].id
      ensures v in rest
    {
      var j :| 0 <= j < |versions| && versions[j] == v;
      assert rest[if j < i then j else j - 1] == v;
    }
  }

  lemma WithRefsMembers(versions: seq<Version>, i: nat, refs: nat)
    requires DistinctIds(versions) && i < |versions|
    ensures DistinctIds(WithRefs(versions, i, refs))
    ensures forall v :: v in WithRefs(versions, i, refs)
                        <==> (v in versions && v.id != versions[i].id) || v == versions[i].(refs := refs)
  {
    var after := WithRefs(versions, i, refs);
    forall v
      ensures v in after <==> (v in versions && v.id != versions[i].id) || v == versions[i].(refs := refs)
    {
      if v in after {
        var j :| 0 <= j < |after| && after[j] == v;
        assert j != i ==> versions[j] in versions;
      }
      if v in versions && v.id != versions[i].id {
        var j :| 0 <= j < |versions| && versions[j] == v;
        assert after[j] == v;
      }
      assert after[i] == versions[i].(refs := refs);
    }
  }

  lemma InListMember(versions: seq<Version>, id: nat)
    ensures InList(versions, id) <==> exists v :: v in versions && v.id == id
  {
    if InList(versions, id) {
      var i :| 0 <= i < |versions| && versions[i].id == id;
      assert versions[i] in versions;
    }
  }

  /** Where a version is in the list. */
  function IndexOf(versions: seq<Version>, id: nat): (i: nat)
    requires InList(versions, id)
    ensures i < |versions| && versions[i].id == id
  {
    var n := |versions| - 1;
    if versions[n].id == id then n
    else
      assert InList(versions[..n], id) by {
        var i :| 0 <= i < |versions| && versions[i].id == id;
        assert versions[..n][i].id == id;
      }
      IndexOf(versions[..n], id)
  }

  /** Version::Ref */
  lemma ReffedListed(versions: seq<Version>, uses: multiset<nat>, i: nat)
    requires Listed(versions, uses) && i < |versions|
    ensures Listed(WithRefs(versions, i, versions[i].refs + 1), uses + multiset{versions[i].id})
    ensures RecordsOf(WithRefs(versions, i, versions[i].refs + 1)) == RecordsOf(versions)
  {
    hide DistinctIds, RecordsOf;
    var after := WithRefs(versions, i, versions[i].refs + 1);
    RecordsOfSame(versions, i, versions[i].(refs := versions[i].refs + 1));
    WithRefsMembers(versions, i, versions[i].refs + 1);
    assert versions[i] in versions;
    StaysListed(versions, after, uses, uses + multiset{versions[i].id}, versions[i].id);
  }

  /** If a list loses no version other than one, and that one only when it is no longer used, then
      what is used is still listed. */
  lemma StaysListed(versions: seq<Version>, after: seq<Version>, uses: multiset<nat>, uses': multiset<nat>, id: nat)
    requires AllListed(versions, uses)
    requires forall v | v in versions && v.id != id :: exists w :: w in after && w.id == v.id
    requires forall other | other in uses' && other != id :: other in uses
    requires id in uses' ==> exists w :: w in after && w.id == id
    ensures AllListed(after, uses')
  {
    forall other | other in uses'
      ensures InList(after, other)
    {
      InListMember(versions, other);
      InListMember(after, other);
    }
  }

  /** Version::Unref: the last one takes the version out of the list and lets its files go. */
  method Unref(versions: seq<Version>, files: map<nat, FileMetaData>, id: nat, ghost uses: multiset<nat>,
               ghost others: multiset<nat>)
    returns (versions': seq<Version>, files': map<nat, FileMetaData>)
    requires Listed(versions, uses) && id in uses
    requires Counted(files, RecordsOf(versions) + others)
    ensures Listed(versions', uses - multiset{id})
    ensures Counted(files', RecordsOf(versions') + others)
    ensures forall f | f in files' :: f in files && files'[f].number == files[f].number
    ensures forall v | v in versions' :: exists w :: w in versions && w.id == v.id && w.slots == v.slots
  {
    hide Counted, Records, RecordsOf, Listed;
    InListOf(versions, uses, id);
    var i := IndexOf(versions, id);
    var v := versions[i];
    if v.refs == 1 {
      LastUnrefListed(versions, uses, i);
      versions' := Removed(versions, i);
      RecordsOfRemove(versions, i);
      assert RecordsOf(versions) + others == RecordsOf(versions') + others + Records(v.slots);
      files' := DropFiles(files, v.slots, RecordsOf(versions') + others);
    } else {
      UnrefListed(versions, uses, i);
      versions' := WithRefs(versions, i, v.refs - 1);
      RecordsOfSame(versions, i, v.(refs := v.refs - 1));
      files' := files;
    }
  }

  lemma InListOf(versions: seq<Version>, uses: multiset<nat>, id: nat)
    requires Listed(versions, uses) && id in uses
    ensures InList(versions, id)
  {
  }

  lemma LastUnrefListed(versions: seq<Version>, uses: multiset<nat>, i: nat)
    requires Listed(versions, uses) && i < |versions| && versions[i].refs == 1
    ensures Listed(Removed(versions, i), uses - multiset{versions[i].id})
    ensures forall v | v in Removed(versions, i) :: v in versions
  {
    hide DistinctIds, AllListed, Removed;
    RemovedMembers(versions, i);
    var rest, id := Removed(versions, i), versions[i].id;
    assert versions[i] in versions && uses[id] == 1;
    LastUse(uses, id);
    StaysListed(versions, rest, uses, uses - multiset{id}, id);
  }

  lemma LastUse(uses: multiset<nat>, id: nat)
    requires uses[id] == 1
    ensures forall other :: (uses - multiset{id})[other] == if other == id then 0 else uses[other]
  {
  }

  lemma UnrefListed(versions: seq<Version>, uses: multiset<nat>, i: nat)
    requires Listed(versions, uses) && i < |versions| && versions[i].refs != 1
    ensures versions[i].refs > 1
    ensures Listed(WithRefs(versions, i, versions[i].refs - 1), uses - multiset{versions[i].id})
    ensures forall v | v in WithRefs(versions, i, versions[i].refs - 1) ::
              exists w :: w in versions && w.id == v.id && w.slots == v.slots
  {
    hide DistinctIds;
    assert versions[i] in versions && versions[i].refs == uses[versions[i].id];
    WithRefsMembers(versions, i, versions[i].refs - 1);
    StaysListed(versions, WithRefs(versions, i, versions[i].refs - 1), uses, uses - multiset{versions[i].id},
                versions[i].id);
  }

  // ------------------------------------------------------------ the counts all together

  ghost predicate Below(versions: seq<Version>, next: nat) {
    forall v | v in versions :: v.id < next
  }

  /** The list holds the used versions, every count is right, and no name is used again. */
  ghost predicate Sound(versions: seq<Version>, files: map<nat, FileMetaData>, uses: multiset<nat>,
                        others: multiset<nat>, nextVersion: nat, nextRecord: nat) {
    && Listed(versions, uses)
    && Counted(files, RecordsOf(versions) + others)
    && Below(versions, nextVersion)
    && forall f | f in files :: f < nextRecord
  }

  lemma RefSound(versions: seq<Version>, files: map<nat, FileMetaData>, uses: multiset<nat>, others: multiset<nat>,
                 nextVersion: nat, nextRecord: nat, i: nat)
    requires Sound(versions, files, uses, others, nextVersion, nextRecord) && i < |versions|
    ensures Sound(WithRefs(versions, i, versions[i].refs + 1), files, uses + multiset{versions[i].id}, others,
                  nextVersion, nextRecord)
  {
    hide Counted, Records, RecordsOf, Listed;
    ReffedListed(versions, uses, i);
  }

  lemma UsedListed(versions: seq<Version>, files: map<nat, FileMetaData>, uses: multiset<nat>, others: multiset<nat>,
                   nextVersion: nat, nextRecord: nat, id: nat)
    requires Sound(versions, files, uses, others, nextVersion, nextRecord) && id in uses
    ensures InList(versions, id)
  {
  }

  /** Version::Unref on a sound state. */
  method UnrefSound(versions: seq<Version>, files: map<nat, FileMetaData>, id: nat, ghost uses: multiset<nat>,
                    ghost others: multiset<nat>, ghost nextVersion: nat, ghost nextRecord: nat)
    returns (versions': seq<Version>, files': map<nat, FileMetaData>)
    requires Sound(versions, files, uses, others, nextVersion, nextRecord) && id in uses
    ensures Sound(versions', files', uses - multiset{id}, others, nextVersion, nextRecord)
    ensures NotRenamed(files', files)
  {
    hide Counted, Records, RecordsOf, Listed;
    versions', files' := Unref(versions, files, id, uses, others);
  }

  /** Some records may be gone, the others keep their table numbers. */
  ghost predicate NotRenamed(files: map<nat, FileMetaData>, was: map<nat, FileMetaData>) {
    forall f | f in files :: f in was && files[f].number == was[f].number
  }

  lemma NewRecordSound(versions: seq<Version>, files: map<nat, FileMetaData>, uses: multiset<nat>,
                       others: multiset<nat>, nextVersion: nat, nextRecord: nat, number: nat)
    requires Sound(versions, files, uses, others, nextVersion, nextRecord)
    ensures Sound(versions, files[nextRecord := FileMetaData(number, 1)], uses, others + multiset{nextRecord},
                  nextVersion, nextRecord + 1)
  {
    hide Records, RecordsOf, Listed;
    var held := RecordsOf(versions) + others;
    assert nextRecord !in held;
    assert RecordsOf(versions) + (others + multiset{nextRecord}) == held + multiset{nextRecord};
    NewCounted(files, held, nextRecord, number);
  }

  lemma NewCounted(files: map<nat, FileMetaData>, held: multiset<nat>, f: nat, number: nat)
    requires Counted(files, held) && f !in held
    ensures Counted(files[f := FileMetaData(number, 1)], held + multiset{f})
  {
  }

  lemma TakeSound(versions: seq<Version>, files: map<nat, FileMetaData>, uses: multiset<nat>, others: multiset<nat>,
                  nextVersion: nat, nextRecord: nat, f: nat)
    requires Sound(versions, files, uses, others, nextVersion, nextRecord) && f in files
    ensures Sound(versions, files[f := files[f].(refs := files[f].refs + 1)], uses, others + multiset{f}, nextVersion,
                  nextRecord)
  {
    hide Counted, Records, RecordsOf, Listed;
    TakenCounted(files, RecordsOf(versions) + others, f);
    assert RecordsOf(versions) + (others + multiset{f}) == RecordsOf(versions) + others + multiset{f};
  }

  method DropSound(files: map<nat, FileMetaData>, slots: seq<Slot>, ghost versions: seq<Version>,
                   ghost uses: multiset<nat>, ghost others: multiset<nat>, ghost nextVersion: nat,
                     ghost nextRecord: nat)
    returns (files': map<nat, FileMetaData>)
    requires Sound(versions, files, uses, others + Records(slots), nextVersion, nextRecord)
    ensures Sound(versions, files', uses, others, nextVersion, nextRecord)
    ensures NotRenamed(files', files)
  {
    hide Counted, Records, RecordsOf, Listed;
    assert RecordsOf(versions) + (others + Records(slots)) == RecordsOf(versions) + others + Records(slots);
    files' := DropFiles(files, slots, RecordsOf(versions) + others);
  }

  lemma AppendSound(versions: seq<Version>, files: map<nat, FileMetaData>, uses: multiset<nat>, others: multiset<nat>,
                    nextVersion: nat, nextRecord: nat, slots: seq<Slot>)
    requires Sound(versions, files, uses, others + Records(slots), nextVersion, nextRecord)
    ensures Sound(versions + [Version(nextVersion, 1, slots)], files, uses + multiset{nextVersion}, others,
                  nextVersion + 1, nextRecord)
  {
    hide Counted, Records, RecordsOf;
    var v := Version(nextVersion, 1, slots);
    RecordsOfAppend(versions, v);
    assert RecordsOf(versions) + (others + Records(slots)) == RecordsOf(versions + [v]) + others;
    AppendListed(versions, uses, v, nextVersion);
  }

  lemma AppendListed(versions: seq<Version>, uses: multiset<nat>, v: Version, next: nat)
    requires Listed(versions, uses) && Below(versions, next) && v.id == next && v.refs == 1
    ensures Listed(versions + [v], uses + multiset{v.id})
  {
    hide DistinctIds, AllListed;
    var after := versions + [v];
    assert forall w :: w in after <==> w in versions || w == v;
    UnusedName(versions, uses, next);
    DistinctAppend(versions, v);
    StaysListed(versions, after, uses, uses + multiset{v.id}, v.id);
  }

  lemma UnusedName(versions: seq<Version>, uses: multiset<nat>, next: nat)
    requires AllListed(versions, uses) && Below(versions, next)
    ensures next !in uses
  {
    InListMember(versions, next);
  }

  lemma DistinctAppend(versions: seq<Version>, v: Version)
    requires DistinctIds(versions) && Below(versions, v.id)
    ensures DistinctIds(versions + [v])
  {
    assert forall i | 0 <= i < |versions| :: versions[i] in versions;
  }

  // ------------------------------------------------------------------------- the class

  /** Everybody who uses a version: the current_ pointer, readers, iterators and compactions, and
      the builder under way. */
  ghost function Uses(current: nat, users: multiset<nat>, builder: Option<Builder>): multiset<nat> {
    multiset{current} + users + if builder.Some? then multiset{builder.value.base} else multiset{}
  }

  /** Everybody who holds a record, apart from the listed versions: the version being made and the
      builder. */
  ghost function Others(pending: Option<seq<Slot>>, builder: Option<Builder>): multiset<nat> {
    (if pending.Some? then Records(pending.value) else multiset{})
    + (if builder.Some? then Records(builder.value.added) else multiset{})
  }

  /** The files that are not deleted at their level. */
  function Kept(slots: seq<Slot>, deleted: set<(nat, nat)>, files: map<nat, FileMetaData>): seq<Slot>
    requires forall s | s in slots :: s.record in files
  {
    if slots == [] then []
    else
      var n := |slots| - 1;
      Kept(slots[..n], deleted, files)
      + if (slots[n].level, files[slots[n].record].number) in deleted then [] else [slots[n]]
  }

  ghost predicate SameNumbers(files: map<nat, FileMetaData>, was: map<nat, FileMetaData>) {
    files.Keys == was.Keys && forall f | f in files :: files[f].number == was[f].number
  }

  class VersionSet {
    var versions: seq<Version>
    var current: nat
    var files: map<nat, FileMetaData>
    var pending: Option<seq<Slot>>
    var builder: Option<Builder>
    var nextVersion: nat
    var nextRecord: nat
    ghost var users: multiset<nat>

    ghost predicate Valid()
      reads this
    {
      Sound(versions, files, Uses(current, users, builder), Others(pending, builder), nextVersion, nextRecord)
    }

    constructor ()
      ensures Valid() && users == multiset{} && builder == None && pending == None
    {
      versions, current, files := [Version(0, 1, [])], 0, map[];
      pending, builder, nextVersion, nextRecord := None, None, 1, 0;
      users := multiset{};
      new;
      assert versions[..0] == [];
      assert InList(versions, 0) by {
        assert versions[0].id == 0;
      }
    }

    /** A Get, an iterator or a compaction refers to the current version. */
    method Acquire() returns (id: nat)
      requires Valid()
      modifies this`versions, this`users
      ensures Valid() && id == current && users == old(users) + multiset{id}
    {
      hide Sound;
      ghost var uses := Uses(current, users, builder);
      UsedListed(versions, files, uses, Others(pending, builder), nextVersion, nextRecord, current);
      id := current;
      var i := IndexOf(versions, id);
      RefSound(versions, files, uses, Others(pending, builder), nextVersion, nextRecord, i);
      versions := WithRefs(versions, i, versions[i].refs + 1);
      users := users + multiset{id};
      assert Uses(current, users, builder) == uses + multiset{id};
    }

    /** It is done with it. */
    method Release(id: nat)
      requires Valid() && id in users
      modifies this`versions, this`files, this`users
      ensures Valid() && users == old(users) - multiset{id}
    {
      hide Sound, Uses, Others;
      UsesLess(current, users, builder, id);
      versions, files := UnrefSound(versions, files, id, Uses(current, users, builder), Others(pending, builder),
                                    nextVersion, nextRecord);
      users := users - multiset{id};
    }

    /** LogAndApply: a builder on the current version. */
    method StartBuilder(deleted: set<(nat, nat)>)
      requires Valid() && builder.None? && pending.None?
      modifies this`versions, this`builder
      ensures Valid() && builder == Some(Builder(current, deleted, []))
    {
      hide Sound;
      ghost var uses := Uses(current, users, builder);
      UsedListed(versions, files, uses, Others(pending, builder), nextVersion, nextRecord, current);
      var i := IndexOf(versions, current);
      RefSound(versions, files, uses, Others(pending, builder), nextVersion, nextRecord, i);
      ghost var others := Others(pending, builder);
      versions := WithRefs(versions, i, versions[i].refs + 1);
      builder := Some(Builder(current, deleted, []));
      assert Uses(current, users, builder) == uses + multiset{current};
      assert Others(pending, builder) == others;
    }

    /** Builder::Apply, one new file. */
    method AddFile(level: nat, number: nat)
      requires Valid() && builder.Some?
      modifies this`files, this`builder, this`nextRecord
      ensures Valid()
      ensures builder == Some(old(builder).value.(deleted := old(builder).value.deleted - {(level, number)},
                                                  added := old(builder).value.added + [Slot(level, old(nextRecord))]))
      ensures files == old(files)[old(nextRecord) := FileMetaData(number, 1)]
    {
      hide Sound, Records;
      ghost var uses, others := Uses(current, users, builder), Others(pending, builder);
      NewRecordSound(versions, files, uses, others, nextVersion, nextRecord, number);
      var b, slot := builder.value, Slot(level, nextRecord);
      SlotAdded(b.added, slot);
      files := files[nextRecord := FileMetaData(number, 1)];
      builder := Some(b.(deleted := b.deleted - {(level, number)}, added := b.added + [slot]));
      assert Uses(current, users, builder) == uses;
      assert Others(pending, builder) == others + multiset{slot.record};
      nextRecord := nextRecord + 1;
    }

    /** Builder::MaybeAddFile, for one file after the other. */
    method MaybeAddFiles(slots: seq<Slot>, deleted: set<(nat, nat)>)
      requires Valid() && pending.Some? && forall s | s in slots :: s.record in files
      modifies this`files, this`pending
      ensures Valid() && pending == Some(old(pending).value + Kept(slots, deleted, old(files)))
      ensures SameNumbers(files, old(files))
    {
      hide Sound, Uses, Others, Kept;
      assert Kept(slots[..0], deleted, files) == [] by {
        KeptNone(slots, deleted, files);
      }
      ghost var files0, pending0 := files, pending.value;
      ghost var uses := Uses(current, users, builder);
      for i := 0 to |slots|
        invariant Valid() && pending.Some? && SameNumbers(files, files0)
        invariant pending.value == pending0 + Kept(slots[..i], deleted, files0)
      {
        var s := slots[i];
        KeptNext(slots, deleted, files0, i);
        if (s.level, files[s.record].number) !in deleted {
          ghost var others := Others(pending, builder);
          TakeSound(versions, files, uses, others, nextVersion, nextRecord, s.record);
          OthersMore(pending.value, builder, s);
          files := files[s.record := files[s.record].(refs := files[s.record].refs + 1)];
          pending := Some(pending.value + [s]);
        }
      }
      assert slots[..|slots|] == slots;
    }

    /** A table number of a listed version. */
    ghost predicate Live(number: nat)
      reads this
    {
      exists v, s :: v in versions && s in v.slots && s.record in files && files[s.record].number == number
    }

    /** SaveTo into a new version: the files of base and builder that are not deleted. */
    method SaveTo()
      requires Valid() && builder.Some? && pending.None?
      modifies this`files, this`pending
      ensures Valid() && pending.Some? && SameNumbers(files, old(files))
      ensures exists v :: v in versions && v.id == builder.value.base
                 && (forall s | s in v.slots + builder.value.added :: s.record in old(files))
                 && pending.value == Kept(v.slots, builder.value.deleted, old(files))
                                     + Kept(builder.value.added, builder.value.deleted, old(files))
                 && (forall s :: s in pending.value <==>
                       (s in v.slots || s in builder.value.added)
                         && (s.level, old(files)[s.record].number) !in builder.value.deleted)
    {
      hide Sound, Uses, Others, Kept, Records;
      var b := builder.value;
      BaseUsed(current, users, b);
      UsedListed(versions, files, Uses(current, users, builder), Others(pending, builder), nextVersion, nextRecord,
                 b.base);
      var v := versions[IndexOf(versions, b.base)];
      SlotsHeld(versions, files, Uses(current, users, builder), Others(pending, builder), nextVersion, nextRecord,
                v.slots, v);
      AddedHeld(versions, files, Uses(current, users, builder), pending, builder, nextVersion, nextRecord);
      OthersEmpty(builder);
      ghost var files0 := files;
      pending := Some([]);
      MaybeAddFiles(v.slots, b.deleted);
      SameKept(b.added, b.deleted, files, files0);
      MaybeAddFiles(b.added, b.deleted);
      assert [] + Kept(v.slots, b.deleted, files0) == Kept(v.slots, b.deleted, files0);
      KeptMembers(v.slots, b.deleted, files0);
      KeptMembers(b.added, b.deleted, files0);
      assert v in versions;
    }

    /** ~Builder: lets its own records and its base version go. */
    method EndBuilder()
      requires Valid() && builder.Some?
      modifies this`versions, this`files, this`builder
      ensures Valid() && builder.None? && NotRenamed(files, old(files))
    {
      hide Sound, Uses, Others, Records;
      var b := builder.value;
      BaseUsed(current, users, b);
      OthersBuilder(pending, b);
      ghost var uses := Uses(current, users, builder);
      files := DropSound(files, b.added, versions, uses, Others(pending, None), nextVersion, nextRecord);
      versions, files := UnrefSound(versions, files, b.base, uses, Others(pending, None), nextVersion, nextRecord);
      builder := None;
    }

    /** AppendVersion: the new version becomes current, and the old one loses that reference. */
    method AppendVersion()
      requires Valid() && pending.Some? && builder.None?
      modifies this`versions, this`files, this`pending, this`current, this`nextVersion
      ensures Valid() && pending.None? && current == old(nextVersion) && NotRenamed(files, old(files))
      ensures exists v :: v in versions && v.id == current && v.slots == old(pending).value
    {
      hide Sound, Uses, Others, Records;
      var slots := pending.value;
      UsesWithout(current, users);
      OthersPending(slots, None);
      var rest, files' := UnrefSound(versions, files, current, Uses(current, users, None), Others(Some(slots), None),
                                     nextVersion, nextRecord);
      AppendSound(rest, files', users, Others(None, None), nextVersion, nextRecord, slots);
      UsesWithout(nextVersion, users);
      var v := Version(nextVersion, 1, slots);
      versions, files := rest + [v], files';
      current, pending, nextVersion := nextVersion, None, nextVersion + 1;
      assert v in versions;
    }

    /** The manifest write failed: the new version is thrown away. */
    method Abandon()
      requires Valid() && pending.Some?
      modifies this`files, this`pending
      ensures Valid() && pending.None? && NotRenamed(files, old(files))
    {
      hide Sound, Uses, Others, Records;
      OthersPending(pending.value, builder);
      files := DropSound(files, pending.value, versions, Uses(current, users, builder), Others(None, builder),
                         nextVersion, nextRecord);
      pending := None;
    }

    /** AddLiveFiles: the table numbers of all listed versions. */
    method AddLiveFiles(live0: set<nat>) returns (live: set<nat>)
      requires Valid()
      ensures forall n :: n in live <==> n in live0 || Live(n)
    {
      live := live0;
      for i := 0 to |versions|
        invariant forall n :: n in live <==> n in live0 || NumberIn(versions[..i], files, n)
      {
        ghost var before := live;
        var slots := versions[i].slots;
        SlotsHeld(versions, files, Uses(current, users, builder), Others(pending, builder), nextVersion, nextRecord,
                  slots, versions[i]);
        for j := 0 to |slots|
          invariant forall n :: n in live <==> n in before || SlotNumber(slots[..j], files, n)
        {
          assert slots[j] in slots && slots[..j + 1] == slots[..j] + [slots[j]];
          SlotNumberNext(slots, files, j);
          live := live + {files[slots[j].record].number};
        }
        assert slots[..|slots|] == slots;
        NumberInNext(versions, files, i);
      }
      assert versions[..|versions|] == versions;
      LiveIs();
    }

    lemma LiveIs()
      ensures forall n :: Live(n) <==> NumberIn(versions, files, n)
    {
    }

    /** DeleteObsoleteFiles: keeps a table exactly if a listed version has it or somebody is still
        writing it; after a background error nothing is deleted. */
    method DeleteObsoleteFiles(filenames: seq<(FileType, nat)>, pendingOutputs: set<nat>, logNumber: nat,
                               prevLogNumber: nat, manifestFileNumber: nat, backgroundError: bool)
      returns (kept: seq<(FileType, nat)>)
      requires Valid()
      ensures backgroundError ==> kept == filenames
      ensures !backgroundError ==> forall t, n :: (t, n) in kept <==> (t, n) in filenames && match t
                case Log => n >= logNumber || n == prevLogNumber
                case Descriptor => n >= manifestFileNumber
                case Table => n in pendingOutputs || Live(n)
                case Temp => n in pendingOutputs || Live(n)
                case Fixed => true
    {
      if backgroundError {
        return filenames;
      }
      var live := AddLiveFiles(pendingOutputs);
      hide Sound, Live;
      kept := [];
      for i := 0 to |filenames|
        invariant forall t, n :: (t, n) in kept <==> (t, n) in filenames[..i] && match t
                    case Log => n >= logNumber || n == prevLogNumber
                    case Descriptor => n >= manifestFileNumber
                    case Table => n in live
                    case Temp => n in live
                    case Fixed => true
      {
        var (kind, number) := filenames[i];
        assert filenames[..i + 1] == filenames[..i] + [filenames[i]];
        var keep := match kind
          case Log => number >= logNumber || number == prevLogNumber
          case Descriptor => number >= manifestFileNumber
          case Table => number in live
          case Temp => number in live
          case Fixed => true;
        if keep {
          kept := kept + [filenames[i]];
        }
      }
      assert filenames[..|filenames|] == filenames;
    }

    /** Whoever refers to a version finds it in the list, with all its tables live. */
    lemma UsedVersionIsLive(id: nat)
      requires Valid() && (id in users || id == current)
      ensures exists v :: v in versions && v.id == id && v.refs > 0
                 && forall s | s in v.slots ::
                   s.record in files && files[s.record].refs > 0 && Live(files[s.record].number)
    {
      var uses, others := Uses(current, users, builder), Others(pending, builder);
      assert id in uses;
      UsedListed(versions, files, uses, others, nextVersion, nextRecord, id);
      var v := versions[IndexOf(versions, id)];
      assert v in versions;
      hide Uses, Others, Records, RecordsOf;
      SlotsHeld(versions, files, uses, others, nextVersion, nextRecord, v.slots, v);
    }
  }

  /** A table that no version lists, as one that is just being flushed: a sweep keeps it exactly as
      long as its number is in pending_outputs_.  Once the number is erased there, before the edit
      that adds the file is applied, a sweep would delete the table. */
  method SweepDuringFlush(vs: VersionSet, number: nat, pendingOutputs: set<nat>, logNumber: nat,
                          manifestFileNumber: nat)
    returns (kept: seq<(FileType, nat)>)
    requires vs.Valid() && forall f | f in vs.files :: vs.files[f].number != number
    ensures (Table, number) in kept <==> number in pendingOutputs
  {
    kept := vs.DeleteObsoleteFiles([(Table, number)], pendingOutputs, logNumber, 0, manifestFileNumber, false);
    assert (Table, number) in [(Table, number)] && !vs.Live(number);
  }

  /** What a name in the database directory stands for. */
  datatype FileType = Log | Descriptor | Table | Temp | Fixed

  ghost predicate SlotNumber(slots: seq<Slot>, files: map<nat, FileMetaData>, n: nat) {
    exists s :: s in slots && s.record in files && files[s.record].number == n
  }

  ghost predicate NumberIn(versions: seq<Version>, files: map<nat, FileMetaData>, n: nat) {
    exists v, s :: v in versions && s in v.slots && s.record in files && files[s.record].number == n
  }

  lemma SlotNumberNext(slots: seq<Slot>, files: map<nat, FileMetaData>, j: nat)
    requires j < |slots| && slots[j].record in files
    ensures forall n ::
            SlotNumber(slots[..j + 1], files, n)
            <==> SlotNumber(slots[..j], files, n) || n == files[slots[j].record].number
  {
    assert slots[..j + 1] == slots[..j] + [slots[j]];
    forall n
      ensures SlotNumber(slots[..j + 1], files, n)
              <==> SlotNumber(slots[..j], files, n) || n == files[slots[j].record].number
    {
      if SlotNumber(slots[..j], files, n) {
        var s :| s in slots[..j] && s.record in files && files[s.record].number == n;
        assert s in slots[..j + 1];
      }
      if n == files[slots[j].record].number {
        assert slots[j] in slots[..j + 1];
      }
    }
  }

  lemma NumberInNext(versions: seq<Version>, files: map<nat, FileMetaData>, i: nat)
    requires i < |versions|
    ensures forall n ::
            NumberIn(versions[..i + 1], files, n)
            <==> NumberIn(versions[..i], files, n) || SlotNumber(versions[i].slots, files, n)
  {
    assert versions[..i + 1] == versions[..i] + [versions[i]];
    forall n
      ensures NumberIn(versions[..i + 1], files, n)
              <==> NumberIn(versions[..i], files, n) || SlotNumber(versions[i].slots, files, n)
    {
      if SlotNumber(versions[i].slots, files, n) {
        var s :| s in versions[i].slots && s.record in files && files[s.record].number == n;
        assert versions[i] in versions[..i + 1];
      }
    }
  }

  lemma {:induction false} RecordIn(slots: seq<Slot>, s: Slot)
    requires s in slots
    ensures s.record in Records(slots)
  {
    var i :| 0 <= i < |slots| && slots[i] == s;
    RecordsMember(slots, i);
  }

  lemma SlotsHeld(versions: seq<Version>, files: map<nat, FileMetaData>, uses: multiset<nat>, others: multiset<nat>,
                  nextVersion: nat, nextRecord: nat, slots: seq<Slot>, v: Version)
    requires Sound(versions, files, uses, others, nextVersion, nextRecord) && v in versions && slots == v.slots
    ensures forall s | s in slots :: s.record in files && files[s.record].refs > 0
    ensures v.refs > 0
  {
    var i :| 0 <= i < |versions| && versions[i] == v;
    RecordsOfRemove(versions, i);
    hide Records, RecordsOf;
    forall s | s in slots
      ensures s.record in files && files[s.record].refs > 0
    {
      RecordIn(slots, s);
      assert s.record in RecordsOf(versions) + others;
    }
  }

  lemma AddedHeld(versions: seq<Version>, files: map<nat, FileMetaData>, uses: multiset<nat>,
                  pending: Option<seq<Slot>>, builder: Option<Builder>, nextVersion: nat, nextRecord: nat)
    requires Sound(versions, files, uses, Others(pending, builder), nextVersion, nextRecord) && builder.Some?
    ensures forall s | s in builder.value.added :: s.record in files
  {
    hide Records, RecordsOf;
    forall s | s in builder.value.added
      ensures s.record in files
    {
      RecordIn(builder.value.added, s);
      assert s.record in RecordsOf(versions) + Others(pending, builder);
    }
  }

  lemma SameKept(slots: seq<Slot>, deleted: set<(nat, nat)>, files: map<nat, FileMetaData>, was: map<nat, FileMetaData>)
    requires SameNumbers(files, was) && forall s | s in slots :: s.record in was
    ensures Kept(slots, deleted, files) == Kept(slots, deleted, was)
  {
    if slots != [] {
      SameKept(slots[..|slots| - 1], deleted, files, was);
    }
  }

  lemma BaseUsed(current: nat, users: multiset<nat>, b: Builder)
    ensures b.base in Uses(current, users, Some(b))
    ensures Uses(current, users, Some(b)) - multiset{b.base} == Uses(current, users, None)
  {
  }

  lemma UsesWithout(current: nat, users: multiset<nat>)
    ensures current in Uses(current, users, None)
    ensures Uses(current, users, None) - multiset{current} == users
            && Uses(current, users, None) == users + multiset{current}
  {
  }

  lemma OthersEmpty(builder: Option<Builder>)
    ensures Others(Some([]), builder) == Others(None, builder)
  {
  }

  lemma OthersBuilder(pending: Option<seq<Slot>>, b: Builder)
    ensures Others(pending, Some(b)) == Others(pending, None) + Records(b.added)
  {
  }

  lemma OthersPending(pending: seq<Slot>, builder: Option<Builder>)
    ensures Others(Some(pending), builder) == Others(None, builder) + Records(pending)
  {
  }

  lemma KeptNext(slots: seq<Slot>, deleted: set<(nat, nat)>, files: map<nat, FileMetaData>, i: nat)
    requires i < |slots| && forall s | s in slots :: s.record in files
    ensures slots[i] in slots
    ensures Kept(slots[..i + 1], deleted, files)
            == Kept(slots[..i], deleted, files) + if (slots[i].level, files[slots[i].record].number) in deleted then []
              else [slots[i]]
  {
    assert slots[..i + 1][..i] == slots[..i];
  }

  /** Exactly the slots whose file is not deleted at their level are kept, as often as they were there. */
  lemma {:induction false} KeptMembers(slots: seq<Slot>, deleted: set<(nat, nat)>, files: map<nat, FileMetaData>)
    requires forall s | s in slots :: s.record in files
    ensures forall s ::
            s in Kept(slots, deleted, files) <==> s in slots && (s.level, files[s.record].number) !in deleted
    ensures forall s | s in Kept(slots, deleted, files) ::
            multiset(Kept(slots, deleted, files))[s] == multiset(slots)[s]
  {
    if slots == [] {
    } else {
      var n := |slots| - 1;
      KeptMembers(slots[..n], deleted, files);
      assert slots == slots[..n] + [slots[n]];
    }
  }

  lemma KeptNone(slots: seq<Slot>, deleted: set<(nat, nat)>, files: map<nat, FileMetaData>)
    ensures Kept(slots[..0], deleted, files) == []
  {
  }

  lemma OthersMore(pending: seq<Slot>, builder: Option<Builder>, s: Slot)
    ensures Others(Some(pending + [s]), builder) == Others(Some(pending), builder) + multiset{s.record}
  {
    SlotAdded(pending, s);
  }

  lemma UsesLess(current: nat, users: multiset<nat>, builder: Option<Builder>, id: nat)
    requires id in users
    ensures id in Uses(current, users, builder)
    ensures Uses(current, users - multiset{id}, builder) == Uses(current, users, builder) - multiset{id}
  {
  }

  lemma {:induction false} SlotAdded(slots: seq<Slot>, s: Slot)
    ensures Records(slots + [s]) == Records(slots) + multiset{s.record}
  {
    if slots != [] {
      SlotAdded(slots[1..], s);
      assert (slots + [s])[1..] == slots[1..] + [s];
    } else {
      assert ([] + [s])[1..] == slots;
    }
  }
}
