// Every interleaving of the callers of DBImpl::Write and DBImpl::Get (db/db_impl.cc).  What happens
// under the mutex in one piece is one step; the waits, the log append and every single insertion
// into the memtable are steps of their own, since the mutex is free around them.
module GroupCommit {
  import opened Wrappers
  import opened Coding
  import opened Batches
  import opened WriteQueue

  /** Where the thread of one writer is.  While it leads it knows how many writers it covers, the
      first sequence number of the group, and the group's operations. */
  datatype Pc =
    | Waiting
    | MakingRoom
    | Logging(covered: nat, first: nat, ops: seq<Op>)
    | Inserting(covered: nat, first: nat, ops: seq<Op>, inserted: nat)
    | Finishing(covered: nat, first: nat, ops: seq<Op>, ok: bool)
    | Returned(ok: bool)

  /** What one leader has done: whom it covered, the numbers it took, and whether they were applied. */
  datatype Group = Group(members: seq<nat>, first: nat, ops: seq<Op>, applied: bool)

  /** A Get under way: the snapshot it took, and how many groups had been finished by then. */
  datatype Reader = Reader(snapshot: nat, seen: nat)

  /** requests, pcs and done are indexed by writer, in order of arrival. */
  datatype State = State(
    requests: seq<Request>,
    pcs: seq<Pc>,
    done: seq<Option<bool>>,
    queue: seq<nat>,
    tmp: seq<Op>,
    lastSequence: nat,
    mem: set<(nat, Op)>,
    groups: seq<Group>,
    readers: seq<Reader>)

  datatype Action =
    | Arrive(request: Request)
    | Lead(id: nat)
    | RoomMade(id: nat, ok: bool)
    | Append(id: nat, ok: bool)
    | Insert(id: nat)
    | AllInserted(id: nat)
    | Finish(id: nat)
    | Wake(id: nat)
    | StartGet

  // -------------------------------------------------------------------- what was applied

  ghost function Entries(first: nat, ops: seq<Op>): set<(nat, Op)> {
    set i | 0 <= i < |ops| :: (first + i, ops[i])
  }

  ghost function Applied(groups: seq<Group>): set<(nat, Op)> {
    if groups == [] then {}
    else
      var n := |groups| - 1;
      Applied(groups[..n]) + if groups[n].applied then Entries(groups[n].first, groups[n].ops) else {}
  }

  function EndOf(base: nat, groups: seq<Group>): (r: nat)
    ensures r >= base
  {
    if groups == [] then base else EndOf(base, groups[..|groups| - 1]) + |groups[|groups| - 1].ops|
  }

  /** The writers finished by the groups, in order. */
  function MembersOf(groups: seq<Group>): seq<nat> {
    if groups == [] then [] else MembersOf(groups[..|groups| - 1]) + groups[|groups| - 1].members
  }

  /** What a Get with the given snapshot can see. */
  ghost function Visible(mem: set<(nat, Op)>, snapshot: nat): set<(nat, Op)> {
    set e | e in mem && e.0 <= snapshot
  }

  function Pick(requests: seq<Request>, ids: seq<nat>): (r: seq<Request>)
    requires forall i | 0 <= i < |ids| :: ids[i] < |requests|
    ensures |r| == |ids|
  {
    seq(|ids|, i requires 0 <= i < |ids| => requests[ids[i]])
  }

  ghost predicate AllBelow(ids: seq<nat>, n: nat) {
    forall i | 0 <= i < |ids| :: ids[i] < n
  }

  // ------------------------------------------------------------------------ the invariant

  predicate Leading(pc: Pc) {
    pc.MakingRoom? || pc.Logging? || pc.Inserting? || pc.Finishing?
  }

  /** Everybody is in line exactly once, in order of arrival: finished, or waiting behind. */
  ghost predicate InLine(s: State) {
    && |s.requests| == |s.pcs| == |s.done| == |MembersOf(s.groups)| + |s.queue|
    && (forall i | 0 <= i < |MembersOf(s.groups)| :: MembersOf(s.groups)[i] == i)
    && (forall i | 0 <= i < |s.queue| :: s.queue[i] == |MembersOf(s.groups)| + i)
  }

  /** Nobody but the front of the queue leads, and whoever is in the queue has no answer yet. */
  ghost predicate OneLeader(s: State)
    requires InLine(s)
  {
    forall id | |MembersOf(s.groups)| <= id < |s.pcs| ::
      s.done[id].None? && !s.pcs[id].Returned? && (Leading(s.pcs[id]) ==> id == |MembersOf(s.groups)|)
  }

  ghost predicate Answer(s: State, id: nat, ok: bool) {
    && id < |s.pcs| && id < |s.done|
    && (s.pcs[id] == Returned(ok) || (s.pcs[id].Waiting? && s.done[id] == Some(ok)))
  }

  /** Every member of a finished group has, or is about to get, the leader's answer. */
  ghost predicate Answered(s: State) {
    && (forall g, j | 0 <= g < |s.groups| && 0 <= j < |s.groups[g].members| ::
        Answer(s, s.groups[g].members[j], s.groups[g].applied))
    && (forall id | 0 <= id < |MembersOf(s.groups)| ::
        id < |s.pcs| && id < |s.done| && (s.pcs[id].Returned? || (s.pcs[id].Waiting? && s.done[id].Some?)))
  }

  /** The group that covers the given writers: their operations in order, no sync write under a
      leader that does not sync - or nothing at all, if there was no room. */
  ghost predicate GroupOk(requests: seq<Request>, members: seq<nat>, ops: seq<Op>, applied: bool) {
    && |members| > 0 && AllBelow(members, |requests|)
    && SyncCovered(Pick(requests, members), |members|)
    && (ops == GroupOps(Pick(requests, members)) || (!applied && ops == [] && |members| == 1))
  }

  /** Finished groups took consecutive sequence numbers, each right after the one before. */
  ghost predicate GroupsOk(base: nat, s: State) {
    && s.lastSequence == EndOf(base, s.groups)
    && forall g | 0 <= g < |s.groups| ::
         && s.groups[g].first == EndOf(base, s.groups[..g]) + 1
         && GroupOk(s.requests, s.groups[g].members, s.groups[g].ops, s.groups[g].applied)
  }

  function Front(s: State): Pc {
    if s.queue != [] && s.queue[0] < |s.pcs| then s.pcs[s.queue[0]] else Waiting
  }

  /** A leader's group is the front of the queue, and its numbers come right after LastSequence. */
  ghost predicate LeaderOk(s: State) {
    var pc := Front(s);
    pc.Logging? || pc.Inserting? || pc.Finishing? ==>
      && 0 < pc.covered <= |s.queue| && pc.first == s.lastSequence + 1
      && GroupOk(s.requests, s.queue[..pc.covered], pc.ops, pc.Logging? || pc.Inserting? || pc.ok)
      && (pc.Inserting? ==> pc.inserted <= |pc.ops|)
  }

  ghost function InFlight(pc: Pc): set<(nat, Op)> {
    if pc.Inserting? && pc.inserted <= |pc.ops| then Entries(pc.first, pc.ops[..pc.inserted])
    else if pc.Finishing? && pc.ok then Entries(pc.first, pc.ops)
    else {}
  }

  /** The memtable holds the applied groups and what the leader has inserted so far. */
  ghost predicate MemOk(s: State) {
    s.mem == Applied(s.groups) + InFlight(Front(s))
  }

  /** The temporary batch is in use only while a group is being written. */
  ghost predicate TmpOk(s: State) {
    s.tmp != [] ==> Front(s).Logging? || Front(s).Inserting? || Front(s).Finishing?
  }

  ghost predicate ReadersOk(base: nat, s: State) {
    forall r | 0 <= r < |s.readers| ::
      s.readers[r].seen <= |s.groups| && s.readers[r].snapshot == EndOf(base, s.groups[..s.readers[r].seen])
  }

  ghost predicate Inv(base: nat, s: State) {
    && InLine(s) && OneLeader(s) && Answered(s) && GroupsOk(base, s) && LeaderOk(s) && MemOk(s) && TmpOk(s)
      && ReadersOk(base, s)
  }

  // ---------------------------------------------------------------------------- the steps

  ghost predicate Enabled(s: State, a: Action) {
    match a
    case Arrive(_) => true
    case Lead(id) => id < |s.pcs| && id < |s.done| && s.pcs[id].Waiting? && s.done[id].None? && s.queue != []
      && s.queue[0] == id
    case RoomMade(id, _) => id < |s.pcs| && s.pcs[id].MakingRoom?
    case Append(id, _) => id < |s.pcs| && s.pcs[id].Logging?
    case Insert(id) => id < |s.pcs| && s.pcs[id].Inserting? && s.pcs[id].inserted < |s.pcs[id].ops|
    case AllInserted(id) => id < |s.pcs| && s.pcs[id].Inserting? && s.pcs[id].inserted == |s.pcs[id].ops|
    case Finish(id) => id < |s.pcs| && s.pcs[id].Finishing?
    case Wake(id) => id < |s.pcs| && id < |s.done| && s.pcs[id].Waiting? && s.done[id].Some?
    case StartGet => true
  }

  /** The batch group is put together in tmp_batch_ as soon as a second batch joins. */
  function TmpFor(group: seq<Request>): seq<Op> {
    if exists i :: 0 < i < |group| && group[i].batch.Some? then GroupOps(group) else []
  }

  /** The loop that pops the covered writers and tells all but the leader. */
  function Signalled(done: seq<Option<bool>>, members: seq<nat>, id: nat, ok: bool): (r: seq<Option<bool>>)
    ensures |r| == |done|
  {
    seq(|done|, i requires 0 <= i < |done| => if i in members && i != id then Some(ok) else done[i])
  }

  ghost function Next(base: nat, s: State, a: Action): State
    requires Inv(base, s) && Enabled(s, a)
  {
    match a
    case Arrive(request) =>
      s.(requests := s.requests + [request], pcs := s.pcs + [Waiting], done := s.done + [None],
         queue := s.queue + [|s.requests|])
    case Lead(id) => s.(pcs := s.pcs[id := MakingRoom])
    case RoomMade(id, ok) =>
      if ok && s.requests[id].batch.Some? then
        FrontLeads(base, s, id);
        var line := Pick(s.requests, s.queue);
        var covered := GroupSize(line);
        var group := Pick(s.requests, s.queue[..covered]);
        s.(pcs := s.pcs[id := Logging(covered, s.lastSequence + 1, GroupOps(group))], tmp := TmpFor(group))
      else s.(pcs := s.pcs[id := Finishing(1, s.lastSequence + 1, [], ok)])
    case Append(id, ok) =>
      var pc := s.pcs[id];
      s.(pcs := s.pcs[id := if ok then Inserting(pc.covered, pc.first, pc.ops, 0)
                      else Finishing(pc.covered, pc.first, pc.ops, false)])
    case Insert(id) =>
      var pc := s.pcs[id];
      s.(pcs := s.pcs[id := pc.(inserted := pc.inserted + 1)],
         mem := s.mem + {(pc.first + pc.inserted, pc.ops[pc.inserted])})
    case AllInserted(id) =>
      var pc := s.pcs[id];
      s.(pcs := s.pcs[id := Finishing(pc.covered, pc.first, pc.ops, true)])
    case Finish(id) =>
      FrontLeads(base, s, id);
      var pc := s.pcs[id];
      var members := s.queue[..pc.covered];
      s.(pcs := s.pcs[id := Returned(pc.ok)],
         done := Signalled(s.done, members, id, pc.ok),
         queue := s.queue[pc.covered..],
         tmp := [],
         lastSequence := s.lastSequence + |pc.ops|,
         groups := s.groups + [Group(members, pc.first, pc.ops, pc.ok)])
    case Wake(id) => s.(pcs := s.pcs[id := Returned(s.done[id].value)])
    case StartGet => s.(readers := s.readers + [Reader(s.lastSequence, |s.groups|)])
  }

  /** Whoever leads is at the front of the queue. */
  lemma FrontLeads(base: nat, s: State, id: nat)
    requires Inv(base, s) && id < |s.pcs| && Leading(s.pcs[id])
    ensures s.queue != [] && s.queue[0] == id == |MembersOf(s.groups)| && Front(s) == s.pcs[id]
    ensures AllBelow(s.queue, |s.requests|)
    ensures (s.pcs[id].Logging? || s.pcs[id].Inserting? || s.pcs[id].Finishing?) ==> 0 < s.pcs[id].covered <= |s.queue|
  {
    hide GroupsOk, MemOk, ReadersOk;
    assert forall i | 0 <= i < |MembersOf(s.groups)| :: i < |s.pcs| && !Leading(s.pcs[i]);
  }

  // --------------------------------------------------------------- every step keeps it all

  lemma PickSame(requests: seq<Request>, more: seq<Request>, ids: seq<nat>)
    requires AllBelow(ids, |requests|)
    ensures AllBelow(ids, |requests + more|) && Pick(requests + more, ids) == Pick(requests, ids)
  {
  }

  lemma GroupStays(requests: seq<Request>, more: seq<Request>, members: seq<nat>, ops: seq<Op>, applied: bool)
    requires GroupOk(requests, members, ops, applied)
    ensures GroupOk(requests + more, members, ops, applied)
  {
    PickSame(requests, more, members);
  }

  lemma GroupsStay(base: nat, s: State, s': State, more: seq<Request>)
    requires GroupsOk(base, s) && s'.groups == s.groups && s'.lastSequence == s.lastSequence
             && s'.requests == s.requests + more
    ensures GroupsOk(base, s')
  {
    hide GroupOk;
    forall g | 0 <= g < |s.groups|
      ensures GroupOk(s'.requests, s.groups[g].members, s.groups[g].ops, s.groups[g].applied)
    {
      GroupStays(s.requests, more, s.groups[g].members, s.groups[g].ops, s.groups[g].applied);
    }
  }

  lemma ArriveOk(base: nat, s: State, request: Request)
    requires Inv(base, s)
    ensures Inv(base, Next(base, s, Arrive(request)))
  {
    hide GroupsOk, GroupOk, Applied, Entries, MembersOf, EndOf;
    var s' := Next(base, s, Arrive(request));
    GroupsStay(base, s, s', [request]);
    var pc := Front(s);
    assert Front(s') == if s.queue != [] then pc else Waiting;
    if pc.Logging? || pc.Inserting? || pc.Finishing? {
      assert s'.queue[..pc.covered] == s.queue[..pc.covered];
      GroupStays(s.requests, [request], s.queue[..pc.covered], pc.ops, pc.Logging? || pc.Inserting? || pc.ok);
    }
  }

  /** A step that only moves one writer on, within its turn or out of the finished ones. */
  lemma MovedOn(base: nat, s: State, s': State, id: nat, pc: Pc)
    requires Inv(base, s) && id < |s.pcs| && s' == s.(pcs := s.pcs[id := pc], mem := s'.mem, tmp := s'.tmp)
    requires if id < |MembersOf(s.groups)| then s.done[id].Some? && s.pcs[id].Waiting?
             && pc == Returned(s.done[id].value)
             else id == |MembersOf(s.groups)| && Leading(pc)
    requires LeaderOk(s') && MemOk(s') && TmpOk(s')
    ensures Inv(base, s')
  {
    hide LeaderOk, MemOk, TmpOk, GroupOk, Applied, Entries, MembersOf, EndOf;
    GroupsStay(base, s, s', []);
    assert s.requests + [] == s.requests;
    forall g, j | 0 <= g < |s.groups| && 0 <= j < |s.groups[g].members|
      ensures Answer(s', s.groups[g].members[j], s.groups[g].applied)
    {
      var m := s.groups[g].members[j];
      assert Answer(s, m, s.groups[g].applied);
    }
  }

  lemma LeadOk(base: nat, s: State, id: nat)
    requires Inv(base, s) && Enabled(s, Lead(id))
    ensures Inv(base, Next(base, s, Lead(id)))
  {
    hide GroupsOk, GroupOk, Applied, Entries, MembersOf, EndOf, ReadersOk, Answered;
    MovedOn(base, s, Next(base, s, Lead(id)), id, MakingRoom);
  }

  lemma RoomMadeOk(base: nat, s: State, id: nat, ok: bool)
    requires Inv(base, s) && Enabled(s, RoomMade(id, ok))
    ensures Inv(base, Next(base, s, RoomMade(id, ok)))
  {
    hide GroupsOk, Applied, Entries, MembersOf, EndOf, ReadersOk, Answered, GroupSize, SyncCovered, GroupOps;
    FrontLeads(base, s, id);
    var s' := Next(base, s, RoomMade(id, ok));
    var line := Pick(s.requests, s.queue);
    if ok && s.requests[id].batch.Some? {
      var covered := GroupSize(line);
      assert Pick(s.requests, s.queue[..covered]) == line[..covered];
      GroupSync(line);
    } else {
      OneMember(s.requests, id, ok);
      assert s.queue[..1] == [id];
      NothingEntered(s.lastSequence + 1);
    }
    MovedOn(base, s, s', id, s'.pcs[id]);
  }

  lemma NothingEntered(first: nat)
    ensures Entries(first, []) == {}
  {
  }

  lemma OneMember(requests: seq<Request>, id: nat, ok: bool)
    requires id < |requests| && (ok ==> requests[id].batch.None?)
    ensures GroupOk(requests, [id], [], ok)
  {
    var group := Pick(requests, [id]);
    assert group[..0] == [] && GroupOps(group[..0]) == [];
  }

  /** The group a leader forms covers no sync write unless the leader syncs. */
  lemma GroupSync(line: seq<Request>)
    requires |line| > 0 && line[0].batch.Some?
    ensures SyncCovered(line[..GroupSize(line)], GroupSize(line))
  {
    var first := ByteSize(line[0].batch.value);
    CoveredSync(line, 1, first, MaxSize(first));
  }

  lemma AppendOk(base: nat, s: State, id: nat, ok: bool)
    requires Inv(base, s) && Enabled(s, Append(id, ok))
    ensures Inv(base, Next(base, s, Append(id, ok)))
  {
    hide GroupsOk, Applied, Entries, MembersOf, EndOf, ReadersOk, Answered, GroupOps, SyncCovered;
    FrontLeads(base, s, id);
    var s' := Next(base, s, Append(id, ok));
    NothingEntered(s.pcs[id].first);
    assert s.pcs[id].ops[..0] == [];
    assert !ok ==> GroupOk(s.requests, s.queue[..s.pcs[id].covered], s.pcs[id].ops, false);
    MovedOn(base, s, s', id, s'.pcs[id]);
  }

  lemma InsertOk(base: nat, s: State, id: nat)
    requires Inv(base, s) && Enabled(s, Insert(id))
    ensures Inv(base, Next(base, s, Insert(id)))
  {
    hide GroupsOk, Applied, MembersOf, EndOf, ReadersOk, Answered, GroupOk, Entries;
    FrontLeads(base, s, id);
    var s' := Next(base, s, Insert(id));
    var pc := s.pcs[id];
    EntriesGrow(pc.first, pc.ops, pc.inserted);
    MovedOn(base, s, s', id, s'.pcs[id]);
  }

  lemma EntriesGrow(first: nat, ops: seq<Op>, i: nat)
    requires i < |ops|
    ensures Entries(first, ops[..i + 1]) == Entries(first, ops[..i]) + {(first + i, ops[i])}
  {
    forall e
      ensures e in Entries(first, ops[..i + 1]) <==> e in Entries(first, ops[..i]) || e == (first + i, ops[i])
    {
      if e in Entries(first, ops[..i + 1]) {
        var j :| 0 <= j < i + 1 && e == (first + j, ops[..i + 1][j]);
        assert j < i ==> ops[..i][j] == ops[j];
      }
      if e in Entries(first, ops[..i]) {
        var j :| 0 <= j < i && e == (first + j, ops[..i][j]);
        assert ops[..i + 1][j] == ops[j];
      }
      assert ops[..i + 1][i] == ops[i];
    }
  }

  lemma AllInsertedOk(base: nat, s: State, id: nat)
    requires Inv(base, s) && Enabled(s, AllInserted(id))
    ensures Inv(base, Next(base, s, AllInserted(id)))
  {
    hide GroupsOk, Applied, MembersOf, EndOf, ReadersOk, Answered, GroupOk, Entries;
    FrontLeads(base, s, id);
    var s' := Next(base, s, AllInserted(id));
    assert s.pcs[id].ops[..|s.pcs[id].ops|] == s.pcs[id].ops;
    MovedOn(base, s, s', id, s'.pcs[id]);
  }

  lemma WakeOk(base: nat, s: State, id: nat)
    requires Inv(base, s) && Enabled(s, Wake(id))
    ensures Inv(base, Next(base, s, Wake(id)))
  {
    hide GroupsOk, Applied, MembersOf, EndOf, ReadersOk, GroupOk, Entries;
    var s' := Next(base, s, Wake(id));
    assert id < |MembersOf(s.groups)|;
    assert Front(s') == Front(s);
    MovedOn(base, s, s', id, s'.pcs[id]);
  }

  lemma GroupAppended(base: nat, groups: seq<Group>, g: Group)
    ensures MembersOf(groups + [g]) == MembersOf(groups) + g.members
    ensures EndOf(base, groups + [g]) == EndOf(base, groups) + |g.ops|
    ensures Applied(groups + [g]) == Applied(groups) + if g.applied then Entries(g.first, g.ops) else {}
  {
    hide Entries;
    assert (groups + [g])[..|groups|] == groups;
  }

  /** The state after Finish, as the invariants see it. */
  lemma FinishOk(base: nat, s: State, id: nat)
    requires Inv(base, s) && Enabled(s, Finish(id))
    ensures Inv(base, Next(base, s, Finish(id)))
  {
    hide Applied, MembersOf, EndOf, GroupOk, Entries, Signalled;
    FrontLeads(base, s, id);
    var s' := Next(base, s, Finish(id));
    var pc, n := s.pcs[id], |s.groups|;
    var members := s.queue[..pc.covered];
    var g := Group(members, pc.first, pc.ops, pc.ok);
    GroupAppended(base, s.groups, g);
    SignalledAt(s.done, members, id, pc.ok);
    FinishInLine(base, s, s', id);
    forall i | 0 <= i < |s'.groups|
      ensures s'.groups[i].first == EndOf(base, s'.groups[..i]) + 1
      ensures GroupOk(s'.requests, s'.groups[i].members, s'.groups[i].ops, s'.groups[i].applied)
    {
      assert s'.groups[..i] == s.groups[..i];
    }
    forall r | 0 <= r < |s'.readers|
      ensures s'.readers[r].seen <= |s'.groups|
              && s'.readers[r].snapshot == EndOf(base, s'.groups[..s'.readers[r].seen])
    {
      assert s'.groups[..s'.readers[r].seen] == s.groups[..s'.readers[r].seen];
    }
    assert Front(s').Waiting?;
    FinishAnswered(base, s, s', id);
  }

  lemma SignalledAt(done: seq<Option<bool>>, members: seq<nat>, id: nat, ok: bool)
    ensures var r := Signalled(done, members, id, ok);
            forall i | 0 <= i < |done| :: r[i] == if i in members && i != id then Some(ok) else done[i]
  {
  }

  lemma FinishInLine(base: nat, s: State, s': State, id: nat)
    requires Inv(base, s) && id < |s.pcs| && s.pcs[id].Finishing? && s.queue != [] && s.queue[0] == id
    requires 0 < s.pcs[id].covered <= |s.queue|
    requires s'.requests == s.requests && |s'.pcs| == |s'.done| == |s.pcs|
    requires s'.queue == s.queue[s.pcs[id].covered..]
    requires MembersOf(s'.groups) == MembersOf(s.groups) + s.queue[..s.pcs[id].covered]
    requires s'.pcs == s.pcs[id := Returned(s.pcs[id].ok)]
    requires forall i | 0 <= i < |s.done| ::
               s'.done[i] == if i in s.queue[..s.pcs[id].covered] && i != id then Some(s.pcs[id].ok) else s.done[i]
    ensures InLine(s') && OneLeader(s')
  {
    hide GroupsOk, LeaderOk, MemOk, TmpOk, ReadersOk, Answered, MembersOf;
    var members := s.queue[..s.pcs[id].covered];
    assert forall i | 0 <= i < |members| :: members[i] == |MembersOf(s.groups)| + i;
  }

  lemma FinishAnswered(base: nat, s: State, s': State, id: nat)
    requires Inv(base, s) && id < |s.pcs| && s.pcs[id].Finishing? && s.queue != [] && s.queue[0] == id
    requires 0 < s.pcs[id].covered <= |s.queue| && InLine(s') && |s'.pcs| == |s.pcs|
    requires var pc := s.pcs[id];
             && s'.groups == s.groups + [Group(s.queue[..pc.covered], pc.first, pc.ops, pc.ok)]
             && s'.pcs == s.pcs[id := Returned(pc.ok)]
             && forall i | 0 <= i < |s.done| ::
                  s'.done[i] == if i in s.queue[..pc.covered] && i != id then Some(pc.ok) else s.done[i]
    requires MembersOf(s'.groups) == MembersOf(s.groups) + s.queue[..s.pcs[id].covered]
    ensures Answered(s')
  {
    hide GroupsOk, LeaderOk, MemOk, TmpOk, ReadersOk, MembersOf;
    var m, pc := |MembersOf(s.groups)|, s.pcs[id];
    var members := s.queue[..pc.covered];
    assert forall i | 0 <= i < |members| :: members[i] in members && members[i] == m + i;
    forall i | m <= i < m + |members|
      ensures Answer(s', i, pc.ok) && i in members
    {
      assert members[i - m] == i;
    }
    forall g, j | 0 <= g < |s'.groups| && 0 <= j < |s'.groups[g].members|
      ensures Answer(s', s'.groups[g].members[j], s'.groups[g].applied)
    {
      if g < |s.groups| {
        assert Answer(s, s.groups[g].members[j], s.groups[g].applied);
      }
    }
  }

  lemma StartGetOk(base: nat, s: State)
    requires Inv(base, s)
    ensures Inv(base, Next(base, s, StartGet))
  {
    hide Applied, MembersOf, EndOf, GroupOk, Entries;
    var s' := Next(base, s, StartGet);
    assert s.groups[..|s.groups|] == s.groups;
    assert Front(s') == Front(s);
  }

  /** Every step of every thread keeps the queue, the groups, the memtable and the snapshots in
      order. */
  lemma NextKeepsInv(base: nat, s: State, a: Action)
    requires Inv(base, s) && Enabled(s, a)
    ensures Inv(base, Next(base, s, a))
  {
    hide Inv;
    match a {
      case Arrive(request) => ArriveOk(base, s, request);
      case Lead(id) => LeadOk(base, s, id);
      case RoomMade(id, ok) => RoomMadeOk(base, s, id, ok);
      case Append(id, ok) => AppendOk(base, s, id, ok);
      case Insert(id) => InsertOk(base, s, id);
      case AllInserted(id) => AllInsertedOk(base, s, id);
      case Finish(id) => FinishOk(base, s, id);
      case Wake(id) => WakeOk(base, s, id);
      case StartGet => StartGetOk(base, s);
    }
  }

  ghost function Start(base: nat): State {
    State([], [], [], [], [], base, {}, [], [])
  }

  lemma StartOk(base: nat)
    ensures Inv(base, Start(base))
  {
  }

  ghost function Step(base: nat, s: State, a: Action): (s': State)
    requires Inv(base, s)
    ensures Inv(base, s')
  {
    if Enabled(s, a) then (NextKeepsInv(base, s, a); Next(base, s, a)) else s
  }

  /** The state after any sequence of steps, leaving out steps that cannot be taken. */
  ghost function Run(base: nat, actions: seq<Action>): (s: State)
    ensures Inv(base, s)
  {
    if actions == [] then (StartOk(base); Start(base))
    else Step(base, Run(base, actions[..|actions| - 1]), actions[|actions| - 1])
  }

  // -------------------------------------------------------------- what the runs guarantee

  /** The numbers of applied entries: the first k groups lie at or below their end, the others above. */
  lemma {:induction false} AppliedSplits(base: nat, groups: seq<Group>, k: nat, e: (nat, Op))
    requires k <= |groups| && Consecutive(base, groups)
    ensures e in Applied(groups) && e.0 <= EndOf(base, groups[..k]) <==> e in Applied(groups[..k])
    ensures e in Applied(groups) ==> e.0 <= EndOf(base, groups)
    ensures EndOf(base, groups[..k]) <= EndOf(base, groups)
  {
    hide Entries, Applied, EndOf, Consecutive;
    if groups == [] {
      NothingApplied(base);
    } else {
      var n := |groups| - 1;
      var front := groups[..n];
      LastApplied(base, groups, e);
      if k == |groups| {
        assert groups[..k] == groups;
        AppliedSplits(base, front, n, e);
      } else {
        AppliedSplits(base, front, k, e);
        assert front[..k] == groups[..k];
      }
    }
  }

  /** Groups that took consecutive numbers after base. */
  ghost predicate Consecutive(base: nat, groups: seq<Group>) {
    forall i | 0 <= i < |groups| :: groups[i].first == EndOf(base, groups[..i]) + 1
  }

  lemma ConsecutivePrefix(base: nat, groups: seq<Group>, k: nat)
    requires Consecutive(base, groups) && k <= |groups|
    ensures Consecutive(base, groups[..k])
  {
    hide EndOf;
    var some := groups[..k];
    assert forall i | 0 <= i < |some| :: some[..i] == groups[..i] && some[i] == groups[i];
  }

  lemma NothingApplied(base: nat)
    ensures Applied([]) == {} && EndOf(base, []) == base
  {
  }

  /** What the last group adds: its own entries, numbered after all others. */
  lemma LastApplied(base: nat, groups: seq<Group>, e: (nat, Op))
    requires groups != [] && Consecutive(base, groups)
    ensures var n := |groups| - 1;
            var front, last := groups[..n], groups[n];
            && Consecutive(base, front)
            && EndOf(base, groups) == EndOf(base, front) + |last.ops|
            && Applied(groups) == Applied(front) + (if last.applied then Entries(last.first, last.ops) else {})
            && (e in Entries(last.first, last.ops) ==> EndOf(base, front) < e.0 <= EndOf(base, groups))
  {
    hide Entries;
    var n := |groups| - 1;
    ConsecutivePrefix(base, groups, n);
    if e in Entries(groups[n].first, groups[n].ops) {
      EntryNumber(groups[n].first, groups[n].ops, e);
    }
  }

  lemma EntryNumber(first: nat, ops: seq<Op>, e: (nat, Op))
    requires e in Entries(first, ops)
    ensures first <= e.0 < first + |ops|
  {
  }

  /** In every interleaving a Get sees exactly the groups finished when it took its snapshot, each
      of them whole: not even the leader's half-inserted group shows. */
  lemma GetSeesWholeGroups(base: nat, s: State, r: nat)
    requires Inv(base, s) && r < |s.readers|
    ensures s.readers[r].seen <= |s.groups|
    ensures Visible(s.mem, s.readers[r].snapshot) == Applied(s.groups[..s.readers[r].seen])
  {
    hide MembersOf, GroupOk, InLine, OneLeader, Answered, TmpOk;
    var k, snapshot := s.readers[r].seen, s.readers[r].snapshot;
    forall e
      ensures e in Visible(s.mem, snapshot) <==> e in Applied(s.groups[..k])
    {
      AppliedSplits(base, s.groups, k, e);
      if e in InFlight(Front(s)) {
        InFlightAbove(base, s, e);
      }
    }
  }

  lemma InFlightAbove(base: nat, s: State, e: (nat, Op))
    requires LeaderOk(s) && e in InFlight(Front(s))
    ensures e.0 > s.lastSequence
  {
    hide GroupOk;
  }

  /** Where the batch of member j starts among its group's operations. */
  function OffsetOf(requests: seq<Request>, members: seq<nat>, j: nat): nat
    requires j <= |members| && forall i | 0 <= i < |members| :: members[i] < |requests|
  {
    |GroupOps(Pick(requests, members[..j]))|
  }

  /** The batches of a group follow one another in queue order, without gap or overlap. */
  lemma BatchAt(requests: seq<Request>, members: seq<nat>, ops: seq<Op>, j: nat)
    requires AllBelow(members, |requests|) && j < |members| && ops == GroupOps(Pick(requests, members))
    ensures var batch := requests[members[j]].batch;
            var off := OffsetOf(requests, members, j);
            var count := if batch.Some? then |batch.value| else 0;
            && OffsetOf(requests, members, j + 1) == off + count <= |ops|
            && (batch.Some? ==> ops[off..off + count] == batch.value)
  {
    var line := Pick(requests, members);
    var before := Pick(requests, members[..j]);
    assert line == before + [line[j]] + line[j + 1..];
    GroupOpsConcat(before + [line[j]], line[j + 1..]);
    GroupOpsConcat(before, [line[j]]);
    assert [line[j]][..0] == [] && GroupOps([line[j]][..0]) == [];
    assert Pick(requests, members[..j + 1]) == before + [line[j]];
  }

  /** Group g took the numbers from the end of the groups before it on. */
  lemma {:induction false} GroupRange(base: nat, groups: seq<Group>, g: nat)
    requires g < |groups|
    ensures EndOf(base, groups[..g + 1]) == EndOf(base, groups[..g]) + |groups[g].ops|
    ensures Applied(groups[..g + 1]) == Applied(groups[..g]) + if groups[g].applied
            then Entries(groups[g].first, groups[g].ops) else {}
    ensures EndOf(base, groups[..g + 1]) <= EndOf(base, groups)
  {
    hide Entries;
    assert groups[..g + 1][..g] == groups[..g];
    EndGrows(base, groups, g + 1);
  }

  /** Of two groups in a row the second takes its numbers right after those of the first. */
  lemma GroupsAdjoin(base: nat, s: State, g: nat)
    requires Inv(base, s) && g < |s.groups|
    ensures g + 1 < |s.groups| ==> s.groups[g + 1].first == s.groups[g].first + |s.groups[g].ops|
    ensures g + 1 == |s.groups| ==> s.lastSequence + 1 == s.groups[g].first + |s.groups[g].ops|
    ensures g == 0 ==> s.groups[g].first == base + 1
  {
    hide InLine, OneLeader, Answered, LeaderOk, MemOk, TmpOk, ReadersOk, GroupOk;
    GroupRange(base, s.groups, g);
    assert s.groups[..|s.groups|] == s.groups;
  }

  lemma {:induction false} EndGrows(base: nat, groups: seq<Group>, k: nat)
    requires k <= |groups|
    ensures EndOf(base, groups[..k]) <= EndOf(base, groups)
  {
    if k == |groups| {
      assert groups[..k] == groups;
    } else {
      EndGrows(base, groups[..|groups| - 1], k);
      assert groups[..|groups| - 1][..k] == groups[..k];
    }
  }

  /** Atomic visibility: of the batch of any writer of any finished group, a Get sees every effect
      or none. */
  lemma BatchSeenWholeOrNot(base: nat, s: State, r: nat, g: nat, j: nat)
    requires Inv(base, s) && r < |s.readers| && g < |s.groups| && j < |s.groups[g].members|
    requires s.groups[g].ops == GroupOps(Pick(s.requests, s.groups[g].members))
    ensures var batch := s.requests[s.groups[g].members[j]].batch;
            var entries := if batch.Some?
              then Entries(s.groups[g].first + OffsetOf(s.requests, s.groups[g].members, j), batch.value) else {};
            var seen := Visible(s.mem, s.readers[r].snapshot);
            entries <= seen || entries !! seen
  {
    hide Inv, Visible, GroupOps, Pick, OffsetOf, Entries, Applied;
    GroupChain(base, s);
    var group := s.groups[g];
    BatchAt(s.requests, group.members, group.ops, j);
    GetSeesWholeGroups(base, s, r);
    var k := s.readers[r].seen;
    GroupSeenWholeOrNot(base, s.groups, g, k);
    var batch := s.requests[group.members[j]].batch;
    if batch.Some? {
      PartOfGroup(group.first, group.ops, OffsetOf(s.requests, group.members, j), batch.value);
    }
  }

  lemma GroupChain(base: nat, s: State)
    requires Inv(base, s)
    ensures forall g | 0 <= g < |s.groups| ::
              s.groups[g].first == EndOf(base, s.groups[..g]) + 1 && AllBelow(s.groups[g].members, |s.requests|)
  {
    hide MembersOf, Applied, Entries, EndOf;
    forall g | 0 <= g < |s.groups|
      ensures AllBelow(s.groups[g].members, |s.requests|)
    {
      assert GroupOk(s.requests, s.groups[g].members, s.groups[g].ops, s.groups[g].applied);
    }
  }

  lemma PartOfGroup(first: nat, ops: seq<Op>, off: nat, part: seq<Op>)
    requires off + |part| <= |ops| && ops[off..off + |part|] == part
    ensures Entries(first + off, part) <= Entries(first, ops)
  {
    forall e | e in Entries(first + off, part)
      ensures e in Entries(first, ops)
    {
      var i :| 0 <= i < |part| && e == (first + off + i, part[i]);
      assert ops[off..off + |part|][i] == ops[off + i];
    }
  }

  lemma GroupSeenWholeOrNot(base: nat, groups: seq<Group>, g: nat, k: nat)
    requires g < |groups| && k <= |groups|
    requires Consecutive(base, groups)
    ensures var all := Entries(groups[g].first, groups[g].ops);
            if g < k && groups[g].applied then all <= Applied(groups[..k]) else all !! Applied(groups[..k])
  {
    hide Entries, Applied, EndOf;
    forall e | e in Entries(groups[g].first, groups[g].ops)
      ensures e in Applied(groups[..k]) <==> g < k && groups[g].applied
    {
      EntrySeen(base, groups, g, k, e);
    }
  }

  lemma EntrySeen(base: nat, groups: seq<Group>, g: nat, k: nat, e: (nat, Op))
    requires g < |groups| && k <= |groups|
    requires Consecutive(base, groups)
    requires e in Entries(groups[g].first, groups[g].ops)
    ensures e in Applied(groups[..k]) <==> g < k && groups[g].applied
  {
    hide Entries, Applied, EndOf;
    GroupRange(base, groups, g);
    InGroupRange(base, groups, g, e);
    var some := groups[..k];
    ConsecutivePrefix(base, groups, k);
    if g < k {
      assert some[..g + 1] == groups[..g + 1] && some[..g] == groups[..g];
      AppliedSplits(base, some, g + 1, e);
      AppliedSplits(base, some, g, e);
    } else {
      EndGrows(base, groups[..g], k);
      assert groups[..g][..k] == some && some[..k] == some;
      AppliedSplits(base, some, k, e);
    }
  }

  lemma InGroupRange(base: nat, groups: seq<Group>, g: nat, e: (nat, Op))
    requires g < |groups| && groups[g].first == EndOf(base, groups[..g]) + 1
             && e in Entries(groups[g].first, groups[g].ops)
    ensures EndOf(base, groups[..g]) < e.0 <= EndOf(base, groups[..g + 1])
  {
    hide Applied;
    GroupRange(base, groups, g);
  }

  lemma {:induction false} MemberGroup(groups: seq<Group>, i: nat) returns (g: nat, j: nat)
    requires i < |MembersOf(groups)|
    ensures g < |groups| && j < |groups[g].members| && groups[g].members[j] == MembersOf(groups)[i]
  {
    var n := |groups| - 1;
    if i < |MembersOf(groups[..n])| {
      g, j := MemberGroup(groups[..n], i);
    } else {
      g, j := n, i - |MembersOf(groups[..n])|;
    }
  }

  /** Writers are served first come, first served, each by one leader at a time: whoever has an
      answer belongs to a finished group, the answer says whether that group was applied, and a
      sync write was not covered by a leader that does not sync. */
  lemma ServedInOrder(base: nat, actions: seq<Action>, id: nat) returns (g: nat, j: nat)
    requires id < |Run(base, actions).pcs| && Run(base, actions).pcs[id].Returned?
    ensures var s := Run(base, actions);
            && id < |MembersOf(s.groups)| && MembersOf(s.groups)[id] == id
            && g < |s.groups| && j < |s.groups[g].members| && s.groups[g].members[j] == id
            && s.groups[g].applied == s.pcs[id].ok
            && id < |s.requests| && s.groups[g].members[0] < |s.requests|
            && (s.requests[id].sync ==> s.requests[s.groups[g].members[0]].sync)
  {
    var s := Run(base, actions);
    hide GroupOps, Applied, Entries, EndOf, MemOk, TmpOk, ReadersOk, Run;
    assert id < |MembersOf(s.groups)|;
    g, j := MemberGroup(s.groups, id);
    assert Answer(s, s.groups[g].members[j], s.groups[g].applied);
    assert GroupOk(s.requests, s.groups[g].members, s.groups[g].ops, s.groups[g].applied);
    assert Pick(s.requests, s.groups[g].members)[j] == s.requests[id];
  }

  /** No two threads are ever inside the part that the front of the queue guards, and the temporary
      batch is empty whenever a new group is put together. */
  lemma OneAtATime(base: nat, actions: seq<Action>, a: nat, b: nat)
    requires a < |Run(base, actions).pcs| && b < |Run(base, actions).pcs|
    requires Leading(Run(base, actions).pcs[a]) && Leading(Run(base, actions).pcs[b])
    ensures a == b && (Run(base, actions).pcs[a].MakingRoom? ==> Run(base, actions).tmp == [])
  {
    var s := Run(base, actions);
    FrontLeads(base, s, a);
    FrontLeads(base, s, b);
  }
}
