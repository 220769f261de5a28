// db/skiplist.h.  Nodes live in an arena and are named by their place in it; node 0 is the head.
// A key stands for its place in the comparator's order.
module SkipLists {
  import opened Wrappers

  const MAX_HEIGHT: nat := 12
  const NIL: int := -1
  const HEAD: nat := 0

  /** All that Insert stores and readers load. */
  datatype Shape = Shape(keys: seq<int>, next: seq<seq<int>>, maxHeight: nat)

  ghost predicate Allocated(sh: Shape) {
    && |sh.keys| == |sh.next| > 0
    && |sh.next[HEAD]| == MAX_HEIGHT
    && 1 <= sh.maxHeight <= MAX_HEIGHT
    && forall n | 0 <= n < |sh.next| :: |sh.next[n]| <= MAX_HEIGHT
  }

  /** c is the list of nodes that the links of one level run through, head first. */
  ghost predicate Chain(sh: Shape, level: nat, c: seq<nat>)
    requires Allocated(sh)
  {
    && |c| > 0 && c[0] == HEAD
    && (forall i | 0 <= i < |c| :: c[i] < |sh.keys| && level < |sh.next[c[i]]|)
    && (forall i | 0 < i < |c| :: c[i] != HEAD)
    && (forall i | 0 <= i < |c| - 1 :: sh.next[c[i]][level] == c[i + 1])
    && sh.next[c[|c| - 1]][level] == NIL
  }

  ghost predicate Ascending(sh: Shape, c: seq<nat>) {
    forall i, j | 0 < i < j < |c| && c[i] < |sh.keys| && c[j] < |sh.keys| :: sh.keys[c[i]] < sh.keys[c[j]]
  }

  ghost predicate Sublist(c: seq<nat>, d: seq<nat>) {
    forall x | x in c :: x in d
  }

  /** Every level is a sorted list and a sublist of the level below it. */
  ghost predicate Good(sh: Shape, chains: seq<seq<nat>>) {
    && Allocated(sh) && |chains| == MAX_HEIGHT
    && (forall l | 0 <= l < MAX_HEIGHT :: Chain(sh, l, chains[l]) && Ascending(sh, chains[l]))
    && (forall l, m | 0 <= l < m < MAX_HEIGHT :: Sublist(chains[m], chains[l]))
    && (forall l | sh.maxHeight <= l < MAX_HEIGHT :: chains[l] == [HEAD])
  }

  /** The keys in the list. */
  ghost function Present(sh: Shape, chains: seq<seq<nat>>): set<int>
    requires Good(sh, chains)
  {
    set i | 0 < i < |chains[0]| :: sh.keys[chains[0][i]]
  }

  /** KeyIsAfterNode: null counts as infinite. */
  predicate IsAfter(keys: seq<int>, key: int, n: int) {
    0 <= n < |keys| && keys[n] < key
  }

  // ----------------------------------------------------------------------- inserting

  /** NewNode: allocated, but not linked anywhere yet. */
  function WithNode(sh: Shape, key: int, height: nat): Shape {
    Shape(sh.keys + [key], sh.next + [seq(height, _ => NIL)], sh.maxHeight)
  }

  /** One round of Insert's loop: x gets prev's successor at the level, and prev gets x. */
  function LinkAt(sh: Shape, x: nat, prev: nat, level: nat): Shape
    requires x < |sh.next| && prev < |sh.next| && level < |sh.next[x]| && level < |sh.next[prev]|
  {
    var next1 := sh.next[x := sh.next[x][level := sh.next[prev][level]]];
    sh.(next := next1[prev := next1[prev][level := x]])
  }

  /** The first half of the round, NoBarrier_SetNext: x gets prev's successor. */
  function SetOwn(sh: Shape, x: nat, prev: nat, level: nat): Shape
    requires x < |sh.next| && prev < |sh.next| && level < |sh.next[x]| && level < |sh.next[prev]|
  {
    sh.(next := sh.next[x := sh.next[x][level := sh.next[prev][level]]])
  }

  /** The second half, SetNext: prev gets x. */
  function SetPrev(sh: Shape, x: nat, prev: nat, level: nat): Shape
    requires prev < |sh.next| && level < |sh.next[prev]|
  {
    sh.(next := sh.next[prev := sh.next[prev][level := x]])
  }

  function ChainWith(c: seq<nat>, p: nat, x: nat): seq<nat>
    requires p < |c|
  {
    c[..p + 1] + [x] + c[p + 1..]
  }

  lemma NodeKeepsGood(sh: Shape, chains: seq<seq<nat>>, key: int, height: nat)
    requires Good(sh, chains) && height <= MAX_HEIGHT
    ensures Good(WithNode(sh, key, height), chains)
    ensures Present(WithNode(sh, key, height), chains) == Present(sh, chains)
  {
    var sh' := WithNode(sh, key, height);
    assert forall n | 0 <= n < |sh.keys| :: sh'.keys[n] == sh.keys[n] && sh'.next[n] == sh.next[n];
    forall l | 0 <= l < MAX_HEIGHT
      ensures Chain(sh', l, chains[l]) && Ascending(sh', chains[l])
    {
      assert Chain(sh, l, chains[l]) && Ascending(sh, chains[l]);
      SameChain(sh, sh', l, chains[l]);
    }
    hide Ascending;
    assert Chain(sh, 0, chains[0]);
  }

  lemma SameChain(sh: Shape, sh': Shape, l: nat, c: seq<nat>)
    requires Allocated(sh) && Allocated(sh') && |sh.keys| <= |sh'.keys|
    requires forall n | 0 <= n < |sh.keys| :: sh'.keys[n] == sh.keys[n] && sh'.next[n] == sh.next[n]
    requires Chain(sh, l, c) && Ascending(sh, c)
    ensures Chain(sh', l, c) && Ascending(sh', c)
  {
  }

  lemma RaiseKeepsGood(sh: Shape, chains: seq<seq<nat>>, height: nat)
    requires Good(sh, chains) && sh.maxHeight <= height <= MAX_HEIGHT
    ensures Good(sh.(maxHeight := height), chains)
    ensures Present(sh.(maxHeight := height), chains) == Present(sh, chains)
  {
  }

  lemma ChainWithAt(c: seq<nat>, p: nat, x: nat)
    requires p < |c|
    ensures |ChainWith(c, p, x)| == |c| + 1
    ensures forall i {:trigger ChainWith(c, p, x)[i]} | 0 <= i < |c| + 1 ::
              ChainWith(c, p, x)[i] == if i <= p then c[i] else if i == p + 1 then x else c[i - 1]
  {
  }

  lemma LinkedAscending(sh: Shape, sh': Shape, level: nat, c: seq<nat>, x: nat, p: nat)
    requires Allocated(sh) && sh'.keys == sh.keys && Chain(sh, level, c) && Ascending(sh, c)
    requires x < |sh.keys| && p < |c|
    requires (p > 0 ==> sh.keys[c[p]] < sh.keys[x]) && (p + 1 < |c| ==> sh.keys[x] < sh.keys[c[p + 1]])
    ensures Ascending(sh', ChainWith(c, p, x))
  {
    hide ChainWith;
    var c' := ChainWith(c, p, x);
    ChainWithAt(c, p, x);
    forall i, j | 0 < i < j < |c'|
      ensures sh.keys[c'[i]] < sh.keys[c'[j]]
    {
      if j == p + 1 {
        assert sh.keys[c[i]] <= sh.keys[c[p]];
      } else if i == p + 1 {
        assert sh.keys[c[p + 1]] <= sh.keys[c[j - 1]];
      }
    }
  }

  lemma LinkedNext(sh: Shape, c: seq<nat>, x: nat, p: nat, level: nat, n: nat)
    requires Allocated(sh) && level < MAX_HEIGHT && Chain(sh, level, c)
    requires x < |sh.next| && level < |sh.next[x]| && x !in c && p < |c| && n < |sh.next| && level < |sh.next[n]|
    ensures |LinkAt(sh, x, c[p], level).next[n]| == |sh.next[n]|
    ensures LinkAt(sh, x, c[p], level).next[n][level]
            == if n == c[p] then x else if n == x then sh.next[c[p]][level] else sh.next[n][level]
  {
  }

  /** Linking a node into one more level, right behind the last node before its key, keeps that
      level a list that runs from the head to null. */
  lemma LinkKeepsChain(sh: Shape, c: seq<nat>, x: nat, p: nat, level: nat)
    requires Allocated(sh) && level < MAX_HEIGHT && Chain(sh, level, c) && Ascending(sh, c)
    requires 0 < x < |sh.next| && level < |sh.next[x]| && x !in c && p < |c|
    ensures var sh' := LinkAt(sh, x, c[p], level);
            Allocated(sh') && Chain(sh', level, ChainWith(c, p, x))
  {
    hide ChainWith, LinkAt, Ascending;
    var sh', c' := LinkAt(sh, x, c[p], level), ChainWith(c, p, x);
    LinkAllocated(sh, x, c[p], level);
    ChainWithAt(c, p, x);
    forall i | 0 <= i < |c'|
      ensures c'[i] < |sh'.keys| && level < |sh'.next[c'[i]]| && (c'[i] == HEAD <==> i == 0)
      ensures sh'.next[c'[i]][level] == if i < |c'| - 1 then c'[i + 1] else NIL
    {
      LinkedStep(sh, c, x, p, level, i);
    }
    LinkedStep(sh, c, x, p, level, |c|);
  }

  lemma LinkAllocated(sh: Shape, x: nat, prev: nat, level: nat)
    requires Allocated(sh) && x < |sh.next| && prev < |sh.next| && level < |sh.next[x]| && level < |sh.next[prev]|
    ensures Allocated(LinkAt(sh, x, prev, level))
    ensures var sh' := LinkAt(sh, x, prev, level);
            && sh'.keys == sh.keys && sh'.maxHeight == sh.maxHeight && |sh'.next| == |sh.next|
            && forall n | 0 <= n < |sh.next| :: |sh'.next[n]| == |sh.next[n]|
  {
  }

  lemma LinkedStep(sh: Shape, c: seq<nat>, x: nat, p: nat, level: nat, i: nat)
    requires Allocated(sh) && level < MAX_HEIGHT && Chain(sh, level, c) && Ascending(sh, c)
    requires 0 < x < |sh.next| && level < |sh.next[x]| && x !in c && p < |c| && i <= |c|
    ensures var sh', c' := LinkAt(sh, x, c[p], level), ChainWith(c, p, x);
            && c'[i] < |sh'.next| && level < |sh'.next[c'[i]]|
            && sh'.next[c'[i]][level] == if i < |c| then c'[i + 1] else NIL
  {
    hide ChainWith, LinkAt, Ascending;
    ChainWithAt(c, p, x);
    ChainDistinct(sh, level, c);
    LinkAllocated(sh, x, c[p], level);
    var n := ChainWith(c, p, x)[i];
    assert i != p + 1 ==> n in c;
    LinkedNext(sh, c, x, p, level, n);
  }

  /** The nodes of a level are all different. */
  lemma ChainDistinct(sh: Shape, level: nat, c: seq<nat>)
    requires Allocated(sh) && Chain(sh, level, c) && Ascending(sh, c)
    ensures forall i, j | 0 <= i < j < |c| :: c[i] != c[j]
  {
  }

  lemma OtherChain(sh: Shape, c: seq<nat>, x: nat, prev: nat, level: nat, l: nat)
    requires Allocated(sh) && l != level && Chain(sh, l, c) && Ascending(sh, c)
    requires x < |sh.next| && prev < |sh.next| && level < |sh.next[x]| && level < |sh.next[prev]|
    ensures var sh' := LinkAt(sh, x, prev, level);
            Allocated(sh') && Chain(sh', l, c) && Ascending(sh', c)
  {
    var sh' := LinkAt(sh, x, prev, level);
    assert forall n | 0 <= n < |sh.next| ::
           |sh'.next[n]| == |sh.next[n]| && (l < |sh.next[n]| ==> sh'.next[n][l] == sh.next[n][l]);
  }

  lemma LinkKeepsGood(sh: Shape, chains: seq<seq<nat>>, x: nat, p: nat, level: nat)
    requires Good(sh, chains) && level < sh.maxHeight
    requires 0 < x < |sh.next| && level < |sh.next[x]| && p < |chains[level]|
    requires forall l | level <= l < MAX_HEIGHT :: x !in chains[l]
    requires level > 0 ==> x in chains[level - 1]
    requires var c := chains[level];
             (p > 0 ==> sh.keys[c[p]] < sh.keys[x]) && (p + 1 < |c| ==> sh.keys[x] < sh.keys[c[p + 1]])
    ensures var chains' := chains[level := ChainWith(chains[level], p, x)];
            var sh' := LinkAt(sh, x, chains[level][p], level);
            && Good(sh', chains')
            && Present(sh', chains') == Present(sh, chains) + if level == 0 then {sh.keys[x]} else {}
  {
    hide ChainWith, Chain, Ascending, LinkAt, Present;
    var c := chains[level];
    ChainFits(sh, level, c);
    LinkAllocated(sh, x, c[p], level);
    var chains' := chains[level := ChainWith(c, p, x)];
    var sh' := LinkAt(sh, x, c[p], level);
    forall l | 0 <= l < MAX_HEIGHT
      ensures Allocated(sh') && Chain(sh', l, chains'[l]) && Ascending(sh', chains'[l])
    {
      if l == level {
        LinkKeepsChain(sh, c, x, p, level);
        LinkedAscending(sh, sh', level, c, x, p);
      } else {
        OtherChain(sh, chains[l], x, c[p], level, l);
      }
    }
    ChainWithMembers(c, p, x);
    LinkedPresent(sh, chains, sh', chains', x, p, level);
  }

  lemma ChainFits(sh: Shape, level: nat, c: seq<nat>)
    requires Allocated(sh) && Chain(sh, level, c)
    ensures |c| > 0 && forall i | 0 <= i < |c| :: c[i] < |sh.keys| && level < |sh.next[c[i]]|
  {
  }

  lemma ChainWithMembers(c: seq<nat>, p: nat, x: nat)
    requires p < |c|
    ensures forall y :: y in ChainWith(c, p, x) <==> y in c || y == x
  {
    assert c == c[..p + 1] + c[p + 1..];
  }

  lemma LinkedPresent(sh: Shape, chains: seq<seq<nat>>, sh': Shape, chains': seq<seq<nat>>, x: nat, p: nat, level: nat)
    requires Good(sh, chains) && Good(sh', chains') && sh'.keys == sh.keys && level < MAX_HEIGHT
    requires 0 < x < |sh.keys| && p < |chains[level]| && chains' == chains[level := ChainWith(chains[level], p, x)]
    ensures Present(sh', chains') == Present(sh, chains) + if level == 0 then {sh.keys[x]} else {}
  {
    hide Good;
    BottomKeys(sh, chains);
    BottomKeys(sh', chains');
    if level == 0 {
      KeysWith(sh.keys, chains[0], p, x);
    }
  }

  /** The keys of a list of nodes, without the head. */
  ghost function KeysOf(keys: seq<int>, c: seq<nat>): set<int>
    requires forall i | 0 <= i < |c| :: c[i] < |keys|
  {
    set i | 0 < i < |c| :: keys[c[i]]
  }

  lemma BottomKeys(sh: Shape, chains: seq<seq<nat>>)
    requires Good(sh, chains)
    ensures |chains| == MAX_HEIGHT && (forall i | 0 <= i < |chains[0]| :: chains[0][i] < |sh.keys|)
    ensures Present(sh, chains) == KeysOf(sh.keys, chains[0])
  {
    hide Ascending, Sublist;
    assert Chain(sh, 0, chains[0]);
  }

  lemma KeysWith(keys: seq<int>, c: seq<nat>, p: nat, x: nat)
    requires p < |c| && x < |keys| && forall i | 0 <= i < |c| :: c[i] < |keys|
    ensures var c' := ChainWith(c, p, x);
            && (forall i | 0 <= i < |c'| :: c'[i] < |keys|)
            && KeysOf(keys, c') == KeysOf(keys, c) + {keys[x]}
  {
    var c' := ChainWith(c, p, x);
    ChainWithAt(c, p, x);
    hide ChainWith;
    forall i | 0 <= i < |c'|
      ensures c'[i] < |keys|
    {
      assert i != p + 1 ==> c'[i] == c[if i <= p then i else i - 1];
    }
    forall k
      ensures k in KeysOf(keys, c') <==> k in KeysOf(keys, c) || k == keys[x]
    {
      if k in KeysOf(keys, c) {
        var i :| 0 < i < |c| && keys[c[i]] == k;
        assert c'[if i <= p then i else i + 1] == c[i];
      }
      if k in KeysOf(keys, c') {
        var i :| 0 < i < |c'| && keys[c'[i]] == k;
        assert i != p + 1 ==> c'[i] == c[if i <= p then i else i - 1];
      }
      assert c'[p + 1] == x;
    }
  }

  /** The place of the last node before key in a level. */
  ghost function PrevIndex(keys: seq<int>, c: seq<nat>, key: int): (p: nat)
    requires |c| > 0
    ensures p < |c|
  {
    if |c| == 1 || IsAfter(keys, key, c[|c| - 1]) then |c| - 1 else PrevIndex(keys, c[..|c| - 1], key)
  }

  lemma {:induction false} PrevIndexSplits(sh: Shape, c: seq<nat>, key: int)
    requires |c| > 0 && Ascending(sh, c) && forall i | 0 <= i < |c| :: c[i] < |sh.keys|
    ensures var p := PrevIndex(sh.keys, c, key);
            && (forall i | 0 < i <= p :: sh.keys[c[i]] < key)
            && (forall i | p < i < |c| :: sh.keys[c[i]] >= key)
  {
    if |c| > 1 && !IsAfter(sh.keys, key, c[|c| - 1]) {
      PrevIndexSplits(sh, c[..|c| - 1], key);
    }
  }

  // ------------------------------------------------------------- an interleaved reader

  /** A FindGreaterOrEqual under way, or finished with the node it returned. */
  datatype Reader = Searching(key: int, x: nat, level: nat) | Done(key: int, result: int)

  /** The one writer: between inserts, or with a new node linked into the levels below `linked`; when
      it is ready, the node's own link in the next level is set. */
  datatype Writer = Idle | Linking(x: nat, prev: seq<nat>, height: nat, linked: nat, ready: bool)

  /** The list, its writer, and any number of readers with the keys present when each began. */
  datatype System = System(shape: Shape, chains: seq<seq<nat>>, writer: Writer, readers: seq<Reader>,
                           atStart: seq<set<int>>)

  /** One atomic step.  A reader may start at any level: it may have loaded an old max_height_ or
      one whose new levels are not linked yet. */
  datatype Action =
    | StartInsert(key: int, height: nat)
    | StoreMaxHeight
    | StoreOwnNext
    | StorePrevNext
    | FinishInsert
    | StartRead(key: int, level: nat)
    | ReadNext(reader: nat)

  ghost predicate WriterOk(sh: Shape, chains: seq<seq<nat>>, w: Writer)
    requires Good(sh, chains)
  {
    w.Linking? ==>
      && 0 < w.x < |sh.keys| && |sh.next[w.x]| == w.height == |w.prev| && 1 <= w.height && w.linked <= w.height
      && (w.linked > 0 || w.ready ==> w.height <= sh.maxHeight)
      && (forall l | 0 <= l < MAX_HEIGHT :: w.x in chains[l] <==> l < w.linked)
      && (forall l | w.linked <= l < w.height :: PrevOf(sh.keys, chains[l], sh.keys[w.x], w.prev[l]))
      && (w.ready ==> w.linked < w.height && OwnSet(sh, w.x, w.prev[w.linked], w.linked))
  }

  ghost predicate OwnSet(sh: Shape, x: nat, prev: nat, level: nat) {
    && x < |sh.next| && prev < |sh.next| && level < |sh.next[x]| && level < |sh.next[prev]|
    && sh.next[x][level] == sh.next[prev][level]
  }

  /** prev is the last node of a level before key, and key is not in the level. */
  ghost predicate PrevOf(keys: seq<int>, c: seq<nat>, key: int, prev: nat) {
    exists p: nat :: PrevAt(keys, c, key, prev, p)
  }

  ghost predicate PrevAt(keys: seq<int>, c: seq<nat>, key: int, prev: nat, p: nat) {
    && p < |c| && c[p] == prev
    && (p > 0 ==> prev < |keys| && keys[prev] < key)
    && (p + 1 < |c| ==> c[p + 1] < |keys| && key < keys[c[p + 1]])
  }

  /** A reader stands on a node before its key; a finished one has returned a node at or after its
      key, and no key that was present when it began lies between its key and that node. */
  ghost predicate ReaderOk(sh: Shape, chains: seq<seq<nat>>, r: Reader, start: set<int>)
    requires Good(sh, chains)
  {
    && start <= Present(sh, chains)
    && match r
       case Searching(key, x, level) =>
         level < MAX_HEIGHT && x in chains[level] && (x != HEAD ==> IsAfter(sh.keys, key, x))
       case Done(key, result) => Found(sh, chains[0], key, result, start)
  }

  ghost predicate Found(sh: Shape, c: seq<nat>, key: int, result: int, start: set<int>) {
    && (result != NIL ==> 0 < result < |sh.keys| && result as nat in c && sh.keys[result] >= key)
    && forall k | k in start && k >= key :: 0 <= result < |sh.keys| && sh.keys[result] <= k
  }

  ghost predicate Inv(s: System) {
    && Good(s.shape, s.chains)
    && WriterOk(s.shape, s.chains, s.writer)
    && |s.readers| == |s.atStart|
    && forall i | 0 <= i < |s.readers| :: ReaderOk(s.shape, s.chains, s.readers[i], s.atStart[i])
  }

  ghost predicate Enabled(s: System, a: Action)
    requires Inv(s)
  {
    match a
    case StartInsert(key, height) => s.writer.Idle? && 1 <= height <= MAX_HEIGHT && key !in Present(s.shape, s.chains)
    case StoreMaxHeight => s.writer.Linking? && s.writer.linked == 0 && s.writer.height > s.shape.maxHeight
    case StoreOwnNext => s.writer.Linking? && !s.writer.ready && s.writer.linked < s.writer.height <= s.shape.maxHeight
    case StorePrevNext => s.writer.Linking? && s.writer.ready
    case FinishInsert => s.writer.Linking? && s.writer.linked == s.writer.height
    case StartRead(key, level) => level < MAX_HEIGHT
    case ReadNext(i) => i < |s.readers| && s.readers[i].Searching?
  }

  /** The prev array a search for key fills in, and prev[i] = head_ above max_height_. */
  ghost function PrevArray(sh: Shape, chains: seq<seq<nat>>, key: int, height: nat): seq<nat>
    requires Good(sh, chains) && height <= MAX_HEIGHT
  {
    seq(height, l requires 0 <= l < height => chains[l][PrevIndex(sh.keys, chains[l], key)])
  }

  /** One round of the loop of FindGreaterOrEqual. */
  function ReadOne(sh: Shape, r: Reader): Reader
    requires r.Searching? && r.x < |sh.next| && r.level < |sh.next[r.x]|
  {
    var next := sh.next[r.x][r.level];
    if IsAfter(sh.keys, r.key, next) then r.(x := next)
    else if r.level == 0 then Done(r.key, next)
    else r.(level := r.level - 1)
  }

  /** Where a node stands in a level. */
  ghost function Place(c: seq<nat>, x: nat): (p: nat)
    requires x in c
    ensures p < |c| && c[p] == x
  {
    if c[0] == x then 0 else 1 + Place(c[1..], x)
  }

  ghost function Next(s: System, a: Action): System
    requires Inv(s) && Enabled(s, a)
  {
    match a
    case StartInsert(key, height) =>
      s.(shape := WithNode(s.shape, key, height),
         writer := Linking(|s.shape.keys|, PrevArray(s.shape, s.chains, key, height), height, 0, false))
    case StoreMaxHeight => s.(shape := s.shape.(maxHeight := s.writer.height))
    case StoreOwnNext =>
      LinkEnabled(s.shape, s.chains, s.writer);
      var l := s.writer.linked;
      s.(shape := SetOwn(s.shape, s.writer.x, s.writer.prev[l], l), writer := s.writer.(ready := true))
    case StorePrevNext =>
      LinkEnabled(s.shape, s.chains, s.writer);
      var l := s.writer.linked;
      var c := s.chains[l];
      s.(shape := SetPrev(s.shape, s.writer.x, s.writer.prev[l], l),
         chains := s.chains[l := ChainWith(c, Place(c, s.writer.prev[l]), s.writer.x)],
         writer := s.writer.(linked := l + 1, ready := false))
    case FinishInsert => s.(writer := Idle)
    case StartRead(key, level) =>
      s.(readers := s.readers + [Searching(key, HEAD, level)], atStart := s.atStart + [Present(s.shape, s.chains)])
    case ReadNext(i) =>
      ReadEnabled(s.shape, s.chains, s.readers[i], s.atStart[i]);
      s.(readers := s.readers[i := ReadOne(s.shape, s.readers[i])])
  }

  lemma LinkEnabled(sh: Shape, chains: seq<seq<nat>>, w: Writer)
    requires Good(sh, chains) && WriterOk(sh, chains, w) && w.Linking? && w.linked < w.height
    ensures w.prev[w.linked] in chains[w.linked]
    ensures PrevAt(sh.keys, chains[w.linked], sh.keys[w.x], w.prev[w.linked], Place(chains[w.linked], w.prev[w.linked]))
    ensures w.x < |sh.next| && w.linked < |sh.next[w.x]|
    ensures w.prev[w.linked] < |sh.next| && w.linked < |sh.next[w.prev[w.linked]]|
  {
    var c := chains[w.linked];
    assert Chain(sh, w.linked, c) && Ascending(sh, c);
    ChainDistinct(sh, w.linked, c);
    hide Ascending;
    var p: nat :| PrevAt(sh.keys, c, sh.keys[w.x], w.prev[w.linked], p);
    assert p == Place(c, w.prev[w.linked]);
  }

  lemma ReadEnabled(sh: Shape, chains: seq<seq<nat>>, r: Reader, start: set<int>)
    requires Good(sh, chains) && ReaderOk(sh, chains, r, start) && r.Searching?
    ensures r.x < |sh.next| && r.level < |sh.next[r.x]|
  {
    hide Ascending;
    assert Chain(sh, r.level, chains[r.level]);
  }

  // ------------------------------------------------------------- every step keeps it all

  /** Inserts only ever add. */
  ghost predicate Grows(sh: Shape, chains: seq<seq<nat>>, sh': Shape, chains': seq<seq<nat>>)
    requires Good(sh, chains) && Good(sh', chains')
  {
    && sh.keys <= sh'.keys
    && (forall l | 0 <= l < MAX_HEIGHT :: Sublist(chains[l], chains'[l]))
    && Present(sh, chains) <= Present(sh', chains')
  }

  lemma ReaderStays(sh: Shape, chains: seq<seq<nat>>, sh': Shape, chains': seq<seq<nat>>, r: Reader, start: set<int>)
    requires Good(sh, chains) && Good(sh', chains') && Grows(sh, chains, sh', chains')
    requires ReaderOk(sh, chains, r, start)
    ensures ReaderOk(sh', chains', r, start)
  {
    hide Good, Present;
    LevelsOf(sh, chains);
    LevelsOf(sh', chains');
    assert Sublist(chains[0], chains'[0]);
    if r.Searching? {
      assert Sublist(chains[r.level], chains'[r.level]);
    }
  }

  lemma LevelsOf(sh: Shape, chains: seq<seq<nat>>)
    requires Good(sh, chains)
    ensures |chains| == MAX_HEIGHT && Allocated(sh)
    ensures forall l | 0 <= l < MAX_HEIGHT :: Chain(sh, l, chains[l]) && Ascending(sh, chains[l])
  {
  }

  /** A load of the next pointer and the move it decides keep the reader on its way: and at the
      bottom level the node found is right. */
  lemma ReadOneOk(sh: Shape, chains: seq<seq<nat>>, r: Reader, start: set<int>)
    requires Good(sh, chains) && ReaderOk(sh, chains, r, start) && r.Searching?
    ensures r.x < |sh.next| && r.level < |sh.next[r.x]|
    ensures ReaderOk(sh, chains, ReadOne(sh, r), start)
  {
    ReadEnabled(sh, chains, r, start);
    var c := chains[r.level];
    var p: nat :| p < |c| && c[p] == r.x;
    assert Chain(sh, r.level, c) && Ascending(sh, c);
    var next := sh.next[r.x][r.level];
    assert next == if p + 1 < |c| then c[p + 1] else NIL;
    if IsAfter(sh.keys, r.key, next) {
      assert next as nat in c;
    } else if r.level == 0 {
      ReadFinds(sh, chains, r.key, p, start);
    } else {
      assert Sublist(c, chains[r.level - 1]);
    }
  }

  lemma ReadFinds(sh: Shape, chains: seq<seq<nat>>, key: int, p: nat, start: set<int>)
    requires Good(sh, chains) && p < |chains[0]| && start <= Present(sh, chains)
    requires p > 0 ==> sh.keys[chains[0][p]] < key
    requires p + 1 < |chains[0]| ==> sh.keys[chains[0][p + 1]] >= key
    ensures Found(sh, chains[0], key, if p + 1 < |chains[0]| then chains[0][p + 1] else NIL, start)
  {
    var c := chains[0];
    assert Chain(sh, 0, c) && Ascending(sh, c);
    assert forall i | 0 < i <= p :: sh.keys[c[i]] <= sh.keys[c[p]];
    forall k | k in start && k >= key
      ensures p + 1 < |c| && sh.keys[c[p + 1]] <= k
    {
      assert k in Present(sh, chains);
      var i :| 0 < i < |c| && sh.keys[c[i]] == k;
    }
  }

  /** A new node with its prev array is ready to be linked. */
  lemma NewNodeReady(sh: Shape, chains: seq<seq<nat>>, key: int, height: nat)
    requires Good(sh, chains) && key !in Present(sh, chains) && 1 <= height <= MAX_HEIGHT
    ensures var sh' := WithNode(sh, key, height);
            && Good(sh', chains) && Present(sh', chains) == Present(sh, chains)
            && WriterOk(sh', chains, Linking(|sh.keys|, PrevArray(sh, chains, key, height), height, 0, false))
  {
    var sh' := WithNode(sh, key, height);
    NodeKeepsGood(sh, chains, key, height);
    var prev := PrevArray(sh, chains, key, height);
    forall l | 0 <= l < MAX_HEIGHT
      ensures |sh.keys| !in chains[l]
    {
      assert Chain(sh, l, chains[l]);
    }
    forall l | 0 <= l < height
      ensures PrevOf(sh'.keys, chains[l], key, prev[l])
    {
      PrevFound(sh, chains, key, height, l);
    }
  }

  lemma StartInsertOk(s: System, key: int, height: nat)
    requires Inv(s) && Enabled(s, StartInsert(key, height))
    ensures Inv(Next(s, StartInsert(key, height)))
  {
    hide Good, PrevArray, Present;
    var sh, chains := s.shape, s.chains;
    NewNodeReady(sh, chains, key, height);
    var sh' := WithNode(sh, key, height);
    LevelsOf(sh, chains);
    forall i | 0 <= i < |s.readers|
      ensures ReaderOk(sh', chains, s.readers[i], s.atStart[i])
    {
      ReaderStays(sh, chains, sh', chains, s.readers[i], s.atStart[i]);
    }
  }

  lemma PrevFound(sh: Shape, chains: seq<seq<nat>>, key: int, height: nat, l: nat)
    requires Good(sh, chains) && height <= MAX_HEIGHT && l < height && key !in Present(sh, chains)
    ensures PrevOf(WithNode(sh, key, height).keys, chains[l], key, PrevArray(sh, chains, key, height)[l])
  {
    var c := chains[l];
    assert Chain(sh, l, c) && Ascending(sh, c);
    PrevIndexSplits(sh, c, key);
    var p := PrevIndex(sh.keys, c, key);
    if p + 1 < |c| {
      LevelNodePresent(sh, chains, l, p + 1);
    }
    hide Good, Ascending, Sublist, PrevIndex;
    assert PrevAt(WithNode(sh, key, height).keys, c, key, c[p], p);
  }

  lemma LevelNodePresent(sh: Shape, chains: seq<seq<nat>>, l: nat, i: nat)
    requires Good(sh, chains) && l < MAX_HEIGHT && 0 < i < |chains[l]|
    ensures chains[l][i] < |sh.keys| && sh.keys[chains[l][i]] in Present(sh, chains)
  {
    assert Chain(sh, l, chains[l]);
    assert chains[l][i] in chains[0] by {
      assert l > 0 ==> Sublist(chains[l], chains[0]);
    }
    NodePresent(sh, chains, chains[l][i]);
  }

  lemma NodePresent(sh: Shape, chains: seq<seq<nat>>, x: nat)
    requires Good(sh, chains) && x in chains[0] && x != HEAD
    ensures x < |sh.keys| && sh.keys[x] in Present(sh, chains)
  {
    assert Chain(sh, 0, chains[0]);
    var i :| 0 <= i < |chains[0]| && chains[0][i] == x;
  }

  /** The store to the new node's own link is seen by nobody: the node is not in the level yet. */
  lemma OwnStoreGood(sh: Shape, chains: seq<seq<nat>>, w: Writer)
    requires Good(sh, chains) && WriterOk(sh, chains, w) && w.Linking? && !w.ready
             && w.linked < w.height <= sh.maxHeight
    requires w.x < |sh.next| && w.linked < |sh.next[w.x]|
    requires w.prev[w.linked] in chains[w.linked] && w.prev[w.linked] < |sh.next|
             && w.linked < |sh.next[w.prev[w.linked]]|
    ensures var sh' := SetOwn(sh, w.x, w.prev[w.linked], w.linked);
            && Good(sh', chains) && Grows(sh, chains, sh', chains) && Present(sh', chains) == Present(sh, chains)
            && WriterOk(sh', chains, w.(ready := true))
  {
    var sh' := SetOwn(sh, w.x, w.prev[w.linked], w.linked);
    assert w.x !in chains[w.linked];
    forall l | 0 <= l < MAX_HEIGHT
      ensures Allocated(sh') && Chain(sh', l, chains[l]) && Ascending(sh', chains[l])
    {
      assert Chain(sh, l, chains[l]) && Ascending(sh, chains[l]);
      OwnStoreChain(sh, sh', w.x, w.linked, sh.next[w.prev[w.linked]][w.linked], l, chains[l]);
    }
    hide Chain, Ascending, PrevOf;
    assert Good(sh', chains);
    assert w.prev[w.linked] != w.x;
  }

  lemma OwnStoreChain(sh: Shape, sh': Shape, x: nat, level: nat, n: int, l: nat, c: seq<nat>)
    requires Allocated(sh) && x < |sh.next| && level < |sh.next[x]| && sh'.keys == sh.keys
             && sh'.maxHeight == sh.maxHeight
    requires sh'.next == sh.next[x := sh.next[x][level := n]]
    requires Chain(sh, l, c) && Ascending(sh, c) && (l == level ==> x !in c)
    ensures Allocated(sh') && Chain(sh', l, c) && Ascending(sh', c)
  {
    forall i | 0 <= i < |c|
      ensures l < |sh'.next[c[i]]| && sh'.next[c[i]][l] == sh.next[c[i]][l]
    {
      assert c[i] in c;
    }
  }

  lemma StoreOwnNextOk(s: System)
    requires Inv(s) && Enabled(s, StoreOwnNext)
    ensures Inv(Next(s, StoreOwnNext))
  {
    hide Good, Present, SetOwn, Chain, Ascending, ReaderOk, WriterOk;
    var sh, chains, w := s.shape, s.chains, s.writer;
    LinkEnabled(sh, chains, w);
    OwnStoreGood(sh, chains, w);
    ReadersStay(s, Next(s, StoreOwnNext).shape, chains);
  }

  lemma ReadersStay(s: System, sh': Shape, chains': seq<seq<nat>>)
    requires Inv(s) && Good(sh', chains') && Grows(s.shape, s.chains, sh', chains')
    ensures forall i | 0 <= i < |s.readers| :: ReaderOk(sh', chains', s.readers[i], s.atStart[i])
  {
    hide Good, ReaderOk, WriterOk, Grows;
    forall i | 0 <= i < |s.readers|
      ensures ReaderOk(sh', chains', s.readers[i], s.atStart[i])
    {
      ReaderStays(s.shape, s.chains, sh', chains', s.readers[i], s.atStart[i]);
    }
  }

  /** With the own link set, the store to prev completes the round. */
  lemma StorePrevNextOk(s: System)
    requires Inv(s) && Enabled(s, StorePrevNext)
    ensures Inv(Next(s, StorePrevNext))
  {
    hide Good, Present, LinkAt, SetPrev, ChainWith, Chain, Ascending, ReaderOk, OwnSet;
    var sh, chains, w := s.shape, s.chains, s.writer;
    LinkEnabled(sh, chains, w);
    var s' := Next(s, StorePrevNext);
    SetPrevLinks(sh, w.x, w.prev[w.linked], w.linked);
    LinkLevelGood(sh, chains, w, s'.shape, s'.chains);
    ReadersStay(s, s'.shape, s'.chains);
  }

  lemma SetPrevLinks(sh: Shape, x: nat, prev: nat, level: nat)
    requires OwnSet(sh, x, prev, level)
    ensures SetPrev(sh, x, prev, level) == LinkAt(sh, x, prev, level)
  {
    assert sh.next[x][level := sh.next[prev][level]] == sh.next[x];
    assert sh.next[x := sh.next[x]] == sh.next;
  }

  lemma LinkLevelGood(sh: Shape, chains: seq<seq<nat>>, w: Writer, sh': Shape, chains': seq<seq<nat>>)
    requires Good(sh, chains) && WriterOk(sh, chains, w) && w.Linking? && w.linked < w.height <= sh.maxHeight
    requires w.prev[w.linked] in chains[w.linked]
    requires w.prev[w.linked] < |sh.next| && w.linked < |sh.next[w.prev[w.linked]]|
    requires sh' == LinkAt(sh, w.x, w.prev[w.linked], w.linked)
    requires chains' == chains[w.linked := ChainWith(chains[w.linked], Place(chains[w.linked], w.prev[w.linked]), w.x)]
    ensures Good(sh', chains') && Grows(sh, chains, sh', chains')
            && WriterOk(sh', chains', w.(linked := w.linked + 1, ready := false))
    ensures Present(sh', chains') == Present(sh, chains) + if w.linked == 0 then {sh.keys[w.x]} else {}
  {
    hide Good, Present, LinkAt, ChainWith, Chain, Ascending;
    LevelsOf(sh, chains);
    var l, c := w.linked, chains[w.linked];
    LinkEnabled(sh, chains, w);
    LinkAllocated(sh, w.x, w.prev[l], l);
    LinkKeepsGood(sh, chains, w.x, Place(c, w.prev[l]), l);
    ChainWithMembers(c, Place(c, w.prev[l]), w.x);
    LevelsOf(sh', chains');
  }

  /** Every step keeps every level a sorted list and a sublist of the level below, and every search
      right. */
  lemma NextKeepsInv(s: System, a: Action)
    requires Inv(s) && Enabled(s, a)
    ensures Inv(Next(s, a))
  {
    var s' := Next(s, a);
    match a {
      case StartInsert(key, height) => StartInsertOk(s, key, height);
      case StoreMaxHeight =>
        RaiseKeepsGood(s.shape, s.chains, s.writer.height);
        forall i | 0 <= i < |s.readers|
          ensures ReaderOk(s'.shape, s.chains, s.readers[i], s.atStart[i])
        {
          ReaderStays(s.shape, s.chains, s'.shape, s.chains, s.readers[i], s.atStart[i]);
        }
      case StoreOwnNext => StoreOwnNextOk(s);
      case StorePrevNext => StorePrevNextOk(s);
      case FinishInsert =>
      case StartRead(key, level) =>
        assert Chain(s.shape, level, s.chains[level]);
      case ReadNext(i) => ReadOneOk(s.shape, s.chains, s.readers[i], s.atStart[i]);
    }
  }

  function EmptyShape(): Shape {
    Shape([0], [seq(MAX_HEIGHT, _ => NIL)], 1)
  }

  ghost function Start(): System {
    System(EmptyShape(), seq(MAX_HEIGHT, _ => [HEAD]), Idle, [], [])
  }

  lemma EmptyChain(l: nat)
    requires l < MAX_HEIGHT
    ensures Allocated(EmptyShape()) && Chain(EmptyShape(), l, [HEAD]) && Ascending(EmptyShape(), [HEAD])
  {
    assert EmptyShape().next[HEAD][l] == NIL;
  }

  lemma EmptyGood(chains: seq<seq<nat>>)
    requires |chains| == MAX_HEIGHT && forall l | 0 <= l < MAX_HEIGHT :: chains[l] == [HEAD]
    ensures Good(EmptyShape(), chains)
  {
    hide Chain, Ascending, EmptyShape;
    EmptyChain(0);
    forall l | 0 <= l < MAX_HEIGHT
      ensures Allocated(EmptyShape()) && Chain(EmptyShape(), l, chains[l]) && Ascending(EmptyShape(), chains[l])
    {
      EmptyChain(l);
    }
    OneLevel();
  }

  lemma OneLevel()
    ensures EmptyShape().maxHeight == 1
  {
  }

  lemma StartOk()
    ensures Inv(Start())
  {
    hide Good;
    EmptyGood(Start().chains);
  }

  /** A step, if it can be taken. */
  ghost function Take(s: System, a: Action): (s': System)
    requires Inv(s)
    ensures Inv(s')
  {
    if Enabled(s, a) then (NextKeepsInv(s, a); Next(s, a)) else s
  }

  /** The states a sequence of steps runs through, leaving out steps that cannot be taken. */
  ghost function Run(actions: seq<Action>): (s: System)
    ensures Inv(s)
  {
    if actions == [] then (StartOk(); Start())
    else Take(Run(actions[..|actions| - 1]), actions[|actions| - 1])
  }

  /** In every interleaving of one writer's stores with any number of readers' loads, a finished
      search has returned the first node at or after its key, as far as the keys that were present
      when it began can tell. */
  lemma SearchesFind(actions: seq<Action>, i: nat)
    requires i < |Run(actions).readers| && Run(actions).readers[i].Done?
    ensures var s := Run(actions);
            var r := s.readers[i];
            && i < |s.atStart| && |s.chains| == MAX_HEIGHT
            && (r.result != NIL ==>
                  && 0 < r.result < |s.shape.keys|
                  && r.result as nat in s.chains[0]
                  && s.shape.keys[r.result] >= r.key)
            && (forall k | k in s.atStart[i] && k >= r.key :: r.result != NIL && s.shape.keys[r.result] <= k)
  {
    var s := Run(actions);
    assert ReaderOk(s.shape, s.chains, s.readers[i], s.atStart[i]);
  }

  // ------------------------------------------------------------------------ the class

  /** Where the search for key ends at the bottom level. */
  ghost function SeekIndex(sh: Shape, chains: seq<seq<nat>>, key: int): nat
    requires Good(sh, chains)
  {
    PrevIndex(sh.keys, chains[0], key) + 1
  }

  /** The node at a place of the bottom level, or null past its end. */
  ghost function NodeAt(chains: seq<seq<nat>>, i: nat): int
    requires |chains| == MAX_HEIGHT
  {
    if i < |chains[0]| then chains[0][i] else NIL
  }

  /** A search stands on node x of a level, before key. */
  ghost predicate Standing(sh: Shape, chains: seq<seq<nat>>, key: int, x: nat, level: nat)
    requires Good(sh, chains)
  {
    level < MAX_HEIGHT && x in chains[level] && (x != HEAD ==> IsAfter(sh.keys, key, x))
  }

  /** The load of a next pointer: the successor in the level, or null at its end. */
  lemma NextInLevel(sh: Shape, chains: seq<seq<nat>>, level: nat, x: nat)
    requires Good(sh, chains) && level < MAX_HEIGHT && x in chains[level]
    ensures x < |sh.next| && level < |sh.next[x]|
    ensures var c := chains[level];
            var p := Place(c, x);
            && sh.next[x][level] == (if p + 1 < |c| then c[p + 1] else NIL)
            && (p + 1 < |c| ==>
                  c[p + 1] in c && Place(c, c[p + 1]) == p + 1 && c[p + 1] < |sh.keys| && c[p + 1] != HEAD)
  {
    var c := chains[level];
    var p := Place(c, x);
    assert Chain(sh, level, c) && Ascending(sh, c);
    ChainDistinct(sh, level, c);
  }

  /** A search that cannot move on stands on the last node before key. */
  lemma StopsAtPrev(sh: Shape, chains: seq<seq<nat>>, key: int, x: nat, level: nat)
    requires Good(sh, chains) && Standing(sh, chains, key, x, level)
    requires x < |sh.next| && level < |sh.next[x]| && !IsAfter(sh.keys, key, sh.next[x][level])
    ensures Place(chains[level], x) == PrevIndex(sh.keys, chains[level], key)
    ensures x == chains[level][PrevIndex(sh.keys, chains[level], key)]
  {
    var c := chains[level];
    assert Chain(sh, level, c) && Ascending(sh, c);
    NextInLevel(sh, chains, level, x);
    PrevIndexSplits(sh, c, key);
    var p, q := Place(c, x), PrevIndex(sh.keys, c, key);
    assert p + 1 < |c| ==> sh.keys[c[p + 1]] >= key;
    assert forall i | 0 < i <= q :: sh.keys[c[i]] < key;
  }

  lemma StandsBelow(sh: Shape, chains: seq<seq<nat>>, key: int, x: nat, level: nat)
    requires Good(sh, chains) && Standing(sh, chains, key, x, level) && level > 0
    ensures Standing(sh, chains, key, x, level - 1)
  {
    assert Sublist(chains[level], chains[level - 1]);
  }

  lemma GoodFacts(sh: Shape, chains: seq<seq<nat>>)
    requires Good(sh, chains)
    ensures |chains| == MAX_HEIGHT && 1 <= sh.maxHeight <= MAX_HEIGHT && |sh.keys| == |sh.next|
    ensures forall l | 0 <= l < MAX_HEIGHT :: |chains[l]| > 0 && HEAD in chains[l]
    ensures forall l | sh.maxHeight <= l < MAX_HEIGHT :: chains[l] == [HEAD]
  {
    forall l | 0 <= l < MAX_HEIGHT
      ensures |chains[l]| > 0 && HEAD in chains[l]
    {
      assert Chain(sh, l, chains[l]) && chains[l][0] == HEAD;
    }
  }

  lemma InLevelBelow(sh: Shape, chains: seq<seq<nat>>, x: nat, level: nat)
    requires Good(sh, chains) && 0 < level < MAX_HEIGHT && x in chains[level]
    ensures x in chains[level - 1]
  {
    assert Sublist(chains[level], chains[level - 1]);
  }

  lemma PrevsAre(sh: Shape, chains: seq<seq<nat>>, key: int, height: nat, prev: seq<nat>)
    requires Good(sh, chains) && height <= MAX_HEIGHT == |prev| == |chains|
    requires forall l | 0 <= l < MAX_HEIGHT :: |chains[l]| > 0
    requires forall l | 0 <= l < sh.maxHeight :: prev[l] == chains[l][PrevIndex(sh.keys, chains[l], key)]
    requires forall l | sh.maxHeight <= l < MAX_HEIGHT :: prev[l] == HEAD && chains[l] == [HEAD]
    ensures prev[..height] == PrevArray(sh, chains, key, height)
  {
    hide Good;
    forall l | 0 <= l < height
      ensures prev[l] == PrevArray(sh, chains, key, height)[l]
    {
    }
  }

  /** What the search for key finds: the node that holds it, if any does. */
  lemma SeekSplits(sh: Shape, chains: seq<seq<nat>>, key: int)
    requires Good(sh, chains)
    ensures |chains| == MAX_HEIGHT
    ensures var node := NodeAt(chains, SeekIndex(sh, chains, key));
            && Found(sh, chains[0], key, node, Present(sh, chains))
            && (node != NIL ==> 0 <= node < |sh.keys|)
            && (key in Present(sh, chains) <==> node != NIL && sh.keys[node] == key)
  {
    var c := chains[0];
    assert Chain(sh, 0, c) && Ascending(sh, c);
    PrevIndexSplits(sh, c, key);
    var p := PrevIndex(sh.keys, c, key);
    ReadFinds(sh, chains, key, p, Present(sh, chains));
    if p + 1 < |c| {
      assert c[p + 1] in c;
      NodePresent(sh, chains, c[p + 1]);
    }
  }

  class SkipList {
    var keys: seq<int>
    var next: seq<seq<int>>
    var maxHeight: nat
    ghost var chains: seq<seq<nat>>

    ghost function Sh(): Shape
      reads this
    {
      Shape(keys, next, maxHeight)
    }

    ghost predicate Valid()
      reads this
    {
      Good(Sh(), chains)
    }

    constructor ()
      ensures Valid() && Present(Sh(), chains) == {}
    {
      keys, next, maxHeight := [0], [seq(MAX_HEIGHT, _ => NIL)], 1;
      chains := seq(MAX_HEIGHT, _ => [HEAD]);
      new;
      EmptyGood(chains);
      assert Sh() == EmptyShape();
    }

    /** The node after the last one before key, and for every level in use that last one. */
    method FindGreaterOrEqual(key: int) returns (node: int, prev: seq<nat>)
      requires Valid()
      ensures node == NodeAt(chains, SeekIndex(Sh(), chains, key))
      ensures |prev| == MAX_HEIGHT
      ensures forall l | 0 <= l < maxHeight :: prev[l] == chains[l][PrevIndex(keys, chains[l], key)]
      ensures forall l | maxHeight <= l < MAX_HEIGHT :: prev[l] == HEAD
    {
      hide Good, PrevIndex, Place;
      GoodFacts(Sh(), chains);
      var x: nat, level: nat := HEAD, maxHeight - 1;
      prev := seq(MAX_HEIGHT, _ => HEAD);
      while true
        invariant level < maxHeight && |prev| == MAX_HEIGHT && x in chains[level]
        invariant Standing(Sh(), chains, key, x, level)
        invariant forall l | level < l < maxHeight :: prev[l] == chains[l][PrevIndex(keys, chains[l], key)]
        invariant forall l | maxHeight <= l < MAX_HEIGHT :: prev[l] == HEAD
        decreases level, |chains[level]| - Place(chains[level], x)
      {
        NextInLevel(Sh(), chains, level, x);
        var n := next[x][level];
        if IsAfter(keys, key, n) {
          x := n;
        } else {
          StopsAtPrev(Sh(), chains, key, x, level);
          prev := prev[level := x];
          if level == 0 {
            node := n;
            return;
          }
          StandsBelow(Sh(), chains, key, x, level);
          level := level - 1;
        }
      }
    }

    /** The last node before key, or the head. */
    method FindLessThan(key: int) returns (x: nat)
      requires Valid()
      ensures x == chains[0][PrevIndex(keys, chains[0], key)]
    {
      hide Good, PrevIndex, Place;
      GoodFacts(Sh(), chains);
      x := HEAD;
      var level: nat := maxHeight - 1;
      while true
        invariant level < maxHeight && x in chains[level]
        invariant Standing(Sh(), chains, key, x, level)
        decreases level, |chains[level]| - Place(chains[level], x)
      {
        NextInLevel(Sh(), chains, level, x);
        var n := next[x][level];
        if n == NIL || keys[n] >= key {
          StopsAtPrev(Sh(), chains, key, x, level);
          if level == 0 {
            return;
          }
          StandsBelow(Sh(), chains, key, x, level);
          level := level - 1;
        } else {
          x := n;
        }
      }
    }

    /** The last node, or the head of an empty list. */
    method FindLast() returns (x: nat)
      requires Valid()
      ensures x == chains[0][|chains[0]| - 1]
    {
      hide Good, Place;
      GoodFacts(Sh(), chains);
      x := HEAD;
      var level: nat := maxHeight - 1;
      while true
        invariant level < maxHeight && x in chains[level]
        decreases level, |chains[level]| - Place(chains[level], x)
      {
        NextInLevel(Sh(), chains, level, x);
        var n := next[x][level];
        if n == NIL {
          if level == 0 {
            return;
          }
          InLevelBelow(Sh(), chains, x, level);
          level := level - 1;
        } else {
          x := n;
        }
      }
    }

    /** Insert, for a height drawn by RandomHeight.  In every state between its stores the levels
        are sorted lists, each a sublist of the one below. */
    method Insert(key: int, height: nat)
      requires Valid() && key !in Present(Sh(), chains) && 1 <= height <= MAX_HEIGHT
      modifies this
      ensures Valid()
      ensures Present(Sh(), chains) == old(Present(Sh(), chains)) + {key}
    {
      hide Good, Present, WriterOk, PrevIndex, Place, ChainWith, Chain, Ascending, Allocated, Grows, LinkAt, PrevAt,
           PrevOf;
      var x, prev := FindGreaterOrEqual(key);
      GoodFacts(Sh(), chains);
      assert prev[..height] == PrevArray(Sh(), chains, key, height) by {
        PrevsAre(Sh(), chains, key, height, prev);
      }
      ghost var before := Present(Sh(), chains);
      if height > maxHeight {
        RaiseKeepsGood(Sh(), chains, height);
        maxHeight := height;
      }
      NewNodeReady(Sh(), chains, key, height);
      var node := |keys|;
      keys, next := keys + [key], next + [seq(height, _ => NIL)];
      ghost var w := Linking(node, prev[..height], height, 0, false);
      for i := 0 to height
        invariant Valid() && height <= maxHeight && w == Linking(node, prev[..height], height, i, false)
        invariant WriterOk(Sh(), chains, w)
        invariant node < |keys| && keys[node] == key
        invariant Present(Sh(), chains) == before + if i > 0 then {key} else {}
      {
        LinkEnabled(Sh(), chains, w);
        GoodFacts(Sh(), chains);
        OwnStoreGood(Sh(), chains, w);
        next := next[node := next[node][i := next[prev[i]][i]]];
        ghost var sh, oldChains := Sh(), chains;
        SetPrevLinks(sh, node, prev[i], i);
        next := next[prev[i] := next[prev[i]][i := node]];
        chains := chains[i := ChainWith(chains[i], Place(chains[i], prev[i]), node)];
        LinkLevelGood(sh, oldChains, w.(ready := true), Sh(), chains);
        w := w.(linked := i + 1);
      }
    }

    method Contains(key: int) returns (r: bool)
      requires Valid()
      ensures r <==> key in Present(Sh(), chains)
    {
      var x, prev := FindGreaterOrEqual(key);
      SeekSplits(Sh(), chains, key);
      hide Good, PrevIndex;
      r := x != NIL && keys[x] == key;
    }
  }

  /** An iterator: a node of the list, or null. */
  class Iterator {
    const list: SkipList
    var node: int

    /** The iterator is at a place of the bottom level, past its end if it is not valid. */
    ghost predicate At(i: nat)
      reads this, list
    {
      && list.Valid() && |list.chains| == MAX_HEIGHT
      && 0 < i <= |list.chains[0]| && node == NodeAt(list.chains, i)
    }

    ghost predicate Valid()
      reads this, list
    {
      list.Valid() && exists i: nat :: At(i)
    }

    constructor (list: SkipList)
      requires list.Valid()
      ensures Valid() && this.list == list && node == NIL
    {
      this.list, node := list, NIL;
      new;
      GoodFacts(list.Sh(), list.chains);
      assert At(|list.chains[0]|);
    }

    method Next(ghost i: nat)
      requires At(i) && node != NIL
      modifies this
      ensures At(i + 1)
    {
      NodeIs(list, i);
      node := list.next[node][0];
    }

    method Prev(ghost i: nat)
      requires At(i) && node != NIL
      modifies this
      ensures if i > 1 then At(i - 1) else node == NIL && At(|list.chains[0]|)
    {
      NodeIs(list, i);
      var x := list.FindLessThan(list.keys[node]);
      PrevIs(list, i);
      node := if x == HEAD then NIL else x;
    }

    /** Moves to the first key at or after the target. */
    method Seek(target: int)
      requires Valid()
      modifies this
      ensures At(SeekIndex(list.Sh(), list.chains, target))
      ensures target in Present(list.Sh(), list.chains)
              <==> node != NIL && 0 <= node < |list.keys| && list.keys[node] == target
      ensures forall k | k in Present(list.Sh(), list.chains) && k >= target ::
                node != NIL && 0 <= node < |list.keys| && target <= list.keys[node] <= k
      ensures node != NIL ==>
                && 0 <= node < |list.keys|
                && list.keys[node] >= target
                && list.keys[node] in Present(list.Sh(), list.chains)
    {
      ghost var prev;
      node, prev := list.FindGreaterOrEqual(target);
      SeekSplits(list.Sh(), list.chains, target);
      GoodFacts(list.Sh(), list.chains);
    }

    method SeekToFirst()
      requires Valid()
      modifies this
      ensures At(1)
    {
      GoodFacts(list.Sh(), list.chains);
      NextInLevel(list.Sh(), list.chains, 0, HEAD);
      HeadIsFirst(list);
      node := list.next[HEAD][0];
    }

    method SeekToLast()
      requires Valid()
      modifies this
      ensures |list.chains| == MAX_HEIGHT
      ensures if |list.chains[0]| > 1 then At(|list.chains[0]| - 1) else node == NIL
    {
      GoodFacts(list.Sh(), list.chains);
      var x := list.FindLast();
      LastIs(list);
      node := if x == HEAD then NIL else x;
    }
  }

  lemma NodeIs(list: SkipList, i: nat)
    requires list.Valid() && |list.chains| == MAX_HEIGHT && 0 < i < |list.chains[0]|
    ensures var c := list.chains[0];
            && c[i] != HEAD && c[i] < |list.keys| == |list.next| && 0 < |list.next[c[i]]|
            && list.next[c[i]][0] == NodeAt(list.chains, i + 1)
  {
    assert Chain(list.Sh(), 0, list.chains[0]);
  }

  lemma HeadIsFirst(list: SkipList)
    requires list.Valid() && |list.chains| == MAX_HEIGHT && |list.chains[0]| > 0
    ensures list.chains[0][0] == HEAD && Place(list.chains[0], HEAD) == 0
  {
    assert Chain(list.Sh(), 0, list.chains[0]);
  }

  lemma LastIs(list: SkipList)
    requires list.Valid() && |list.chains| == MAX_HEIGHT && |list.chains[0]| > 0
    ensures list.chains[0][|list.chains[0]| - 1] == HEAD <==> |list.chains[0]| == 1
  {
    assert Chain(list.Sh(), 0, list.chains[0]);
  }

  /** The last node before a node's own key is the node in front of it. */
  lemma PrevIs(list: SkipList, i: nat)
    requires list.Valid() && |list.chains| == MAX_HEIGHT && 0 < i < |list.chains[0]|
    ensures list.chains[0][i] < |list.keys|
    ensures PrevIndex(list.keys, list.chains[0], list.keys[list.chains[0][i]]) == i - 1
    ensures list.chains[0][i - 1] == HEAD <==> i == 1
  {
    var c := list.chains[0];
    assert Chain(list.Sh(), 0, c) && Ascending(list.Sh(), c);
    PrevIndexSplits(list.Sh(), c, list.keys[c[i]]);
    var p := PrevIndex(list.keys, c, list.keys[c[i]]);
    assert forall j | 0 < j < i :: list.keys[c[j]] < list.keys[c[i]];
    var j := p + 1;
    assert j < |c| ==> list.keys[c[j]] >= list.keys[c[i]];
  }
}
