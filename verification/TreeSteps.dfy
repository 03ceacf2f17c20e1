/** TREE_HASH_TABLE under concurrent inserters: any number of threads run InsertRecord under the shared lock,
    interleaved at every read of a shared link and every interlocked operation. */
module TreeSteps {
  import opened Words
  import opened Keys
  import opened TreeSpec
  import opened ChainSteps

  /** A record slot is NULL, or OLD for a record that was there at first, or the thread that inserts it. */
  const OLD: int := -2

  /** What is left to do for a node that has been swapped into its chain: take the reference on the record,
      raise the count, read the parent's first child, and swap the node in there. */
  datatype Stage = Hold | Count | Push | PushSwap(head: int)

  /** Where a thread stands in InsertRecord. The number end is the length of the prefix of the path that it is
      dealing with, parent the node that AddNodeInternal is told to put it under.
      Seek, SeekWalk: the first loop looks for the lowest ancestor that is present.
      Add, AddWalk, AddSwap: AddNodeInternal looks for the place of a new node and swaps it in there.
      Link: the new node is in its chain.
      Attach, Took: a node with the whole path is there; its record slot is about to be filled, or is filled
      and the reference not taken yet. */
  datatype Place =
    | Seek(end: nat)
    | SeekWalk(end: nat, prev: int, cur: int)
    | Add(end: nat, parent: int)
    | AddWalk(end: nat, parent: int, prev: int, cur: int)
    | AddSwap(end: nat, parent: int, prev: int, cur: int)
    | Link(end: nat, parent: int, id: nat, stage: Stage)
    | Attach(id: nat)
    | Took(id: nat)
    | Won(id: nat)
    | Lost

  /** A thread inserts a record of its own with the given canonical path. Auxiliary: its failed and its successful
      swaps on links so far, and how many swaps on links had succeeded at its last read of a link. */
  datatype Thread = Thread(path: Key, at: Place, refs: nat, fails: nat, wins: nat, seen: nat)

  /** Auxiliary: owner is the thread that published each node, NULL for the nodes that were there at first;
      kids are the child lists as the links spell them out, linked is the number of swaps that put a node into one. */
  datatype State = State(
    memory: Memory, parent: seq<int>, firstChild: seq<int>, nextSibling: seq<int>, record: seq<int>, nItems: DWord,
    threads: seq<Thread>, owner: seq<int>, kids: seq<Ids>, linked: nat, first: nat)

  // ----- Prefixes

  /** The length of a prefix that gets a node. */
  predicate IsCut(p: Key, end: nat) {
    0 < end <= |p| && (end == |p| || IsSep(p[end]))
  }

  function NextCut(p: Key, end: nat): (n: nat)
    requires end < |p|
    ensures end < n && IsCut(p, n)
    ensures forall i | end < i < n :: !IsSep(p[i])
    decreases |p| - end
  {
    if end + 1 == |p| || IsSep(p[end + 1]) then end + 1 else NextCut(p, end + 1)
  }

  /** The prefix up to the next cut has the prefix up to this one as its nearest ancestor. */
  lemma NextCutParent(p: Key, end: nat)
    requires end < |p| && (end > 0 ==> IsSep(p[end]))
    ensures var n := NextCut(p, end); AncestorLen(p[..n]) == end && p[..n][..end] == p[..end]
  {
    hide LastSepBelow;
    var q := p[..NextCut(p, end)];
    var m := AncestorLen(q);
    assert q[m] == p[m] && q[end] == p[end];
  }

  /** A node of the given path under parent hangs below its nearest ancestor, or below none when it has none. */
  ghost predicate ParentFor(key: seq<Key>, parent: int, path: Key) {
    var n := AncestorLen(path);
    if n == 0 then parent == NULL else 0 <= parent < |key| && key[parent] == path[..n]
  }

  // ----- Steps

  predicate StartsAt(th: Thread) {
    th == Thread(th.path, Seek(AncestorLen(th.path)), 0, 0, 0, 0)
  }

  ghost predicate Initial(keys: Keying, s: State) {
    && Inv(keys, s)
    && s.first == |s.memory.key|
    && (forall id | 0 <= id < |s.record| :: s.record[id] == NULL || s.record[id] == OLD)
    && (forall t | 0 <= t < |s.threads| :: StartsAt(s.threads[t])) && s.linked == 0
  }

  function Turn(s: State, t: nat, th: Thread): State
    requires t < |s.threads|
  {
    s.(threads := s.threads[t := th])
  }

  /** Where AddNodeInternal goes on after the node for the prefix of length end: to the next prefix, below id. */
  function Next(th: Thread, end: nat, id: nat): Place
    requires end <= |th.path|
  {
    if end == |th.path| then Won(id) else Add(NextCut(th.path, end), id)
  }

  ghost function Read(keys: Keying, s: State, th: Thread, end: nat, prev: int): int
    requires |s.memory.heads| > 0 && end <= |th.path| && NULL <= prev < |s.memory.next|
  {
    ChainSteps.Link(keys, s.memory, th.path[..end], prev)
  }

  /** The swaps on links that have succeeded so far: publications, and nodes put into a child list. */
  function Swaps(s: State): int {
    |s.memory.key| - s.first + s.linked
  }

  /** FindNodeInternal has come to the end of the nodes whose hash is at most that of k. */
  ghost predicate Beyond(keys: Keying, s: State, k: Key, cur: int)
    requires NULL <= cur < |s.memory.key|
  {
    cur == NULL || HashOf(keys, s.memory.key[cur]) > HashOf(keys, k)
  }

  /** The next atomic step of thread t. */
  ghost function Step(keys: Keying, s: State, t: nat): State
    requires Inv(keys, s) && t < |s.threads|
  {
    var th := s.threads[t];
    assert ThreadOk(keys, s, t);
    match th.at
    case Seek(end) =>
      if end > 0 then Turn(s, t, th.(at := SeekWalk(end, NULL, Read(keys, s, th, end, NULL))))
      else Turn(s, t, th.(at := Add(NextCut(th.path, 0), NULL)))
    case SeekWalk(end, prev, cur) =>
      if Beyond(keys, s, th.path[..end], cur) then Turn(s, t, th.(at := Seek(LastSepBelow(th.path, end))))
      else if s.memory.key[cur] == th.path[..end] then Turn(s, t, th.(at := Next(th, end, cur)))
      else Turn(s, t, th.(at := SeekWalk(end, cur, Read(keys, s, th, end, cur))))
    case Add(end, parent) =>
      Turn(s, t, th.(at := AddWalk(end, parent, NULL, Read(keys, s, th, end, NULL)), seen := Swaps(s)))
    case AddWalk(end, parent, prev, cur) =>
      if Beyond(keys, s, th.path[..end], cur) then Turn(s, t, th.(at := AddSwap(end, parent, prev, cur)))
      else if s.memory.key[cur] == th.path[..end] then
        Turn(s, t, th.(at := if end == |th.path| then Attach(cur) else Next(th, end, cur)))
      else Turn(s, t, th.(at := AddWalk(end, parent, cur, Read(keys, s, th, end, cur)), seen := Swaps(s)))
    case AddSwap(end, parent, prev, cur) =>
      if Read(keys, s, th, end, prev) == cur then Published(keys, s, t)
      else Turn(s, t, th.(at := Add(end, parent), fails := th.fails + 1))
    case Link(end, parent, id, Hold) =>
      Turn(s, t, th.(at := Link(end, parent, id, Count), refs := th.refs + if end == |th.path| then 1 else 0))
    case Link(end, parent, id, Count) =>
      Turn(s, t, th.(at := if parent == NULL then Next(th, end, id) else Link(end, parent, id, Push))).(
        nItems := Wrap(s.nItems + 1))
    case Link(end, parent, id, Push) =>
      Turn(s, t, th.(at := Link(end, parent, id, PushSwap(s.firstChild[parent])), seen := Swaps(s))).(
        nextSibling := s.nextSibling[id := s.firstChild[parent]])
    case Link(end, parent, id, PushSwap(head)) =>
      if s.firstChild[parent] == head then
        Turn(s, t, th.(at := Next(th, end, id), wins := th.wins + 1)).(
          firstChild := s.firstChild[parent := id], kids := s.kids[parent := [id] + s.kids[parent]],
          linked := s.linked + 1)
      else Turn(s, t, th.(at := Link(end, parent, id, Push), fails := th.fails + 1))
    case Attach(id) =>
      if s.record[id] == NULL then Turn(s, t, th.(at := Took(id))).(record := s.record[id := t])
      else Turn(s, t, th.(at := Lost))
    case Took(id) =>
      Turn(s, t, th.(at := Won(id), refs := th.refs + 1))
    case Won(_) => s
    case Lost => s
  }

  /** The new node is swapped in at prev, with the record when it stands for the whole path. */
  ghost function Published(keys: Keying, s: State, t: nat): State
    requires Inv(keys, s) && t < |s.threads| && s.threads[t].at.AddSwap? && ThreadOk(keys, s, t)
    requires Read(keys, s, s.threads[t], s.threads[t].at.end, s.threads[t].at.prev) == s.threads[t].at.cur
  {
    var th := s.threads[t];
    var k := th.path[..th.at.end];
    var x := SiteOf(keys, s.memory, k, th.at.prev, th.at.cur);
    State(Publish(s.memory, Slot(HashOf(keys, k), |s.memory.heads|), x, k),
          s.parent + [th.at.parent], s.firstChild + [NULL], s.nextSibling + [NULL],
          s.record + [if th.at.end == |th.path| then t else NULL], s.nItems,
          s.threads[t := th.(at := Link(th.at.end, th.at.parent, |s.memory.key|, Hold), wins := th.wins + 1)],
          s.owner + [t], s.kids + [[]], s.linked, s.first)
  }

  // ----- The invariant

  ghost predicate Shape(s: State) {
    && |s.memory.heads| == |s.memory.chains| > 0
    && |s.memory.key| == |s.memory.next| == |s.parent| == |s.firstChild| == |s.nextSibling| == |s.record|
       == |s.owner| == |s.kids|
    && s.first <= |s.memory.key|
  }

  ghost predicate Inv(keys: Keying, s: State) {
    && Shape(s) && MemoryOk(keys, s.memory)
    && (forall id | 0 <= id < |s.memory.key| :: NodeOk(s, id) && OwnerOk(s, id) && RecordOk(s, id) && KidsOk(s, id))
    && (forall t | 0 <= t < |s.threads| :: ThreadOk(keys, s, t))
    && s.nItems == Wrap(|s.memory.key| - |Uncounted(s)|)
    && s.first + s.linked + |Linkers(s)| <= |s.memory.key|
  }

  /** The threads whose new node is not in its child list yet. */
  function Linkers(s: State): set<nat> {
    set t | 0 <= t < |s.threads| && s.threads[t].at.Link?
  }

  /** The parent of a published node is its nearest ancestor, and is published. */
  ghost predicate NodeOk(s: State, id: nat)
    requires Shape(s) && id < |s.memory.key|
  {
    s.memory.key[id] != [] && ParentFor(s.memory.key, s.parent[id], s.memory.key[id])
  }

  /** A node that was published belongs to the path of the thread that published it. */
  ghost predicate OwnerOk(s: State, id: nat)
    requires Shape(s) && id < |s.memory.key|
  {
    if id < s.first then s.owner[id] == NULL
    else 0 <= s.owner[id] < |s.threads| && s.memory.key[id] in Lineage(s.threads[s.owner[id]].path)
  }

  /** The thread is to fill, or has filled, the record slot of the node. */
  predicate Carries(th: Thread, id: nat) {
    (th.at.Link? && th.at.id == id && th.at.end == |th.path|) || th.at == Took(id) || th.at == Won(id)
  }

  ghost predicate RecordOk(s: State, id: nat)
    requires Shape(s) && id < |s.memory.key|
  {
    var r := s.record[id];
    r == NULL || (r == OLD && id < s.first) ||
    (0 <= r < |s.threads| && s.memory.key[id] == s.threads[r].path && Carries(s.threads[r], id))
  }

  /** The node is in its chain, but not yet in the child list of its parent. */
  predicate Links(th: Thread, id: nat) {
    th.at.Link? && th.at.id == id
  }

  ghost predicate Pending(s: State, id: nat)
    requires Shape(s) && id < |s.memory.key|
  {
    0 <= s.owner[id] < |s.threads| && Links(s.threads[s.owner[id]], id)
  }

  /** The child list of a node holds, once each, the nodes that name it as their parent and are not pending. */
  ghost predicate KidsOk(s: State, p: nat)
    requires Shape(s) && p < |s.memory.key|
  {
    && Spelled(s.firstChild[p], s.nextSibling, s.kids[p]) && Distinct(s.kids[p])
    && forall id: nat :: id in s.kids[p] <==> id < |s.memory.key| && s.parent[id] == p && !Pending(s, id)
  }

  function Uncounted(s: State): set<nat> {
    set t | 0 <= t < |s.threads| && s.threads[t].at.Link?
      && (s.threads[t].at.stage.Hold? || s.threads[t].at.stage.Count?)
  }

  /** A thread deals with a prefix that gets a node, below the node of the prefix's nearest ancestor. */
  ghost predicate AddOk(s: State, th: Thread, end: nat, parent: int) {
    IsCut(th.path, end) && ParentFor(s.memory.key, parent, th.path[..end])
  }

  /** What the thread has read from a link is still there unless a swap has succeeded since. */
  predicate Fresh(s: State, th: Thread, there: bool) {
    th.fails + th.wins <= th.seen <= Swaps(s) && (there || th.seen < Swaps(s))
  }

  ghost predicate ThreadOk(keys: Keying, s: State, t: nat)
    requires Shape(s) && t < |s.threads|
  {
    var th := s.threads[t];
    var m := s.memory;
    && th.path != [] && th.fails + th.wins <= Swaps(s)
    && th.refs == (if th.at.Won? || (th.at.Link? && th.at.end == |th.path| && !th.at.stage.Hold?) then 1 else 0)
    && match th.at
       case Seek(end) => end < |th.path| && (end > 0 ==> IsSep(th.path[end]))
       case SeekWalk(end, prev, cur) =>
         0 < end < |th.path| && IsSep(th.path[end]) && CursorOk(keys, m, th.path[..end], prev, cur)
       case Add(end, parent) => AddOk(s, th, end, parent)
       case AddWalk(end, parent, prev, cur) =>
         AddOk(s, th, end, parent) && CursorOk(keys, m, th.path[..end], prev, cur) &&
         Fresh(s, th, Read(keys, s, th, end, prev) == cur)
       case AddSwap(end, parent, prev, cur) =>
         AddOk(s, th, end, parent) && CursorOk(keys, m, th.path[..end], prev, cur) &&
         Beyond(keys, s, th.path[..end], cur) &&
         Fresh(s, th, Read(keys, s, th, end, prev) == cur)
       case Link(end, parent, id, stage) =>
         && AddOk(s, th, end, parent) && id < |m.key|
         && m.key[id] == th.path[..end] && s.owner[id] == t && s.parent[id] == parent
         && (end == |th.path| ==> s.record[id] == t)
         && (stage.Push? || stage.PushSwap? ==> parent != NULL)
         && (stage.PushSwap? ==> s.nextSibling[id] == stage.head && Fresh(s, th, s.firstChild[parent] == stage.head))
       case Attach(id) => id < |m.key| && m.key[id] == th.path
       case Took(id) => id < |m.key| && m.key[id] == th.path && s.record[id] == t
       case Won(id) => id < |m.key| && m.key[id] == th.path && s.record[id] == t
       case Lost => exists id | 0 <= id < |m.key| :: m.key[id] == th.path && s.record[id] != NULL
  }

  // ----- Every step keeps the invariant

  /** What a step of thread t does when it publishes no node: the chains stay, and of the tree only the record
      slot and the links that belong to t may change. */
  ghost predicate Quiet(s: State, s': State, t: nat)
    requires Shape(s) && t < |s.threads|
  {
    && Shape(s') && s'.memory == s.memory && s'.parent == s.parent && s'.owner == s.owner && s'.first == s.first
    && |s'.threads| == |s.threads| && s'.threads[t].path == s.threads[t].path
    && s'.linked >= s.linked && (s'.firstChild == s.firstChild || s'.linked > s.linked)
    && (forall u | 0 <= u < |s.threads| && u != t :: s'.threads[u] == s.threads[u])
    && (forall id | 0 <= id < |s.memory.key| && s.owner[id] != t :: s'.nextSibling[id] == s.nextSibling[id])
    && (forall id | 0 <= id < |s.memory.key| :: RecordStep(s, s', t, id))
  }

  ghost predicate RecordStep(s: State, s': State, t: nat, id: nat)
    requires Shape(s) && t < |s.threads| && Shape(s') && s'.memory == s.memory && t < |s'.threads|
             && id < |s.memory.key|
  {
    && (Carries(s.threads[t], id) ==> Carries(s'.threads[t], id))
    && (s'.record[id] != s.record[id] ==>
          s.record[id] == NULL && s'.record[id] == t && s.memory.key[id] == s.threads[t].path
          && Carries(s'.threads[t], id))
  }

  lemma QuietKeepsInv(keys: Keying, s: State, s': State, t: nat)
    requires Inv(keys, s) && t < |s.threads| && Quiet(s, s', t)
    requires forall p | 0 <= p < |s.memory.key| :: KidsOk(s', p)
    requires ThreadOk(keys, s', t)
    requires s'.nItems == Wrap(|s'.memory.key| - |Uncounted(s')|)
    requires s'.linked + |Linkers(s')| <= s.linked + |Linkers(s)|
    ensures Inv(keys, s')
  {
    hide KidsOk, MemoryOk, Linkers;
    forall id | 0 <= id < |s'.memory.key| ensures NodeOk(s', id) && OwnerOk(s', id) && RecordOk(s', id) {
      assert NodeOk(s, id) && OwnerOk(s, id) && RecordOk(s, id) && RecordStep(s, s', t, id);
    }
    forall u | 0 <= u < |s'.threads| ensures ThreadOk(keys, s', u) {
      if u != t {
        OtherThread(keys, s, s', t, u);
      }
    }
  }

  lemma OtherThread(keys: Keying, s: State, s': State, t: nat, u: nat)
    requires Inv(keys, s) && t < |s.threads| && u < |s.threads| && u != t && Quiet(s, s', t)
    ensures ThreadOk(keys, s', u)
  {
    hide KidsOk, MemoryOk, CursorOk, ParentFor;
    assert ThreadOk(keys, s, u);
    var th := s.threads[u];
    match th.at
    case Link(_, _, id, _) => assert RecordStep(s, s', t, id);
    case Took(id) => assert RecordStep(s, s', t, id);
    case Won(id) => assert RecordStep(s, s', t, id);
    case Lost =>
      var id: nat :| id < |s.memory.key| && s.memory.key[id] == th.path && s.record[id] != NULL;
      assert RecordStep(s, s', t, id);
      assert s'.memory.key[id] == th.path && s'.record[id] != NULL;
    case _ =>
  }

  /** The child lists stay when their links do, and when the thread only leaves a node that has no parent. */
  lemma KidsStay(keys: Keying, s: State, s': State, t: nat)
    requires Inv(keys, s) && t < |s.threads| && Quiet(s, s', t)
    requires s'.firstChild == s.firstChild && s'.nextSibling == s.nextSibling && s'.kids == s.kids
    requires forall id | 0 <= id < |s.memory.key| && s.owner[id] == t ::
               Links(s'.threads[t], id) == Links(s.threads[t], id) || s.parent[id] == NULL
    ensures forall p | 0 <= p < |s.memory.key| :: KidsOk(s', p)
  {
    hide MemoryOk, ThreadOk, RecordStep;
    forall p | 0 <= p < |s.memory.key| ensures KidsOk(s', p) {
      assert KidsOk(s, p);
      assert forall id | 0 <= id < |s.memory.key| && s.parent[id] == p :: Pending(s', id) == Pending(s, id);
    }
  }

  /** Two nodes have no child in common, and a pending node is in no child list. */
  lemma KidsApart(keys: Keying, s: State, p: nat, id: nat)
    requires Inv(keys, s) && p < |s.memory.key| && id < |s.memory.key|
    requires s.parent[id] != p || Pending(s, id)
    ensures id !in s.kids[p]
  {
    assert KidsOk(s, p);
  }

  lemma SpelledSame(head: int, next: seq<int>, next': seq<int>, c: Ids)
    requires Spelled(head, next, c) && |next| <= |next'|
    requires forall j | 0 <= j < |c| && c[j] < |next| :: next'[c[j]] == next[c[j]]
    ensures Spelled(head, next', c)
  {
  }

  /** Writing the sibling link of a pending node is not seen by any child list. */
  lemma KidsKeptByPush(keys: Keying, s: State, s': State, t: nat, id: nat)
    requires Inv(keys, s) && t < |s.threads| && Quiet(s, s', t) && id < |s.memory.key| && Pending(s, id)
    requires s'.firstChild == s.firstChild && s'.kids == s.kids
    requires forall i | 0 <= i < |s.memory.key| && i != id :: s'.nextSibling[i] == s.nextSibling[i]
    requires forall i: nat :: Links(s'.threads[t], i) == Links(s.threads[t], i)
    ensures forall p | 0 <= p < |s.memory.key| :: KidsOk(s', p)
  {
    hide MemoryOk, ThreadOk, RecordStep, Spelled;
    forall p | 0 <= p < |s.memory.key| ensures KidsOk(s', p) {
      assert KidsOk(s, p);
      KidsApart(keys, s, p, id);
      SpelledSame(s.firstChild[p], s.nextSibling, s'.nextSibling, s.kids[p]);
      assert forall i | 0 <= i < |s.memory.key| :: Pending(s', i) == Pending(s, i);
    }
  }

  /** The swap at the parent puts the node at the front of the parent's child list, and it is pending no more. */
  lemma KidsGain(keys: Keying, s: State, s': State, t: nat, parent: nat, id: nat)
    requires Inv(keys, s) && t < |s.threads| && Quiet(s, s', t)
    requires id < |s.memory.key| && parent < |s.memory.key| && s.parent[id] == parent
    requires s.owner[id] == t && Links(s.threads[t], id) && s.nextSibling[id] == s.firstChild[parent]
    requires s'.firstChild == s.firstChild[parent := id] && s'.nextSibling == s.nextSibling
    requires s'.kids == s.kids[parent := [id] + s.kids[parent]] && !s'.threads[t].at.Link?
    ensures forall p | 0 <= p < |s.memory.key| :: KidsOk(s', p)
  {
    hide MemoryOk, ThreadOk, RecordStep;
    forall p | 0 <= p < |s.memory.key| ensures KidsOk(s', p) {
      assert KidsOk(s, p);
      KidsApart(keys, s, p, id);
      forall i: nat ensures i in s'.kids[p] <==> i < |s.memory.key| && s'.parent[i] == p && !Pending(s', i) {
        if i < |s.memory.key| && i != id {
          assert Pending(s', i) == Pending(s, i);
        }
      }
      if p == parent {
        SpelledFront(s.firstChild[p], s.nextSibling, s.kids[p], id);
      }
    }
  }

  lemma SpelledFront(head: int, next: seq<int>, c: Ids, id: nat)
    requires Spelled(head, next, c) && Distinct(c) && id !in c && id < |next| && next[id] == head
    ensures Spelled(id, next, [id] + c) && Distinct([id] + c)
  {
  }

  /** A successful compare-and-swap on a chain happens under these conditions. */
  ghost predicate CanSwap(keys: Keying, s: State, t: nat)
    requires Inv(keys, s) && t < |s.threads|
  {
    s.threads[t].at.AddSwap? && ThreadOk(keys, s, t) &&
    Read(keys, s, s.threads[t], s.threads[t].at.end, s.threads[t].at.prev) == s.threads[t].at.cur
  }

  lemma PublicationMemory(keys: Keying, s: State, t: nat) returns (x: nat)
    requires Inv(keys, s) && t < |s.threads| && CanSwap(keys, s, t)
    ensures var s', k := Published(keys, s, t), s.threads[t].path[..s.threads[t].at.end];
            && Site(keys, s.memory.key, k, ChainFor(keys, s.memory, k), x)
            && (x > 0 ==> ChainFor(keys, s.memory, k)[x - 1] < |s.memory.next|)
            && s'.memory == Publish(s.memory, Slot(HashOf(keys, k), |s.memory.heads|), x, k)
            && MemoryOk(keys, s'.memory) && Shape(s') && s'.memory.key == s.memory.key + [k] && k !in s.memory.key
  {
    hide Slot, Site, CursorOk, MemoryOk;
    var th := s.threads[t];
    var k := th.path[..th.at.end];
    x := SiteOf(keys, s.memory, k, th.at.prev, th.at.cur);
    PublishKeepsOrder(keys, s.memory, k, x);
  }

  lemma PublicationKeepsNodes(keys: Keying, s: State, t: nat, id: nat)
    requires Inv(keys, s) && t < |s.threads| && CanSwap(keys, s, t)
    requires Shape(Published(keys, s, t)) && id <= |s.memory.key|
    requires Published(keys, s, t).memory.key == s.memory.key + [s.threads[t].path[..s.threads[t].at.end]]
    ensures var s' := Published(keys, s, t);
            NodeOk(s', id) && OwnerOk(s', id) && RecordOk(s', id)
  {
    hide Slot, CursorOk, MemoryOk, Lineage;
    var s', th := Published(keys, s, t), s.threads[t];
    if id < |s.memory.key| {
      assert NodeOk(s, id) && OwnerOk(s, id) && RecordOk(s, id);
      var p, n := s.memory.key[id], AncestorLen(s.memory.key[id]);
    } else {
      assert s'.memory.key[id] == th.path[..th.at.end];
      CutInLineage(th.path, th.at.end);
      assert th.path[..|th.path|] == th.path;
    }
  }

  lemma CutInLineage(p: Key, end: nat)
    requires IsCut(p, end)
    ensures p[..end] in Lineage(p) && p[..end] != []
  {
  }

  lemma PublicationKeepsKids(keys: Keying, s: State, t: nat, p: nat)
    requires Inv(keys, s) && t < |s.threads| && CanSwap(keys, s, t)
    requires Shape(Published(keys, s, t)) && p <= |s.memory.key|
    ensures KidsOk(Published(keys, s, t), p)
  {
    hide Slot, CursorOk, MemoryOk, Lineage, SiteOf, ParentFor, Spelled;
    var s', th, last := Published(keys, s, t), s.threads[t], |s.memory.key|;
    forall i: nat | i < last ensures Pending(s', i) == Pending(s, i) && s'.parent[i] == s.parent[i] {
    }
    assert Pending(s', last);
    if p < last {
      assert KidsOk(s, p);
      SpelledSame(s.firstChild[p], s.nextSibling, s'.nextSibling, s.kids[p]);
    } else {
      forall i: nat | i < last ensures s'.parent[i] != p {
        ParentBelow(keys, s, i);
      }
      SpelledEmpty(s'.nextSibling);
    }
  }

  lemma ParentBelow(keys: Keying, s: State, i: nat)
    requires Inv(keys, s) && i < |s.memory.key|
    ensures s.parent[i] < |s.memory.key|
  {
    assert NodeOk(s, i);
  }

  lemma SpelledEmpty(next: seq<int>)
    ensures Spelled(NULL, next, [])
  {
  }

  lemma PublicationKeepsThread(keys: Keying, s: State, t: nat, u: nat, x: nat)
    requires Inv(keys, s) && t < |s.threads| && CanSwap(keys, s, t) && u < |s.threads| && u != t
    requires var s', k := Published(keys, s, t), s.threads[t].path[..s.threads[t].at.end];
             && Site(keys, s.memory.key, k, ChainFor(keys, s.memory, k), x)
             && (x > 0 ==> ChainFor(keys, s.memory, k)[x - 1] < |s.memory.next|)
             && s'.memory == Publish(s.memory, Slot(HashOf(keys, k), |s.memory.heads|), x, k)
             && MemoryOk(keys, s'.memory) && Shape(s')
    ensures ThreadOk(keys, Published(keys, s, t), u)
  {
    hide Slot, CursorOk, Site, SiteOf;
    var s', k, th := Published(keys, s, t), s.threads[t].path[..s.threads[t].at.end], s.threads[u];
    assert ThreadOk(keys, s, u);
    if th.at.SeekWalk? || th.at.AddWalk? || th.at.AddSwap? {
      CursorStable(keys, s.memory, k, x, th.path[..th.at.end], th.at.prev, th.at.cur);
      CursorBounds(keys, s.memory, th.path[..th.at.end], th.at.prev, th.at.cur);
    } else if th.at.Lost? {
      var id: nat :| id < |s.memory.key| && s.memory.key[id] == th.path && s.record[id] != NULL;
      assert s'.memory.key[id] == th.path && s'.record[id] != NULL;
    }
  }

  lemma PublicationKeepsInv(keys: Keying, s: State, t: nat)
    requires Inv(keys, s) && t < |s.threads| && CanSwap(keys, s, t)
    ensures Inv(keys, Published(keys, s, t))
  {
    hide Slot, CursorOk, Site, SiteOf, MemoryOk, KidsOk, NodeOk, OwnerOk, RecordOk;
    var x := PublicationMemory(keys, s, t);
    var s' := Published(keys, s, t);
    forall id | 0 <= id < |s'.memory.key|
      ensures NodeOk(s', id) && OwnerOk(s', id) && RecordOk(s', id) && KidsOk(s', id)
    {
      PublicationKeepsNodes(keys, s, t, id);
      PublicationKeepsKids(keys, s, t, id);
    }
    forall u | 0 <= u < |s'.threads| ensures ThreadOk(keys, s', u) {
      if u != t {
        PublicationKeepsThread(keys, s, t, u, x);
      }
    }
    assert Uncounted(s') == Uncounted(s) + {t};
    LinkersAfter(s, s', t);
  }

  lemma LinkersAfter(s: State, s': State, t: nat)
    requires t < |s.threads| == |s'.threads|
    requires forall u | 0 <= u < |s.threads| && u != t :: s'.threads[u] == s.threads[u]
    ensures s.threads[t].at.Link? && !s'.threads[t].at.Link? ==> |Linkers(s')| == |Linkers(s)| - 1
    ensures !s.threads[t].at.Link? && s'.threads[t].at.Link? ==> |Linkers(s')| == |Linkers(s)| + 1
    ensures s.threads[t].at.Link? == s'.threads[t].at.Link? ==> |Linkers(s')| == |Linkers(s)|
  {
    var a, b := Linkers(s), Linkers(s');
    SizeWithout(a, t);
    SizeWithout(b, t);
    forall u | u != t ensures u in a <==> u in b {
      assert 0 <= u < |s.threads| ==> s'.threads[u] == s.threads[u];
    }
    assert a - {t} == b - {t};
  }

  /** Steps that leave the child lists alone. */
  lemma TurnKeepsInv(keys: Keying, s: State, s': State, t: nat)
    requires Inv(keys, s) && t < |s.threads| && Quiet(s, s', t)
    requires s'.firstChild == s.firstChild && s'.nextSibling == s.nextSibling && s'.kids == s.kids
    requires forall id: nat | id < |s.memory.key| && s.owner[id] == t ::
               Links(s'.threads[t], id) == Links(s.threads[t], id) || s.parent[id] == NULL
    requires ThreadOk(keys, s', t)
    requires s'.nItems == Wrap(|s'.memory.key| - |Uncounted(s')|)
    requires s'.linked == s.linked && (s'.threads[t].at.Link? ==> s.threads[t].at.Link?)
    ensures Inv(keys, s')
  {
    LinkersAfter(s, s', t);
    hide KidsOk, ThreadOk, MemoryOk, Quiet, Uncounted, Linkers;
    KidsStay(keys, s, s', t);
    QuietKeepsInv(keys, s, s', t);
  }

  /** A thread goes on to the next prefix of its path. */
  lemma NextAddOk(s: State, th: Thread, end: nat, id: nat)
    requires end < |th.path| && IsCut(th.path, end) && id < |s.memory.key| && s.memory.key[id] == th.path[..end]
    ensures AddOk(s, th, NextCut(th.path, end), id)
  {
    NextCutParent(th.path, end);
  }

  predicate CountsSame(th: Thread, th': Thread) {
    (th.at.Link? && (th.at.stage.Hold? || th.at.stage.Count?))
      == (th'.at.Link? && (th'.at.stage.Hold? || th'.at.stage.Count?))
  }

  lemma UncountedSame(s: State, s': State, t: nat)
    requires t < |s.threads| == |s'.threads|
    requires forall u | 0 <= u < |s.threads| && u != t :: s'.threads[u] == s.threads[u]
    requires CountsSame(s.threads[t], s'.threads[t])
    ensures Uncounted(s') == Uncounted(s)
  {
  }

  lemma WalkBounds(keys: Keying, s: State, t: nat)
    requires Inv(keys, s) && t < |s.threads| && ThreadOk(keys, s, t)
    ensures var at := s.threads[t].at;
            at.SeekWalk? || at.AddWalk? || at.AddSwap? ==>
              NULL <= at.prev < |s.memory.key| && NULL <= at.cur < |s.memory.key|
  {
  }

  lemma SeekKeepsInv(keys: Keying, s: State, t: nat)
    requires Inv(keys, s) && t < |s.threads| && (s.threads[t].at.Seek? || s.threads[t].at.SeekWalk?)
    ensures Inv(keys, Step(keys, s, t))
  {
    hide Slot, MemoryOk, KidsOk, CursorOk;
    var th, s' := s.threads[t], Step(keys, s, t);
    assert ThreadOk(keys, s, t);
    var k := th.path[..th.at.end];
    WalkBounds(keys, s, t);
    if th.at.Seek? {
      if th.at.end > 0 {
        CursorAtBucket(keys, s.memory, k);
      } else {
        NextCutParent(th.path, 0);
      }
    } else if Skips(keys, s.memory.key, k, th.at.cur) {
      CursorAdvances(keys, s.memory, k, th.at.prev, th.at.cur);
    } else if !Beyond(keys, s, k, th.at.cur) {
      NextAddOk(s, th, th.at.end, th.at.cur);
    }
    UncountedSame(s, s', t);
    TurnKeepsInv(keys, s, s', t);
  }

  lemma AddKeepsInv(keys: Keying, s: State, t: nat)
    requires Inv(keys, s) && t < |s.threads| && (s.threads[t].at.Add? || s.threads[t].at.AddWalk?)
    ensures Inv(keys, Step(keys, s, t))
  {
    hide Slot, MemoryOk, KidsOk, CursorOk;
    var th, s' := s.threads[t], Step(keys, s, t);
    assert ThreadOk(keys, s, t);
    var k := th.path[..th.at.end];
    WalkBounds(keys, s, t);
    if th.at.Add? {
      CursorAtBucket(keys, s.memory, k);
    } else if Skips(keys, s.memory.key, k, th.at.cur) {
      CursorAdvances(keys, s.memory, k, th.at.prev, th.at.cur);
    } else if !Beyond(keys, s, k, th.at.cur) && th.at.end < |th.path| {
      NextAddOk(s, th, th.at.end, th.at.cur);
    }
    UncountedSame(s, s', t);
    TurnKeepsInv(keys, s, s', t);
  }

  lemma SwapKeepsInv(keys: Keying, s: State, t: nat)
    requires Inv(keys, s) && t < |s.threads| && s.threads[t].at.AddSwap?
    ensures Inv(keys, Step(keys, s, t))
  {
    hide Slot, MemoryOk, KidsOk, CursorOk;
    assert ThreadOk(keys, s, t);
    if CanSwap(keys, s, t) {
      PublicationKeepsInv(keys, s, t);
    } else {
      var s' := Step(keys, s, t);
      UncountedSame(s, s', t);
      TurnKeepsInv(keys, s, s', t);
    }
  }

  lemma CountKeepsInv(keys: Keying, s: State, t: nat)
    requires Inv(keys, s) && t < |s.threads| && s.threads[t].at.Link? && s.threads[t].at.stage.Count?
    ensures Inv(keys, Step(keys, s, t))
  {
    hide MemoryOk, KidsOk, CursorOk;
    var th, s' := s.threads[t], Step(keys, s, t);
    assert ThreadOk(keys, s, t);
    if th.at.end < |th.path| {
      NextAddOk(s, th, th.at.end, th.at.id);
    }
    assert Uncounted(s') == Uncounted(s) - {t};
    WrapShift(|s.memory.key| - |Uncounted(s)|, 1);
    TurnKeepsInv(keys, s, s', t);
  }

  lemma HoldKeepsInv(keys: Keying, s: State, t: nat)
    requires Inv(keys, s) && t < |s.threads| && s.threads[t].at.Link? && s.threads[t].at.stage.Hold?
    ensures Inv(keys, Step(keys, s, t))
  {
    hide MemoryOk, KidsOk, CursorOk, Uncounted;
    var s' := Step(keys, s, t);
    assert ThreadOk(keys, s, t);
    UncountedSame(s, s', t);
    TurnKeepsInv(keys, s, s', t);
  }

  lemma PushKeepsInv(keys: Keying, s: State, t: nat)
    requires Inv(keys, s) && t < |s.threads| && s.threads[t].at.Link? && s.threads[t].at.stage.Push?
    ensures Inv(keys, Step(keys, s, t))
  {
    hide MemoryOk, KidsOk, CursorOk, Uncounted;
    var s' := Step(keys, s, t);
    assert ThreadOk(keys, s, t);
    UncountedSame(s, s', t);
    LinkersAfter(s, s', t);
    KidsKeptByPush(keys, s, s', t, s.threads[t].at.id);
    QuietKeepsInv(keys, s, s', t);
  }

  lemma ChildKeepsInv(keys: Keying, s: State, t: nat)
    requires Inv(keys, s) && t < |s.threads| && s.threads[t].at.Link? && s.threads[t].at.stage.PushSwap?
    ensures Inv(keys, Step(keys, s, t))
  {
    hide MemoryOk, KidsOk, CursorOk, Uncounted;
    var th, s' := s.threads[t], Step(keys, s, t);
    assert ThreadOk(keys, s, t);
    UncountedSame(s, s', t);
    LinkersAfter(s, s', t);
    if s.firstChild[th.at.parent] == th.at.stage.head {
      if th.at.end < |th.path| {
        NextAddOk(s, th, th.at.end, th.at.id);
      }
      KidsGain(keys, s, s', t, th.at.parent, th.at.id);
      QuietKeepsInv(keys, s, s', t);
    } else {
      TurnKeepsInv(keys, s, s', t);
    }
  }

  lemma RecordKeepsInv(keys: Keying, s: State, t: nat)
    requires Inv(keys, s) && t < |s.threads| && (s.threads[t].at.Attach? || s.threads[t].at.Took?)
    ensures Inv(keys, Step(keys, s, t))
  {
    hide MemoryOk, KidsOk, CursorOk, Uncounted;
    var th, s' := s.threads[t], Step(keys, s, t);
    assert ThreadOk(keys, s, t);
    UncountedSame(s, s', t);
    TurnKeepsInv(keys, s, s', t);
  }

  /** Every step of every thread keeps the invariant. */
  lemma StepKeepsInv(keys: Keying, s: State, t: nat)
    requires Inv(keys, s) && t < |s.threads|
    ensures Inv(keys, Step(keys, s, t))
  {
    hide Inv;
    match s.threads[t].at
    case Seek(_) => SeekKeepsInv(keys, s, t);
    case SeekWalk(_, _, _) => SeekKeepsInv(keys, s, t);
    case Add(_, _) => AddKeepsInv(keys, s, t);
    case AddWalk(_, _, _, _) => AddKeepsInv(keys, s, t);
    case AddSwap(_, _, _, _) => SwapKeepsInv(keys, s, t);
    case Link(_, _, _, Count) => CountKeepsInv(keys, s, t);
    case Link(_, _, _, Hold) => HoldKeepsInv(keys, s, t);
    case Link(_, _, _, Push) => PushKeepsInv(keys, s, t);
    case Link(_, _, _, PushSwap(_)) => ChildKeepsInv(keys, s, t);
    case Attach(_) => RecordKeepsInv(keys, s, t);
    case Took(_) => RecordKeepsInv(keys, s, t);
    case Won(_) =>
    case Lost =>
  }

  // ----- Runs

  ghost function Run(keys: Keying, s: State, schedule: seq<nat>): (r: State)
    requires Inv(keys, s)
    ensures Inv(keys, r)
  {
    if schedule == [] then s
    else
      var r := Run(keys, s, schedule[..|schedule| - 1]);
      var t := schedule[|schedule| - 1];
      if t < |r.threads| then
        StepKeepsInv(keys, r, t);
        Step(keys, r, t)
      else r
  }

  /** What never changes, and what only grows: nodes stay, with their parents, and a record slot once filled. */
  ghost predicate Grows(s: State, s': State)
    requires Shape(s) && Shape(s')
  {
    && s'.first == s.first && |s'.threads| == |s.threads|
    && s.memory.key <= s'.memory.key && s.owner <= s'.owner && s.parent <= s'.parent
    && (forall id | 0 <= id < |s.record| :: s.record[id] != NULL || s'.record[id] == OLD ==>
          s'.record[id] == s.record[id])
    && (forall t | 0 <= t < |s.threads| :: s'.threads[t].path == s.threads[t].path)
  }

  lemma StepGrows(keys: Keying, s: State, t: nat)
    requires Inv(keys, s) && t < |s.threads| && Shape(Step(keys, s, t))
    ensures Grows(s, Step(keys, s, t))
  {
    hide Slot, MemoryOk, KidsOk, CursorOk, SiteOf, ParentFor, RecordOk, NodeOk, OwnerOk, Published, Fresh, Linkers,
         Uncounted, AddOk, Beyond, Read, NextCut, LastSepBelow, IsCut;
    assert ThreadOk(keys, s, t);
    var at := s.threads[t].at;
    if at.AddSwap? && CanSwap(keys, s, t) {
      PublicationGrows(keys, s, t);
    } else if at.Link? || at.Attach? || at.Took? {
      LinkGrows(keys, s, t);
    }
  }

  lemma LinkGrows(keys: Keying, s: State, t: nat)
    requires Inv(keys, s) && t < |s.threads| && Shape(Step(keys, s, t)) && ThreadOk(keys, s, t)
    requires s.threads[t].at.Link? || s.threads[t].at.Attach? || s.threads[t].at.Took?
    ensures Grows(s, Step(keys, s, t))
  {
    hide Slot, MemoryOk, KidsOk, CursorOk, SiteOf, ParentFor, RecordOk, NodeOk, OwnerOk, Published, Fresh, Linkers,
         Uncounted, AddOk, Beyond, Read, NextCut, LastSepBelow, IsCut;
  }

  lemma PublicationGrows(keys: Keying, s: State, t: nat)
    requires Inv(keys, s) && t < |s.threads| && CanSwap(keys, s, t) && Shape(Published(keys, s, t))
    ensures Grows(s, Published(keys, s, t))
  {
    hide Slot, MemoryOk, KidsOk, CursorOk, SiteOf, ParentFor, RecordOk, NodeOk, OwnerOk;
  }

  lemma {:induction false} NothingIsLost(keys: Keying, s: State, schedule: seq<nat>)
    requires Inv(keys, s)
    ensures Grows(s, Run(keys, s, schedule))
  {
    if schedule != [] {
      NothingIsLost(keys, s, schedule[..|schedule| - 1]);
      var r := Run(keys, s, schedule[..|schedule| - 1]);
      var t := schedule[|schedule| - 1];
      if t < |r.threads| {
        StepKeepsInv(keys, r, t);
        StepGrows(keys, r, t);
      }
    }
  }

  // ----- What holds in every reachable state, and at the end

  /** Every ancestor of a published path is published. */
  lemma {:induction false} AncestorsPublished(keys: Keying, s: State, id: nat, a: Key)
    requires Inv(keys, s) && id < |s.memory.key| && Ancestor(a, s.memory.key[id])
    ensures a in s.memory.key
    decreases |s.memory.key[id]|
  {
    hide KidsOk, MemoryOk;
    var p := s.memory.key[id];
    assert NodeOk(s, id);
    AncestorStep(a, p);
    var up: nat := s.parent[id];
    if a != s.memory.key[up] {
      AncestorsPublished(keys, s, up, a);
    }
  }

  predicate Done(th: Thread) {
    th.at.Won? || th.at.Lost?
  }

  ghost predicate Finished(s: State) {
    forall t | 0 <= t < |s.threads| :: Done(s.threads[t])
  }

  /** When no insert is in flight, each child list holds exactly the nodes that name its parent, in one run of
      links, and the count is the number of nodes. */
  lemma ChildListsExact(keys: Keying, s: State)
    requires Inv(keys, s) && Finished(s)
    ensures forall p | 0 <= p < |s.memory.key| ::
              && Spelled(s.firstChild[p], s.nextSibling, s.kids[p]) && Distinct(s.kids[p])
              && forall id: nat :: id in s.kids[p] <==> id < |s.memory.key| && s.parent[id] == p
    ensures s.nItems == Wrap(|s.memory.key|)
  {
    hide MemoryOk, ThreadOk, NodeOk, OwnerOk, RecordOk;
    assert Uncounted(s) == {};
    forall p | 0 <= p < |s.memory.key|
      ensures Spelled(s.firstChild[p], s.nextSibling, s.kids[p]) && Distinct(s.kids[p])
      ensures forall id: nat :: id in s.kids[p] <==> id < |s.memory.key| && s.parent[id] == p
    {
      assert KidsOk(s, p);
    }
  }

  ghost function Rivals(s: State, p: Key): set<nat> {
    set t | 0 <= t < |s.threads| && s.threads[t].path == p
  }

  /** The path has a node with a record. */
  ghost predicate Occupied(s: State, p: Key)
    requires Shape(s)
  {
    exists id | 0 <= id < |s.memory.key| :: s.memory.key[id] == p && s.record[id] != NULL
  }

  lemma FilledSlot(keys: Keying, r: State, t: nat) returns (id: nat)
    requires Inv(keys, r) && Finished(r) && t < |r.threads|
    ensures id < |r.memory.key| && r.memory.key[id] == r.threads[t].path && r.record[id] != NULL
    ensures r.threads[t].at.Won? ==> r.record[id] == t
  {
    hide KidsOk, MemoryOk;
    assert ThreadOk(keys, r, t);
    if r.threads[t].at.Won? {
      id := r.threads[t].at.id;
    } else {
      id :| id < |r.memory.key| && r.memory.key[id] == r.threads[t].path && r.record[id] != NULL;
    }
  }

  /** A winner's record is in the slot of the one node that has its path. */
  lemma WinnerFills(keys: Keying, r: State, id: nat, t: nat)
    requires Inv(keys, r) && Finished(r) && t < |r.threads| && id < |r.memory.key|
    requires r.memory.key[id] == r.threads[t].path && r.record[id] != NULL
    ensures r.threads[t].at.Won? <==> r.record[id] == t
  {
    hide KidsOk;
    var id' := FilledSlot(keys, r, t);
    UniqueKeys(keys, r.memory, id, id');
    assert RecordOk(r, id);
  }

  /** The record of thread t is the one of path p. */
  ghost predicate Fills(r: State, p: Key, t: nat) {
    exists id: nat :: id < |r.memory.key| && id < |r.record| && r.memory.key[id] == p && r.record[id] == t
  }

  /** A thread that has returned holds one reference on its record for the table if it has won, and none if not. */
  lemma FinishedReferences(keys: Keying, s: State, schedule: seq<nat>, t: nat)
    requires Inv(keys, s) && t < |Run(keys, s, schedule).threads|
    ensures var th := Run(keys, s, schedule).threads[t];
            (th.at.Won? ==> th.refs == 1) && (th.at.Lost? ==> th.refs == 0)
  {
    hide KidsOk, MemoryOk, CursorOk;
    assert ThreadOk(keys, Run(keys, s, schedule), t);
  }

  /** Of the threads that insert the same path exactly one returns S_OK when the path carried no record, and
      none when it carried one; the record is not replaced. */
  lemma ExactlyOneWins(keys: Keying, s: State, schedule: seq<nat>, p: Key)
    requires Initial(keys, s) && Finished(Run(keys, s, schedule)) && Rivals(s, p) != {}
    ensures var r := Run(keys, s, schedule);
            && |r.threads| == |s.threads| && Occupied(r, p)
            && (Occupied(s, p) ==> forall t | t in Rivals(s, p) :: r.threads[t].at.Lost?)
            && (!Occupied(s, p) ==>
                  exists t | t in Rivals(s, p) ::
                    r.threads[t].at.Won? && Fills(r, p, t) &&
                    forall u | u in Rivals(s, p) && u != t :: r.threads[u].at.Lost?)
  {
    NothingIsLost(keys, s, schedule);
    OneWinner(keys, s, Run(keys, s, schedule), p);
  }

  lemma OneWinner(keys: Keying, s: State, r: State, p: Key)
    requires Initial(keys, s) && Inv(keys, r) && Grows(s, r) && Finished(r) && Rivals(s, p) != {}
    ensures Occupied(r, p)
    ensures Occupied(s, p) ==> forall t | t in Rivals(s, p) :: r.threads[t].at.Lost?
    ensures !Occupied(s, p) ==>
              exists t | t in Rivals(s, p) ::
                r.threads[t].at.Won? && Fills(r, p, t) &&
                forall u | u in Rivals(s, p) && u != t :: r.threads[u].at.Lost?
  {
    hide KidsOk, MemoryOk, ThreadOk, NodeOk, OwnerOk;
    var t :| t in Rivals(s, p);
    var id := FilledSlot(keys, r, t);
    forall u | u in Rivals(s, p) ensures r.threads[u].at.Won? <==> r.record[id] == u {
      WinnerFills(keys, r, id, u);
    }
    assert RecordOk(r, id);
    if Occupied(s, p) {
      var id': nat :| id' < |s.memory.key| && s.memory.key[id'] == p && s.record[id'] != NULL;
      UniqueKeys(keys, r.memory, id, id');
    } else {
      if r.record[id] == OLD {
        OldWasThere(keys, s, r, id);
      }
      assert r.record[id] in Rivals(s, p) && Fills(r, p, r.record[id]);
    }
  }

  lemma OldWasThere(keys: Keying, s: State, r: State, id: nat)
    requires Initial(keys, s) && Inv(keys, r) && Grows(s, r) && id < |r.memory.key| && r.record[id] == OLD
    ensures Occupied(s, r.memory.key[id])
  {
    hide KidsOk, MemoryOk, ThreadOk;
    assert RecordOk(r, id);
    assert s.memory.key[id] == r.memory.key[id] && s.record[id] == OLD;
  }

  /** q is p, or p cut at a slash or a backslash above position 0. */
  ghost predicate CutOf(p: Key, q: Key) {
    exists i | 0 < i <= |p| && (i == |p| || p[i] == 47 || p[i] == 92) :: q == p[..i]
  }

  lemma LineageIsCuts(p: Key, q: Key)
    ensures q in Lineage(p) <==> CutOf(p, q)
  {
  }

  /** The nodes at the end are those of the start and the prefixes of the inserted paths, whatever the order:
      as many inserts one after the other would leave them. */
  lemma PathsAtTheEnd(keys: Keying, s: State, schedule: seq<nat>, q: Key)
    requires Initial(keys, s) && Finished(Run(keys, s, schedule))
    ensures q in Run(keys, s, schedule).memory.key <==>
            q in s.memory.key || exists t | 0 <= t < |s.threads| :: CutOf(s.threads[t].path, q)
  {
    hide KidsOk, MemoryOk, ThreadOk, CutOf;
    NothingIsLost(keys, s, schedule);
    var r := Run(keys, s, schedule);
    forall t | 0 <= t < |s.threads| ensures q in Lineage(s.threads[t].path) <==> CutOf(s.threads[t].path, q) {
      LineageIsCuts(s.threads[t].path, q);
    }
    if q in r.memory.key {
      var id: nat :| id < |r.memory.key| && r.memory.key[id] == q;
      assert OwnerOk(r, id);
    }
    if t: nat :| t < |s.threads| && q in Lineage(s.threads[t].path) {
      var id := FilledSlot(keys, r, t);
      if q != s.threads[t].path {
        AncestorsPublished(keys, r, id, q);
      }
    }
  }

  // ----- Where runs start

  ghost predicate Starting(threads: seq<Thread>) {
    forall t | 0 <= t < |threads| :: StartsAt(threads[t]) && threads[t].path != []
  }

  /** A run may start on an empty table ... */
  lemma EmptyIsInitial(keys: Keying, n: nat, threads: seq<Thread>)
    requires n > 0 && Starting(threads)
    ensures var m := Memory(seq(n, i => NULL), [], [], seq(n, i => []));
            Initial(keys, State(m, [], [], [], [], 0, threads, [], [], 0, 0))
  {
    var s := State(Memory(seq(n, i => NULL), [], [], seq(n, i => [])), [], [], [], [], 0, threads, [], [], 0, 0);
    assert Uncounted(s) == {} && Linkers(s) == {};
    forall b | 0 <= b < n ensures ChainOk(keys, s.memory, b) {
    }
  }

  /** The table that a finished run leaves, with new threads. */
  ghost function Renewed(r: State, threads: seq<Thread>): State
    requires Shape(r)
  {
    var n := |r.memory.key|;
    r.(threads := threads, owner := seq(n, i => NULL), linked := 0, first := n,
       record := seq(n, i requires 0 <= i < n => if r.record[i] == NULL then NULL else OLD))
  }

  /** ... and on whatever a finished run has left. */
  lemma FinishedIsInitial(keys: Keying, r: State, threads: seq<Thread>)
    requires Inv(keys, r) && Finished(r) && Starting(threads)
    ensures Initial(keys, Renewed(r, threads))
  {
    hide MemoryOk;
    ChildListsExact(keys, r);
    var s := Renewed(r, threads);
    assert Uncounted(s) == {} && Linkers(s) == {};
    forall id | 0 <= id < |s.memory.key| ensures NodeOk(s, id) && OwnerOk(s, id) && RecordOk(s, id) && KidsOk(s, id) {
      assert NodeOk(r, id);
    }
  }
}
