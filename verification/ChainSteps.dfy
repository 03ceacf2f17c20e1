/** Chains as concurrent inserters see them: a shared memory of links, read one link at a time and changed
    by compare-and-swap. Nodes are numbered in the order of their publication. */
module ChainSteps {
  import opened Words
  import opened Keys

  /** A link holds the number of a node or NULL. */
  const NULL: int := -1

  type Ids = seq<nat>

  /** heads and next are the links, key holds the canonical keys of the published nodes. The last field is
      an auxiliary variable: the node numbers of each chain, as the links spell them out. */
  datatype Memory = Memory(heads: seq<int>, next: seq<int>, key: seq<Key>, chains: seq<Ids>)

  function HashOf(keys: Keying, k: Key): DWord {
    keys.digest(k)
  }

  ghost function IdAt(c: Ids, j: nat): int {
    if j < |c| then c[j] else NULL
  }

  /** head and the next links spell out c. */
  ghost predicate Spelled(head: int, next: seq<int>, c: Ids) {
    && head == IdAt(c, 0)
    && (forall j | 0 <= j < |c| :: c[j] < |next|)
    && (forall j {:trigger next[c[j]]} | 0 <= j < |c| :: next[c[j]] == IdAt(c, j + 1))
  }

  /** The nodes of c belong into chain b, are sorted by hash, and have no key twice. */
  ghost predicate Ordered(keys: Keying, key: seq<Key>, n: nat, b: nat, c: Ids)
    requires n > 0
  {
    && (forall j | 0 <= j < |c| :: c[j] < |key| && Slot(HashOf(keys, key[c[j]]), n) == b)
    && (forall i, j | 0 <= i < j < |c| ::
          HashOf(keys, key[c[i]]) <= HashOf(keys, key[c[j]]) && key[c[i]] != key[c[j]])
  }

  ghost predicate ChainOk(keys: Keying, m: Memory, b: nat)
    requires b < |m.heads| == |m.chains|
  {
    Spelled(m.heads[b], m.next, m.chains[b]) && Ordered(keys, m.key, |m.heads|, b, m.chains[b])
  }

  ghost predicate MemoryOk(keys: Keying, m: Memory) {
    && |m.heads| == |m.chains| > 0 && |m.next| == |m.key|
    && (forall b | 0 <= b < |m.heads| :: ChainOk(keys, m, b))
    && (forall id | 0 <= id < |m.key| :: id in m.chains[Slot(HashOf(keys, m.key[id]), |m.heads|)])
  }

  /** No two published nodes have equal keys. */
  lemma UniqueKeys(keys: Keying, m: Memory, i: nat, j: nat)
    requires MemoryOk(keys, m) && i < |m.key| && j < |m.key| && m.key[i] == m.key[j]
    ensures i == j
  {
    var b := Slot(HashOf(keys, m.key[i]), |m.heads|);
    assert ChainOk(keys, m, b);
    var x :| 0 <= x < |m.chains[b]| && m.chains[b][x] == i;
    var y :| 0 <= y < |m.chains[b]| && m.chains[b][y] == j;
  }

  // ----- Walks

  /** The first x nodes of the chain do not have key k, and their hashes do not exceed k's. */
  ghost predicate Cleared(keys: Keying, key: seq<Key>, k: Key, c: Ids, x: nat) {
    && x <= |c|
    && forall i | 0 <= i < x && c[i] < |key| :: key[c[i]] != k && HashOf(keys, key[c[i]]) <= HashOf(keys, k)
  }

  /** A walk for key k has been past the link at prev: the chain is cleared up to and including prev. */
  ghost predicate Passed(keys: Keying, key: seq<Key>, k: Key, c: Ids, prev: int) {
    prev != NULL ==> exists x :: 0 < x <= |c| && c[x - 1] == prev && Cleared(keys, key, k, c, x)
  }

  /** As Passed, for a node that comes behind prev in the chain. */
  ghost predicate PassedBehind(keys: Keying, key: seq<Key>, k: Key, c: Ids, prev: int, cur: int) {
    exists x :: 0 < x <= |c| && c[x - 1] == cur && Cleared(keys, key, k, c, x) && (prev != NULL ==> prev in c[..x - 1])
  }

  /** A node that a walk for key k goes on from: it neither has the key nor is past its hash. */
  predicate Skips(keys: Keying, key: seq<Key>, k: Key, cur: int) {
    0 <= cur < |key| && key[cur] != k && HashOf(keys, key[cur]) <= HashOf(keys, k)
  }

  ghost function ChainFor(keys: Keying, m: Memory, k: Key): Ids
    requires |m.heads| == |m.chains| > 0
  {
    m.chains[Slot(HashOf(keys, k), |m.heads|)]
  }

  /** Where a walk for key k stands: it has read cur from the link at prev, maybe some time ago. If the walk
      may go on from cur then nothing that was inserted in front of cur since then is what it looks for. */
  ghost predicate CursorOk(keys: Keying, m: Memory, k: Key, prev: int, cur: int)
    requires |m.heads| == |m.chains| > 0
  {
    && NULL <= prev < |m.key| && NULL <= cur < |m.key|
    && Passed(keys, m.key, k, ChainFor(keys, m, k), prev)
    && (Skips(keys, m.key, k, cur) ==> PassedBehind(keys, m.key, k, ChainFor(keys, m, k), prev, cur))
  }

  /** The link at a place: that of node prev, or the bucket of k's chain when prev is NULL. */
  function Link(keys: Keying, m: Memory, k: Key, prev: int): int
    requires |m.heads| > 0 && NULL <= prev < |m.next|
  {
    if prev == NULL then m.heads[Slot(HashOf(keys, k), |m.heads|)] else m.next[prev]
  }

  /** A walk starts at the bucket. */
  lemma CursorAtBucket(keys: Keying, m: Memory, k: Key)
    requires MemoryOk(keys, m)
    ensures CursorOk(keys, m, k, NULL, Link(keys, m, k, NULL))
  {
    var b := Slot(HashOf(keys, k), |m.heads|);
    assert ChainOk(keys, m, b);
    NextCursor(keys, m, k, 0);
  }

  /** A walk goes on from a node that it may skip, and reads its link now. */
  lemma CursorAdvances(keys: Keying, m: Memory, k: Key, prev: int, cur: int)
    requires MemoryOk(keys, m) && CursorOk(keys, m, k, prev, cur) && Skips(keys, m.key, k, cur)
    ensures CursorOk(keys, m, k, cur, Link(keys, m, k, cur))
  {
    var c := ChainFor(keys, m, k);
    assert ChainOk(keys, m, Slot(HashOf(keys, k), |m.heads|));
    var x :| 0 < x <= |c| && c[x - 1] == cur && Cleared(keys, m.key, k, c, x);
    assert m.next[c[x - 1]] == IdAt(c, x);
    NextCursor(keys, m, k, x);
  }

  lemma NextCursor(keys: Keying, m: Memory, k: Key, x: nat)
    requires MemoryOk(keys, m) && Cleared(keys, m.key, k, ChainFor(keys, m, k), x)
    ensures var c := ChainFor(keys, m, k);
            NULL <= IdAt(c, x) < |m.key| &&
            (Skips(keys, m.key, k, IdAt(c, x)) ==>
               PassedBehind(keys, m.key, k, c, if x == 0 then NULL else c[x - 1], IdAt(c, x)))
  {
    var c := ChainFor(keys, m, k);
    assert ChainOk(keys, m, Slot(HashOf(keys, k), |m.heads|));
    if x < |c| && Skips(keys, m.key, k, c[x]) {
      assert Cleared(keys, m.key, k, c, x + 1);
      assert x > 0 ==> c[..x][x - 1] == c[x - 1];
    }
  }

  // ----- Publication

  /** Position x is where a node of key k belongs: what is in front is cleared, what is behind is past its hash. */
  ghost predicate Site(keys: Keying, key: seq<Key>, k: Key, c: Ids, x: nat) {
    && Cleared(keys, key, k, c, x)
    && forall i | x <= i < |c| && c[i] < |key| :: HashOf(keys, key[c[i]]) > HashOf(keys, k)
  }

  /** The compare-and-swap at prev succeeds after the walk found that cur is past k's hash. */
  ghost predicate CanPublish(keys: Keying, m: Memory, k: Key, prev: int, cur: int)
    requires |m.heads| == |m.chains| > 0 && |m.next| == |m.key|
  {
    && CursorOk(keys, m, k, prev, cur)
    && Link(keys, m, k, prev) == cur
    && (cur != NULL ==> HashOf(keys, m.key[cur]) > HashOf(keys, k))
  }

  /** A successful compare-and-swap happens at the site of k. */
  lemma PublishSite(keys: Keying, m: Memory, k: Key, prev: int, cur: int) returns (x: nat)
    requires MemoryOk(keys, m) && CanPublish(keys, m, k, prev, cur)
    ensures var c := ChainFor(keys, m, k);
            Site(keys, m.key, k, c, x) && prev == (if x == 0 then NULL else c[x - 1]) && cur == IdAt(c, x)
  {
    hide Slot, Passed, PassedBehind;
    var c := ChainFor(keys, m, k);
    assert ChainOk(keys, m, Slot(HashOf(keys, k), |m.heads|));
    x := PrevAt(keys, m, k, prev);
    if x > 0 {
      assert m.next[c[x - 1]] == IdAt(c, x);
    }
    assert forall i | x < i < |c| :: HashOf(keys, m.key[c[x]]) <= HashOf(keys, m.key[c[i]]);
  }

  lemma PrevAt(keys: Keying, m: Memory, k: Key, prev: int) returns (x: nat)
    requires |m.heads| == |m.chains| > 0 && Passed(keys, m.key, k, ChainFor(keys, m, k), prev)
    ensures var c := ChainFor(keys, m, k);
            Cleared(keys, m.key, k, c, x) && prev == if x == 0 then NULL else c[x - 1]
  {
    hide Slot;
    var c := ChainFor(keys, m, k);
    x := 0;
    if prev != NULL {
      x :| 0 < x <= |c| && c[x - 1] == prev && Cleared(keys, m.key, k, c, x);
    }
  }

  /** The position of the link at prev, at which a swap succeeds. */
  ghost function SiteOf(keys: Keying, m: Memory, k: Key, prev: int, cur: int): (x: nat)
    requires MemoryOk(keys, m) && CanPublish(keys, m, k, prev, cur)
    ensures var c := ChainFor(keys, m, k);
            Site(keys, m.key, k, c, x) && prev == (if x == 0 then NULL else c[x - 1]) && cur == IdAt(c, x)
    ensures var c := ChainFor(keys, m, k); x > 0 ==> c[x - 1] < |m.next|
  {
    SiteExists(keys, m, k, prev, cur);
    var c := ChainFor(keys, m, k);
    var x: nat :| x <= |c| && Site(keys, m.key, k, c, x) && prev == (if x == 0 then NULL else c[x - 1])
      && cur == IdAt(c, x)
             && (x > 0 ==> c[x - 1] < |m.next|);
    x
  }

  lemma SiteExists(keys: Keying, m: Memory, k: Key, prev: int, cur: int)
    requires MemoryOk(keys, m) && CanPublish(keys, m, k, prev, cur)
    ensures var c := ChainFor(keys, m, k);
            exists x: nat | x <= |c| :: Site(keys, m.key, k, c, x) && prev == (if x == 0 then NULL else c[x - 1]) &&
                                        cur == IdAt(c, x) && (x > 0 ==> c[x - 1] < |m.next|)
  {
    var x := PublishSite(keys, m, k, prev, cur);
  }

  /** The memory after the next node, of key k, has been linked in at position x of chain b. */
  ghost function Publish(m: Memory, b: nat, x: nat, k: Key): Memory
    requires b < |m.heads| == |m.chains| && x <= |m.chains[b]|
    requires x > 0 ==> m.chains[b][x - 1] < |m.next|
  {
    var c, id := m.chains[b], |m.key|;
    Memory(if x == 0 then m.heads[b := id] else m.heads,
           (if x == 0 then m.next else m.next[c[x - 1] := id]) + [IdAt(c, x)],
           m.key + [k],
           m.chains[b := InsertAt(c, x, id)])
  }

  /** Publication is what the compare-and-swap does: it writes the link at prev, and the new node's own link,
      and no other. */
  lemma PublishWritesOneLink(keys: Keying, m: Memory, k: Key, prev: int, cur: int)
    requires MemoryOk(keys, m) && CanPublish(keys, m, k, prev, cur)
    ensures var b, id := Slot(HashOf(keys, k), |m.heads|), |m.key|;
            var m' := Publish(m, b, SiteOf(keys, m, k, prev, cur), k);
            && m'.key == m.key + [k]
            && m'.heads == (if prev == NULL then m.heads[b := id] else m.heads)
            && m'.next == (if prev == NULL then m.next else m.next[prev := id]) + [cur]
  {
    hide Slot, MemoryOk, Site;
  }

  lemma SpelledInsert(head: int, next: seq<int>, c: Ids, x: nat)
    requires Spelled(head, next, c) && x <= |c|
    requires forall i, j | 0 <= i < j < |c| :: c[i] != c[j]
    ensures Spelled(if x == 0 then |next| else head,
                    (if x == 0 then next else next[c[x - 1] := |next|]) + [IdAt(c, x)], InsertAt(c, x, |next|))
  {
  }

  lemma SpelledElsewhere(head: int, next: seq<int>, c: Ids, at: int, to: int, last: int)
    requires Spelled(head, next, c) && at !in c
    ensures Spelled(head, (if 0 <= at < |next| then next[at := to] else next) + [last], c)
  {
    assert forall j | 0 <= j < |c| :: next[c[j]] == IdAt(c, j + 1) && c[j] in c;
  }

  lemma OrderedInsert(keys: Keying, key: seq<Key>, n: nat, b: nat, c: Ids, x: nat, k: Key)
    requires n > 0 && Ordered(keys, key, n, b, c) && Slot(HashOf(keys, k), n) == b
    requires Site(keys, key, k, c, x)
    ensures Ordered(keys, key + [k], n, b, InsertAt(c, x, |key|))
  {
  }

  /** Publication keeps all chains in order and free of duplicates, and adds a key that was not there. */
  lemma PublishKeepsOrder(keys: Keying, m: Memory, k: Key, x: nat)
    requires MemoryOk(keys, m) && Site(keys, m.key, k, ChainFor(keys, m, k), x)
    ensures k !in m.key
    ensures var b := Slot(HashOf(keys, k), |m.heads|);
            (x > 0 ==> m.chains[b][x - 1] < |m.next|) && MemoryOk(keys, Publish(m, b, x, k))
  {
    var b := Slot(HashOf(keys, k), |m.heads|);
    var c := m.chains[b];
    SiteIsNew(keys, m, k, x);
    hide Slot, Site, Spelled, Ordered, InsertAt;
    SiteBounds(keys, m, k, x);
    var m' := Publish(m, b, x, k);
    forall i | 0 <= i < |m'.heads| ensures ChainOk(keys, m', i) {
      PublishKeepsChain(keys, m, k, x, i);
    }
    forall id | 0 <= id < |m'.key| ensures id in m'.chains[Slot(HashOf(keys, m'.key[id]), |m'.heads|)] {
      StillIn(c, x, |m.key|, id);
    }
  }

  lemma StillIn(c: Ids, x: nat, n: nat, id: nat)
    requires x <= |c|
    ensures id == n || id in c ==> id in InsertAt(c, x, n)
  {
    if id in c {
      var i :| 0 <= i < |c| && c[i] == id;
      assert InsertAt(c, x, n)[if i < x then i else i + 1] == id;
    } else {
      assert InsertAt(c, x, n)[x] == n;
    }
  }

  lemma SiteBounds(keys: Keying, m: Memory, k: Key, x: nat)
    requires MemoryOk(keys, m) && Site(keys, m.key, k, ChainFor(keys, m, k), x)
    ensures x <= |ChainFor(keys, m, k)| && (x > 0 ==> ChainFor(keys, m, k)[x - 1] < |m.next|)
  {
    assert ChainOk(keys, m, Slot(HashOf(keys, k), |m.heads|));
  }

  lemma PublishKeepsChain(keys: Keying, m: Memory, k: Key, x: nat, i: nat)
    requires MemoryOk(keys, m) && Site(keys, m.key, k, ChainFor(keys, m, k), x) && i < |m.heads|
    requires x > 0 ==> ChainFor(keys, m, k)[x - 1] < |m.next|
    ensures ChainOk(keys, Publish(m, Slot(HashOf(keys, k), |m.heads|), x, k), i)
  {
    hide Slot, Spelled;
    var b := Slot(HashOf(keys, k), |m.heads|);
    var c := m.chains[b];
    assert ChainOk(keys, m, b) && ChainOk(keys, m, i);
    if i == b {
      SpelledInsert(m.heads[b], m.next, c, x);
      OrderedInsert(keys, m.key, |m.heads|, b, c, x, k);
    } else {
      ChainsDisjoint(keys, m, b, i);
      assert x > 0 ==> c[x - 1] in c;
      SpelledElsewhere(m.heads[i], m.next, m.chains[i], if x == 0 then NULL else c[x - 1], |m.key|, IdAt(c, x));
    }
  }

  lemma SiteIsNew(keys: Keying, m: Memory, k: Key, x: nat)
    requires MemoryOk(keys, m) && Site(keys, m.key, k, ChainFor(keys, m, k), x)
    ensures k !in m.key
  {
    assert forall id | 0 <= id < |m.key| && m.key[id] == k :: id in ChainFor(keys, m, k);
  }

  lemma ChainsDisjoint(keys: Keying, m: Memory, b: nat, i: nat)
    requires MemoryOk(keys, m) && b < |m.heads| && i < |m.heads| && b != i
    ensures forall id | id in m.chains[b] :: id !in m.chains[i]
  {
    assert ChainOk(keys, m, b) && ChainOk(keys, m, i);
  }

  lemma CursorBounds(keys: Keying, m: Memory, k: Key, prev: int, cur: int)
    requires |m.heads| == |m.chains| > 0 && CursorOk(keys, m, k, prev, cur)
    ensures NULL <= prev < |m.key| && NULL <= cur < |m.key|
  {
  }

  /** Other walks are not disturbed by a publication. */
  lemma CursorStable(keys: Keying, m: Memory, k: Key, x: nat, k2: Key, prev: int, cur: int)
    requires MemoryOk(keys, m) && Site(keys, m.key, k, ChainFor(keys, m, k), x)
    requires x > 0 ==> ChainFor(keys, m, k)[x - 1] < |m.next|
    requires CursorOk(keys, m, k2, prev, cur)
    ensures CursorOk(keys, Publish(m, Slot(HashOf(keys, k), |m.heads|), x, k), k2, prev, cur)
  {
    PassedStable(keys, m, k, x, k2, prev);
    if Skips(keys, m.key, k2, cur) {
      PassedBehindStable(keys, m, k, x, k2, prev, cur);
    }
  }

  lemma PassedBehindStable(keys: Keying, m: Memory, k: Key, x: nat, k2: Key, prev: int, cur: int)
    requires MemoryOk(keys, m) && Site(keys, m.key, k, ChainFor(keys, m, k), x)
    requires x > 0 ==> ChainFor(keys, m, k)[x - 1] < |m.next|
    requires PassedBehind(keys, m.key, k2, ChainFor(keys, m, k2), prev, cur)
    ensures var m' := Publish(m, Slot(HashOf(keys, k), |m.heads|), x, k);
            PassedBehind(keys, m'.key, k2, ChainFor(keys, m', k2), prev, cur)
  {
    hide Slot, Site, Spelled;
    SiteBounds(keys, m, k, x);
    var c := ChainFor(keys, m, k2);
    var b, b2 := Slot(HashOf(keys, k), |m.heads|), Slot(HashOf(keys, k2), |m.heads|);
    var m' := Publish(m, b, x, k);
    assert ChainOk(keys, m, b2);
    var y :| 0 < y <= |c| && c[y - 1] == cur && Cleared(keys, m.key, k2, c, y) && (prev != NULL ==> prev in c[..y - 1]);
    if b != b2 {
      assert Cleared(keys, m'.key, k2, c, y);
    } else {
      ClearedInsert(keys, m.key, k, c, x, k2, y);
      if prev != NULL {
        StillInFront(c, x, |m.key|, y, prev);
      }
    }
  }

  lemma StillInFront(c: Ids, x: nat, id: nat, y: nat, prev: int)
    requires 0 < y <= |c| && x <= |c| && prev in c[..y - 1]
    ensures prev in InsertAt(c, x, id)[..(if y <= x then y else y + 1) - 1]
  {
    var i :| 0 <= i < y - 1 && c[i] == prev;
    var d := InsertAt(c, x, id)[..(if y <= x then y else y + 1) - 1];
    assert d[if i < x then i else i + 1] == prev;
  }

  lemma PassedStable(keys: Keying, m: Memory, k: Key, x: nat, k2: Key, at: int)
    requires MemoryOk(keys, m) && Site(keys, m.key, k, ChainFor(keys, m, k), x)
    requires x > 0 ==> ChainFor(keys, m, k)[x - 1] < |m.next|
    ensures Passed(keys, m.key, k2, ChainFor(keys, m, k2), at) ==>
            var m' := Publish(m, Slot(HashOf(keys, k), |m.heads|), x, k);
            Passed(keys, m'.key, k2, ChainFor(keys, m', k2), at)
  {
    hide Slot, Site, Spelled;
    SiteBounds(keys, m, k, x);
    var c := ChainFor(keys, m, k2);
    var b, b2 := Slot(HashOf(keys, k), |m.heads|), Slot(HashOf(keys, k2), |m.heads|);
    var m' := Publish(m, b, x, k);
    assert ChainOk(keys, m, b2);
    if at != NULL && Passed(keys, m.key, k2, c, at) {
      var y :| 0 < y <= |c| && c[y - 1] == at && Cleared(keys, m.key, k2, c, y);
      if b != b2 {
        assert Cleared(keys, m'.key, k2, c, y);
      } else {
        ClearedInsert(keys, m.key, k, c, x, k2, y);
      }
    }
  }

  lemma ClearedInsert(keys: Keying, key: seq<Key>, k: Key, c: Ids, x: nat, k2: Key, y: nat)
    requires forall j | 0 <= j < |c| :: c[j] < |key|
    requires Site(keys, key, k, c, x) && Cleared(keys, key, k2, c, y) && y > 0
    ensures var y' := if y <= x then y else y + 1;
            Cleared(keys, key + [k], k2, InsertAt(c, x, |key|), y') && InsertAt(c, x, |key|)[y' - 1] == c[y - 1]
  {
  }

  // ----- Positions

  /** One more than the index of p in c, and 0 when p is not in c. */
  ghost function Position(c: Ids, p: int): (r: nat)
    ensures r <= |c| && (r > 0 ==> c[r - 1] == p)
    ensures p in c ==> r > 0
  {
    if c == [] then 0 else if c[|c| - 1] == p then |c| else Position(c[..|c| - 1], p)
  }

  lemma PositionAt(c: Ids, i: nat)
    requires Distinct(c) && i < |c|
    ensures Position(c, c[i]) == i + 1
  {
  }

  lemma ChainLength(keys: Keying, m: Memory, b: nat)
    requires MemoryOk(keys, m) && b < |m.heads|
    ensures Distinct(m.chains[b]) && |m.chains[b]| <= |m.key|
  {
    var c := m.chains[b];
    assert ChainOk(keys, m, b);
    DistinctSize(c, set id | id in c);
    Below(set id | id in c, |m.key|);
  }

  /** Nobody walks backwards: a publication moves the nodes of a chain further from the bucket, if at all. */
  lemma PositionGrows(c: Ids, x: nat, id: nat, p: int)
    requires Distinct(c) && x <= |c| && id !in c && p != id
    ensures Position(InsertAt(c, x, id), p) >= Position(c, p)
  {
  }

  /** A walk moves towards the end of the chain. */
  lemma WalkMovesOn(keys: Keying, m: Memory, k: Key, prev: int, cur: int)
    requires MemoryOk(keys, m) && CursorOk(keys, m, k, prev, cur) && Skips(keys, m.key, k, cur)
    ensures var c := ChainFor(keys, m, k); Position(c, prev) < Position(c, cur) <= |m.key|
  {
    var c := ChainFor(keys, m, k);
    ChainLength(keys, m, Slot(HashOf(keys, k), |m.heads|));
    var x :| 0 < x <= |c| && c[x - 1] == cur && (prev != NULL ==> prev in c[..x - 1]);
    PositionAt(c, x - 1);
    if prev != NULL {
      var i :| 0 <= i < x - 1 && c[i] == prev;
      PositionAt(c, i);
    }
  }

  /** A publication drives no walk back. */
  lemma PositionStable(keys: Keying, m: Memory, k: Key, x: nat, k2: Key, p: int)
    requires MemoryOk(keys, m) && Site(keys, m.key, k, ChainFor(keys, m, k), x)
    requires x > 0 ==> ChainFor(keys, m, k)[x - 1] < |m.next|
    requires NULL <= p < |m.key|
    ensures Position(ChainFor(keys, Publish(m, Slot(HashOf(keys, k), |m.heads|), x, k), k2), p)
            >= Position(ChainFor(keys, m, k2), p)
  {
    hide Slot, Position, Site;
    var b := Slot(HashOf(keys, k), |m.heads|);
    SiteBounds(keys, m, k, x);
    ChainLength(keys, m, b);
    assert ChainOk(keys, m, b);
    PositionGrows(m.chains[b], x, |m.key|, p);
  }

  /** How often thread t appears in a schedule. */
  function Turns(schedule: seq<nat>, t: nat): nat {
    if schedule == [] then 0
    else Turns(schedule[..|schedule| - 1], t) + if schedule[|schedule| - 1] == t then 1 else 0
  }
}
