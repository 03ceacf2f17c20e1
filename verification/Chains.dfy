/** Nodes of the hash tables and the chains they form: what it means for `next` links to spell out a
    sequence, for chains to be sorted by hash, and for every node to sit in the chain its hash selects. */
module Chains {
  import opened Words
  import opened Keys

  /** A record is known by its address. */
  type Record = nat

  /** A node of either table. The tree links are used by the tree table only. */
  class Node {
    var next: Node?

    var parent: Node?
    var firstChild: Node?
    var nextSibling: Node?
    ghost var children: seq<Node>  // what firstChild and nextSibling spell out

    var record: Option<Record>

    const path: Key
    const hash: DWord
    ghost const id: Key            // the canonical form of path

    constructor (keys: Keying, path: Key, record: Option<Record>, parent: Node?)
      ensures this.path == path && this.record == record && this.parent == parent
      ensures id == keys.Canon(path) && hash == keys.Hash(path)
      ensures next == null && firstChild == null && nextSibling == null && children == []
    {
      this.path, this.record, this.parent := path, record, parent;
      id, hash := keys.Canon(path), keys.Hash(path);
      next, firstChild, nextSibling, children := null, null, null, [];
    }
  }

  // ----- One chain

  type Chain = seq<Node>

  /** The j-th node of a chain, null past its end. */
  ghost function At(c: Chain, j: nat): Node? {
    if j < |c| then c[j] else null
  }

  /** The node whose `next` is the link to position j, null when that link is the bucket itself. */
  ghost function Before(c: Chain, j: nat): Node?
    requires j <= |c|
  {
    if j == 0 then null else c[j - 1]
  }

  /** head and the `next` fields spell out c. */
  ghost predicate Linked(head: Node?, c: Chain)
    reads c`next
  {
    && head == At(c, 0)
    && forall j {:trigger c[j].next} | 0 <= j < |c| :: c[j].next == At(c, j + 1)
  }

  ghost predicate Sorted(c: Chain) {
    forall i, j | 0 <= i < j < |c| :: c[i].hash <= c[j].hash
  }

  /** Nothing before position j is past hash h or stored under p. */
  ghost predicate Passed(p: Key, h: DWord, c: Chain, j: nat) {
    && j <= |c|
    && forall i | 0 <= i < j :: c[i].hash <= h && c[i].id != p
  }

  lemma NextOf(head: Node?, c: Chain, j: nat)
    requires Linked(head, c) && j < |c|
    ensures c[j].next == At(c, j + 1)
  {
  }

  lemma LinkedAfterInsert(c: Chain, j: nat, n: Node, head: Node?)
    requires j <= |c| && Distinct(InsertAt(c, j, n))
    requires n.next == At(c, j)
    requires j > 0 ==> c[j - 1].next == n
    requires forall i {:trigger c[i].next} | 0 <= i < |c| && i + 1 != j :: c[i].next == At(c, i + 1)
    requires head == if j == 0 then n else c[0]
    ensures Linked(head, InsertAt(c, j, n))
  {
  }

  lemma LinkedAfterRemove(c: Chain, j: nat, head: Node?)
    requires j < |c| && Distinct(c)
    requires j > 0 ==> c[j - 1].next == At(c, j + 1)
    requires forall i {:trigger c[i].next} | 0 <= i < |c| && i + 1 != j :: c[i].next == At(c, i + 1)
    requires head == if j == 0 then At(c, 1) else c[0]
    ensures Linked(head, RemoveAt(c, j))
  {
  }

  // ----- All chains

  /** n is stored under its canonical key. */
  ghost predicate Has(index: map<Key, Node>, n: Node) {
    n.id in index && index[n.id] == n
  }

  ghost predicate InChain(chains: seq<Chain>, index: map<Key, Node>, b: nat)
    requires b < |chains|
  {
    && Sorted(chains[b])
    && Distinct(chains[b])
    && forall n | n in chains[b] :: Has(index, n) && Slot(n.hash, |chains|) == b
  }

  /** Every stored node sits once, in the chain its hash selects, and chains are sorted by hash. */
  ghost predicate Placed(keys: Keying, chains: seq<Chain>, index: map<Key, Node>) {
    && |chains| > 0
    && (forall p | p in index :: Indexed(keys, chains, p, index[p]))
    && (forall b | 0 <= b < |chains| :: InChain(chains, index, b))
  }

  /** n carries the canonical key and the hash of its path. */
  ghost predicate Keyed(keys: Keying, n: Node) {
    n.id == keys.Canon(n.path) && n.hash == keys.digest(n.id)
  }

  ghost predicate Indexed(keys: Keying, chains: seq<Chain>, p: Key, n: Node)
    requires |chains| > 0
  {
    && n.id == p
    && Keyed(keys, n)
    && n in chains[Slot(n.hash, |chains|)]
  }

  /** The early exit is sound: what lies behind a node of larger hash has larger hash still. */
  lemma NotPassed(keys: Keying, chains: seq<Chain>, index: map<Key, Node>, p: Key, j: nat)
    requires Placed(keys, chains, index)
    requires Passed(p, keys.digest(p), chains[Slot(keys.digest(p), |chains|)], j)
    requires var c := chains[Slot(keys.digest(p), |chains|)]; j < |c| ==> c[j].hash > keys.digest(p)
    ensures p !in index
  {
    var c := chains[Slot(keys.digest(p), |chains|)];
    assert InChain(chains, index, Slot(keys.digest(p), |chains|));
    forall i | 0 <= i < |c| ensures c[i].id != p {
      assert c[i] in c && Has(index, c[i]) && Indexed(keys, chains, c[i].id, c[i]);
      assert i >= j ==> c[j].hash <= c[i].hash;
    }
  }

  lemma PlacedAfterInsert(keys: Keying, chains: seq<Chain>, index: map<Key, Node>, j: nat, n: Node)
    requires Placed(keys, chains, index)
    requires Keyed(keys, n) && n.id !in index
    requires Passed(n.id, n.hash, chains[Slot(n.hash, |chains|)], j)
    requires var c := chains[Slot(n.hash, |chains|)]; j < |c| ==> c[j].hash > n.hash
    ensures var b := Slot(n.hash, |chains|);
            Placed(keys, chains[b := InsertAt(chains[b], j, n)], index[n.id := n])
  {
    var b := Slot(n.hash, |chains|);
    var c := chains[b];
    var c' := InsertAt(c, j, n);
    var chains' := chains[b := c'];
    var index' := index[n.id := n];
    forall i | 0 <= i < |chains'| ensures InChain(chains', index', i) {
      assert InChain(chains, index, i);
      if i == b {
        InsertIntoChain(chains, index, j, n);
      }
    }
    forall p | p in index' ensures Indexed(keys, chains', p, index'[p]) {
      if p == n.id {
        assert c'[j] == n;
      } else {
        assert Indexed(keys, chains, p, index[p]);
        if index[p] in c {
          var i :| 0 <= i < |c| && c[i] == index[p];
          assert c'[if i < j then i else i + 1] == index[p];
        }
      }
    }
  }

  lemma InsertSorted(c: Chain, j: nat, n: Node)
    requires Sorted(c) && Distinct(c) && n !in c && j <= |c|
    requires forall i | 0 <= i < j :: c[i].hash <= n.hash
    requires forall i | j <= i < |c| :: n.hash <= c[i].hash
    ensures Sorted(InsertAt(c, j, n)) && Distinct(InsertAt(c, j, n))
  {
  }

  lemma InsertIntoChain(chains: seq<Chain>, index: map<Key, Node>, j: nat, n: Node)
    requires |chains| > 0 && n.id !in index
    requires InChain(chains, index, Slot(n.hash, |chains|))
    requires Passed(n.id, n.hash, chains[Slot(n.hash, |chains|)], j)
    requires var c := chains[Slot(n.hash, |chains|)]; j < |c| ==> c[j].hash > n.hash
    ensures var b := Slot(n.hash, |chains|);
            InChain(chains[b := InsertAt(chains[b], j, n)], index[n.id := n], b)
  {
    hide Slot;
    var c := chains[Slot(n.hash, |chains|)];
    var c' := InsertAt(c, j, n);
    assert Sorted(c') && Distinct(c') by {
      assert n !in c;
      assert forall i | j <= i < |c| :: n.hash <= c[i].hash by {
        assert forall i | j < i < |c| :: c[j].hash <= c[i].hash;
      }
      InsertSorted(c, j, n);
    }
    hide Sorted, Distinct, Passed, InsertAt;
    forall m | m in c' ensures m == n || Has(index, m) {
      InsertMembers(c, j, n, m);
    }
  }

  lemma PlacedAfterRemove(keys: Keying, chains: seq<Chain>, index: map<Key, Node>, b: nat, j: nat)
    requires Placed(keys, chains, index)
    requires b < |chains| && j < |chains[b]|
    ensures Placed(keys, chains[b := RemoveAt(chains[b], j)], index - {chains[b][j].id})
  {
    var c := chains[b];
    var n := c[j];
    var c' := RemoveAt(c, j);
    var chains' := chains[b := c'];
    var index' := index - {n.id};
    assert n in c;
    assert InChain(chains, index, b);
    forall i | 0 <= i < |chains'| ensures InChain(chains', index', i) {
      assert InChain(chains, index, i);
      if i == b {
        RemoveFromChain(chains, index, b, j);
      }
    }
    forall p | p in index' ensures Indexed(keys, chains', p, index'[p]) {
      assert Indexed(keys, chains, p, index[p]);
      if index[p] in c {
        var i :| 0 <= i < |c| && c[i] == index[p];
        assert c'[if i < j then i else i - 1] == index[p];
      }
    }
  }

  lemma RemoveFromChain(chains: seq<Chain>, index: map<Key, Node>, b: nat, j: nat)
    requires b < |chains| && j < |chains[b]|
    requires InChain(chains, index, b)
    ensures InChain(chains[b := RemoveAt(chains[b], j)], index - {chains[b][j].id}, b)
  {
  }

  /** nodes is the set of the stored nodes. */
  ghost predicate Indexes(index: map<Key, Node>, nodes: set<Node>) {
    && (forall p | p in index :: index[p] in nodes)
    && (forall n | n in nodes :: Has(index, n))
  }

  lemma IndexesAfterInsert(index: map<Key, Node>, nodes: set<Node>, n: Node)
    requires Indexes(index, nodes) && n.id !in index
    ensures Indexes(index[n.id := n], nodes + {n})
  {
  }

  lemma IndexesAfterRemove(index: map<Key, Node>, nodes: set<Node>, n: Node)
    requires Indexes(index, nodes) && n.id in index && index[n.id] == n
    requires forall p | p in index :: index[p].id == p
    ensures Indexes(index - {n.id}, nodes - {n})
  {
  }

  /** A consequence of Placed that shows the chain to lie in the frame. */
  ghost predicate Inside(nodes: set<Node>, c: Chain) {
    forall i | 0 <= i < |c| :: c[i] in nodes
  }

  lemma PlacedInside(keys: Keying, chains: seq<Chain>, index: map<Key, Node>, nodes: set<Node>)
    requires Placed(keys, chains, index) && Indexes(index, nodes)
    ensures forall b | 0 <= b < |chains| :: Inside(nodes, chains[b])
  {
    forall b | 0 <= b < |chains| ensures Inside(nodes, chains[b]) {
      assert InChain(chains, index, b);
      forall i | 0 <= i < |chains[b]| ensures chains[b][i] in nodes {
        assert chains[b][i] in chains[b];
        assert Has(index, chains[b][i]);
      }
    }
  }

  lemma OneChainOnly(keys: Keying, chains: seq<Chain>, index: map<Key, Node>, b: nat, n: Node)
    requires Placed(keys, chains, index)
    requires b < |chains| && n in chains[b]
    ensures forall i | 0 <= i < |chains| && i != b :: n !in chains[i]
  {
    assert InChain(chains, index, b);
    forall i | 0 <= i < |chains| && i != b ensures n !in chains[i] {
      assert InChain(chains, index, i);
    }
  }

  lemma LinkedEmpty()
    ensures Linked(null, [])
  {
  }

  /** The index without the nodes of chain c. */
  ghost function Without(index: map<Key, Node>, c: Chain): (r: map<Key, Node>) {
    map p | p in index && index[p] !in c :: index[p]
  }

  lemma PlacedAfterTake(keys: Keying, chains: seq<Chain>, index: map<Key, Node>, nodes: set<Node>, b: nat)
    requires Placed(keys, chains, index) && Indexes(index, nodes) && b < |chains|
    ensures Distinct(chains[b])
    ensures forall i | 0 <= i < |chains[b]| :: chains[b][i] in nodes && Has(index, chains[b][i])
    ensures forall p | p in index :: index[p].id == p
    ensures Placed(keys, chains[b := []], Without(index, chains[b]))
    ensures Indexes(Without(index, chains[b]), nodes - (set n | n in chains[b]))
  {
    var c := chains[b];
    assert InChain(chains, index, b);
    assert forall i | 0 <= i < |c| :: c[i] in c;
    var index' := Without(index, c);
    assert forall p | p in index :: Indexed(keys, chains, p, index[p]);
    var chains' := chains[b := []];
    forall i | 0 <= i < |chains'| ensures InChain(chains', index', i) {
      assert InChain(chains, index, i);
    }
    forall p | p in index' ensures Indexed(keys, chains', p, index'[p]) {
      assert Indexed(keys, chains, p, index[p]);
    }
  }

  // ----- Redistribution over a new number of chains

  /** Position behind every node of hash at most h. */
  ghost function PlaceFor(c: Chain, h: DWord): (j: nat)
    ensures j <= |c|
    ensures forall i | 0 <= i < j :: c[i].hash <= h
    ensures j < |c| ==> c[j].hash > h
  {
    if c == [] || c[0].hash > h then 0 else 1 + PlaceFor(c[1..], h)
  }

  /** The nodes of hash h, in chain order. */
  ghost function WithHash(c: Chain, h: nat): (r: Chain) {
    if c == [] then []
    else WithHash(c[..|c| - 1], h) + (if c[|c| - 1].hash == h then [c[|c| - 1]] else [])
  }

  ghost function Flatten(chains: seq<Chain>): (r: Chain) {
    if chains == [] then [] else Flatten(chains[..|chains| - 1]) + chains[|chains| - 1]
  }

  lemma WithHashConcat(a: Chain, b: Chain, h: nat)
    ensures WithHash(a + b, h) == WithHash(a, h) + WithHash(b, h)
  {
    if b == [] {
      assert a + b == a;
    } else {
      assert (a + b)[..|a + b| - 1] == a + b[..|b| - 1];
      WithHashConcat(a, b[..|b| - 1], h);
    }
  }

  lemma WithHashNone(c: Chain, h: nat)
    requires forall i | 0 <= i < |c| :: c[i].hash != h
    ensures WithHash(c, h) == []
  {
  }

  lemma WithHashOne(n: Node, h: nat)
    ensures WithHash([n], h) == if n.hash == h then [n] else []
  {
    assert [n][..0] == [];
  }

  lemma NoneBehind(c: Chain, h: DWord)
    requires Sorted(c)
    ensures WithHash(c[PlaceFor(c, h)..], h) == []
  {
    var j := PlaceFor(c, h);
    forall i | j <= i < |c| ensures c[i].hash != h {
      assert c[j].hash <= c[i].hash;
    }
    WithHashNone(c[j..], h);
  }

  /** Inserting behind the nodes of hash at most n's adds n last among its equals. */
  lemma WithHashInsert(c: Chain, n: Node, h: nat)
    requires Sorted(c)
    ensures WithHash(InsertAt(c, PlaceFor(c, n.hash), n), h) ==
            WithHash(c, h) + (if n.hash == h then [n] else [])
  {
    NoneBehind(c, n.hash);
    hide WithHash, PlaceFor, Sorted;
    var j := PlaceFor(c, n.hash);
    WithHashSplit(c[..j], n, c[j..], h);
    assert c == c[..j] + c[j..];
  }

  lemma WithHashSplit(a: Chain, n: Node, b: Chain, h: nat)
    requires WithHash(b, n.hash) == []
    ensures WithHash(a + [n] + b, h) == WithHash(a + b, h) + (if n.hash == h then [n] else [])
  {
    hide WithHash;
    WithHashConcat(a + [n], b, h);
    WithHashConcat(a, [n], h);
    WithHashConcat(a, b, h);
    WithHashOne(n, h);
  }

  /** d holds exactly the nodes of done, each in the chain its hash selects, sorted, and with nodes of
      equal hash in the order of done. */
  ghost predicate Spread(d: seq<Chain>, done: Chain) {
    && |d| > 0
    && (forall b | 0 <= b < |d| :: Sorted(d[b]) && Distinct(d[b]))
    && (forall b | 0 <= b < |d| :: Gathers(d, done, b))
    && (forall i | 0 <= i < |done| :: done[i] in d[Slot(done[i].hash, |d|)])
    && (forall h: nat :: WithHash(d[Slot(h, |d|)], h) == WithHash(done, h))
  }

  ghost predicate Gathers(d: seq<Chain>, done: Chain, b: nat)
    requires b < |d|
  {
    forall n | n in d[b] :: n in done && Slot(n.hash, |d|) == b
  }

  lemma SpreadStart(n: nat)
    requires n > 0
    ensures Spread(seq(n, i => []), [])
  {
  }

  ghost function Respread(d: seq<Chain>, n: Node): (r: seq<Chain>)
    requires |d| > 0
    ensures |r| == |d|
  {
    var b := Slot(n.hash, |d|);
    d[b := InsertAt(d[b], PlaceFor(d[b], n.hash), n)]
  }

  lemma InsertMembers(c: Chain, j: nat, n: Node, m: Node)
    requires j <= |c|
    ensures m in InsertAt(c, j, n) <==> m == n || m in c
  {
  }

  lemma SpreadStep(d: seq<Chain>, done: Chain, n: Node)
    requires Spread(d, done) && n !in done
    ensures Spread(Respread(d, n), done + [n])
  {
    hide Slot, PlaceFor, WithHash, InsertAt;
    var b := Slot(n.hash, |d|);
    var c := d[b];
    var d' := Respread(d, n);
    var done' := done + [n];
    SpreadStepChain(d, done, n);
    forall i | 0 <= i < |d'| ensures Gathers(d', done', i) {
      assert Gathers(d, done, i);
      forall m | m in d'[i] ensures m in done' && Slot(m.hash, |d'|) == i {
        InsertMembers(c, PlaceFor(c, n.hash), n, m);
        assert i == b ==> m == n || m in c;
        assert i != b ==> m in d[i];
        assert m in d[i] ==> m in done;
        assert n in [n];
      }
    }
    forall i | 0 <= i < |done'| ensures done'[i] in d'[Slot(done'[i].hash, |d'|)] {
      assert i < |done| ==> done[i] in d[Slot(done[i].hash, |d|)];
    }
    forall h: nat ensures WithHash(d'[Slot(h, |d'|)], h) == WithHash(done', h) {
      SpreadStepOrder(d, done, n, h);
    }
  }

  lemma SpreadStepChain(d: seq<Chain>, done: Chain, n: Node)
    requires Spread(d, done) && n !in done
    ensures var c, c' := d[Slot(n.hash, |d|)], Respread(d, n)[Slot(n.hash, |d|)];
            Sorted(c') && Distinct(c') && forall m :: m in c' <==> m == n || m in c
  {
    hide Slot, PlaceFor, WithHash;
    var c := d[Slot(n.hash, |d|)];
    var j := PlaceFor(c, n.hash);
    assert Gathers(d, done, Slot(n.hash, |d|)) && n !in c;
    assert Sorted(c) && Distinct(c);
    assert forall i | j <= i < |c| :: n.hash <= c[i].hash by {
      assert forall i | j < i < |c| :: c[j].hash <= c[i].hash;
    }
    InsertSorted(c, j, n);
    forall m ensures m in InsertAt(c, j, n) <==> m == n || m in c {
      InsertMembers(c, j, n, m);
    }
  }

  lemma SpreadSites(d: seq<Chain>, done: Chain, b: nat, j: nat)
    requires Spread(d, done) && b < |d| && j <= |d[b]|
    ensures Distinct(d[b])
    ensures forall i | 0 <= i < |d| :: forall n | n in d[i] :: n in done
    ensures j > 0 ==> d[b][j - 1] in done && forall i | 0 <= i < |d| && i != b :: d[b][j - 1] !in d[i]
  {
    forall i | 0 <= i < |d| ensures forall n | n in d[i] :: n in done && Slot(n.hash, |d|) == i {
      assert Gathers(d, done, i);
    }
    assert j > 0 ==> d[b][j - 1] in d[b];
  }

  lemma SpreadStepOrder(d: seq<Chain>, done: Chain, n: Node, h: nat)
    requires Spread(d, done)
    ensures WithHash(Respread(d, n)[Slot(h, |d|)], h) == WithHash(done + [n], h)
  {
    hide Slot, PlaceFor, InsertAt, WithHash, Sorted, Distinct;
    var b := Slot(n.hash, |d|);
    assert Sorted(d[b]);
    WithHashInsert(d[b], n, h);
    WithHashConcat(done, [n], h);
    WithHashOne(n, h);
    assert WithHash(d[Slot(h, |d|)], h) == WithHash(done, h);
  }

  /** Two chains hold different nodes, and the nodes before chain i are not in chain i or behind it. */
  lemma FlattenStep(keys: Keying, chains: seq<Chain>, index: map<Key, Node>, nodes: set<Node>, i: nat)
    requires Placed(keys, chains, index) && Indexes(index, nodes) && i < |chains|
    ensures Flatten(chains[..i + 1]) == Flatten(chains[..i]) + chains[i]
    ensures Distinct(chains[i])
    ensures forall b, k | i <= b < |chains| && 0 <= k < |chains[b]| :: chains[b][k] !in Flatten(chains[..i])
    ensures forall n | n in Flatten(chains[..i]) :: n in nodes
    ensures forall k | 0 <= k < |chains[i]| :: chains[i][k] in nodes
    ensures forall b, k | i < b < |chains| && 0 <= k < |chains[b]| :: chains[b][k] !in chains[i]
  {
    assert chains[..i + 1][..i] == chains[..i];
    assert InChain(chains, index, i);
    PlacedInside(keys, chains, index, nodes);
    assert forall b | 0 <= b < |chains| :: Inside(nodes, chains[b]);
    forall b, k | i < b < |chains| && 0 <= k < |chains[b]| ensures chains[b][k] !in chains[i] {
      assert chains[b][k] in chains[b];
      OneChainOnly(keys, chains, index, b, chains[b][k]);
    }
    forall n | n in Flatten(chains[..i])
      ensures n in nodes
      ensures forall b | i <= b < |chains| :: n !in chains[b]
    {
      FlattenMember(chains[..i], n);
      var b' :| 0 <= b' < |chains[..i]| && n in chains[..i][b'];
      OneChainOnly(keys, chains, index, b', n);
      assert InChain(chains, index, b') && Has(index, n);
    }
    forall b, k | i <= b < |chains| && 0 <= k < |chains[b]| ensures chains[b][k] !in Flatten(chains[..i]) {
      assert chains[b][k] in chains[b];
    }
  }

  lemma FlattenNone(chains: seq<Chain>)
    ensures Flatten(chains[..0]) == []
  {
  }

  lemma {:induction false} FlattenMember(chains: seq<Chain>, n: Node)
    ensures n in Flatten(chains) <==> exists b | 0 <= b < |chains| :: n in chains[b]
  {
    if chains != [] {
      var last := |chains| - 1;
      FlattenMember(chains[..last], n);
      assert n in Flatten(chains) <==> n in Flatten(chains[..last]) || n in chains[last];
      assert forall b | 0 <= b < last :: chains[..last][b] == chains[b];
    }
  }

  /** Flattening lists every stored node once. */
  lemma FlattenDistinct(keys: Keying, chains: seq<Chain>, index: map<Key, Node>, nodes: set<Node>, i: nat)
    requires Placed(keys, chains, index) && Indexes(index, nodes) && i <= |chains|
    ensures Distinct(Flatten(chains[..i]))
    ensures i == |chains| ==> forall k | 0 <= k < |Flatten(chains)| :: Flatten(chains)[k] in nodes
    ensures i == |chains| ==> forall n | n in nodes :: n in Flatten(chains)
  {
    hide Placed, Indexes, Slot;
    FlattenNone(chains);
    if i > 0 {
      FlattenStep(keys, chains, index, nodes, i - 1);
      FlattenDistinct(keys, chains, index, nodes, i - 1);
    }
    if i == |chains| {
      FlattenAll(keys, chains, index, nodes);
    }
  }

  lemma FlattenAll(keys: Keying, chains: seq<Chain>, index: map<Key, Node>, nodes: set<Node>)
    requires Placed(keys, chains, index) && Indexes(index, nodes)
    ensures forall k | 0 <= k < |Flatten(chains)| :: Flatten(chains)[k] in nodes
    ensures forall n | n in nodes :: n in Flatten(chains)
  {
    PlacedInside(keys, chains, index, nodes);
    var all := Flatten(chains);
    forall k | 0 <= k < |all| ensures all[k] in nodes {
      FlattenMember(chains, all[k]);
      assert all[k] in all;
      var b :| 0 <= b < |chains| && all[k] in chains[b];
      assert Inside(nodes, chains[b]);
    }
    forall n | n in nodes ensures n in all {
      FlattenMember(chains, n);
      assert Has(index, n) && Indexed(keys, chains, n.id, n);
    }
  }

  lemma WithHashFlatten(chains: seq<Chain>, n: nat, h: nat)
    requires n >= |chains| && n > 0
    requires forall b, k | 0 <= b < |chains| && 0 <= k < |chains[b]| :: Slot(chains[b][k].hash, n) == b
    ensures WithHash(Flatten(chains), h) == if Slot(h, n) < |chains| then WithHash(chains[Slot(h, n)], h) else []
  {
    if chains != [] {
      var last := |chains| - 1;
      WithHashFlatten(chains[..last], n, h);
      WithHashConcat(Flatten(chains[..last]), chains[last], h);
      if Slot(h, n) != last {
        WithHashNone(chains[last], h);
      }
    }
  }

  lemma PlacedAfterSpread(keys: Keying, chains: seq<Chain>, index: map<Key, Node>, d: seq<Chain>)
    requires Placed(keys, chains, index) && Spread(d, Flatten(chains))
    ensures Placed(keys, d, index)
    ensures forall h: nat :: WithHash(d[Slot(h, |d|)], h) == WithHash(chains[Slot(h, |chains|)], h)
  {
    hide Slot;
    var all := Flatten(chains);
    forall p | p in index ensures Indexed(keys, d, p, index[p]) {
      assert Indexed(keys, chains, p, index[p]);
      FlattenMember(chains, index[p]);
      var i :| 0 <= i < |all| && all[i] == index[p];
    }
    forall b | 0 <= b < |d| ensures InChain(d, index, b) {
      assert Gathers(d, all, b);
      forall n | n in d[b] ensures Has(index, n) {
        FlattenMember(chains, n);
        var b' :| 0 <= b' < |chains| && n in chains[b'];
        assert InChain(chains, index, b');
      }
    }
    forall h: nat ensures WithHash(d[Slot(h, |d|)], h) == WithHash(chains[Slot(h, |chains|)], h) {
      forall b, k | 0 <= b < |chains| && 0 <= k < |chains[b]| ensures Slot(chains[b][k].hash, |chains|) == b {
        assert InChain(chains, index, b) && chains[b][k] in chains[b];
      }
      WithHashFlatten(chains, |chains|, h);
    }
  }
}
