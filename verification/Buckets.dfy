/** The look-aside list that both hash tables are built on: an array of chains, each sorted by hash,
    threaded through the `next` field of the nodes. */
module Buckets {
  import opened Words
  import opened Keys
  import opened Chains
  import opened Prime

  class BucketTable {
    const keys: Keying
    const pointerSize: nat

    var buckets: array<Node?>
    ghost var chains: seq<Chain>
    ghost var index: map<Key, Node>  // the stored nodes by canonical key
    ghost var nodes: set<Node>

    ghost predicate Valid()
      reads this, buckets, nodes`next
    {
      && (pointerSize == 4 || pointerSize == 8)
      && buckets.Length == |chains| < MAXDWORD / pointerSize
      && Placed(keys, chains, index) && Indexes(index, nodes)
      && (forall b | 0 <= b < |chains| :: Inside(nodes, chains[b]) && Linked(buckets[b], chains[b]))
    }

    constructor (keys: Keying, pointerSize: nat, nBuckets: DWord)
      requires pointerSize == 4 || pointerSize == 8
      requires 0 < nBuckets < MAXDWORD / pointerSize
      ensures Valid() && fresh(buckets)
      ensures this.keys == keys && this.pointerSize == pointerSize
      ensures index == map[] && nodes == {} && |chains| == nBuckets
    {
      this.keys, this.pointerSize := keys, pointerSize;
      buckets := new Node?[nBuckets](i => null);
      chains := seq(nBuckets, i => []);
      index, nodes := map[], {};
    }

    /** The loop of FindNodeInternal over one chain. */
    method Walk(key: Key, dwHash: DWord, head: Node?, ghost c: Chain)
      returns (found: bool, node: Node?, prev: Node?, ghost j: nat)
      requires Linked(head, c)
      requires forall i | 0 <= i < |c| :: Keyed(keys, c[i])
      requires dwHash == keys.Hash(key)
      ensures Passed(keys.Canon(key), dwHash, c, j)
      ensures node == At(c, j) && prev == Before(c, j)
      ensures found <==> node != null && node.id == keys.Canon(key)
      ensures !found && node != null ==> node.hash > dwHash
    {
      found, prev, node, j := false, null, head, 0;
      while node != null
        invariant Passed(keys.Canon(key), dwHash, c, j)
        invariant node == At(c, j) && prev == Before(c, j)
        decreases |c| - j
      {
        assert Keyed(keys, c[j]);
        if node.hash == dwHash {
          if keys.Equal(key, node.path) {
            found := true;
            break;
          }
        } else if node.hash > dwHash {
          break;
        }
        prev := node;
        node := prev.next;
        j := j + 1;
      }
    }

    /** FindNodeInternal: the place of the key in the chain of its bucket, and whether it is there. */
    method FindNode(key: Key, dwHash: DWord)
      returns (found: bool, node: Node?, prev: Node?, ghost j: nat)
      requires Valid() && dwHash == keys.Hash(key)
      ensures Passed(keys.Canon(key), dwHash, chains[Slot(dwHash, |chains|)], j)
      ensures node == At(chains[Slot(dwHash, |chains|)], j) && prev == Before(chains[Slot(dwHash, |chains|)], j)
      ensures found <==> keys.Canon(key) in index
      ensures found ==> node == index[keys.Canon(key)] && node.hash == dwHash && node.id == keys.Canon(key)
      ensures !found && node != null ==> node.hash > dwHash
    {
      var b := Slot(dwHash, buckets.Length);
      assert Linked(buckets[b], chains[b]);
      assert InChain(chains, index, b);
      forall i | 0 <= i < |chains[b]| ensures Keyed(keys, chains[b][i]) {
        assert chains[b][i] in chains[b];
        assert Has(index, chains[b][i]);
        assert Indexed(keys, chains, chains[b][i].id, chains[b][i]);
      }
      found, node, prev, j := Walk(key, dwHash, buckets[b], chains[b]);
      if found {
        assert node in chains[b];
        assert Has(index, node);
      } else {
        NotPassed(keys, chains, index, keys.Canon(key), j);
      }
    }

    /** *ppPrevious = to, where ppPrevious is the link to position j of chain b. */
    static method SetLink(heads: array<Node?>, ghost chains: seq<Chain>, b: nat, prev: Node?, to: Node?, ghost j: nat)
      requires heads.Length == |chains| && b < |chains| && j <= |chains[b]|
      requires forall i | 0 <= i < |chains| :: Linked(heads[i], chains[i])
      requires Distinct(chains[b]) && prev == Before(chains[b], j)
      requires prev != null ==> forall i | 0 <= i < |chains| && i != b :: prev !in chains[i]
      modifies heads, if prev == null then {} else {prev}`next
      ensures forall i | 0 <= i < |chains| && i != b :: Linked(heads[i], chains[i])
      ensures var c := chains[b];
              && heads[b] == (if j == 0 then to else c[0])
              && (j > 0 ==> c[j - 1].next == to)
              && forall i {:trigger c[i].next} | 0 <= i < |c| && i + 1 != j :: c[i].next == At(c, i + 1)
    {
      assert Linked(heads[b], chains[b]);
      if prev == null {
        heads[b] := to;
      } else {
        prev.next := to;
      }
    }

    lemma LinkSites(b: nat, j: nat)
      requires Placed(keys, chains, index) && Indexes(index, nodes) && b < |chains| && j <= |chains[b]|
      ensures Distinct(chains[b])
      ensures j > 0 ==> chains[b][j - 1] in nodes
      ensures j > 0 ==> forall i | 0 <= i < |chains| && i != b :: chains[b][j - 1] !in chains[i]
    {
      PlacedInside(keys, chains, index, nodes);
      assert Inside(nodes, chains[b]);
      assert InChain(chains, index, b);
      if j > 0 {
        OneChainOnly(keys, chains, index, b, chains[b][j - 1]);
      }
    }

    lemma StoredAt(b: nat, j: nat)
      requires Placed(keys, chains, index) && b < |chains| && j < |chains[b]|
      ensures var n := chains[b][j];
              n.id in index && index[n.id] == n && n.hash == keys.digest(n.id) && b == Slot(n.hash, |chains|)
      ensures forall p | p in index :: index[p].id == p
    {
      forall p | p in index ensures index[p].id == p {
        assert Indexed(keys, chains, p, index[p]);
      }
      assert InChain(chains, index, b) && chains[b][j] in chains[b];
      assert Has(index, chains[b][j]);
      assert Indexed(keys, chains, chains[b][j].id, chains[b][j]);
    }

    /** The compare-and-swap of an insertion when it succeeds: *ppPrevious = node, node->next already aimed. */
    method Link(prev: Node?, node: Node, ghost j: nat)
      requires Valid() && node !in nodes && Keyed(keys, node)
      requires Passed(node.id, node.hash, chains[Slot(node.hash, |chains|)], j)
      requires prev == Before(chains[Slot(node.hash, |chains|)], j)
      requires node.next == At(chains[Slot(node.hash, |chains|)], j)
      requires node.next != null ==> node.next.hash > node.hash
      modifies this`chains, this`index, this`nodes, buckets, nodes`next
      ensures Valid()
      ensures node.id !in old(index) && index == old(index)[node.id := node] && nodes == old(nodes) + {node}
      ensures var b := Slot(node.hash, |old(chains)|); chains == old(chains)[b := InsertAt(old(chains)[b], j, node)]
      ensures node.next == old(node.next)
    {
      hide Slot, Placed, Linked, Indexes;
      var b := Slot(node.hash, buckets.Length);
      ghost var c := chains[b];
      NotPassed(keys, chains, index, node.id, j);
      IndexesAfterInsert(index, nodes, node);
      LinkSites(b, j);
      SetLink(buckets, chains, b, prev, node, j);
      PlacedAfterInsert(keys, chains, index, j, node);
      chains := chains[b := InsertAt(c, j, node)];
      index, nodes := index[node.id := node], nodes + {node};
      PlacedInside(keys, chains, index, nodes);
      LinkSites(b, 0);
      LinkedAfterInsert(c, j, node, buckets[b]);
    }

    /** *ppPrevious = node->next. */
    method Unlink(b: nat, prev: Node?, node: Node, ghost j: nat)
      requires Valid()
      requires b < |chains| && j < |chains[b]|
      requires node == chains[b][j] && prev == Before(chains[b], j)
      modifies this`chains, this`index, this`nodes, buckets, nodes`next
      ensures Valid() && node.next == old(node.next)
      ensures node.id in old(index) && old(index)[node.id] == node
      ensures index == old(index) - {node.id} && nodes == old(nodes) - {node}
      ensures chains == old(chains)[b := RemoveAt(old(chains)[b], j)]
    {
      hide Slot, Placed, Linked, Indexes;
      ghost var c := chains[b];
      NextOf(buckets[b], c, j);
      LinkSites(b, j);
      StoredAt(b, j);
      IndexesAfterRemove(index, nodes, node);
      SetLink(buckets, chains, b, prev, node.next, j);
      PlacedAfterRemove(keys, chains, index, b, j);
      chains := chains[b := RemoveAt(c, j)];
      index, nodes := index - {node.id}, nodes - {node};
      PlacedInside(keys, chains, index, nodes);
      LinkedAfterRemove(c, j, buckets[b]);
    }

    /** The node that the link to position j of chain b holds. */
    method LinkOf(b: nat, prev: Node?, ghost j: nat) returns (node: Node?)
      requires Valid() && b < |chains| && j <= |chains[b]| && prev == Before(chains[b], j)
      ensures node == At(chains[b], j)
    {
      assert Linked(buckets[b], chains[b]);
      node := if prev == null then buckets[b] else prev.next;
    }

    /** Takes the whole chain out of bucket b. */
    method TakeChain(b: nat) returns (head: Node?, ghost c: Chain)
      requires Valid() && b < |chains|
      modifies this`chains, this`index, this`nodes, buckets
      ensures Valid() && c == old(chains)[b] && Linked(head, c) && Distinct(c)
      ensures chains == old(chains)[b := []]
      ensures forall i | 0 <= i < |c| :: c[i] in old(nodes) && Has(old(index), c[i])
      ensures forall p | p in old(index) :: old(index)[p].id == p
      ensures index == Without(old(index), c) && nodes == old(nodes) - (set n | n in c)
    {
      hide Placed, Linked, Indexes;
      c := chains[b];
      head := buckets[b];
      PlacedAfterTake(keys, chains, index, nodes, b);
      buckets[b] := null;
      chains := chains[b := []];
      index, nodes := Without(index, c), nodes - (set n | n in c);
      LinkedEmpty();
      PlacedInside(keys, chains, index, nodes);
    }

    /** The search of RehashTableIfNeeded for the place of a node in its new chain. */
    static method FindPlace(head: Node?, h: DWord, ghost c: Chain)
      returns (prev: Node?, next: Node?)
      requires Linked(head, c)
      ensures prev == Before(c, PlaceFor(c, h)) && next == At(c, PlaceFor(c, h))
    {
      ghost var j := 0;
      prev, next := null, head;
      while next != null && next.hash <= h
        invariant j <= |c| && prev == Before(c, j) && next == At(c, j)
        invariant PlaceFor(c, h) == j + PlaceFor(c[j..], h)
        decreases |c| - j
      {
        assert c[j..][1..] == c[j + 1..];
        prev, next, j := next, next.next, j + 1;
      }
    }

    /** Moves one node into the new array of chains, which spells out d. */
    static method Relink(heads: array<Node?>, node: Node, ghost d: seq<Chain>, ghost done: Chain)
      requires Spread(d, done) && node !in done
      requires heads.Length == |d| > 0
      requires forall b | 0 <= b < |d| :: Linked(heads[b], d[b])
      modifies heads, node`next, (set n | n in done)`next
      ensures forall b | 0 <= b < |d| :: Linked(heads[b], Respread(d, node)[b])
    {
      hide Slot, PlaceFor, Linked, Spread;
      var b := Slot(node.hash, heads.Length);
      ghost var c := d[b];
      ghost var j := PlaceFor(c, node.hash);
      SpreadSites(d, done, b, j);
      SpreadStepChain(d, done, node);
      var prev, next := FindPlace(heads[b], node.hash, c);
      node.next := next;
      SetLink(heads, d, b, prev, node, j);
      LinkedAfterInsert(c, j, node, heads[b]);
    }

    /** Moves the chain from node on, whose nodes are those of rest. */
    static method RelinkChain(heads: array<Node?>, head: Node?, ghost c: Chain, ghost d: seq<Chain>, ghost done: Chain)
      returns (ghost d': seq<Chain>)
      requires Spread(d, done) && Distinct(c) && forall i | 0 <= i < |c| :: c[i] !in done
      requires heads.Length == |d| > 0
      requires forall b | 0 <= b < |d| :: Linked(heads[b], d[b])
      requires Linked(head, c)
      modifies heads, (set n | n in c)`next, (set n | n in done)`next
      ensures |d'| == |d| && Spread(d', done + c)
      ensures forall b | 0 <= b < |d'| :: Linked(heads[b], d'[b])
    {
      hide Spread, Respread;
      var node := head;
      d' := d;
      ghost var k := 0;
      assert done + c[..0] == done;
      while node != null
        invariant k <= |c| && node == At(c, k)
        invariant forall i {:trigger c[i].next} | k <= i < |c| :: c[i].next == At(c, i + 1)
        invariant |d'| == |d| && Spread(d', done + c[..k])
        invariant forall b | 0 <= b < |d'| :: Linked(heads[b], d'[b])
        decreases |c| - k
      {
        var next := node.next;
        assert node !in done + c[..k];
        Relink(heads, node, d', done + c[..k]);
        SpreadStep(d', done + c[..k], node);
        d' := Respread(d', node);
        assert done + c[..k] + [node] == done + c[..k + 1];
        node, k := next, k + 1;
      }
      assert c[..k] == c;
    }

    /** Nodes of equal hash come out of the new chains as they lay in the old ones. */
    static ghost predicate SameOrder(old_: seq<Chain>, new_: seq<Chain>)
      requires |old_| > 0 && |new_| > 0
    {
      forall h: nat :: WithHash(new_[Slot(h, |new_|)], h) == WithHash(old_[Slot(h, |old_|)], h)
    }

    /** The relinking loop of RehashTableIfNeeded: drains the chains into the new array. */
    method RelinkAll(heads: array<Node?>, ghost empty: seq<Chain>) returns (ghost d: seq<Chain>)
      requires Valid() && heads != buckets && heads.Length == |empty| > 0
      requires Spread(empty, []) && forall b | 0 <= b < |empty| :: Linked(heads[b], empty[b])
      modifies heads, nodes`next
      ensures |d| == |empty| && Spread(d, Flatten(chains))
      ensures forall b | 0 <= b < |d| :: Linked(heads[b], d[b])
    {
      hide Spread, Placed, Linked, Flatten;
      d := empty;
      FlattenNone(chains);
      for i := 0 to buckets.Length
        invariant |d| == |empty| && Spread(d, Flatten(chains[..i]))
        invariant forall b | 0 <= b < |d| :: Linked(heads[b], d[b])
        invariant forall b | i <= b < |chains| :: Linked(buckets[b], chains[b])
      {
        FlattenStep(keys, chains, index, nodes, i);
        d := RelinkChain(heads, buckets[i], chains[i], d, Flatten(chains[..i]));
      }
      assert chains[..buckets.Length] == chains;
    }

    /** RehashTableIfNeeded once a larger size is chosen: same nodes, new chains. */
    method Rehash(nNew: DWord)
      requires Valid() && 0 < nNew < MAXDWORD / pointerSize
      modifies this`buckets, this`chains, nodes`next
      ensures Valid() && fresh(buckets)
      ensures |chains| == nNew && index == old(index) && nodes == old(nodes)
      ensures SameOrder(old(chains), chains)
      ensures forall n | n in nodes :: n in chains[n.hash % nNew]
    {
      hide Spread, Placed, Flatten, Indexes, Inside, WithHash;
      var ppBuckets := new Node?[nNew](i => null);
      SpreadStart(nNew);
      ghost var d := RelinkAll(ppBuckets, seq(nNew, i => []));
      PlacedAfterSpread(keys, chains, index, d);
      buckets := ppBuckets;
      chains := d;
      PlacedInside(keys, chains, index, nodes);
      InOwnBuckets();
    }

    /** Every node is in the bucket of its hash modulo the number of buckets. */
    lemma InOwnBuckets()
      requires Placed(keys, chains, index) && Indexes(index, nodes)
      ensures forall n | n in nodes :: n in chains[n.hash % |chains|]
    {
      forall n | n in nodes ensures n in chains[n.hash % |chains|] {
        assert Has(index, n) && Indexed(keys, chains, n.id, n);
      }
    }

    /** RehashTableIfNeeded: changes the number of chains to the next prime from twice the old number on, once
        there are more items than that and as long as the array can be that big. The doubling cannot overflow
        because of the bound that Initialize puts on the size. */
    method RehashIfNeeded(nItems: DWord)
      requires Valid()
      modifies this`buckets, this`chains, nodes`next
      ensures Valid() && index == old(index) && nodes == old(nodes)
      ensures buckets == old(buckets) || fresh(buckets)
      ensures SameOrder(old(chains), chains)
      ensures forall w: DWord | Answers(w, 2 * |old(chains)|) ::
                |chains| == if w < nItems && w < MAXDWORD / pointerSize then w else |old(chains)|
      ensures |chains| == |old(chains)| || 2 * |old(chains)| <= |chains| < nItems
    {
      hide Answers;
      assert 2 * buckets.Length < DWORD_LIMIT;
      var nWanted := GetPrime(2 * buckets.Length);
      AnswerBounds(nWanted, 2 * buckets.Length);
      if nItems <= nWanted {
        return;
      }
      // the lock is taken exclusively here and the test is made again
      var nNewBuckets := GetPrime(2 * buckets.Length);
      if nItems <= nNewBuckets {
        return;
      }
      if nNewBuckets >= MAXDWORD / pointerSize {
        return;
      }
      Rehash(nNewBuckets);
    }
  }
}
