/** HASH_TABLE: hash-sorted chains that refine a finite map, with a reference held on every stored record. */
module HashTables {
  import opened Words
  import opened Keys
  import opened Chains
  import opened Buckets
  import opened MapSpec

  class HashTable {
    const table: BucketTable
    const ext: Extractor
    var nItems: DWord
    var refs: Refs              // all reference counts, changed by ReferenceRecord and DereferenceRecord
    ghost var stored: map<Key, Record>

    ghost predicate Valid()
      reads this, table, table.buckets, table.nodes
    {
      && table.Valid()
      && Holds(stored)
      && OwnKeys(table.keys, ext, stored)
      && nItems == Wrap(|stored|)
    }

    /** The nodes of the table carry the records of m under its keys. */
    ghost predicate Holds(m: map<Key, Record>)
      reads table`index, table`nodes, table.nodes`record
    {
      && m.Keys == table.index.Keys
      && (forall p | p in m :: table.index[p] in table.nodes && table.index[p].record == Some(m[p]))
    }

    ghost function Value(): Table
      reads this
    {
      Table(stored, refs)
    }

    constructor (keys: Keying, ext: Extractor, refs: Refs, pointerSize: nat, nBuckets: DWord)
      requires pointerSize == 4 || pointerSize == 8
      requires 0 < nBuckets < MAXDWORD / pointerSize
      ensures Valid() && fresh(table) && fresh(table.buckets)
      ensures table.keys == keys && this.ext == ext
      ensures Value() == Table(map[], refs) && table.buckets.Length == nBuckets
    {
      this.ext, this.refs, nItems, stored := ext, refs, 0, map[];
      table := new BucketTable(keys, pointerSize, nBuckets);
    }

    /** Initialize: a size of 0, or one whose array would not fit in 32 bits, is refused with E_INVALIDARG. */
    static method Initialize(keys: Keying, ext: Extractor, refs: Refs, pointerSize: nat, nBuckets: DWord)
      returns (table: HashTable?)
      requires pointerSize == 4 || pointerSize == 8
      ensures table == null <==> nBuckets == 0 || nBuckets >= MAXDWORD / pointerSize
      ensures table != null ==> fresh(table) && fresh(table.table) && fresh(table.table.buckets)
      ensures table != null ==> table.Valid() && table.table.keys == keys && table.ext == ext
      ensures table != null ==> table.Value() == Table(map[], refs) && table.table.buckets.Length == nBuckets
    {
      if nBuckets == 0 || nBuckets >= MAXDWORD / pointerSize {
        return null;
      }
      table := new HashTable(keys, ext, refs, pointerSize, nBuckets);
    }

    method FindKey(key: Key) returns (found: Option<Record>)
      requires Valid()
      modifies this`refs
      ensures Valid()
      ensures stored == old(stored)
      ensures found.Some? <==> table.keys.Canon(key) in stored
      ensures found.Some? ==> stored[table.keys.Canon(key)] == found.value
      ensures refs == if found.Some? then Take(old(refs), found.value) else old(refs)
      ensures (Value(), Reply.Found(found)) == Step(table.keys, ext, old(Value()), Find(key))
    {
      hide BucketTable.Valid, Passed, Slot;
      var fFound, node, prev, j := table.FindNode(key, table.keys.Hash(key));
      if fFound && node.record.Some? {
        refs := Take(refs, node.record.value);
        return node.record;
      }
      return None;
    }

    /** Takes a reference on a record that has just been linked in, and counts it. */
    method Gain(ghost p: Key, record: Record)
      requires table.Valid() && p !in stored && p == table.keys.Canon(ext.KeyOf(record)) && Holds(stored[p := record])
      requires OwnKeys(table.keys, ext, stored) && nItems == Wrap(|stored|)
      modifies this`nItems, this`refs, this`stored
      ensures Valid() && stored == old(stored)[p := record] && refs == Take(old(refs), record)
    {
      hide Wrap, Take, BucketTable.Valid;
      CountInsert(stored, p, record);
      stored := stored[p := record];
      refs := Take(refs, record);
      nItems := Wrap(nItems + 1);
    }

    /** DeleteNode on a node that has just been unlinked: drops the reference and counts. */
    method Lose(ghost p: Key, record: Record)
      requires table.Valid() && p in stored && record == stored[p] && Holds(stored - {p})
      requires OwnKeys(table.keys, ext, stored) && nItems == Wrap(|stored|)
      modifies this`nItems, this`refs, this`stored
      ensures Valid() && stored == old(stored) - {p} && refs == Drop(old(refs), record)
    {
      hide Wrap, Drop, BucketTable.Valid;
      CountRemove(stored, p);
      stored := stored - {p};
      refs := Drop(refs, record);
      nItems := Wrap(nItems - 1);
    }

    /** InsertRecord up to the release of the lock. The loop that retries after a failed compare-and-swap
        runs once here: nobody else inserts. */
    method AddRecord(record: Record) returns (hr: HResult)
      requires Valid()
      modifies this`nItems, this`refs, this`stored
      modifies table`chains, table`index, table`nodes, table.buckets, table.nodes`next
      ensures Valid() && fresh(table.nodes - old(table.nodes))
      ensures (Value(), Result(hr)) == Step(table.keys, ext, old(Value()), Insert(record))
    {
      hide BucketTable.Valid, Passed, Slot, Wrap, Take, OwnKeys, At, Before;
      var key := ext.KeyOf(record);
      var newNode := new Node(table.keys, key, Some(record), null);
      var fFound, next, prev, j := table.FindNode(key, newNode.hash);
      if fFound {
        return ALREADY_EXISTS;
      }
      newNode.next := next;
      Publish(prev, newNode, record, j);
      return S_OK;
    }

    method Publish(prev: Node?, newNode: Node, record: Record, ghost j: nat)
      requires Valid() && newNode !in table.nodes && Chains.Keyed(table.keys, newNode)
      requires newNode.path == ext.KeyOf(record) && newNode.record == Some(record)
      requires Passed(newNode.id, newNode.hash, table.chains[Slot(newNode.hash, |table.chains|)], j)
      requires prev == Before(table.chains[Slot(newNode.hash, |table.chains|)], j)
      requires newNode.next == At(table.chains[Slot(newNode.hash, |table.chains|)], j)
      requires newNode.next != null ==> newNode.next.hash > newNode.hash
      modifies this`nItems, this`refs, this`stored
      modifies table`chains, table`index, table`nodes, table.buckets, table.nodes`next
      ensures Valid() && table.nodes == old(table.nodes) + {newNode}
      ensures stored == old(stored)[newNode.id := record] && refs == Take(old(refs), record)
    {
      hide BucketTable.Valid, Passed, Slot, Wrap, Take;
      table.Link(prev, newNode, j);
      Gain(newNode.id, record);
    }

    method InsertRecord(record: Record) returns (hr: HResult)
      requires Valid()
      modifies this`nItems, this`refs, this`stored
      modifies table`chains, table`index, table`nodes, table`buckets, table.buckets, table.nodes`next
      ensures Valid() && (table.buckets == old(table.buckets) || fresh(table.buckets))
      ensures fresh(table.nodes - old(table.nodes))
      ensures nItems == Wrap(|stored|)
      ensures (Value(), Result(hr)) == Step(table.keys, ext, old(Value()), Insert(record))
      ensures hr == S_OK <==> table.keys.Canon(ext.KeyOf(record)) !in old(stored)
      ensures stored == if hr == S_OK then old(stored)[table.keys.Canon(ext.KeyOf(record)) := record] else old(stored)
      ensures forall r :: RefsOf(refs, r) == RefsOf(old(refs), r) + if hr == S_OK && r == record then 1 else 0
    {
      hide BucketTable.Valid, Step, BucketTable.SameOrder, Wrap, Holds, OwnKeys;
      ghost var before := Value();
      hr := AddRecord(record);
      InsertMeans(table.keys, ext, before, record, Value(), hr);
      if hr == S_OK {
        table.RehashIfNeeded(nItems);
      }
    }

    method DeleteKey(key: Key)
      requires Valid()
      modifies this`nItems, this`refs, this`stored
      modifies table`chains, table`index, table`nodes, table.buckets, table.nodes`next
      ensures Valid() && table.nodes <= old(table.nodes)
      ensures nItems == Wrap(|stored|)
      ensures (Value(), Nothing) == Step(table.keys, ext, old(Value()), Delete(key))
      ensures stored == old(stored) - {table.keys.Canon(key)}
      ensures refs == if table.keys.Canon(key) in old(stored) then Drop(old(refs), old(stored)[table.keys.Canon(key)])
                      else old(refs)
    {
      hide Passed, Slot, Placed, Linked, Inside;
      var fFound, node, prev, j := table.FindNode(key, table.keys.Hash(key));
      if fFound {
        RemoveNode(Slot(node.hash, table.buckets.Length), prev, node, j);
      }
    }

    /** Unlinks a node and drops the table's reference on its record. */
    method RemoveNode(b: nat, prev: Node?, node: Node, ghost j: nat)
      requires Valid()
      requires b < |table.chains| && j < |table.chains[b]|
      requires node == table.chains[b][j] && prev == Before(table.chains[b], j)
      modifies this`nItems, this`refs, this`stored
      modifies table`chains, table`index, table`nodes, table.buckets, table.nodes`next
      ensures Valid()
      ensures node.id in old(table.index) && old(table.index)[node.id] == node
      ensures table.index == old(table.index) - {node.id} && table.nodes == old(table.nodes) - {node}
      ensures table.chains == old(table.chains)[b := RemoveAt(old(table.chains)[b], j)]
      ensures stored == old(stored) - {node.id}
      ensures refs == Drop(old(refs), old(stored)[node.id]) && node.next == old(node.next)
    {
      hide BucketTable.Valid, Slot, Wrap;
      table.Unlink(b, prev, node, j);
      Lose(node.id, node.record.value);
    }

    /** The records under the nodes of c do not match pred. */
    static ghost predicate Spared(pred: Record -> bool, m: map<Key, Record>, c: Chain, j: nat)
      requires j <= |c|
    {
      forall k | 0 <= k < j :: c[k].id in m && !pred(m[c[k].id])
    }

    /** Between two steps of DeleteIf: only matching records are gone, each with one reference dropped. */
    static ghost predicate Pruned(pred: Record -> bool, before: Table, m: map<Key, Record>, refs: Refs) {
      && (forall p | p in m :: p in before.stored && m[p] == before.stored[p])
      && (forall p | p in before.stored && p !in m :: pred(before.stored[p]))
      && refs == DropAll(before.refs, Gone(before.stored, m))
    }

    static ghost function Gone(before: map<Key, Record>, m: map<Key, Record>): set<Record> {
      set p | p in before && p !in m :: before[p]
    }

    static lemma PrunedStart(pred: Record -> bool, before: Table)
      ensures Pruned(pred, before, before.stored, before.refs)
    {
    }

    static lemma PrunedStep(keys: Keying, ext: Extractor, pred: Record -> bool, before: Table, m: map<Key, Record>,
                            refs: Refs, p: Key)
      requires OwnKeys(keys, ext, before.stored)
      requires Pruned(pred, before, m, refs) && p in m && pred(m[p])
      ensures Pruned(pred, before, m - {p}, Drop(refs, m[p]))
    {
      var gone := Gone(before.stored, m);
      assert m[p] !in gone by {
        assert keys.Canon(ext.KeyOf(before.stored[p])) == p;
      }
      DropAllStep(before.refs, gone, m[p]);
      assert Gone(before.stored, m - {p}) == gone + {m[p]};
    }

    static lemma PrunedAll(keys: Keying, ext: Extractor, pred: Record -> bool, before: Table, m: map<Key, Record>,
                           refs: Refs)
      requires Pruned(pred, before, m, refs) && forall p | p in m :: !pred(m[p])
      ensures Table(m, refs) == Step(keys, ext, before, Op.DeleteIf(pred)).0
    {
    }

    method DeleteIf(pred: Record -> bool)
      requires Valid()
      modifies this`nItems, this`refs, this`stored
      modifies table`chains, table`index, table`nodes, table.buckets, table.nodes`next
      ensures Valid() && table.nodes <= old(table.nodes)
      ensures nItems == Wrap(|stored|)
      ensures (Value(), Nothing) == Step(table.keys, ext, old(Value()), Op.DeleteIf(pred))
      ensures forall p :: p in stored <==> p in old(stored) && !pred(old(stored)[p])
      ensures forall p | p in stored :: stored[p] == old(stored)[p]
      ensures forall r ::
                RefsOf(refs, r) == RefsOf(old(refs), r) - if r in old(stored).Values && pred(r) then 1 else 0
    {
      ghost var before := Value();
      PrunedStart(pred, before);
      hide Pruned, Wrap, OwnKeys, SparedIn, Holds, Placed, Linked, Indexes, Inside;
      for i := 0 to table.buckets.Length
        invariant Valid() && OwnKeys(table.keys, ext, before.stored) && table.nodes <= old(table.nodes)
                  && |table.chains| == |old(table.chains)|
        invariant Pruned(pred, before, stored, refs)
        invariant forall b | 0 <= b < i :: SparedIn(pred, stored, table.chains, b)
      {
        DeleteIfChain(pred, i, before);
      }
      AllSpared(pred);
      PrunedAll(table.keys, ext, pred, before, stored, refs);
    }

    static ghost predicate SparedIn(pred: Record -> bool, m: map<Key, Record>, chains: seq<Chain>, b: nat) {
      b < |chains| && Spared(pred, m, chains[b], |chains[b]|)
    }

    lemma AllSpared(pred: Record -> bool)
      requires Valid() && forall b | 0 <= b < |table.chains| :: SparedIn(pred, stored, table.chains, b)
      ensures forall p | p in stored :: !pred(stored[p])
    {
      forall p | p in stored ensures !pred(stored[p]) {
        var n := table.index[p];
        assert Indexed(table.keys, table.chains, p, n);
        var b := Slot(n.hash, |table.chains|);
        assert SparedIn(pred, stored, table.chains, b);
        var k :| 0 <= k < |table.chains[b]| && table.chains[b][k] == n;
      }
    }

    /** The walk of DeleteIf along chain i. */
    method DeleteIfChain(pred: Record -> bool, i: nat, ghost before: Table)
      requires Valid() && i < |table.chains| && OwnKeys(table.keys, ext, before.stored)
      requires Pruned(pred, before, stored, refs)
      modifies this`nItems, this`refs, this`stored
      modifies table`chains, table`index, table`nodes, table.buckets, table.nodes`next
      ensures Valid() && table.nodes <= old(table.nodes)
      ensures Pruned(pred, before, stored, refs)
      ensures KeepsSpared(pred, old(stored), old(table.chains), stored, table.chains, i)
      ensures SparedIn(pred, stored, table.chains, i)
    {
      hide Valid, BucketTable.Valid, Pruned, KeepsSpared, Spared;
      SparedNone(pred, stored, table.chains, i);
      ghost var j := 0;
      var prev: Node? := null;
      ValidTable();
      var node := table.LinkOf(i, prev, j);
      while node != null
        invariant Valid() && table.nodes <= old(table.nodes)
        invariant i < |table.chains|
        invariant KeepsSpared(pred, old(stored), old(table.chains), stored, table.chains, i)
        invariant j <= |table.chains[i]| && prev == Before(table.chains[i], j) && node == At(table.chains[i], j)
        invariant Pruned(pred, before, stored, refs)
        invariant Spared(pred, stored, table.chains[i], j)
        decreases |table.chains[i]| - j
      {
        StoredUnder(i, j);
        if pred(node.record.value) {
          PrunedStep(table.keys, ext, pred, before, stored, refs, node.id);
          SparedStep(pred, old(stored), old(table.chains), stored, table.chains, i, j);
          RemoveNode(i, prev, node, j);
        } else {
          SparedMore(pred, stored, table.chains[i], j);
          prev, j := node, j + 1;
        }
        ValidTable();
        node := table.LinkOf(i, prev, j);
      }
    }

    lemma ValidTable()
      requires Valid()
      ensures table.Valid()
    {
    }

    /** Whatever other chain was spared before is spared still. */
    static ghost predicate KeepsSpared(pred: Record -> bool, m0: map<Key, Record>, chains0: seq<Chain>,
                                       m: map<Key, Record>, chains: seq<Chain>, i: nat) {
      && |chains| == |chains0|
      && forall b | b != i && SparedIn(pred, m0, chains0, b) :: SparedIn(pred, m, chains, b)
    }

    static lemma SparedNone(pred: Record -> bool, m: map<Key, Record>, chains: seq<Chain>, i: nat)
      requires i < |chains|
      ensures KeepsSpared(pred, m, chains, m, chains, i) && Spared(pred, m, chains[i], 0)
    {
    }

    static lemma SparedMore(pred: Record -> bool, m: map<Key, Record>, c: Chain, j: nat)
      requires j < |c| && Spared(pred, m, c, j) && c[j].id in m && !pred(m[c[j].id])
      ensures Spared(pred, m, c, j + 1)
    {
    }

    static lemma SparedStep(pred: Record -> bool, m0: map<Key, Record>, chains0: seq<Chain>,
                            m: map<Key, Record>, chains: seq<Chain>, i: nat, j: nat)
      requires i < |chains| && j < |chains[i]|
      requires KeepsSpared(pred, m0, chains0, m, chains, i) && Spared(pred, m, chains[i], j)
      requires forall a, k | 0 <= a < |chains| && 0 <= k < |chains[a]| && (a, k) != (i, j) ::
                 chains[a][k].id != chains[i][j].id
      ensures var m', chains' := m - {chains[i][j].id}, chains[i := RemoveAt(chains[i], j)];
              KeepsSpared(pred, m0, chains0, m', chains', i) && Spared(pred, m', chains'[i], j)
    {
      assert forall k | 0 <= k < j :: (i, k) != (i, j);
    }

    lemma StoredUnder(b: nat, j: nat)
      requires Valid() && b < |table.chains| && j < |table.chains[b]|
      ensures table.chains[b][j].id in stored
      ensures table.chains[b][j].record == Some(stored[table.chains[b][j].id])
      ensures forall a, k | 0 <= a < |table.chains| && 0 <= k < |table.chains[a]| && (a, k) != (b, j) ::
                table.chains[a][k].id != table.chains[b][j].id
    {
      hide Slot, Wrap, OwnKeys;
      table.StoredAt(b, j);
      forall a, k | 0 <= a < |table.chains| && 0 <= k < |table.chains[a]| && (a, k) != (b, j)
        ensures table.chains[a][k].id != table.chains[b][j].id
      {
        StoredElsewhere(b, j, a, k);
      }
    }

    lemma StoredElsewhere(b: nat, j: nat, a: nat, k: nat)
      requires table.Valid() && b < |table.chains| && j < |table.chains[b]| && a < |table.chains|
               && k < |table.chains[a]|
      requires (a, k) != (b, j)
      ensures table.chains[a][k].id != table.chains[b][j].id
    {
      hide Slot, Linked, Sorted;
      table.StoredAt(b, j);
      table.StoredAt(a, k);
      assert a == b ==> InChain(table.chains, table.index, b);
    }

    /** Clear drains bucket by bucket, each chain from its head. */
    method Clear()
      requires Valid()
      modifies this`nItems, this`refs, this`stored
      modifies table`chains, table`index, table`nodes, table.buckets
      ensures Valid() && table.nodes <= old(table.nodes)
      ensures (Value(), Nothing) == Step(table.keys, ext, old(Value()), Op.Clear)
      ensures stored == map[] && nItems == 0
      ensures forall r :: RefsOf(refs, r) == RefsOf(old(refs), r) - if r in old(stored).Values then 1 else 0
    {
      hide BucketTable.Valid, Cleared, Pruned, OwnKeys, Holds;
      ghost var before := Value();
      ClearedStart();
      for i := 0 to table.buckets.Length
        invariant Cleared(before) && |table.chains| == |old(table.chains)| && table.nodes <= old(table.nodes)
        invariant table.buckets == old(table.buckets)
        invariant forall b | 0 <= b < i :: table.chains[b] == []
      {
        ClearChain(i, before);
      }
      AllCleared(before);
      nItems := 0;
    }

    /** As Valid, but with the count not yet reset. */
    ghost predicate Cleared(before: Table)
      reads this, table, table.buckets, table.nodes`next, table.nodes`record
    {
      && table.Valid() && Holds(stored)
      && OwnKeys(table.keys, ext, before.stored) && OwnKeys(table.keys, ext, stored)
      && Pruned(r => true, before, stored, refs)
    }

    lemma ClearedStart()
      requires Valid()
      ensures Cleared(Value()) && table.buckets.Length == |table.chains|
    {
      hide Placed, Linked, Indexes, Inside;
      PrunedStart(r => true, Value());
    }

    method ClearChain(i: nat, ghost before: Table)
      requires Cleared(before) && i < |table.chains|
      modifies this`refs, this`stored
      modifies table`chains, table`index, table`nodes, table.buckets
      ensures Cleared(before) && table.nodes <= old(table.nodes)
      ensures table.chains == old(table.chains)[i := []]
    {
      hide BucketTable.Valid, Pruned, OwnKeys, Without, Minus;
      ghost var m, index0 := stored, table.index;
      var pCurrent, c := table.TakeChain(i);
      assert Carries(index0, m, c);
      MinusNone(m, c);
      ghost var head, k := pCurrent, 0;
      while pCurrent != null
        invariant k <= |c| && pCurrent == At(c, k)
        invariant stored == Minus(m, c, k)
        invariant Pruned(r => true, before, stored, refs)
        modifies this`refs, this`stored
        decreases |c| - k
      {
        NextOf(head, c, k);
        MinusStep(index0, m, c, k);
        PrunedStep(table.keys, ext, r => true, before, stored, refs, pCurrent.id);
        var pNext := pCurrent.next;
        refs := Drop(refs, pCurrent.record.value);
        stored := stored - {pCurrent.id};
        pCurrent, k := pNext, k + 1;
      }
      OwnKeysMinus(table.keys, ext, m, c, |c|);
      HoldsAfterTake(index0, old(table.nodes), m, c);
    }

    /** m without the keys of the first k nodes of c. */
    static ghost function Minus(m: map<Key, Record>, c: Chain, k: nat): map<Key, Record>
      requires k <= |c|
    {
      map p | p in m && (forall x | 0 <= x < k :: c[x].id != p) :: m[p]
    }

    /** The nodes of c are different nodes of index and carry their records of m. */
    static ghost predicate Carries(index: map<Key, Node>, m: map<Key, Record>, c: Chain)
      reads c`record
    {
      && m.Keys == index.Keys
      && Distinct(c)
      && forall x | 0 <= x < |c| :: Has(index, c[x]) && c[x].record == Some(m[c[x].id])
    }

    static lemma MinusNone(m: map<Key, Record>, c: Chain)
      ensures Minus(m, c, 0) == m
    {
    }

    static lemma MinusStep(index: map<Key, Node>, m: map<Key, Record>, c: Chain, k: nat)
      requires Carries(index, m, c) && k < |c|
      ensures var s := Minus(m, c, k); var n := c[k];
              && n.id in s && n.record == Some(s[n.id])
              && Minus(m, c, k + 1) == s - {n.id}
    {
    }

    static lemma OwnKeysMinus(keys: Keying, ext: Extractor, m: map<Key, Record>, c: Chain, k: nat)
      requires OwnKeys(keys, ext, m) && k <= |c|
      ensures OwnKeys(keys, ext, Minus(m, c, k))
    {
    }

    lemma HoldsAfterTake(index0: map<Key, Node>, nodes0: set<Node>, m: map<Key, Record>, c: Chain)
      requires m.Keys == index0.Keys
      requires forall p | p in m :: index0[p] in nodes0 && index0[p].id == p && index0[p].record == Some(m[p])
      requires table.index == Without(index0, c) && table.nodes == nodes0 - (set n | n in c)
      requires forall x | 0 <= x < |c| :: Has(index0, c[x])
      ensures Holds(Minus(m, c, |c|))
    {
    }

    lemma AllCleared(before: Table)
      requires Cleared(before) && forall b | 0 <= b < |table.chains| :: table.chains[b] == []
      ensures stored == map[] && refs == DropAll(before.refs, before.stored.Values)
      ensures table.Valid() && Holds(stored) && OwnKeys(table.keys, ext, stored)
    {
    }

    /** Apply, with the callback's calls as the output: the records in the order they are visited. */
    method Apply() returns (visited: seq<Record>)
      requires Valid()
      ensures Lists(visited, stored)
    {
      hide Placed, Indexes, Linked, Inside, Wrap, OwnKeys, Holds, Lists, Flatten, Visits;
      visited := [];
      NoVisits(stored, table.chains);
      for i := 0 to table.buckets.Length
        invariant Visits(stored, visited, Flatten(table.chains[..i]))
      {
        visited := ApplyChain(i, visited);
      }
      assert table.chains[..table.buckets.Length] == table.chains;
      AllVisited(visited);
    }

    /** visited holds the records of m under the nodes of c, in order. */
    static ghost predicate Visits(m: map<Key, Record>, visited: seq<Record>, c: Chain) {
      && |visited| == |c|
      && forall k | 0 <= k < |c| :: c[k].id in m && visited[k] == m[c[k].id]
    }

    static lemma NoVisits(m: map<Key, Record>, chains: seq<Chain>)
      ensures Visits(m, [], Flatten(chains[..0]))
    {
    }

    static lemma OneVisit(m: map<Key, Record>, visited: seq<Record>, c: Chain, d: Chain, j: nat)
      requires j < |d| && Visits(m, visited, c + d[..j]) && d[j].id in m
      ensures Visits(m, visited + [m[d[j].id]], c + d[..j + 1])
    {
      assert c + d[..j + 1] == (c + d[..j]) + [d[j]];
    }

    method ApplyChain(i: nat, before: seq<Record>) returns (visited: seq<Record>)
      requires Valid() && i < |table.chains| && Visits(stored, before, Flatten(table.chains[..i]))
      ensures Visits(stored, visited, Flatten(table.chains[..i + 1]))
    {
      hide Placed, Indexes, Wrap, OwnKeys, Holds, Visits, Flatten;
      ghost var c := table.chains[i];
      ghost var done := Flatten(table.chains[..i]);
      FlattenStep(table.keys, table.chains, table.index, table.nodes, i);
      visited := before;
      var node := table.buckets[i];
      ghost var j := 0;
      assert done + c[..0] == done;
      while node != null
        invariant j <= |c| && node == At(c, j)
        invariant Visits(stored, visited, done + c[..j])
        decreases |c| - j
      {
        StoredUnder(i, j);
        NextOf(table.buckets[i], c, j);
        OneVisit(stored, visited, done, c, j);
        if node.record.Some? {
          visited := visited + [node.record.value];
        }
        node, j := node.next, j + 1;
      }
      assert c[..j] == c;
    }

    /** visited lists every record of m once. */
    static ghost predicate Lists(visited: seq<Record>, m: map<Key, Record>) {
      && |visited| == |m|
      && (forall i, j | 0 <= i < j < |visited| :: visited[i] != visited[j])
      && (forall r :: r in visited <==> r in m.Values)
    }

    static lemma DistinctIds(index: map<Key, Node>, all: Chain, ids: seq<Key>)
      requires Distinct(all) && |ids| == |all|
      requires forall k | 0 <= k < |all| :: Has(index, all[k]) && ids[k] == all[k].id
      ensures Distinct(ids)
    {
      forall i, j | 0 <= i < j < |ids| ensures ids[i] != ids[j] {
        assert all[i] != all[j];
      }
    }

    lemma AllVisited(visited: seq<Record>)
      requires Valid() && Visits(stored, visited, Flatten(table.chains))
      ensures Lists(visited, stored)
    {
      hide Placed, Indexes, Slot, Linked, Wrap, Inside, Flatten, OwnKeys, Lists, Distinct;
      var all := Flatten(table.chains);
      assert table.chains[..|table.chains|] == table.chains;
      FlattenDistinct(table.keys, table.chains, table.index, table.nodes, |table.chains|);
      IndexIds();
      var ids := seq(|all|, k requires 0 <= k < |all| => all[k].id);
      forall k | 0 <= k < |all| ensures Has(table.index, all[k]) {
        assert all[k] in table.nodes;
      }
      forall p ensures p in ids <==> p in stored.Keys {
        if p in ids {
          var k :| 0 <= k < |ids| && ids[k] == p;
        }
        if p in stored.Keys {
          assert table.index[p] in all;
          var k :| 0 <= k < |all| && all[k] == table.index[p];
          assert ids[k] == p;
        }
      }
      DistinctIds(table.index, all, ids);
      DistinctSize(ids, stored.Keys);
      ListsFrom(table.keys, ext, stored, ids, visited);
    }

    lemma IndexIds()
      requires table.Valid()
      ensures forall p | p in table.index :: table.index[p].id == p && table.index[p] in table.nodes
      ensures forall n | n in table.nodes :: Has(table.index, n)
    {
      assert forall p | p in table.index :: Indexed(table.keys, table.chains, p, table.index[p]);
    }

    static lemma ListsFrom(keys: Keying, ext: Extractor, m: map<Key, Record>, ids: seq<Key>, visited: seq<Record>)
      requires OwnKeys(keys, ext, m) && |visited| == |ids| == |m|
      requires forall p :: p in ids <==> p in m.Keys
      requires forall i, j | 0 <= i < j < |ids| :: ids[i] != ids[j]
      requires forall k | 0 <= k < |ids| :: ids[k] in m && visited[k] == m[ids[k]]
      ensures Lists(visited, m)
    {
    }

    /** Every operation of the table behaves as the map says. */
    method Execute(op: Op) returns (reply: Reply)
      requires Valid()
      modifies this`nItems, this`refs, this`stored
      modifies table`chains, table`index, table`nodes, table`buckets, table.buckets, table.nodes`next
      ensures Valid() && (table.buckets == old(table.buckets) || fresh(table.buckets))
      ensures fresh(table.nodes - old(table.nodes))
      ensures (Value(), reply) == Step(table.keys, ext, old(Value()), op)
    {
      hide BucketTable.Valid, Step, Wrap, OwnKeys, Holds;
      match op
      case Insert(r) =>
        var hr := InsertRecord(r);
        reply := Result(hr);
      case Find(key) =>
        var found := FindKey(key);
        reply := Found(found);
      case Delete(key) =>
        DeleteKey(key);
        reply := Nothing;
      case DeleteIf(pred) =>
        DeleteIf(pred);
        reply := Nothing;
      case Clear =>
        Clear();
        reply := Nothing;
    }

    /** Over every run of operations, the table refines the map. */
    method ExecuteAll(ops: seq<Op>) returns (replies: seq<Reply>)
      requires Valid()
      modifies this`nItems, this`refs, this`stored
      modifies table`chains, table`index, table`nodes, table`buckets, table.buckets, table.nodes`next
      ensures Valid()
      ensures (Value(), replies) == Run(table.keys, ext, old(Value()), ops)
    {
      hide BucketTable.Valid, Step, Wrap, OwnKeys, Holds;
      replies := [];
      for i := 0 to |ops|
        invariant Valid() && (table.buckets == old(table.buckets) || fresh(table.buckets))
        invariant fresh(table.nodes - old(table.nodes))
        invariant (Value(), replies) == Run(table.keys, ext, old(Value()), ops[..i])
      {
        var reply := Execute(ops[i]);
        replies := replies + [reply];
        assert ops[..i + 1][..i] == ops[..i];
      }
      assert ops[..|ops|] == ops;
    }
  }
}
