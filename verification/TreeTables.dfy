/** TREE_HASH_TABLE: one set of nodes threaded through hash-sorted chains and through a tree of path prefixes. */
module TreeTables {
  import opened Words
  import opened Keys
  import opened Chains
  import opened Buckets
  import opened MapSpec
  import opened TreeSpec
  import opened Families

  class TreeTable {
    const table: BucketTable
    const ext: Extractor  // GetKey
    var nItems: DWord
    var refs: Refs
    ghost var stored: Forest

    ghost predicate Valid()
      reads this, table, table.buckets, table.nodes
    {
      && Sound({}) && nItems == Wrap(|stored|)
    }

    /** Everything but the count, and with the children of a node under deletion still loose. */
    ghost predicate Sound(loose: set<Node>)
      reads this, table, table.buckets, table.nodes
    {
      && PathFold(table.keys)
      && table.Valid() && Holds(stored) && OwnPaths(table.keys, ext, stored)
      && loose <= table.nodes && Family(table.nodes, loose)
    }

    /** The nodes of the table are those of m and carry its records. */
    ghost predicate Holds(m: Forest)
      reads table`index, table`nodes, table.nodes`record
    {
      && m.Keys == table.index.Keys
      && (forall p | p in m :: table.index[p] in table.nodes && table.index[p].record == m[p])
    }

    constructor (keys: Keying, ext: Extractor, refs: Refs, pointerSize: nat, nBuckets: DWord)
      requires pointerSize == 4 || pointerSize == 8
      requires 0 < nBuckets < MAXDWORD / pointerSize
      requires PathFold(keys)
      ensures Valid() && fresh(table) && fresh(table.buckets)
      ensures table.keys == keys && this.ext == ext
      ensures stored == map[] && this.refs == refs && table.buckets.Length == nBuckets
    {
      hide BucketTable.Valid, PathFold, OwnPaths, Family;
      this.ext, this.refs, nItems, stored := ext, refs, 0, map[];
      table := new BucketTable(keys, pointerSize, nBuckets);
      EmptyForest(keys, ext);
    }

    static lemma EmptyForest(keys: Keying, ext: Extractor)
      ensures OwnPaths(keys, ext, map[]) && Family({}, {})
    {
    }

    /** Initialize: a size of 0, or one whose array would not fit in 32 bits, is refused with E_INVALIDARG. */
    static method Initialize(keys: Keying, ext: Extractor, refs: Refs, pointerSize: nat, nBuckets: DWord)
      returns (table: TreeTable?)
      requires pointerSize == 4 || pointerSize == 8
      requires PathFold(keys)
      ensures table == null <==> nBuckets == 0 || nBuckets >= MAXDWORD / pointerSize
      ensures table != null ==> fresh(table) && fresh(table.table) && fresh(table.table.buckets)
      ensures table != null ==> table.Valid() && table.table.keys == keys && table.ext == ext
      ensures table != null ==> table.stored == map[] && table.refs == refs && table.table.buckets.Length == nBuckets
    {
      if nBuckets == 0 || nBuckets >= MAXDWORD / pointerSize {
        return null;
      }
      table := new TreeTable(keys, ext, refs, pointerSize, nBuckets);
    }

    method FindKey(key: Key) returns (found: Option<Record>)
      requires Valid()
      modifies this`refs
      ensures Valid()
      ensures found == Lookup(stored, table.keys.Canon(key))
      ensures refs == if found.Some? then Take(old(refs), found.value) else old(refs)
    {
      hide BucketTable.Valid, Passed, Slot, Family, OwnPaths, PathFold, Wrap;
      var fFound, node, prev, j := table.FindNode(key, table.keys.Hash(key));
      if fFound && node.record.Some? {
        refs := Take(refs, node.record.value);
        return node.record;
      }
      return None;
    }

    /** parent is the node under which path p belongs. */
    ghost predicate ParentFor(parent: Node?, p: Key)
      reads table`nodes
    {
      && (parent == null <==> AncestorLen(p) == 0)
      && (parent != null ==> parent in table.nodes && parent.id == p[..AncestorLen(p)])
    }

    /** AddNodeInternal: a node for path, with the record unless another one is there. */
    method AddNode(path: Key, record: Option<Record>, parent: Node?) returns (hr: HResult, node: Node)
      requires Valid() && table.keys.Canon(path) != [] && ParentFor(parent, table.keys.Canon(path))
      requires record.Some? ==> path == ext.KeyOf(record.value)
      modifies this`nItems, this`refs, this`stored
      modifies table`chains, table`index, table`nodes, table.buckets, table.nodes
      ensures Valid() && fresh(table.nodes - old(table.nodes)) && old(table.nodes) <= table.nodes
      ensures node in table.nodes && node.id == table.keys.Canon(path)
      ensures stored == Added(old(stored), table.keys.Canon(path), record)
      ensures hr == S_OK <==> stored != old(stored)
      ensures refs == if hr == S_OK then TakeSome(old(refs), record) else old(refs)
    {
      hide BucketTable.Valid, Passed, Slot, Family, OwnPaths, PathFold, Wrap;
      var newNode := new Node(table.keys, path, record, parent);
      var fFound, next, prev, j := table.FindNode(path, newNode.hash);
      if fFound {
        node := next;
        if record.Some? && node.record.None? {
          Attach(node, record);
          hr := S_OK;
        } else {
          hr := ALREADY_EXISTS;
        }
        return;
      }
      newNode.next := next;
      Publish(prev, newNode, j);
      return S_OK, newNode;
    }

    /** The compare-and-swap of a record into an empty node. */
    method Attach(node: Node, record: Option<Record>)
      requires Valid() && node in table.nodes && node.record == None && record.Some?
      requires table.keys.Canon(ext.KeyOf(record.value)) == node.id
      requires node.id in table.index && table.index[node.id] == node
      modifies this`refs, this`stored, node`record
      ensures Valid() && stored == old(stored)[node.id := record] && refs == TakeSome(old(refs), record)
    {
      hide BucketTable.Valid, Family, PathFold;
      IndexIds();
      node.record := record;
      refs := TakeSome(refs, record);
      assert |stored[node.id := record]| == |stored| by {
        assert stored[node.id := record].Keys == stored.Keys;
      }
      stored := stored[node.id := record];
    }

    lemma IndexIds()
      requires table.Valid()
      ensures forall p | p in table.index :: table.index[p].id == p && table.index[p] in table.nodes
      ensures forall n | n in table.nodes :: Has(table.index, n)
      ensures Unique(table.nodes)
    {
      assert forall p | p in table.index :: Indexed(table.keys, table.chains, p, table.index[p]);
    }

    /** Links a new node into its chain and under its parent. */
    method Publish(prev: Node?, newNode: Node, ghost j: nat)
      requires Valid() && newNode !in table.nodes && Keyed(table.keys, newNode) && newNode.id != []
      requires newNode.record.Some? ==> table.keys.Canon(ext.KeyOf(newNode.record.value)) == newNode.id
      requires ParentFor(newNode.parent, newNode.id) && newNode.children == [] && newNode.firstChild == null
      requires Passed(newNode.id, newNode.hash, table.chains[Slot(newNode.hash, |table.chains|)], j)
      requires prev == Before(table.chains[Slot(newNode.hash, |table.chains|)], j)
      requires newNode.next == At(table.chains[Slot(newNode.hash, |table.chains|)], j)
      requires newNode.next != null ==> newNode.next.hash > newNode.hash
      modifies this`nItems, this`refs, this`stored
      modifies table`chains, table`index, table`nodes, table.buckets, table.nodes, newNode`nextSibling
      ensures Valid() && table.nodes == old(table.nodes) + {newNode}
      ensures newNode.id !in old(stored) && stored == old(stored)[newNode.id := newNode.record]
      ensures refs == TakeSome(old(refs), newNode.record)
    {
      hide BucketTable.Valid, Passed, Slot, Wrap, Family, PathFold, OwnPaths, Holds;
      FamilyGrows(table.nodes, newNode);
      LinkIn(prev, newNode, j);
      Adopt(newNode, table.nodes);
    }

    method LinkIn(prev: Node?, newNode: Node, ghost j: nat)
      requires table.Valid() && newNode !in table.nodes && Keyed(table.keys, newNode)
      requires Holds(stored) && OwnPaths(table.keys, ext, stored) && nItems == Wrap(|stored|)
      requires newNode.record.Some? ==> table.keys.Canon(ext.KeyOf(newNode.record.value)) == newNode.id
      requires Passed(newNode.id, newNode.hash, table.chains[Slot(newNode.hash, |table.chains|)], j)
      requires prev == Before(table.chains[Slot(newNode.hash, |table.chains|)], j)
      requires newNode.next == At(table.chains[Slot(newNode.hash, |table.chains|)], j)
      requires newNode.next != null ==> newNode.next.hash > newNode.hash
      modifies this`nItems, this`refs, this`stored
      modifies table`chains, table`index, table`nodes, table.buckets, table.nodes`next
      ensures table.Valid() && table.nodes == old(table.nodes) + {newNode}
      ensures Holds(stored) && OwnPaths(table.keys, ext, stored) && nItems == Wrap(|stored|)
      ensures newNode.id !in old(stored) && stored == old(stored)[newNode.id := newNode.record]
      ensures refs == TakeSome(old(refs), newNode.record)
    {
      hide BucketTable.Valid, Passed, Slot, Wrap;
      table.Link(prev, newNode, j);
      Gain(newNode.id, newNode.record);
    }

    /** Takes the reference on the record of a node that has just been linked in, and counts the node. */
    method Gain(ghost p: Key, record: Option<Record>)
      requires p !in stored && Holds(stored[p := record]) && OwnPaths(table.keys, ext, stored)
      requires record.Some? ==> table.keys.Canon(ext.KeyOf(record.value)) == p
      requires nItems == Wrap(|stored|)
      modifies this`nItems, this`refs, this`stored
      ensures stored == old(stored)[p := record] && refs == TakeSome(old(refs), record)
      ensures Holds(stored) && OwnPaths(table.keys, ext, stored) && nItems == Wrap(|stored|)
    {
      hide Wrap, Take;
      CountInsert(stored, p, record);
      stored := stored[p := record];
      refs := TakeSome(refs, record);
      nItems := Wrap(nItems + 1);
    }

    /** The key with its separators behind position end overwritten by terminators, and its own terminator. */
    static ghost function Cut(key: Key, end: nat): (buf: seq<WChar>)
      requires end <= |key|
      ensures |buf| == |key| + 1
    {
      seq(|key| + 1, i requires 0 <= i <= |key| => if i == |key| || (i > end && IsSep(key[i])) then 0 else key[i])
    }

    /** A C string: the characters in front of the first terminator. */
    static function CString(buf: seq<WChar>): (s: Key)
      requires 0 in buf
      ensures |s| < |buf| && s == buf[..|s|] && buf[|s|] == 0 && 0 !in s
    {
      if buf[0] == 0 then [] else [buf[0]] + CString(buf[1..])
    }

    /** Overwriting the separator at end cuts the string there. */
    static lemma CutAt(key: Key, end: nat, buf: seq<WChar>)
      requires NulFree(key) && end <= |key| && |buf| == |key| + 1
      requires buf[end] == 0 && buf[..end] == key[..end]
      ensures 0 in buf && CString(buf) == key[..end]
    {
    }

    /** Nearest ancestors are not affected by folding. */
    static lemma FoldedAncestors(keys: Keying, p: Key)
      requires PathFold(keys)
      ensures |keys.Canon(p)| == |p| && AncestorLen(keys.Canon(p)) == AncestorLen(p)
      ensures forall i | 0 <= i <= |p| :: keys.Canon(p[..i]) == keys.Canon(p)[..i]
      ensures forall i | 0 <= i < |p| :: IsSep(keys.Canon(p)[i]) == IsSep(p[i])
    {
      LastSepIs(keys.Canon(p), |p|, AncestorLen(p));
    }

    static lemma AncestorOfPrefix(p: Key, end: nat)
      requires end <= |p|
      ensures AncestorLen(p[..end]) == LastSepBelow(p, end)
    {
      LastSepIs(p[..end], end, LastSepBelow(p, end));
    }

    static lemma LastSepIs(p: Key, end: nat, n: nat)
      requires n <= end <= |p| && (n > 0 ==> n < end && IsSep(p[n]))
      requires end > 0 ==> n < end
      requires forall i | n < i < end :: !IsSep(p[i])
      ensures LastSepBelow(p, end) == n
    {
    }

    /** The node of the prefix that ends at the terminator in the buffer, if there is one. */
    method FindPrefix(pszKey: Key, cchEnd: nat, partial: seq<WChar>) returns (parent: Node?)
      requires Valid() && NulFree(pszKey) && 0 < cchEnd < |pszKey| && IsSep(pszKey[cchEnd])
      requires partial == Cut(pszKey, cchEnd)[cchEnd := 0]
      ensures parent == null <==> table.keys.Canon(pszKey[..cchEnd]) !in stored
      ensures parent != null ==> parent in table.nodes && parent.id == table.keys.Canon(pszKey[..cchEnd])
    {
      hide BucketTable.Valid, Passed, Slot, Family, OwnPaths, PathFold, Wrap, CString;
      IndexIds();
      CutAt(pszKey, cchEnd, partial);
      var path := CString(partial);
      var fFound, node, prev, j := table.FindNode(path, table.keys.Hash(path));
      parent := if fFound then node else null;
    }

    /** First half of InsertRecord: the lowest ancestor that is present, 0 when there is none. */
    method FindAncestor(pszKey: Key) returns (cchEnd: nat, parent: Node?, partial: seq<WChar>)
      requires Valid() && NulFree(pszKey) && pszKey != []
      ensures cchEnd < |pszKey| && (cchEnd > 0 ==> IsSep(pszKey[cchEnd]))
      ensures partial == Cut(pszKey, cchEnd)
      ensures parent == null <==> cchEnd == 0
      ensures parent != null ==> parent in table.nodes && parent.id == table.keys.Canon(pszKey[..cchEnd])
      ensures forall i | cchEnd < i < |pszKey| && IsSep(pszKey[i]) :: table.keys.Canon(pszKey[..i]) !in stored
    {
      hide BucketTable.Valid, Sound, Wrap, CString;
      partial := pszKey + [0];
      parent := null;
      cchEnd := |pszKey| - 1;
      assert partial == Cut(pszKey, cchEnd);
      while cchEnd > 0
        invariant cchEnd < |pszKey| && partial == Cut(pszKey, cchEnd) && parent == null
        invariant forall i | cchEnd < i < |pszKey| && IsSep(pszKey[i]) :: table.keys.Canon(pszKey[..i]) !in stored
      {
        if IsSep(partial[cchEnd]) {
          partial := partial[cchEnd := 0];
          parent := FindPrefix(pszKey, cchEnd, partial);
          if parent != null {
            partial := partial[cchEnd := pszKey[cchEnd]];
            break;
          }
        }
        cchEnd := cchEnd - 1;
        assert partial == Cut(pszKey, cchEnd);
      }
    }

    /** Second half of InsertRecord: adds the missing ancestors from the top down, and the record last. */
    method AddLineage(record: Record, start: nat, top: Node?, buffer: seq<WChar>) returns (hr: HResult)
      requires Valid() && NulFree(ext.KeyOf(record)) && start < |ext.KeyOf(record)|
      requires buffer == Cut(ext.KeyOf(record), start) && (start > 0 ==> IsSep(ext.KeyOf(record)[start]))
      requires Nearest(top, Path(record), start)
      modifies this`nItems, this`refs, this`stored
      modifies table`chains, table`index, table`nodes, table.buckets, table.nodes
      ensures Valid() && fresh(table.nodes - old(table.nodes))
      ensures |Path(record)| == |ext.KeyOf(record)|
      ensures stored == Added(AddedUpTo(old(stored), Path(record), start, |Path(record)|), Path(record), Some(record))
      ensures hr == S_OK <==> Lookup(AddedUpTo(old(stored), Path(record), start, |Path(record)|), Path(record)).None?
      ensures refs == if hr == S_OK then Take(old(refs), record) else old(refs)
    {
      hide BucketTable.Valid, Sound, Wrap, CString, AddedUpTo, LastSepBelow, PathFold;
      var pszKey := ext.KeyOf(record);
      Folding();
      FoldedAncestors(table.keys, pszKey);
      var partial, parent := AddAncestors(pszKey, start, top, buffer);
      CutAt(pszKey, |pszKey|, partial);
      assert pszKey[..|pszKey|] == pszKey;
      AncestorOfPrefix(pszKey, |pszKey|);
      hr, parent := AddNode(CString(partial), Some(record), parent);
    }

    lemma Folding()
      requires Valid()
      ensures PathFold(table.keys)
    {
    }

    method AddAncestors(pszKey: Key, start: nat, top: Node?, buffer: seq<WChar>)
      returns (partial: seq<WChar>, parent: Node?)
      requires Valid() && NulFree(pszKey) && start < |pszKey|
      requires buffer == Cut(pszKey, start) && (start > 0 ==> IsSep(pszKey[start]))
      requires Nearest(top, table.keys.Canon(pszKey), start)
      modifies this`nItems, this`refs, this`stored
      modifies table`chains, table`index, table`nodes, table.buckets, table.nodes
      ensures Valid() && fresh(table.nodes - old(table.nodes)) && refs == old(refs)
      ensures |table.keys.Canon(pszKey)| == |pszKey|
      ensures stored == AddedUpTo(old(stored), table.keys.Canon(pszKey), start, |pszKey|)
      ensures Nearest(parent, table.keys.Canon(pszKey), LastSepBelow(pszKey, |pszKey|))
      ensures |partial| == |pszKey| + 1 && partial[|pszKey|] == 0 && partial[..|pszKey|] == pszKey
    {
      hide BucketTable.Valid, Family, OwnPaths, Wrap, CString, AddedUpTo, LastSepBelow, PathFold, Holds, Restored,
           Added, Sound, Nearest;
      ghost var c := table.keys.Canon(pszKey);
      Folding();
      FoldedAncestors(table.keys, pszKey);
      partial, parent := buffer, top;
      RestoreFirst(pszKey, start);
      AddedUpToStep(stored, c, start, start);
      var cchEnd := start;
      while cchEnd < |pszKey|
        invariant start <= cchEnd <= |pszKey|
        invariant Restored(pszKey, start, cchEnd, partial)
        invariant Valid() && fresh(table.nodes - old(table.nodes)) && old(table.nodes) <= table.nodes
        invariant refs == old(refs)
        invariant stored == AddedUpTo(old(stored), c, start, cchEnd)
        invariant Nearest(parent, c, if cchEnd == start then start else LastSepBelow(pszKey, cchEnd))
        decreases |pszKey| - cchEnd
      {
        AddedUpToStep(old(stored), c, start, cchEnd);
        StepNearest(pszKey, start, cchEnd);
        RestoreStep(pszKey, start, cchEnd, partial);
        if partial[cchEnd] == 0 {
          parent := AddAncestor(pszKey, cchEnd, partial, parent);
          partial := partial[cchEnd := pszKey[cchEnd]];
        }
        cchEnd := cchEnd + 1;
      }
      RestoreLast(pszKey, start, partial);
    }

    /** One ancestor of the key, cut off at a terminator in the buffer. */
    method AddAncestor(pszKey: Key, cchEnd: nat, partial: seq<WChar>, parent: Node?) returns (node: Node)
      requires Valid() && NulFree(pszKey) && 0 < cchEnd < |pszKey| && IsSep(pszKey[cchEnd])
      requires |partial| == |pszKey| + 1 && partial[cchEnd] == 0 && partial[..cchEnd] == pszKey[..cchEnd]
      requires Nearest(parent, table.keys.Canon(pszKey), LastSepBelow(pszKey, cchEnd))
      modifies this`nItems, this`refs, this`stored
      modifies table`chains, table`index, table`nodes, table.buckets, table.nodes
      ensures Valid() && fresh(table.nodes - old(table.nodes)) && old(table.nodes) <= table.nodes
      ensures stored == Added(old(stored), table.keys.Canon(pszKey)[..cchEnd], None) && refs == old(refs)
      ensures Nearest(node, table.keys.Canon(pszKey), cchEnd)
    {
      hide BucketTable.Valid, Passed, Slot, Family, OwnPaths, PathFold, Wrap, CString, LastSepBelow;
      FoldedAncestors(table.keys, pszKey);
      CutAt(pszKey, cchEnd, partial);
      AncestorOfPrefix(pszKey, cchEnd);
      FoldedAncestors(table.keys, pszKey[..cchEnd]);
      var hr;
      hr, node := AddNode(CString(partial), None, parent);
    }

    ghost function Path(record: Record): Key {
      table.keys.Canon(ext.KeyOf(record))
    }

    /** parent is the node for the first n characters of c, which is a separator position. */
    ghost predicate Nearest(parent: Node?, c: Key, n: nat)
      reads table`nodes
    {
      && n <= |c|
      && (parent == null <==> n == 0)
      && (parent != null ==> parent in table.nodes && parent.id == c[..n])
    }

    /** The buffer of InsertRecord with the separators before position end put back. */
    static ghost predicate Restored(key: Key, start: nat, end: nat, buf: seq<WChar>) {
      && |buf| == |key| + 1 && end <= |key|
      && (forall i | 0 <= i < end :: buf[i] == key[i])
      && (forall i | end <= i < |key| :: buf[i] == if i > start && IsSep(key[i]) then 0 else key[i])
      && buf[|key|] == 0
    }

    static lemma RestoreFirst(key: Key, start: nat)
      requires start < |key|
      ensures Restored(key, start, start, Cut(key, start))
    {
    }

    static lemma RestoreStep(key: Key, start: nat, end: nat, buf: seq<WChar>)
      requires NulFree(key) && start <= end < |key| && Restored(key, start, end, buf)
      ensures |buf| == |key| + 1 && buf[..end] == key[..end]
      ensures buf[end] == 0 <==> end > start && IsSep(key[end])
      ensures Restored(key, start, end + 1, if buf[end] == 0 then buf[end := key[end]] else buf)
    {
    }

    static lemma RestoreLast(key: Key, start: nat, buf: seq<WChar>)
      requires Restored(key, start, |key|, buf)
      ensures |buf| == |key| + 1 && buf[|key|] == 0 && buf[..|key|] == key
    {
    }

    static lemma StepNearest(key: Key, start: nat, end: nat)
      requires start <= end < |key| && (start > 0 ==> IsSep(key[start]))
      ensures LastSepBelow(key, end + 1) == if end > 0 && IsSep(key[end]) then end
                                            else if end == start then start else LastSepBelow(key, end)
    {
    }

    /** InsertRecord: creates the missing nodes for the ancestors of the record's path, and attaches the
        record to the node of its path unless that node has one. */
    method InsertRecord(record: Record) returns (hr: HResult)
      requires Valid() && NulFree(ext.KeyOf(record)) && ext.KeyOf(record) != []
      modifies this`nItems, this`refs, this`stored
      modifies table`chains, table`index, table`nodes, table`buckets, table.buckets, table.nodes
      ensures Valid() && (table.buckets == old(table.buckets) || fresh(table.buckets))
      ensures fresh(table.nodes - old(table.nodes))
      ensures stored == Inserted(old(stored), Path(record), record)
      ensures hr == S_OK <==> Lookup(old(stored), Path(record)) == None
      ensures refs == if hr == S_OK then Take(old(refs), record) else old(refs)
      ensures var key := ext.KeyOf(record);
              && table.keys.Canon(key) in stored && (hr == S_OK ==> stored[table.keys.Canon(key)] == Some(record))
              && (forall i | 0 < i < |key| && (key[i] == 47 || key[i] == 92) :: table.keys.Canon(key[..i]) in stored)
              && forall p | p in stored && p !in old(stored) ::
                   || p == table.keys.Canon(key)
                   || exists i | 0 < i < |key| && (key[i] == 47 || key[i] == 92) :: p == table.keys.Canon(key[..i])
    {
      hide BucketTable.Valid, Family, OwnPaths, Wrap, Cut, AddedUpTo, Inserted, Holds, BucketTable.SameOrder, PathFold;
      StoredClosed();
      FoldedAncestors(table.keys, ext.KeyOf(record));
      var start, top, partial := FindAncestor(ext.KeyOf(record));
      TopStored(top);
      InsertedFrom(stored, Path(record), start, record);
      InsertedInCharacters(table.keys, stored, ext.KeyOf(record), record);
      hr := AddLineage(record, start, top, partial);
      if hr == S_OK {
        table.RehashIfNeeded(nItems);
      }
    }

    /** Which paths an insertion adds, in the characters of the key: the key, and the key cut at each slash and
        backslash above position 0. */
    static lemma InsertedInCharacters(keys: Keying, m: Forest, key: Key, record: Record)
      requires PathFold(keys) && key != []
      ensures var m' := Inserted(m, keys.Canon(key), record);
              && keys.Canon(key) in m'
              && (Lookup(m, keys.Canon(key)) == None ==> m'[keys.Canon(key)] == Some(record))
              && (forall i | 0 < i < |key| && (key[i] == 47 || key[i] == 92) :: keys.Canon(key[..i]) in m')
              && forall p | p in m' && p !in m ::
                   || p == keys.Canon(key)
                   || exists i | 0 < i < |key| && (key[i] == 47 || key[i] == 92) :: p == keys.Canon(key[..i])
    {
      hide PathFold;
      FoldedAncestors(keys, key);
      var c := keys.Canon(key);
      assert c[..|c|] == c;
      forall i | 0 < i < |key| && (key[i] == 47 || key[i] == 92) ensures keys.Canon(key[..i]) in Lineage(c) {
        assert c[..i] in Lineage(c);
      }
      forall p | p in Lineage(c) && p != c
        ensures exists i | 0 < i < |key| && (key[i] == 47 || key[i] == 92) :: p == keys.Canon(key[..i])
      {
        var i :| 0 < i <= |c| && (i == |c| || IsSep(c[i])) && c[..i] == p;
        assert p == keys.Canon(key[..i]);
      }
    }

    lemma TopStored(top: Node?)
      requires table.Valid() && Holds(stored)
      ensures top != null && top in table.nodes ==> top.id in stored
    {
      IndexIds();
    }

    lemma StoredClosed()
      requires Valid()
      ensures Closed(stored)
    {
      SoundClosed();
    }

    lemma SoundClosed()
      requires Sound({})
      ensures Closed(stored)
    {
      hide BucketTable.Valid, OwnPaths, PathFold, Fosters;
      IndexIds();
      forall p | p in stored ensures p != [] && (AncestorLen(p) > 0 ==> p[..AncestorLen(p)] in stored) {
        var n := table.index[p];
        assert n in table.nodes && Hangs(table.nodes, n);
        assert n.parent != null ==> Has(table.index, n.parent);
      }
    }

    /** The walk of DeleteNodeInternal to the link that holds a node. */
    method FindLink(node: Node) returns (b: nat, prev: Node?, ghost j: nat)
      requires table.Valid() && node in table.nodes
      ensures b < |table.chains| && j < |table.chains[b]|
      ensures table.chains[b][j] == node && prev == Before(table.chains[b], j)
    {
      hide Indexes, Inside, Slot;
      SiteOf(node);
      b := Slot(node.hash, table.buckets.Length);
      ghost var c := table.chains[b];
      assert Linked(table.buckets[b], c);
      var current := table.buckets[b];
      prev, j := null, 0;
      while current != node
        invariant j <= |c| && current == At(c, j) && prev == Before(c, j) && node in c[j..]
        decreases |c| - j
      {
        prev, current, j := current, current.next, j + 1;
      }
    }

    lemma SiteOf(node: Node)
      requires table.Valid() && node in table.nodes
      ensures node in table.chains[Slot(node.hash, |table.chains|)]
    {
      assert Has(table.index, node) && Indexed(table.keys, table.chains, node.id, node);
    }

    /** pChild->_pParentNode = NULL: the child is loose already, so the tree does not notice. */
    method Orphan(child: Node, ghost loose: set<Node>)
      requires Family(table.nodes, loose) && child in loose && child in table.nodes
      modifies child`parent
      ensures child.parent == null && Family(table.nodes, loose)
    {
      child.parent := null;
      forall n | n in table.nodes ensures Fosters(table.nodes, loose, n) {
        assert old(Fosters(table.nodes, loose, n));
      }
      forall n | n in table.nodes && n !in loose ensures Hangs(table.nodes, n) {
        assert old(Hangs(table.nodes, n));
      }
    }

    /** DeleteNodeInternal: the node and its subtree leave both structures. */
    method DeleteNodeInternal(b: nat, prev: Node?, node: Node, ghost j: nat, ghost loose: set<Node>)
      requires Sound(loose) && b < |table.chains| && j < |table.chains[b]|
      requires node == table.chains[b][j] && prev == Before(table.chains[b], j) && node in table.nodes
      requires node.parent != null ==> node !in loose
      requires forall m | m in loose && m != node :: !Under(m.id, node.id)
      modifies this`nItems, this`refs, this`stored
      modifies table`chains, table`index, table`nodes, table.buckets
      modifies table.nodes`next, table.nodes`parent, table.nodes`nextSibling, table.nodes`firstChild
      modifies table.nodes`children
      ensures Sound(loose - {node})
      ensures stored == Pruned(old(stored), node.id)
      ensures Released(old(stored), old(refs), old(nItems), stored, refs, nItems)
      ensures table.nodes <= old(table.nodes)
      ensures forall n | n in old(table.nodes) :: n in table.nodes <==> !Under(n.id, node.id)
      ensures old(node.parent) == null ==>
                forall m | m in table.nodes ::
                  m.parent == old(m.parent) && m.nextSibling == old(m.nextSibling) &&
                  m.firstChild == old(m.firstChild) && m.children == old(m.children)
      ensures |table.chains| == |old(table.chains)|
      ensures old(node.children) == [] ==> table.chains == old(table.chains)[b := RemoveAt(old(table.chains)[b], j)]
      decreases table.nodes, 0
    {
      hide BucketTable.Valid, Family, OwnPaths, PathFold, Pruned, PrunedBy, Released, Brood, Siblings, Covers,
           ClearOf, Holds;
      IndexIds();
      ghost var m0, kids := stored, node.children;
      Children(node, loose);
      Extract(b, prev, node, j, loose);
      DeleteChildren(node.firstChild, kids, loose - {node});
      DeleteNode(node, m0, IdsOf(kids), old(refs), old(nItems));
    }

    lemma Children(node: Node, loose: set<Node>)
      requires Sound(loose) && node in table.nodes
      requires forall m | m in loose && m != node :: !Under(m.id, node.id)
      ensures Brood(node.children, loose - {node})
      ensures Covers(stored, node.id, IdsOf(node.children))
      ensures forall n | n in table.nodes ::
                !Under(n.id, node.id) <==> n != node && ClearOf(n.id, IdsOf(node.children), |node.children|)
    {
      hide BucketTable.Valid, OwnPaths, PathFold, Brood, Siblings;
      IndexIds();
      ChildFacts(table.nodes, loose, node);
      ghost var ids := IdsOf(node.children);
      forall q | q in stored && Ancestor(node.id, q) ensures !ClearOf(q, ids, |ids|) {
        var i :| 0 <= i < |node.children| && Under(table.index[q].id, node.children[i].id);
        assert Under(q, ids[i]);
      }
      forall n | n in table.nodes
        ensures !Under(n.id, node.id) <==> n != node && ClearOf(n.id, ids, |ids|)
      {
        assert Has(table.index, n);
        CoversSplit(stored, node.id, ids, n.id);
      }
    }

    /** The unlinking at the start of DeleteNodeInternal. */
    method Extract(b: nat, prev: Node?, node: Node, ghost j: nat, ghost loose: set<Node>)
      requires Sound(loose) && b < |table.chains| && j < |table.chains[b]|
      requires node == table.chains[b][j] && prev == Before(table.chains[b], j) && node in table.nodes
      requires node.parent != null ==> node !in loose
      modifies this`stored
      modifies table`chains, table`index, table`nodes, table.buckets
      modifies table.nodes`next, table.nodes`nextSibling, table.nodes`firstChild, table.nodes`children
      ensures Sound(loose - {node} + Members(node.children))
      ensures node.id in old(stored) && stored == old(stored) - {node.id} && node.record == old(stored)[node.id]
      ensures table.nodes == old(table.nodes) - {node}
      ensures node.firstChild == old(node.firstChild) && node.children == old(node.children)
      ensures Siblings(node.firstChild, node.children)
      ensures node.parent == null ==>
                forall m | m in old(table.nodes) ::
                  m.nextSibling == old(m.nextSibling) && m.firstChild == old(m.firstChild)
                  && m.children == old(m.children)
      ensures table.chains == old(table.chains)[b := RemoveAt(old(table.chains)[b], j)]
    {
      hide BucketTable.Valid, Family, Fosters, Hangs, OwnPaths, Wrap, PathFold, RemoveAt, Before, Unique, Siblings,
           Shrinks, Members, Holds;
      ghost var nodes := table.nodes;
      IndexIds();
      InNodes(node, loose);
      Detach(b, prev, node, j);
      Uproot(node, nodes, loose);
    }

    /** Takes the node out of its chain. */
    method Detach(b: nat, prev: Node?, node: Node, ghost j: nat)
      requires table.Valid() && Holds(stored) && OwnPaths(table.keys, ext, stored)
      requires b < |table.chains| && j < |table.chains[b]|
      requires node == table.chains[b][j] && prev == Before(table.chains[b], j)
      modifies this`stored
      modifies table`chains, table`index, table`nodes, table.buckets, table.nodes`next
      ensures table.Valid() && Holds(stored) && OwnPaths(table.keys, ext, stored)
      ensures node.id in old(stored) && stored == old(stored) - {node.id} && node.record == old(stored)[node.id]
      ensures table.nodes == old(table.nodes) - {node}
      ensures table.chains == old(table.chains)[b := RemoveAt(old(table.chains)[b], j)]
    {
      hide BucketTable.Valid, OwnPaths, RemoveAt, Before;
      IndexIds();
      OwnPathsShrink(table.keys, ext, stored, stored - {node.id});
      table.Unlink(b, prev, node, j);
      stored := stored - {node.id};
    }

    lemma InNodes(node: Node, loose: set<Node>)
      requires Sound(loose) && node in table.nodes
      ensures Members(node.children) <= table.nodes - {node}
    {
      hide BucketTable.Valid, OwnPaths, PathFold, Holds, Siblings;
      assert Fosters(table.nodes, loose, node);
      assert forall i | 0 <= i < |node.children| :: Hangs(table.nodes, node.children[i]);
    }

    /** DeleteNode, and the count: what the subtree had was dropped before. */
    method DeleteNode(node: Node, ghost m0: Forest, ghost ids: seq<Key>, ghost refs0: Refs, ghost nItems0: DWord)
      requires OwnPaths(table.keys, ext, m0) && node.id in m0 && m0[node.id] == node.record
      requires Covers(m0, node.id, ids)
      requires stored == PrunedBy(m0 - {node.id}, ids, |ids|)
      requires Released(m0 - {node.id}, refs0, nItems0, stored, refs, nItems)
      modifies this`nItems, this`refs
      ensures stored == Pruned(m0, node.id)
      ensures Released(m0, refs0, nItems0, stored, refs, nItems)
    {
      hide Wrap, Released, Pruned, PrunedBy, OwnPaths;
      PrunedByChildren(m0, node.id, ids);
      ReleasedLast(table.keys, ext, m0, refs0, nItems0, node.id, m0 - {node.id}, stored, refs, nItems);
      refs := DropSome(refs, node.record);
      nItems := Wrap(nItems - 1);
    }

    /** The loop of DeleteNodeInternal over the children, which recurses into each. */
    method DeleteChildren(first: Node?, ghost kids: Chain, ghost rest: set<Node>)
      requires Sound(rest + Members(kids)) && Siblings(first, kids) && Brood(kids, rest)
      modifies this`nItems, this`refs, this`stored
      modifies table`chains, table`index, table`nodes, table.buckets
      modifies table.nodes`next, table.nodes`parent, table.nodes`nextSibling, table.nodes`firstChild
      modifies table.nodes`children
      ensures Sound(rest)
      ensures stored == PrunedBy(old(stored), IdsOf(kids), |kids|)
      ensures Released(old(stored), old(refs), old(nItems), stored, refs, nItems)
      ensures table.nodes <= old(table.nodes)
      ensures forall n | n in old(table.nodes) :: n in table.nodes <==> ClearOf(n.id, IdsOf(kids), |kids|)
      ensures forall m | m in table.nodes ::
                m.parent == old(m.parent) && m.nextSibling == old(m.nextSibling) &&
                m.firstChild == old(m.firstChild) && m.children == old(m.children)
      ensures |table.chains| == |old(table.chains)| && (kids == [] ==> table.chains == old(table.chains))
      decreases table.nodes, 2
    {
      hide BucketTable.Valid, Family, OwnPaths, PathFold, Pruned, PrunedBy, Released, Brood, Holds, ClearOf;
      ghost var ids := IdsOf(kids);
      ghost var k := 0;
      var child := first;
      PrunedByNone(stored, ids);
      ReleasedNone(stored, refs, nItems);
      ClearNone(ids);
      assert kids[0..] == kids;
      while child != null
        invariant k <= |kids| && child == At(kids, k)
        invariant Sound(rest + Members(kids[k..]))
        invariant stored == PrunedBy(old(stored), ids, k)
        invariant Released(old(stored), old(refs), old(nItems), stored, refs, nItems)
        invariant table.nodes <= old(table.nodes)
        invariant forall n | n in old(table.nodes) :: n in table.nodes <==> ClearOf(n.id, ids, k)
        invariant forall m | m in table.nodes ::
                    m.parent == old(m.parent) && m.nextSibling == old(m.nextSibling) &&
                    m.firstChild == old(m.firstChild) && m.children == old(m.children)
        invariant |table.chains| == |old(table.chains)| && (kids == [] ==> table.chains == old(table.chains))
        decreases |kids| - k
      {
        assert child in Members(kids[k..]);
        PrunedByStep(old(stored), ids, k);
        ClearStep(ids, k);
        ghost var m, r, n := stored, refs, nItems;
        var next := child.nextSibling;
        DeleteChild(child, kids, k, rest);
        ReleasedStep(table.keys, ext, old(stored), old(refs), old(nItems), m, r, n, stored, refs, nItems);
        child, k := next, k + 1;
      }
      assert rest + Members(kids[k..]) == rest;
    }

    method DeleteChild(child: Node, ghost kids: Chain, ghost k: nat, ghost rest: set<Node>)
      requires k < |kids| && child == kids[k]
      requires Sound(rest + Members(kids[k..])) && Brood(kids, rest)
      modifies this`nItems, this`refs, this`stored
      modifies table`chains, table`index, table`nodes, table.buckets
      modifies table.nodes`next, table.nodes`parent, table.nodes`nextSibling, table.nodes`firstChild
      modifies table.nodes`children
      ensures Sound(rest + Members(kids[k + 1..]))
      ensures stored == Pruned(old(stored), child.id)
      ensures Released(old(stored), old(refs), old(nItems), stored, refs, nItems)
      ensures table.nodes <= old(table.nodes)
      ensures forall n | n in old(table.nodes) :: n in table.nodes <==> !Under(n.id, child.id)
      ensures forall m | m in table.nodes ::
                m.parent == old(m.parent) && m.nextSibling == old(m.nextSibling) &&
                m.firstChild == old(m.firstChild) && m.children == old(m.children)
      ensures |table.chains| == |old(table.chains)|
      decreases table.nodes, 1
    {
      hide BucketTable.Valid, Family, OwnPaths, PathFold, Pruned, Released, Holds;
      ghost var loose := rest + Members(kids[k..]);
      NextLoose(kids, k, rest);
      var b, prev, j := FindLink(child);
      Orphan(child, loose);
      DeleteNodeInternal(b, prev, child, j, loose);
    }

    static lemma NextLoose(kids: Chain, k: nat, rest: set<Node>)
      requires Brood(kids, rest) && k < |kids|
      ensures kids[k] in rest + Members(kids[k..])
      ensures rest + Members(kids[k..]) - {kids[k]} == rest + Members(kids[k + 1..])
      ensures forall m | m in rest + Members(kids[k..]) && m != kids[k] :: !Under(m.id, kids[k].id)
    {
    }

    /** q is p with a slash or a backslash and more behind it. */
    static predicate Below(q: Key, p: Key) {
      0 < |p| < |q| && q[..|p|] == p && (q[|p|] == 47 || q[|p|] == 92)
    }

    static lemma PrunedInCharacters(m: Forest, p: Key)
      ensures forall q :: q in Pruned(m, p) <==> q in m && q != p && !Below(q, p)
      ensures forall q | q in Pruned(m, p) :: Pruned(m, p)[q] == m[q]
    {
    }

    static lemma FilteredInCharacters(pred: Record -> bool, m: Forest, m': Forest)
      requires Filtered(pred, m, m') && forall q | q in m' && m'[q] == None :: HasBelow(m, q)
      ensures forall p | p in m && m[p].Some? && !pred(m[p].value) :: p in m' && m'[p] == m[p]
      ensures forall p | p in m' :: p in m && (m'[p].Some? ==> m'[p] == m[p] && !pred(m'[p].value))
      ensures forall p | p in m' && m'[p] == None :: exists q | q in m :: Below(q, p)
    {
      forall p | p in m && m[p].Some? && !pred(m[p].value) ensures p in m' && m'[p] == m[p] {
        assert Lookup(m', p) == Lookup(m, p);
      }
      forall p | p in m' ensures p in m && (m'[p].Some? ==> m'[p] == m[p] && !pred(m'[p].value)) {
        assert Lookup(m', p) == m'[p];
      }
      forall p | p in m' && m'[p] == None ensures exists q | q in m :: Below(q, p) {
        assert HasBelow(m, p);
        var q :| q in m && Ancestor(p, q);
        assert Below(q, p);
      }
    }

    /** DeleteKey: exactly the subtree of the key goes, and each of its records loses one reference. */
    method DeleteKey(key: Key)
      requires Valid()
      modifies this`nItems, this`refs, this`stored
      modifies table`chains, table`index, table`nodes, table.buckets
      modifies table.nodes`next, table.nodes`parent, table.nodes`nextSibling, table.nodes`firstChild
      modifies table.nodes`children
      ensures Valid() && table.nodes <= old(table.nodes)
      ensures stored == Pruned(old(stored), table.keys.Canon(key))
      ensures forall q :: q in stored <==>
                q in old(stored) && q != table.keys.Canon(key) && !Below(q, table.keys.Canon(key))
      ensures forall q | q in stored :: stored[q] == old(stored)[q]
      ensures nItems == Wrap(|stored|)
      ensures forall r :: RefsOf(refs, r) == RefsOf(old(refs), r) - if TakenAway(old(stored), stored, r) then 1 else 0
      ensures Released(old(stored), old(refs), old(nItems), stored, refs, nItems)
    {
      hide Slot, Passed, Family, OwnPaths, PathFold, Wrap, Released, Pruned, Placed, Linked, Indexes, Inside,
           TakenAway;
      StoredClosed();
      PrunedFacts(stored, table.keys.Canon(key));
      PrunedInCharacters(stored, table.keys.Canon(key));
      ReleasedNone(stored, refs, nItems);
      var fFound, node, prev, j := table.FindNode(key, table.keys.Hash(key));
      if fFound {
        NoneLoose(node);
        DeleteNodeInternal(Slot(node.hash, table.buckets.Length), prev, node, j, {});
        ReleasedCount(old(stored), old(refs), old(nItems), stored, refs, nItems);
      }
      ReleasedOnce(old(stored), old(refs), old(nItems), stored, refs, nItems);
    }

    /** The seen paths are those of the nodes in front of position j of chain i. */
    static ghost predicate Frontier(seen: set<Key>, chains: seq<Chain>, i: nat, j: nat) {
      forall b, k | 0 <= b < |chains| && 0 <= k < |chains[b]| :: chains[b][k].id in seen <==> b < i || (b == i && k < j)
    }

    /** Ids tell the nodes of the chains apart. */
    static ghost predicate Apart(chains: seq<Chain>) {
      forall a, k, b, j | 0 <= a < |chains| && 0 <= k < |chains[a]| && 0 <= b < |chains| && 0 <= j < |chains[b]| &&
                          chains[a][k].id == chains[b][j].id :: a == b && k == j
    }

    /** DeleteIf between two visits. */
    ghost predicate Sweeping(pred: Record -> bool, m0: Forest, refs0: Refs, n0: DWord, seen: set<Key>,
                             asked: seq<Record>, i: nat, j: nat)
      reads this, table`chains
    {
      && OwnPaths(table.keys, ext, m0)
      && Sweep(table.keys, ext, pred, m0, stored, seen, asked)
      && Released(m0, refs0, n0, stored, refs, nItems)
      && Frontier(seen, table.chains, i, j)
    }

    /** DeleteIf. The ghost result lists the records that the predicate is called on, in order. */
    method DeleteIf(pred: Record -> bool) returns (ghost asked: seq<Record>)
      requires Valid()
      modifies this`nItems, this`refs, this`stored
      modifies table`chains, table`index, table`nodes, table.buckets
      modifies table.nodes`next, table.nodes`parent, table.nodes`nextSibling, table.nodes`firstChild
      modifies table.nodes`children, table.nodes`record
      ensures Valid() && table.nodes <= old(table.nodes)
      ensures Filtered(pred, old(stored), stored)
      ensures forall p | p in old(stored) && old(stored)[p].Some? && !pred(old(stored)[p].value) ::
                p in stored && stored[p] == old(stored)[p]
      ensures forall p | p in stored ::
                p in old(stored) && (stored[p].Some? ==> stored[p] == old(stored)[p] && !pred(stored[p].value))
      ensures forall p | p in stored && stored[p] == None :: exists q | q in old(stored) :: Below(q, p)
      ensures nItems == Wrap(|stored|)
      ensures forall r :: RefsOf(refs, r) == RefsOf(old(refs), r) - if TakenAway(old(stored), stored, r) then 1 else 0
      ensures Released(old(stored), old(refs), old(nItems), stored, refs, nItems)
      ensures Distinct(asked) && forall r :: r in asked <==> Carried(table.keys, ext, old(stored), r)
    {
      hide Family, PathFold, Wrap, Released, Placed, Linked, Indexes, Inside, Holds, Sweep, OwnPaths, Carried,
           Distinct, Filtered, Frontier, TakenAway;
      ghost var seen: set<Key> := {};
      asked := [];
      ReleasedNone(stored, refs, nItems);
      SweepStart(table.keys, ext, pred, stored);
      FrontierStart(table.chains);
      for i := 0 to table.buckets.Length
        invariant Sound({}) && table.nodes <= old(table.nodes) && table.buckets == old(table.buckets)
        invariant Sweeping(pred, old(stored), old(refs), old(nItems), seen, asked, i, 0)
      {
        seen, asked := DeleteIfChain(pred, i, old(stored), old(refs), old(nItems), seen, asked);
      }
      AllSeen(seen, asked, pred, old(stored), old(refs), old(nItems));
      SweepEnd(table.keys, ext, pred, old(stored), stored, seen, asked);
      FilteredInCharacters(pred, old(stored), stored);
      ReleasedOnce(old(stored), old(refs), old(nItems), stored, refs, nItems);
      ReleasedCount(old(stored), old(refs), old(nItems), stored, refs, nItems);
    }

    lemma ChainsApart()
      requires table.Valid()
      ensures Apart(table.chains)
    {
      hide Slot;
      forall a, k, b, j | 0 <= a < |table.chains| && 0 <= k < |table.chains[a]| && 0 <= b < |table.chains| &&
                          0 <= j < |table.chains[b]| && table.chains[a][k].id == table.chains[b][j].id
        ensures a == b && k == j
      {
        table.StoredAt(a, k);
        table.StoredAt(b, j);
        assert Distinct(table.chains[b]) by {
          assert InChain(table.chains, table.index, b);
        }
      }
    }

    static lemma FrontierPast(seen: set<Key>, chains: seq<Chain>, i: nat, j: nat)
      requires Frontier(seen, chains, i, j) && Apart(chains) && i < |chains| && j < |chains[i]|
      ensures chains[i][j].id !in seen
      ensures Frontier(seen + {chains[i][j].id}, chains, i, j + 1)
    {
    }

    static lemma FrontierRemove(seen: set<Key>, chains: seq<Chain>, i: nat, j: nat)
      requires Frontier(seen, chains, i, j) && i < |chains| && j < |chains[i]|
      ensures chains[i][j].id !in seen
      ensures Frontier(seen, chains[i := RemoveAt(chains[i], j)], i, j)
    {
    }

    static lemma FrontierStart(chains: seq<Chain>)
      ensures Frontier({}, chains, 0, 0)
    {
    }

    lemma AllSeen(seen: set<Key>, asked: seq<Record>, pred: Record -> bool, m0: Forest, refs0: Refs, n0: DWord)
      requires Sound({}) && Sweeping(pred, m0, refs0, n0, seen, asked, |table.chains|, 0)
      ensures Closed(stored) && stored.Keys <= seen
    {
      hide Family, PathFold, Wrap, Released, Linked, Inside, Sweep, OwnPaths, Slot;
      SoundClosed();
      forall p | p in stored ensures p in seen {
        var n := table.index[p];
        assert Indexed(table.keys, table.chains, p, n);
        var b := Slot(n.hash, |table.chains|);
        var k :| 0 <= k < |table.chains[b]| && table.chains[b][k] == n;
      }
    }

    /** The walk of DeleteIf along one chain. */
    method DeleteIfChain(pred: Record -> bool, i: nat, ghost m0: Forest, ghost refs0: Refs, ghost n0: DWord,
                         ghost seen0: set<Key>, ghost asked0: seq<Record>)
      returns (ghost seen: set<Key>, ghost asked: seq<Record>)
      requires Sound({}) && i < |table.chains|
      requires Sweeping(pred, m0, refs0, n0, seen0, asked0, i, 0)
      modifies this`nItems, this`refs, this`stored
      modifies table`chains, table`index, table`nodes, table.buckets
      modifies table.nodes`next, table.nodes`parent, table.nodes`nextSibling, table.nodes`firstChild
      modifies table.nodes`children, table.nodes`record
      ensures Sound({}) && table.nodes <= old(table.nodes) && |table.chains| == |old(table.chains)|
      ensures Sweeping(pred, m0, refs0, n0, seen, asked, i + 1, 0)
    {
      hide BucketTable.Valid, Family, PathFold, Wrap, Released, Placed, Linked, Indexes, Inside, Holds, Sweeping,
           OwnPaths;
      seen, asked := seen0, asked0;
      ghost var j := 0;
      var prev: Node? := null;
      var node := table.LinkOf(i, prev, j);
      while node != null
        invariant Sound({}) && table.nodes <= old(table.nodes) && |table.chains| == |old(table.chains)|
        invariant j <= |table.chains[i]| && prev == Before(table.chains[i], j) && node == At(table.chains[i], j)
        invariant Sweeping(pred, m0, refs0, n0, seen, asked, i, j)
        decreases |table.chains[i]| - j, if node != null && node.record.Some? then 1 else 0
      {
        var stay;
        stay, seen, asked := VisitNode(pred, i, prev, node, j, m0, refs0, n0, seen, asked);
        if !stay {
          prev, j := node, j + 1;
        }
        node := table.LinkOf(i, prev, j);
      }
      LastSeen(pred, m0, refs0, n0, seen, asked, i);
    }

    lemma LastSeen(pred: Record -> bool, m0: Forest, refs0: Refs, n0: DWord, seen: set<Key>, asked: seq<Record>, i: nat)
      requires i < |table.chains| && Sweeping(pred, m0, refs0, n0, seen, asked, i, |table.chains[i]|)
      ensures Sweeping(pred, m0, refs0, n0, seen, asked, i + 1, 0)
    {
    }

    /** One turn of the loop of DeleteIf. A node that is deleted or emptied is not walked past: what its link
        then holds is visited next, and that is the emptied node itself. */
    method VisitNode(pred: Record -> bool, i: nat, prev: Node?, node: Node, ghost j: nat,
                     ghost m0: Forest, ghost refs0: Refs, ghost n0: DWord, ghost seen0: set<Key>,
                     ghost asked0: seq<Record>)
      returns (stay: bool, ghost seen: set<Key>, ghost asked: seq<Record>)
      requires Sound({}) && i < |table.chains| && j < |table.chains[i]|
      requires node == table.chains[i][j] && prev == Before(table.chains[i], j)
      requires Sweeping(pred, m0, refs0, n0, seen0, asked0, i, j)
      modifies this`nItems, this`refs, this`stored
      modifies table`chains, table`index, table`nodes, table.buckets
      modifies table.nodes`next, table.nodes`parent, table.nodes`nextSibling, table.nodes`firstChild
      modifies table.nodes`children, table.nodes`record
      ensures Sound({}) && table.nodes <= old(table.nodes) && |table.chains| == |old(table.chains)|
      ensures Sweeping(pred, m0, refs0, n0, seen, asked, i, if stay then j else j + 1)
      ensures !stay ==> table.chains == old(table.chains)
      ensures stay ==> (table.chains == old(table.chains) && node.record.None? && old(node.record).Some?) ||
                       table.chains == old(table.chains)[i := RemoveAt(old(table.chains)[i], j)]
    {
      hide BucketTable.Valid, Family, PathFold, Wrap, Released, Holds, OwnPaths, Sweep, Frontier, Apart, Unique;
      InStored(i, j);
      ChainsApart();
      FrontierPast(seen0, table.chains, i, j);
      FrontierRemove(seen0, table.chains, i, j);
      ghost var m, r, n := stored, refs, nItems;
      asked := Asking(asked0, node.record);
      var fDelete := false;
      if node.record.Some? {
        fDelete := pred(node.record.value);
      } else {
        fDelete := node.firstChild == null;
      }
      stay := fDelete;
      if fDelete {
        seen := seen0;
        if node.firstChild == null {
          SweepAway(table.keys, ext, pred, m0, stored, seen, asked0, node.id, stored - {node.id});
          RemoveLeaf(i, prev, node, j);
        } else {
          SweepAway(table.keys, ext, pred, m0, stored, seen, asked0, node.id, stored[node.id := None]);
          EmptyNode(node);
        }
        ReleasedStep(table.keys, ext, m0, refs0, n0, m, r, n, stored, refs, nItems);
      } else {
        if node.record.None? {
          NodeBelow(node);
        }
        SweepPast(table.keys, ext, pred, m0, stored, seen0, asked0, node.id);
        seen := seen0 + {node.id};
      }
    }

    lemma NodeBelow(node: Node)
      requires Sound({}) && node in table.nodes && node.children != []
      ensures HasBelow(stored, node.id)
    {
      hide BucketTable.Valid, Family, OwnPaths, PathFold, Brood;
      IndexIds();
      Children(node, {});
      InNodes(node, {});
      var child := node.children[0];
      assert child in Members(node.children) && Has(table.index, child);
      assert IdsOf(node.children)[0] == child.id;
    }

    lemma InStored(i: nat, j: nat)
      requires Sound({}) && i < |table.chains| && j < |table.chains[i]|
      ensures var n := table.chains[i][j];
              n in table.nodes && n.id in stored && stored[n.id] == n.record && table.index[n.id] == n
      ensures var n := table.chains[i][j]; n.firstChild == null <==> n.children == []
    {
      hide OwnPaths, PathFold;
      table.StoredAt(i, j);
      assert Inside(table.nodes, table.chains[i]);
      assert Fosters(table.nodes, {}, table.chains[i][j]);
    }

    /** A node without children is deleted. */
    method RemoveLeaf(i: nat, prev: Node?, node: Node, ghost j: nat)
      requires Sound({}) && i < |table.chains| && j < |table.chains[i]|
      requires node == table.chains[i][j] && prev == Before(table.chains[i], j) && node in table.nodes
      requires node.children == []
      modifies this`nItems, this`refs, this`stored
      modifies table`chains, table`index, table`nodes, table.buckets
      modifies table.nodes`next, table.nodes`parent, table.nodes`nextSibling, table.nodes`firstChild
      modifies table.nodes`children
      ensures Sound({}) && table.nodes <= old(table.nodes)
      ensures stored == old(stored) - {node.id}
      ensures Released(old(stored), old(refs), old(nItems), stored, refs, nItems)
      ensures table.chains == old(table.chains)[i := RemoveAt(old(table.chains)[i], j)]
    {
      hide BucketTable.Valid, Family, PathFold, Released, Holds, OwnPaths, Pruned;
      Children(node, {});
      PrunedLeaf(stored, node.id);
      NoneLoose(node);
      DeleteNodeInternal(i, prev, node, j, {});
    }

    static lemma NoneLoose(node: Node)
      ensures {} - {node} == {}
    {
    }

    static lemma PrunedLeaf(m: Forest, p: Key)
      requires Covers(m, p, [])
      ensures Pruned(m, p) == m - {p}
    {
    }

    /** A node with children only loses its record. */
    method EmptyNode(node: Node)
      requires Sound({}) && node in table.nodes && node.record.Some?
      requires node.id in stored && table.index[node.id] == node && stored[node.id] == node.record
      modifies this`refs, this`stored, node`record
      ensures Sound({}) && stored == old(stored)[node.id := None] && node.record == None
      ensures Released(old(stored), old(refs), nItems, stored, refs, nItems)
    {
      hide BucketTable.Valid, Family, PathFold, Released;
      IndexIds();
      ReleasedEmpty(stored, refs, nItems, node.id);
      refs := Drop(refs, node.record.value);
      node.record := None;
      stored := stored[node.id := None];
    }
  }
}
