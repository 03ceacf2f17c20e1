/** What the tree table is meant to be: a finite set of paths, closed under ancestors, some of which carry
    a record. */
module TreeSpec {
  import opened Words
  import opened Keys
  import opened Chains
  import opened MapSpec

  /** The paths that have a node, with the record of the node. */
  type Forest = map<Key, Option<Record>>

  /** What FindKey reports. */
  function Lookup(m: Forest, p: Key): Option<Record> {
    if p in m then m[p] else None
  }

  /** Every nonempty path with a node has a node for its nearest ancestor. */
  ghost predicate Closed(m: Forest) {
    forall p | p in m :: p != [] && (AncestorLen(p) > 0 ==> p[..AncestorLen(p)] in m)
  }

  /** A record sits under its own path. */
  ghost predicate OwnPaths(keys: Keying, ext: Extractor, m: Forest) {
    forall p | p in m && m[p].Some? :: keys.Canon(ext.KeyOf(m[p].value)) == p
  }

  /** The prefixes of p that InsertRecord turns into nodes: cut at a separator above position 0, or all of p. */
  function Lineage(p: Key): set<Key> {
    set i | 0 < i <= |p| && (i == |p| || IsSep(p[i])) :: p[..i]
  }

  /** What AddNodeInternal does to one path. */
  function Added(m: Forest, p: Key, record: Option<Record>): Forest {
    if p !in m || (m[p].None? && record.Some?) then m[p := record] else m
  }

  function TakeSome(refs: Refs, record: Option<Record>): Refs {
    match record
    case Some(r) => Take(refs, r)
    case None => refs
  }

  function Inserted(m: Forest, p: Key, r: Record): Forest {
    map q | q in m.Keys + Lineage(p) ::
      if q == p && Lookup(m, p).None? then Some(r) else Lookup(m, q)
  }

  /** m with empty nodes for the ancestors of p whose separators lie between start and end. */
  ghost function AddedUpTo(m: Forest, p: Key, start: nat, end: nat): Forest
    requires end <= |p|
  {
    map q | q in m.Keys + (set i | start < i < end && IsSep(p[i]) :: p[..i]) :: Lookup(m, q)
  }

  lemma AddedUpToStep(m: Forest, p: Key, start: nat, end: nat)
    requires start <= end < |p|
    ensures AddedUpTo(m, p, start, start) == m
    ensures AddedUpTo(m, p, start, end + 1) ==
            if start < end && IsSep(p[end]) then Added(AddedUpTo(m, p, start, end), p[..end], None)
            else AddedUpTo(m, p, start, end)
  {
    var a, b := set i | start < i < end && IsSep(p[i]) :: p[..i], set i | start < i < end + 1 && IsSep(p[i]) :: p[..i];
    assert b == if start < end && IsSep(p[end]) then a + {p[..end]} else a;
  }

  /** When the ancestor at start is present, adding the later ones and the record is the whole insertion. */
  lemma InsertedFrom(m: Forest, p: Key, start: nat, r: Record)
    requires Closed(m) && start < |p|
    requires start > 0 ==> IsSep(p[start]) && p[..start] in m
    ensures Added(AddedUpTo(m, p, start, |p|), p, Some(r)) == Inserted(m, p, r)
    ensures Lookup(AddedUpTo(m, p, start, |p|), p) == Lookup(m, p)
  {
    var later := set i | start < i < |p| && IsSep(p[i]) :: p[..i];
    assert p[..|p|] == p;
    forall q ensures q in Lineage(p) ==> q in m || q in later || q == p {
      if q in Lineage(p) {
        var i :| 0 < i <= |p| && (i == |p| || IsSep(p[i])) && p[..i] == q;
        if i < start {
          assert p[..start][i] == p[i] && p[..start][..i] == p[..i];
          ClosedAncestors(m, p[..i], p[..start]);
        }
      }
    }
    assert forall q | q in later :: q in Lineage(p);
    assert p in Lineage(p);
  }

  function Pruned(m: Forest, p: Key): Forest {
    map q | q in m && !Under(q, p) :: m[q]
  }

  /** The records of m0 that m no longer carries. */
  function Lost(m0: Forest, m: Forest): set<Record> {
    set q | q in m0 && m0[q].Some? && !(q in m && m[q] == m0[q]) :: m0[q].value
  }

  /** Every step that only takes records away composes. */
  ghost predicate Shrinks(m0: Forest, m: Forest) {
    forall q | q in m :: q in m0 && (m[q] == m0[q] || m[q] == None)
  }

  lemma LostStep(keys: Keying, ext: Extractor, refs: Refs, m0: Forest, m: Forest, m': Forest)
    requires OwnPaths(keys, ext, m0) && Shrinks(m0, m) && Shrinks(m, m')
    ensures Shrinks(m0, m')
    ensures DropAll(DropAll(refs, Lost(m0, m)), Lost(m, m')) == DropAll(refs, Lost(m0, m'))
  {
    forall r ensures r in Lost(m0, m') <==> r in Lost(m0, m) || r in Lost(m, m') {
      var p := keys.Canon(ext.KeyOf(r));
      LostAt(keys, ext, m0, m, r);
      LostAt(keys, ext, m0, m', r);
      LostAt(keys, ext, m, m', r);
    }
    forall r | r in Lost(m0, m) ensures r !in Lost(m, m') {
      LostAt(keys, ext, m0, m, r);
      LostAt(keys, ext, m, m', r);
    }
    DropAllTwice(refs, Lost(m0, m), Lost(m, m'));
    assert Lost(m0, m') == Lost(m0, m) + Lost(m, m');
  }

  /** Whether a record is lost shows at its own path. */
  lemma LostAt(keys: Keying, ext: Extractor, m0: Forest, m: Forest, r: Record)
    requires OwnPaths(keys, ext, m0)
    ensures var p := keys.Canon(ext.KeyOf(r));
            r in Lost(m0, m) <==> p in m0 && m0[p] == Some(r) && !(p in m && m[p] == m0[p])
  {
  }

  lemma DropAllTwice(refs: Refs, a: set<Record>, b: set<Record>)
    requires a !! b
    ensures DropAll(DropAll(refs, a), b) == DropAll(refs, a + b)
  {
  }

  /** Ancestors of a present path are present. */
  lemma {:induction false} ClosedAncestors(m: Forest, a: Key, p: Key)
    requires Closed(m) && p in m && Ancestor(a, p)
    ensures a in m
    decreases |p|
  {
    AncestorStep(a, p);
    var q := p[..AncestorLen(p)];
    if a != q {
      ClosedAncestors(m, a, q);
    }
  }

  lemma LineageMembers(p: Key, q: Key)
    requires p != []
    ensures q in Lineage(p) <==> Under(p, q)
  {
    if Under(p, q) {
      var i := |q|;
      assert 0 < i <= |p| && (i == |p| || IsSep(p[i])) && p[..i] == q;
    }
  }

  /** Insertion keeps the forest closed, and other paths look up as before. */
  lemma InsertedFacts(m: Forest, p: Key, r: Record)
    requires Closed(m) && p != []
    ensures Closed(Inserted(m, p, r))
    ensures forall q | q != p :: Lookup(Inserted(m, p, r), q) == Lookup(m, q)
    ensures Lookup(Inserted(m, p, r), p) == if Lookup(m, p).None? then Some(r) else Lookup(m, p)
    ensures forall q | q in Inserted(m, p, r) && q !in m :: Under(p, q)
    ensures p in m ==> Inserted(m, p, r).Keys == m.Keys
  {
    LineageMembers(p, p);
    forall q ensures q in Lineage(p) <==> Under(p, q) {
      LineageMembers(p, q);
    }
    var m' := Inserted(m, p, r);
    if p in m {
      forall q | Under(p, q) ensures q in m {
        if q != p {
          ClosedAncestors(m, q, p);
        }
      }
    }
    forall q | q in m' ensures q != [] && (AncestorLen(q) > 0 ==> q[..AncestorLen(q)] in m') {
      var n := AncestorLen(q);
      if q !in m && n > 0 {
        AncestorStep(q[..n], q);
        if q != p {
          AncestorTransitive(q[..n], q, p);
        }
      }
    }
  }

  /** Deletion keeps the forest closed and removes exactly the subtree. */
  lemma PrunedFacts(m: Forest, p: Key)
    requires Closed(m)
    ensures Closed(Pruned(m, p))
    ensures forall q :: Lookup(Pruned(m, p), q) == if Under(q, p) then None else Lookup(m, q)
    ensures p !in m ==> Pruned(m, p) == m
  {
    var m' := Pruned(m, p);
    forall q | q in m' && AncestorLen(q) > 0 ensures q[..AncestorLen(q)] in m' {
      AncestorStep(p, q);
    }
    if p !in m {
      forall q | q in m ensures !Under(q, p) {
        if Ancestor(p, q) {
          ClosedAncestors(m, p, q);
        }
      }
    }
  }

  /** The outcome of DeleteIf: records that match are gone, others and their paths are untouched, and a
      path may go only when no record is left at or below it. */
  ghost predicate Filtered(pred: Record -> bool, m: Forest, m': Forest) {
    && Closed(m') && Shrinks(m, m')
    && forall p :: Lookup(m', p) == match Lookup(m, p)
                                    case None => None
                                    case Some(r) => if pred(r) then None else Some(r)
  }

  /** DeleteIf is the same as asking each record: what survives, survives with all its ancestors. */
  lemma FilteredSurvivors(pred: Record -> bool, m: Forest, m': Forest, p: Key, q: Key)
    requires Filtered(pred, m, m') && Lookup(m, p).Some? && !pred(Lookup(m, p).value)
    requires Ancestor(q, p)
    ensures p in m' && m'[p] == m[p] && q in m'
  {
    assert Lookup(m', p) == Lookup(m, p);
    ClosedAncestors(m', q, p);
  }

  // ----- Deletion child by child

  /** q is not in the subtree of any of the first k of ps. */
  predicate ClearOf(q: Key, ps: seq<Key>, k: nat)
    requires k <= |ps|
  {
    forall i | 0 <= i < k :: !Under(q, ps[i])
  }

  lemma ClearNone(ps: seq<Key>)
    ensures forall q :: ClearOf(q, ps, 0)
  {
  }

  lemma ClearStep(ps: seq<Key>, k: nat)
    requires k < |ps|
    ensures forall q :: ClearOf(q, ps, k + 1) <==> ClearOf(q, ps, k) && !Under(q, ps[k])
  {
  }

  /** m without the subtrees of the first k of ps. */
  function PrunedBy(m: Forest, ps: seq<Key>, k: nat): Forest
    requires k <= |ps|
  {
    map q | q in m && ClearOf(q, ps, k) :: m[q]
  }

  /** The paths of m strictly below p are those at or below one of ps. */
  ghost predicate Covers(m: Forest, p: Key, ps: seq<Key>) {
    && (forall i | 0 <= i < |ps| :: Ancestor(p, ps[i]))
    && forall q | q in m && Ancestor(p, q) :: !ClearOf(q, ps, |ps|)
  }

  lemma CoversSplit(m: Forest, p: Key, ps: seq<Key>, q: Key)
    requires Covers(m, p, ps) && q in m
    ensures Under(q, p) <==> q == p || !ClearOf(q, ps, |ps|)
  {
  }

  lemma PrunedByStep(m: Forest, ps: seq<Key>, k: nat)
    requires k < |ps|
    ensures PrunedBy(m, ps, k + 1) == Pruned(PrunedBy(m, ps, k), ps[k])
  {
  }

  lemma PrunedByNone(m: Forest, ps: seq<Key>)
    ensures PrunedBy(m, ps, 0) == m
  {
  }

  /** Taking away p and the subtrees of its children takes away the subtree of p. */
  lemma PrunedByChildren(m: Forest, p: Key, ps: seq<Key>)
    requires Covers(m, p, ps)
    ensures PrunedBy(m - {p}, ps, |ps|) == Pruned(m, p)
  {
  }

  /** The record of a node whose subtree went first goes last. */
  lemma LostLast(keys: Keying, ext: Extractor, refs: Refs, m: Forest, p: Key, m': Forest)
    requires OwnPaths(keys, ext, m) && p in m && Shrinks(m - {p}, m')
    ensures Shrinks(m, m')
    ensures DropSome(DropAll(refs, Lost(m - {p}, m')), m[p]) == DropAll(refs, Lost(m, m'))
  {
    var lost := Lost(m - {p}, m');
    match m[p]
    case None =>
      assert Lost(m, m') == lost;
    case Some(r) =>
      LostAt(keys, ext, m - {p}, m', r);
      DropAllStep(refs, lost, r);
      assert Lost(m, m') == lost + {r};
  }

  function DropSome(refs: Refs, record: Option<Record>): Refs {
    match record
    case Some(r) => Drop(refs, r)
    case None => refs
  }

  /** Paths with the same nearest ancestor are not below each other. */
  lemma SiblingsApart(p: Key, q: Key)
    requires AncestorLen(p) == AncestorLen(q) && p != q && p != [] && q != []
    ensures !Under(p, q)
  {
    AncestorStep(q, p);
  }

  /** Where a deletion stands that began with m0, refs0 and n0 items and has come down to m. */
  ghost predicate Released(m0: Forest, refs0: Refs, n0: DWord, m: Forest, refs: Refs, n: DWord) {
    && Shrinks(m0, m)
    && refs == DropAll(refs0, Lost(m0, m))
    && n == Wrap(n0 - (|m0| - |m|))
  }

  /** r was under some path of m0 and is not under it in m. */
  ghost predicate TakenAway(m0: Forest, m: Forest, r: Record) {
    exists p | p in m0 :: m0[p] == Some(r) && !(p in m && m[p] == Some(r))
  }

  /** Each record that was taken away has lost one reference, and no other has. */
  lemma ReleasedOnce(m0: Forest, refs0: Refs, n0: DWord, m: Forest, refs: Refs, n: DWord)
    requires Released(m0, refs0, n0, m, refs, n)
    ensures forall r :: RefsOf(refs, r) == RefsOf(refs0, r) - if TakenAway(m0, m, r) then 1 else 0
  {
    forall r ensures r in Lost(m0, m) <==> TakenAway(m0, m, r) {
    }
  }

  lemma ReleasedNone(m: Forest, refs: Refs, n: DWord)
    ensures Released(m, refs, n, m, refs, n)
  {
  }

  lemma ReleasedStep(keys: Keying, ext: Extractor, m0: Forest, refs0: Refs, n0: DWord, m: Forest, refs: Refs, n: DWord,
                     m': Forest, refs': Refs, n': DWord)
    requires OwnPaths(keys, ext, m0)
    requires Released(m0, refs0, n0, m, refs, n) && Released(m, refs, n, m', refs', n')
    ensures Released(m0, refs0, n0, m', refs', n')
  {
    hide Lost, DropAll, Wrap, Shrinks, OwnPaths;
    LostStep(keys, ext, refs0, m0, m, m');
    WrapShift(n0 - (|m0| - |m|), -(|m| - |m'|));
  }

  lemma ReleasedLast(keys: Keying, ext: Extractor, m0: Forest, refs0: Refs, n0: DWord, p: Key, m1: Forest,
                     m: Forest, refs: Refs, n: DWord)
    requires OwnPaths(keys, ext, m0) && p in m0 && m1 == m0 - {p}
    requires Released(m1, refs0, n0, m, refs, n)
    ensures Released(m0, refs0, n0, m, DropSome(refs, m0[p]), Wrap(n - 1))
  {
    hide Lost, DropAll, Wrap, Shrinks, OwnPaths, DropSome;
    LostLast(keys, ext, refs0, m0, p, m);
    CountLess(n0, m0, p, m1, |m|);
  }

  lemma CountLess(n0: DWord, m0: Forest, p: Key, m1: Forest, size: nat)
    requires p in m0 && m1 == m0 - {p}
    ensures Wrap(Wrap(n0 - (|m1| - size)) - 1) == Wrap(n0 - (|m0| - size))
  {
  }

  lemma OwnPathsShrink(keys: Keying, ext: Extractor, m0: Forest, m: Forest)
    requires OwnPaths(keys, ext, m0) && Shrinks(m0, m)
    ensures OwnPaths(keys, ext, m)
  {
  }

  // ----- DeleteIf node by node

  /** Where DeleteIf stands: m is what is left of m0, seen are the paths of the nodes it has walked past,
      and asked are the records the predicate was called on, in order. */
  ghost predicate Sweep(keys: Keying, ext: Extractor, pred: Record -> bool, m0: Forest, m: Forest, seen: set<Key>,
                        asked: seq<Record>) {
    && Shrinks(m0, m)
    && (forall q | q in m0 && m0[q].Some? && Gone(m0, m, q) :: pred(m0[q].value))
    && (forall q | q in seen && q in m && m[q].Some? :: !pred(m[q].value))
    && (forall q | q in seen && q in m && m[q].None? :: HasBelow(m0, q))
    && Distinct(asked)
    && (forall q | q in m0 && m0[q].Some? :: m0[q].value in asked <==> q in seen || Gone(m0, m, q))
    && (forall r | r in asked :: Carried(keys, ext, m0, r))
  }

  /** Some path of m lies strictly below q. */
  ghost predicate HasBelow(m: Forest, q: Key) {
    exists p | p in m :: Ancestor(q, p)
  }

  ghost predicate Gone(m0: Forest, m: Forest, q: Key)
    requires q in m0
  {
    !(q in m && m[q] == m0[q])
  }

  /** r is the record of a node of m. */
  ghost predicate Carried(keys: Keying, ext: Extractor, m: Forest, r: Record) {
    keys.Canon(ext.KeyOf(r)) in m && m[keys.Canon(ext.KeyOf(r))] == Some(r)
  }

  /** The calls that visiting a node makes. */
  ghost function Asking(asked: seq<Record>, record: Option<Record>): seq<Record> {
    match record
    case Some(r) => asked + [r]
    case None => asked
  }

  lemma AskOnce(keys: Keying, ext: Extractor, pred: Record -> bool, m0: Forest, m: Forest, seen: set<Key>,
                asked: seq<Record>, q: Key)
    requires OwnPaths(keys, ext, m0) && Sweep(keys, ext, pred, m0, m, seen, asked)
    requires q in m && q !in seen
    ensures Distinct(Asking(asked, m[q]))
    ensures forall r | r in Asking(asked, m[q]) :: Carried(keys, ext, m0, r)
    ensures forall r :: r in Asking(asked, m[q]) <==> r in asked || m[q] == Some(r)
  {
  }

  /** The node of q is walked past: it is empty and has nodes below it, or its record does not match. */
  lemma SweepPast(keys: Keying, ext: Extractor, pred: Record -> bool, m0: Forest, m: Forest, seen: set<Key>,
                  asked: seq<Record>, q: Key)
    requires OwnPaths(keys, ext, m0) && Sweep(keys, ext, pred, m0, m, seen, asked)
    requires q in m && q !in seen && (if m[q].Some? then !pred(m[q].value) else HasBelow(m, q))
    ensures Sweep(keys, ext, pred, m0, m, seen + {q}, Asking(asked, m[q]))
  {
  }

  /** The node of q goes, or is emptied: it is empty, or its record matches. */
  lemma SweepAway(keys: Keying, ext: Extractor, pred: Record -> bool, m0: Forest, m: Forest, seen: set<Key>,
                  asked: seq<Record>, q: Key, m': Forest)
    requires OwnPaths(keys, ext, m0) && Sweep(keys, ext, pred, m0, m, seen, asked)
    requires q in m && q !in seen && (m[q].Some? ==> pred(m[q].value))
    requires m' == m - {q} || m' == m[q := None]
    ensures Sweep(keys, ext, pred, m0, m', seen, Asking(asked, m[q]))
  {
    AskOnce(keys, ext, pred, m0, m, seen, asked, q);
    SameRecordSamePath(keys, ext, m0);
  }

  lemma SameRecordSamePath(keys: Keying, ext: Extractor, m: Forest)
    requires OwnPaths(keys, ext, m)
    ensures forall p, q | p in m && q in m && m[p].Some? && m[p] == m[q] :: p == q
  {
  }

  lemma SweepStart(keys: Keying, ext: Extractor, pred: Record -> bool, m: Forest)
    ensures Sweep(keys, ext, pred, m, m, {}, [])
  {
  }

  lemma SweepEnd(keys: Keying, ext: Extractor, pred: Record -> bool, m0: Forest, m: Forest, seen: set<Key>,
                 asked: seq<Record>)
    requires Sweep(keys, ext, pred, m0, m, seen, asked) && OwnPaths(keys, ext, m0)
    requires Closed(m) && m.Keys <= seen
    ensures Filtered(pred, m0, m)
    ensures forall q | q in m && m[q] == None :: HasBelow(m0, q)
    ensures Distinct(asked) && forall r :: r in asked <==> Carried(keys, ext, m0, r)
  {
  }

  /** Emptying one node drops one reference. */
  lemma ReleasedEmpty(m: Forest, refs: Refs, n: DWord, q: Key)
    requires q in m && m[q].Some?
    ensures Released(m, refs, n, m[q := None], Drop(refs, m[q].value), n)
  {
  }

  /** A wrapped count that was right stays right. */
  lemma ReleasedCount(m0: Forest, refs0: Refs, n0: DWord, m: Forest, refs: Refs, n: DWord)
    requires Released(m0, refs0, n0, m, refs, n) && n0 == Wrap(|m0|)
    ensures n == Wrap(|m|)
  {
  }
}
