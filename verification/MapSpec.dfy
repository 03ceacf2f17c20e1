/** What the hash table is meant to be: a finite map from canonical keys to records, which owns one
    reference on every record it stores. */
module MapSpec {
  import opened Words
  import opened Keys
  import opened Chains

  datatype HResult = S_OK | ALREADY_EXISTS

  /** The ExtractKey of a table: the key of each record. */
  datatype Extractor = Extractor(key: Record -> Key) {
    function KeyOf(r: Record): Key {
      key(r)
    }
  }

  /** Reference counts of the records. A record that is not listed has count 0. */
  type Refs = map<Record, int>

  function RefsOf(refs: Refs, r: Record): int {
    if r in refs then refs[r] else 0
  }

  function Take(refs: Refs, r: Record): Refs {
    refs[r := RefsOf(refs, r) + 1]
  }

  function Drop(refs: Refs, r: Record): Refs {
    refs[r := RefsOf(refs, r) - 1]
  }

  /** One reference dropped on each record of rs. */
  function DropAll(refs: Refs, rs: set<Record>): Refs {
    map r | r in refs.Keys + rs :: RefsOf(refs, r) - (if r in rs then 1 else 0)
  }

  lemma DropAllStep(refs: Refs, rs: set<Record>, r: Record)
    requires r !in rs
    ensures Drop(DropAll(refs, rs), r) == DropAll(refs, rs + {r})
  {
  }

  /** The keys of the table and the records under them, and the counts of all records. */
  datatype Table = Table(stored: map<Key, Record>, refs: Refs)

  datatype Op =
    | Insert(record: Record)
    | Find(key: Key)
    | Delete(key: Key)
    | DeleteIf(pred: Record -> bool)
    | Clear

  datatype Reply = Result(hr: HResult) | Found(found: Option<Record>) | Nothing

  /** A record's place is decided by its own key. */
  ghost predicate OwnKeys(keys: Keying, ext: Extractor, stored: map<Key, Record>) {
    forall p | p in stored :: keys.Canon(ext.KeyOf(stored[p])) == p
  }

  function Matching(stored: map<Key, Record>, pred: Record -> bool): set<Record> {
    set p | p in stored && pred(stored[p]) :: stored[p]
  }

  function Step(keys: Keying, ext: Extractor, t: Table, op: Op): (Table, Reply) {
    match op
    case Insert(r) =>
      var p := keys.Canon(ext.KeyOf(r));
      if p in t.stored then (t, Result(ALREADY_EXISTS))
      else (Table(t.stored[p := r], Take(t.refs, r)), Result(S_OK))
    case Find(key) =>
      var p := keys.Canon(key);
      if p in t.stored then (t.(refs := Take(t.refs, t.stored[p])), Found(Some(t.stored[p])))
      else (t, Found(None))
    case Delete(key) =>
      var p := keys.Canon(key);
      if p in t.stored then (Table(t.stored - {p}, Drop(t.refs, t.stored[p])), Nothing)
      else (t, Nothing)
    case DeleteIf(pred) =>
      (Table(map p | p in t.stored && !pred(t.stored[p]) :: t.stored[p],
             DropAll(t.refs, Matching(t.stored, pred))), Nothing)
    case Clear =>
      (Table(map[], DropAll(t.refs, t.stored.Values)), Nothing)
  }

  /** What an insertion does, reference by reference. */
  lemma InsertMeans(keys: Keying, ext: Extractor, t: Table, record: Record, t': Table, hr: HResult)
    requires (t', Result(hr)) == Step(keys, ext, t, Insert(record))
    ensures hr == S_OK <==> keys.Canon(ext.KeyOf(record)) !in t.stored
    ensures t'.stored == if hr == S_OK then t.stored[keys.Canon(ext.KeyOf(record)) := record] else t.stored
    ensures forall r :: RefsOf(t'.refs, r) == RefsOf(t.refs, r) + if hr == S_OK && r == record then 1 else 0
  {
  }

  function Run(keys: Keying, ext: Extractor, t: Table, ops: seq<Op>): (r: (Table, seq<Reply>))
    ensures |r.1| == |ops|
  {
    if ops == [] then (t, [])
    else
      var (t', replies) := Run(keys, ext, t, ops[..|ops| - 1]);
      var (t'', reply) := Step(keys, ext, t', ops[|ops| - 1]);
      (t'', replies + [reply])
  }

  /** References on r that the table does not account for. */
  function Outside(t: Table, r: Record): int {
    RefsOf(t.refs, r) - (if r in t.stored.Values then 1 else 0)
  }

  /** References on r handed to callers of FindKey. */
  function Handed(replies: seq<Reply>, r: Record): nat {
    if replies == [] then 0
    else Handed(replies[..|replies| - 1], r) + (if replies[|replies| - 1] == Found(Some(r)) then 1 else 0)
  }

  lemma StepConserves(keys: Keying, ext: Extractor, t: Table, op: Op, r: Record)
    requires OwnKeys(keys, ext, t.stored)
    ensures var (t', reply) := Step(keys, ext, t, op);
            OwnKeys(keys, ext, t'.stored)
            && Outside(t', r) == Outside(t, r) + (if reply == Found(Some(r)) then 1 else 0)
  {
    var (t', reply) := Step(keys, ext, t, op);
    var p := keys.Canon(ext.KeyOf(r));
    assert r in t.stored.Values <==> p in t.stored && t.stored[p] == r;
    assert r in t'.stored.Values <==> p in t'.stored && t'.stored[p] == r;
    if op.DeleteIf? {
      assert r in Matching(t.stored, op.pred) <==> r in t.stored.Values && op.pred(r);
    }
  }

  /** Over every run, the count of every record is its holders outside the table, namely those there were
      plus those that FindKey made, plus one exactly while the record is stored. */
  lemma {:induction false} RunConserves(keys: Keying, ext: Extractor, t: Table, ops: seq<Op>, r: Record)
    requires OwnKeys(keys, ext, t.stored)
    ensures var (t', replies) := Run(keys, ext, t, ops);
            OwnKeys(keys, ext, t'.stored)
            && Outside(t', r) == Outside(t, r) + Handed(replies, r)
  {
    if ops != [] {
      var ops' := ops[..|ops| - 1];
      RunConserves(keys, ext, t, ops', r);
      var (t', replies) := Run(keys, ext, t, ops');
      var (t'', reply) := Step(keys, ext, t', ops[|ops| - 1]);
      StepConserves(keys, ext, t', ops[|ops| - 1], r);
      assert (replies + [reply])[..|replies|] == replies;
    }
  }

  /** A lookup after an insertion finds the record that the table held or took, whatever happens to
      other keys in between. */
  lemma {:induction false} StaysFindable(keys: Keying, ext: Extractor, t: Table, ops: seq<Op>, p: Key)
    requires p in t.stored
    requires forall op | op in ops ::
               op.Insert? || op.Find? || (op.Delete? && !keys.Equal(op.key, ext.KeyOf(t.stored[p])))
    requires OwnKeys(keys, ext, t.stored)
    ensures p in Run(keys, ext, t, ops).0.stored
    ensures Run(keys, ext, t, ops).0.stored[p] == t.stored[p]
  {
    if ops != [] {
      StaysFindable(keys, ext, t, ops[..|ops| - 1], p);
      assert ops[|ops| - 1] in ops;
    }
  }

  /** After a deletion no lookup of an equal key finds anything until an equal key is inserted. */
  lemma {:induction false} DeletedIsGone(keys: Keying, ext: Extractor, t: Table, ops: seq<Op>, d: nat, key: Key)
    requires d < |ops| && ops[d] == Delete(key)
    requires forall i | d < i < |ops| && ops[i].Insert? :: !keys.Equal(ext.KeyOf(ops[i].record), key)
    ensures var (t', replies) := Run(keys, ext, t, ops);
            && keys.Canon(key) !in t'.stored
            && forall i | d < i < |ops| && ops[i].Find? && keys.Equal(ops[i].key, key) :: replies[i] == Found(None)
  {
    var front, op := ops[..|ops| - 1], ops[|ops| - 1];
    if d < |front| {
      DeletedIsGone(keys, ext, t, front, d, key);
    }
  }

  /** After an insertion that succeeds every lookup of an equal key finds that record, until such a key is deleted. */
  lemma {:induction false} InsertedIsFound(keys: Keying, ext: Extractor, t: Table, ops: seq<Op>, d: nat, r: Record)
    requires d < |ops| && ops[d] == Insert(r) && Run(keys, ext, t, ops).1[d] == Result(S_OK)
    requires forall i | d < i < |ops| ::
               ops[i].Insert? || ops[i].Find? || (ops[i].Delete? && !keys.Equal(ops[i].key, ext.KeyOf(r)))
    ensures var (t', replies) := Run(keys, ext, t, ops);
            && keys.Canon(ext.KeyOf(r)) in t'.stored && t'.stored[keys.Canon(ext.KeyOf(r))] == r
            && forall i | d < i < |ops| && ops[i].Find? && keys.Equal(ops[i].key, ext.KeyOf(r)) ::
                 replies[i] == Found(Some(r))
  {
    var front, op := ops[..|ops| - 1], ops[|ops| - 1];
    if d < |front| {
      InsertedIsFound(keys, ext, t, front, d, r);
    }
  }
}
