/** The two models of HASH_TABLE agree: every interleaving of inserts and lookups answers as the same calls made
    one after the other on a finite map, in an order that keeps calls apart that do not overlap in time. */
module Linearization {
  import opened Words
  import opened Keys
  import Chains
  import ChainSteps
  import HashSteps
  import opened HashLookups
  import MapSpec

  /** The map before the run, the record of each insert, and the key of each lookup. */
  datatype Calls = Calls(before: MapSpec.Table, records: seq<Chains.Record>, wanted: seq<Key>)

  ghost predicate Fits(keys: Keying, ext: MapSpec.Extractor, calls: Calls, w: World) {
    && |calls.records| == |w.table.threads| && |calls.wanted| == |w.readers|
    && (forall t | 0 <= t < |calls.records| :: keys.Canon(ext.KeyOf(calls.records[t])) == w.table.threads[t].key)
    && (forall i | 0 <= i < |calls.wanted| :: keys.Canon(calls.wanted[i]) == w.readers[i].key)
  }

  /** Node id carries record r: that of the map for the first nodes, and that of its inserter for the others. */
  ghost predicate Carries(calls: Calls, s: HashSteps.State, id: nat, r: Chains.Record) {
    && id < |s.memory.key| && id < |s.owner|
    && if id < s.first then s.memory.key[id] in calls.before.stored && calls.before.stored[s.memory.key[id]] == r
       else 0 <= s.owner[id] < |calls.records| && calls.records[s.owner[id]] == r
  }

  /** The map holds the keys of the nodes, and under each the record of its node. */
  ghost predicate Stores(calls: Calls, s: HashSteps.State, stored: map<Key, Chains.Record>) {
    && (forall k :: k in stored <==> k in s.memory.key)
    && forall id | 0 <= id < |s.memory.key| :: Carries(calls, s, id, stored[s.memory.key[id]])
  }

  /** All inserts and lookups are about to start, on a table that stands for the map. */
  ghost predicate Initial(keys: Keying, ext: MapSpec.Extractor, calls: Calls, w: World) {
    && HashSteps.Initial(keys, w.table) && Fits(keys, ext, calls, w) && Stores(calls, w.table, calls.before.stored)
    && forall i | 0 <= i < |w.readers| :: w.readers[i].at == Begin
  }

  predicate Called(calls: Calls, e: Event) {
    match e
    case Inserter(t) => t < |calls.records|
    case Lookup(i) => i < |calls.wanted|
  }

  function OpOf(calls: Calls, e: Event): MapSpec.Op
    requires Called(calls, e)
  {
    match e
    case Inserter(t) => MapSpec.Insert(calls.records[t])
    case Lookup(i) => MapSpec.Find(calls.wanted[i])
  }

  function Ops(calls: Calls, order: seq<Event>): seq<MapSpec.Op>
    requires forall i | 0 <= i < |order| :: Called(calls, order[i])
  {
    seq(|order|, i requires 0 <= i < |order| => OpOf(calls, order[i]))
  }

  predicate Returns(th: HashSteps.Thread) {
    HashSteps.Inside(th) || th.at.Lost?
  }

  /** The answer of the call is decided: an insert has published its node or met one of its key, a lookup has
      read the link that ends its walk. */
  predicate Decided(keys: Keying, w: World, e: Event) {
    match e
    case Inserter(t) => t < |w.table.threads| && Returns(w.table.threads[t])
    case Lookup(i) => i < |w.readers| && Settled(keys, w.table.memory, w.readers[i])
  }

  /** The reply that a decided call gives. */
  ghost predicate Replies(keys: Keying, calls: Calls, w: World, e: Event, reply: MapSpec.Reply) {
    match e
    case Inserter(t) =>
      && t < |w.table.threads|
      && reply == MapSpec.Result(if w.table.threads[t].at.Lost? then MapSpec.ALREADY_EXISTS else MapSpec.S_OK)
    case Lookup(i) =>
      && i < |w.readers| && reply.Found?
      && match Answer(keys, w.table.memory, w.readers[i])
         case None => reply.found == None
         case Some(id) => reply.found.Some? && Carries(calls, w.table, id, reply.found.value)
  }

  /** The calls in the order in which their answers are decided. */
  ghost function Order(keys: Keying, w: World, events: seq<Event>): seq<Event>
    requires WorldOk(keys, w)
  {
    if events == [] then []
    else
      var e := events[|events| - 1];
      var r := Run(keys, w, events[..|events| - 1]);
      Order(keys, w, events[..|events| - 1])
      + if !Decided(keys, r, e) && Decided(keys, Next(keys, r, e), e) then [e] else []
  }

  /** In w the calls of order have been decided, and no others, each with the reply and all with the result of
      the finite map. */
  ghost predicate Linear(keys: Keying, ext: MapSpec.Extractor, calls: Calls, w: World, order: seq<Event>) {
    && Distinct(order) && (forall e :: e in order <==> Decided(keys, w, e))
    && (forall i | 0 <= i < |order| :: Called(calls, order[i]))
    && var (t, replies) := MapSpec.Run(keys, ext, calls.before, Ops(calls, order));
       && (forall i | 0 <= i < |order| :: Replies(keys, calls, w, order[i], replies[i]))
       && Stores(calls, w.table, t.stored)
  }

  // ----- One step

  /** What a step of an insert does to its thread and to the nodes. */
  lemma InsertStep(keys: Keying, s: HashSteps.State, t: nat)
    requires HashSteps.Inv(keys, s) && t < |s.threads|
    ensures var s', th, th' := HashSteps.Step(keys, s, t), s.threads[t], HashSteps.Step(keys, s, t).threads[t];
            && s'.first == s.first && |s'.threads| == |s.threads|
            && (forall u | 0 <= u < |s.threads| && u != t :: s'.threads[u] == s.threads[u])
            && (Returns(th) ==> Returns(th') && th'.at.Lost? == th.at.Lost?)
            && if !Returns(th) && HashSteps.Inside(th') then
                 th.key !in s.memory.key && s'.memory.key == s.memory.key + [th.key] && s'.owner == s.owner + [t]
               else
                 && s'.memory == s.memory && s'.owner == s.owner
                 && (!Returns(th) && th'.at.Lost? ==> th.key in s.memory.key)
  {
    hide ChainSteps.CursorOk, ChainSteps.Site, Slot;
    assert HashSteps.ThreadOk(keys, s, t);
    var th := s.threads[t];
    if th.at.Swap? {
      ChainSteps.CursorBounds(keys, s.memory, th.key, th.at.prev, th.at.cur);
      if ChainSteps.Link(keys, s.memory, th.key, th.at.prev) == th.at.cur {
        HashSteps.PublicationKeepsInv(keys, s, t);
      }
    } else if th.at.Walk? {
      ChainSteps.CursorBounds(keys, s.memory, th.key, th.at.prev, th.at.cur);
    }
  }

  /** A step decides no call but its own, and none anew. */
  lemma DecidedStays(keys: Keying, w: World, e: Event, e': Event)
    requires WorldOk(keys, w)
    ensures Decided(keys, w, e') ==> Decided(keys, Next(keys, w, e), e')
    ensures e' != e ==> Decided(keys, Next(keys, w, e), e') == Decided(keys, w, e')
  {
    hide HashSteps.Inv, HashSteps.Step, ReaderOk, Settled, Answer, Returns;
    if e.Inserter? && e.t < |w.table.threads| {
      InsertStep(keys, w.table, e.t);
    }
    if e'.Lookup? && e'.i < |w.readers| {
      if Decided(keys, w, e') {
        SettledStays(keys, w, e, e'.i);
      }
      if e' != e {
        OthersDecideNothing(keys, w, e, e'.i);
      }
    }
  }

  lemma CarriesStays(calls: Calls, s: HashSteps.State, s': HashSteps.State, id: nat, r: Chains.Record)
    requires HashSteps.Grows(s, s') && Carries(calls, s, id, r)
    ensures Carries(calls, s', id, r)
  {
  }

  lemma RepliesStay(keys: Keying, calls: Calls, w: World, e: Event, e': Event, reply: MapSpec.Reply)
    requires WorldOk(keys, w) && Decided(keys, w, e') && Replies(keys, calls, w, e', reply)
    ensures Replies(keys, calls, Next(keys, w, e), e', reply)
  {
    hide HashSteps.Inv, HashSteps.Step, HashSteps.Grows, ReaderOk, Settled, Answer, Carries;
    NextGrows(keys, w, e);
    match e'
    case Inserter(t) =>
      if e.Inserter? && e.t < |w.table.threads| {
        InsertStep(keys, w.table, e.t);
      }
    case Lookup(i) =>
      SettledStays(keys, w, e, i);
      var answer := Answer(keys, w.table.memory, w.readers[i]);
      if answer.Some? {
        CarriesStays(calls, w.table, Next(keys, w, e).table, answer.value, reply.found.value);
      }
  }

  /** A step that decides its call gives the reply of the map and does to the nodes what the call does to it. */
  lemma DecidingStep(keys: Keying, ext: MapSpec.Extractor, calls: Calls, w: World, e: Event, t: MapSpec.Table)
    requires WorldOk(keys, w) && Fits(keys, ext, calls, w) && Stores(calls, w.table, t.stored)
    requires !Decided(keys, w, e) && Decided(keys, Next(keys, w, e), e)
    ensures Called(calls, e)
    ensures var (t', reply) := MapSpec.Step(keys, ext, t, OpOf(calls, e));
            Replies(keys, calls, Next(keys, w, e), e, reply) && Stores(calls, Next(keys, w, e).table, t'.stored)
  {
    hide HashSteps.Inv, HashSteps.Step, ReaderOk, Settled, Answer;
    match e
    case Inserter(i) =>
      InsertStep(keys, w.table, i);
      WorldOwners(keys, w);
    case Lookup(i) =>
      DecidedNow(keys, w, e, i);
  }

  lemma WorldOwners(keys: Keying, w: World)
    requires WorldOk(keys, w)
    ensures |w.table.owner| == |w.table.memory.key| && w.table.first <= |w.table.owner|
  {
  }

  lemma OtherStep(keys: Keying, calls: Calls, w: World, e: Event, stored: map<Key, Chains.Record>)
    requires WorldOk(keys, w) && Stores(calls, w.table, stored)
    requires Decided(keys, Next(keys, w, e), e) ==> Decided(keys, w, e)
    ensures Stores(calls, Next(keys, w, e).table, stored)
  {
    hide HashSteps.Inv, HashSteps.Step, ReaderOk, Settled, Answer;
    if e.Inserter? && e.t < |w.table.threads| {
      InsertStep(keys, w.table, e.t);
    }
  }

  lemma RunOneMore(keys: Keying, ext: MapSpec.Extractor, before: MapSpec.Table, ops: seq<MapSpec.Op>, op: MapSpec.Op)
    ensures var (t, replies) := MapSpec.Run(keys, ext, before, ops);
            var (t', reply) := MapSpec.Step(keys, ext, t, op);
            MapSpec.Run(keys, ext, before, ops + [op]) == (t', replies + [reply])
  {
    assert (ops + [op])[..|ops|] == ops;
  }

  lemma LinearStep(keys: Keying, ext: MapSpec.Extractor, calls: Calls, w: World, e: Event, order: seq<Event>)
    requires WorldOk(keys, w) && Fits(keys, ext, calls, w) && Linear(keys, ext, calls, w, order)
    ensures var w' := Next(keys, w, e);
            Linear(keys, ext, calls, w',
                   order + if !Decided(keys, w, e) && Decided(keys, w', e) then [e] else [])
  {
    hide WorldOk, Fits, Stores, Replies, Decided, Next, MapSpec.Run, MapSpec.Step;
    var w' := Next(keys, w, e);
    var (t, replies) := MapSpec.Run(keys, ext, calls.before, Ops(calls, order));
    forall e' ensures (Decided(keys, w, e') ==> Decided(keys, w', e'))
                      && (e' != e ==> Decided(keys, w', e') == Decided(keys, w, e')) {
      DecidedStays(keys, w, e, e');
    }
    forall i | 0 <= i < |order| ensures Replies(keys, calls, w', order[i], replies[i]) {
      assert order[i] in order;
      RepliesStay(keys, calls, w, e, order[i], replies[i]);
    }
    if !Decided(keys, w, e) && Decided(keys, w', e) {
      DecidingStep(keys, ext, calls, w, e, t);
      RunOneMore(keys, ext, calls.before, Ops(calls, order), OpOf(calls, e));
      assert Ops(calls, order + [e]) == Ops(calls, order) + [OpOf(calls, e)];
    } else {
      OtherStep(keys, calls, w, e, t.stored);
      assert order + [] == order;
    }
  }

  // ----- Runs

  lemma FitsLater(keys: Keying, ext: MapSpec.Extractor, calls: Calls, w: World, w': World)
    requires Fits(keys, ext, calls, w) && WorldGrows(w, w')
    ensures Fits(keys, ext, calls, w')
  {
  }

  lemma StartIsLinear(keys: Keying, ext: MapSpec.Extractor, calls: Calls, w: World)
    requires Initial(keys, ext, calls, w)
    ensures WorldOk(keys, w) && Linear(keys, ext, calls, w, [])
  {
    HashSteps.InitialInv(keys, w.table);
  }

  /** Every run answers as the finite map does when the calls are made one at a time, in the order in which their
      answers are decided; and the table then holds what the map holds. */
  lemma {:induction false} EveryRunLinearizes(keys: Keying, ext: MapSpec.Extractor, calls: Calls, w: World,
                                              events: seq<Event>)
    requires Initial(keys, ext, calls, w) && WorldOk(keys, w)
    ensures Linear(keys, ext, calls, Run(keys, w, events), Order(keys, w, events))
  {
    hide Linear, Fits, Stores, HashSteps.Initial, WorldGrows, Decided, Next;
    if events == [] {
      StartIsLinear(keys, ext, calls, w);
    } else {
      var front := events[..|events| - 1];
      EveryRunLinearizes(keys, ext, calls, w, front);
      RunGrows(keys, w, front);
      FitsLater(keys, ext, calls, w, Run(keys, w, front));
      LinearStep(keys, ext, calls, Run(keys, w, front), events[|events| - 1], Order(keys, w, front));
    }
  }

  /** The order keeps real time: a call that is decided at some moment comes before all that are decided later. */
  lemma {:induction false} OrderGrows(keys: Keying, w: World, events: seq<Event>, k: nat)
    requires WorldOk(keys, w) && k <= |events|
    ensures Order(keys, w, events[..k]) <= Order(keys, w, events)
    decreases |events|
  {
    hide WorldOk, Decided, Next, Run;
    if k == |events| {
      assert events[..k] == events;
    } else {
      assert events[..|events| - 1][..k] == events[..k];
      OrderGrows(keys, w, events[..|events| - 1], k);
    }
  }

  /** When all calls have returned, the order holds each of them once. */
  lemma FinishedOrder(keys: Keying, ext: MapSpec.Extractor, calls: Calls, w: World, events: seq<Event>, e: Event)
    requires Initial(keys, ext, calls, w) && WorldOk(keys, w)
    requires var r := Run(keys, w, events);
             HashSteps.Finished(r.table) && forall i | 0 <= i < |r.readers| :: Over(r.readers[i])
    ensures Distinct(Order(keys, w, events))
    ensures e in Order(keys, w, events) <==> Called(calls, e)
  {
    hide Run, WorldOk, Order, Stores, Replies, HashSteps.Initial, MapSpec.Run;
    EveryRunLinearizes(keys, ext, calls, w, events);
    RunGrows(keys, w, events);
  }
}
