/** FindKey under the shared lock: any number of lookups run among any number of inserts, interleaved at every
    read of a link. */
module HashLookups {
  import opened Words
  import opened Keys
  import opened ChainSteps
  import opened HashSteps

  /** Where a lookup stands in FindNodeInternal.
      Begin: it is about to read the bucket.
      Reading: it has read cur from the link at prev and is about to look at it.
      Found, Missed: the walk has ended at the node, or without one. */
  datatype Stage =
    | Begin
    | Reading(prev: int, cur: int)
    | Found(id: nat)
    | Missed

  datatype Reader = Reader(key: Key, at: Stage)

  datatype World = World(table: State, readers: seq<Reader>)

  /** The next step is one of an insert or one of a lookup. */
  datatype Event = Inserter(t: nat) | Lookup(i: nat)

  /** The next step of a lookup. It writes nothing. */
  function Look(keys: Keying, m: Memory, rd: Reader): Reader
    requires |m.heads| > 0 && |m.next| == |m.key|
    requires rd.at.Reading? ==> NULL <= rd.at.cur < |m.key|
  {
    match rd.at
    case Begin => rd.(at := Reading(NULL, Link(keys, m, rd.key, NULL)))
    case Reading(prev, cur) =>
      if cur == NULL || HashOf(keys, m.key[cur]) > HashOf(keys, rd.key) then rd.(at := Missed)
      else if m.key[cur] == rd.key then rd.(at := Found(cur))
      else rd.(at := Reading(cur, Link(keys, m, rd.key, cur)))
    case Found(_) => rd
    case Missed => rd
  }

  ghost predicate ReaderOk(keys: Keying, m: Memory, rd: Reader)
    requires |m.heads| == |m.chains| > 0
  {
    match rd.at
    case Begin => true
    case Reading(prev, cur) => CursorOk(keys, m, rd.key, prev, cur)
    case Found(id) => id < |m.key| && m.key[id] == rd.key
    case Missed => true
  }

  ghost predicate WorldOk(keys: Keying, w: World) {
    Inv(keys, w.table) && forall i | 0 <= i < |w.readers| :: ReaderOk(keys, w.table.memory, w.readers[i])
  }

  ghost function Next(keys: Keying, w: World, e: Event): World
    requires WorldOk(keys, w)
  {
    match e
    case Inserter(t) => if t < |w.table.threads| then w.(table := Step(keys, w.table, t)) else w
    case Lookup(i) =>
      if i < |w.readers| then
        assert ReaderOk(keys, w.table.memory, w.readers[i]);
        w.(readers := w.readers[i := Look(keys, w.table.memory, w.readers[i])])
      else w
  }

  lemma LookKeepsReader(keys: Keying, m: Memory, rd: Reader)
    requires MemoryOk(keys, m) && ReaderOk(keys, m, rd)
    ensures ReaderOk(keys, m, Look(keys, m, rd))
  {
    hide Slot, CursorOk;
    match rd.at
    case Begin => CursorAtBucket(keys, m, rd.key);
    case Reading(prev, cur) =>
      CursorBounds(keys, m, rd.key, prev, cur);
      if Skips(keys, m.key, rd.key, cur) {
        CursorAdvances(keys, m, rd.key, prev, cur);
      }
    case Found(_) =>
    case Missed =>
  }

  lemma StepKeepsReader(keys: Keying, s: State, t: nat, rd: Reader)
    requires Inv(keys, s) && t < |s.threads| && ReaderOk(keys, s.memory, rd)
    ensures var m' := Step(keys, s, t).memory;
            |m'.heads| == |m'.chains| > 0 && s.memory.key <= m'.key && ReaderOk(keys, m', rd)
  {
    hide Slot, CursorOk, Site;
    var m, th := s.memory, s.threads[t];
    assert ThreadOk(keys, s, t);
    if th.at.Swap? {
      CursorBounds(keys, m, th.key, th.at.prev, th.at.cur);
    }
    if th.at.Swap? && Link(keys, m, th.key, th.at.prev) == th.at.cur && rd.at.Reading? {
      var x := SiteOf(keys, m, th.key, th.at.prev, th.at.cur);
      CursorStable(keys, m, th.key, x, rd.key, rd.at.prev, rd.at.cur);
    }
  }

  /** Every step of every insert and lookup keeps the invariants of all. */
  lemma NextKeepsWorld(keys: Keying, w: World, e: Event)
    requires WorldOk(keys, w)
    ensures WorldOk(keys, Next(keys, w, e))
  {
    hide Inv, ReaderOk, Step, Look;
    match e
    case Inserter(t) =>
      if t < |w.table.threads| {
        StepKeepsInv(keys, w.table, t);
        var m := Step(keys, w.table, t).memory;
        InvMemory(keys, w.table);
        InvMemory(keys, Step(keys, w.table, t));
        forall i | 0 <= i < |w.readers| ensures ReaderOk(keys, m, w.readers[i]) {
          StepKeepsReader(keys, w.table, t, w.readers[i]);
        }
      }
    case Lookup(i) =>
      if i < |w.readers| {
        InvMemory(keys, w.table);
        LookKeepsReader(keys, w.table.memory, w.readers[i]);
      }
  }

  lemma InvMemory(keys: Keying, s: State)
    requires Inv(keys, s)
    ensures MemoryOk(keys, s.memory)
  {
  }

  ghost function Run(keys: Keying, w: World, events: seq<Event>): (r: World)
    requires WorldOk(keys, w)
    ensures WorldOk(keys, r)
  {
    if events == [] then w
    else
      var r := Run(keys, w, events[..|events| - 1]);
      NextKeepsWorld(keys, r, events[|events| - 1]);
      Next(keys, r, events[|events| - 1])
  }

  // ----- What a lookup answers

  /** The outcome is decided, although the walk may not have looked at it yet. */
  predicate Settled(keys: Keying, m: Memory, rd: Reader) {
    match rd.at
    case Begin => false
    case Reading(prev, cur) => !Skips(keys, m.key, rd.key, cur)
    case Found(_) => true
    case Missed => true
  }

  predicate Over(rd: Reader) {
    rd.at.Found? || rd.at.Missed?
  }

  function Answer(keys: Keying, m: Memory, rd: Reader): Option<nat> {
    match rd.at
    case Begin => None
    case Reading(prev, cur) => if 0 <= cur < |m.key| && m.key[cur] == rd.key then Some(cur) else None
    case Found(id) => Some(id)
    case Missed => None
  }

  /** The answer is the node of the key in m, if there is one. */
  ghost predicate Right(m: Memory, k: Key, answer: Option<nat>) {
    match answer
    case Some(id) => id < |m.key| && m.key[id] == k
    case None => k !in m.key
  }

  /** Once decided, an outcome stays. */
  lemma SettledStays(keys: Keying, w: World, e: Event, i: nat)
    requires WorldOk(keys, w) && i < |w.readers| && Settled(keys, w.table.memory, w.readers[i])
    ensures var w' := Next(keys, w, e);
            && i < |w'.readers| && Settled(keys, w'.table.memory, w'.readers[i])
            && Answer(keys, w'.table.memory, w'.readers[i]) == Answer(keys, w.table.memory, w.readers[i])
  {
    hide Inv, CursorOk, Step, Slot;
    InvMemory(keys, w.table);
    assert ReaderOk(keys, w.table.memory, w.readers[i]);
    if w.readers[i].at.Reading? {
      CursorBounds(keys, w.table.memory, w.readers[i].key, w.readers[i].at.prev, w.readers[i].at.cur);
    }
    if e.Inserter? && e.t < |w.table.threads| {
      StepKeepsReader(keys, w.table, e.t, w.readers[i]);
    }
  }

  /** The link read that decides the outcome happens while the answer is right. */
  lemma SettlesRight(keys: Keying, m: Memory, rd: Reader)
    requires MemoryOk(keys, m) && ReaderOk(keys, m, rd)
    requires !Settled(keys, m, rd) && Settled(keys, m, Look(keys, m, rd))
    ensures Right(m, rd.key, Answer(keys, m, Look(keys, m, rd)))
  {
    hide Slot, CursorOk, Site;
    LookKeepsReader(keys, m, rd);
    var rd' := Look(keys, m, rd);
    CursorBounds(keys, m, rd.key, rd'.at.prev, rd'.at.cur);
    if Answer(keys, m, rd') == None {
      var x := PublishSite(keys, m, rd.key, rd'.at.prev, rd'.at.cur);
      SiteIsNew(keys, m, rd.key, x);
    }
  }

  /** Only its own steps decide a lookup. */
  lemma OthersDecideNothing(keys: Keying, w: World, e: Event, i: nat)
    requires WorldOk(keys, w) && i < |w.readers| && e != Lookup(i)
    ensures var w' := Next(keys, w, e);
            && i < |w'.readers| && w'.readers[i] == w.readers[i]
            && Settled(keys, w'.table.memory, w.readers[i]) == Settled(keys, w.table.memory, w.readers[i])
  {
    hide Inv, CursorOk, Step, Slot;
    InvMemory(keys, w.table);
    assert ReaderOk(keys, w.table.memory, w.readers[i]);
    if w.readers[i].at.Reading? {
      CursorBounds(keys, w.table.memory, w.readers[i].key, w.readers[i].at.prev, w.readers[i].at.cur);
    }
    if e.Inserter? && e.t < |w.table.threads| {
      StepKeepsReader(keys, w.table, e.t, w.readers[i]);
    }
  }

  /** What never changes in a run, and what only grows. */
  ghost predicate WorldGrows(w: World, w': World) {
    && Grows(w.table, w'.table) && |w'.readers| == |w.readers|
    && forall i | 0 <= i < |w.readers| :: w'.readers[i].key == w.readers[i].key
  }

  lemma {:induction false} RunGrows(keys: Keying, w: World, events: seq<Event>)
    requires WorldOk(keys, w)
    ensures WorldGrows(w, Run(keys, w, events))
  {
    hide Inv, Step, ReaderOk;
    if events != [] {
      RunGrows(keys, w, events[..|events| - 1]);
      NextGrows(keys, Run(keys, w, events[..|events| - 1]), events[|events| - 1]);
    }
  }

  lemma NextGrows(keys: Keying, w: World, e: Event)
    requires WorldOk(keys, w)
    ensures WorldGrows(w, Next(keys, w, e))
  {
    hide Inv, Step, ReaderOk;
    if e.Inserter? && e.t < |w.table.threads| {
      StepGrows(keys, w.table, e.t);
    }
  }

  /** A lookup that has returned is right about the table as it was at one moment of the call: a node that it
      has found was there, and when it has missed there was none. */
  lemma {:induction false} LookupIsRight(keys: Keying, w: World, events: seq<Event>, i: nat)
    requires WorldOk(keys, w) && i < |w.readers| && w.readers[i].at == Begin
    ensures var r := Run(keys, w, events);
            && |r.readers| == |w.readers|
            && (Settled(keys, r.table.memory, r.readers[i]) ==>
                  exists k | 0 <= k <= |events| ::
                    Right(Run(keys, w, events[..k]).table.memory, w.readers[i].key,
                          Answer(keys, r.table.memory, r.readers[i])))
  {
    hide Inv, ReaderOk, Settled, Answer, Next, Right;
    RunGrows(keys, w, events);
    if events == [] {
      Undecided(keys, w, i);
    } else {
      var n, e := |events| - 1, events[|events| - 1];
      var r0, r := Run(keys, w, events[..n]), Run(keys, w, events);
      LookupIsRight(keys, w, events[..n], i);
      if Settled(keys, r0.table.memory, r0.readers[i]) {
        SettledStays(keys, r0, e, i);
        var k :| 0 <= k <= n && Right(Run(keys, w, events[..n][..k]).table.memory, w.readers[i].key,
                                      Answer(keys, r0.table.memory, r0.readers[i]));
        assert events[..n][..k] == events[..k];
      } else if Settled(keys, r.table.memory, r.readers[i]) {
        RunGrows(keys, w, events[..n]);
        DecidedNow(keys, r0, e, i);
        assert events[..|events|] == events;
      }
    }
  }

  lemma Undecided(keys: Keying, w: World, i: nat)
    requires i < |w.readers| && w.readers[i].at == Begin
    ensures !Settled(keys, w.table.memory, w.readers[i])
  {
  }

  lemma DecidedNow(keys: Keying, w: World, e: Event, i: nat)
    requires WorldOk(keys, w) && i < |w.readers| && !Settled(keys, w.table.memory, w.readers[i])
    requires var w' := Next(keys, w, e); i < |w'.readers| && Settled(keys, w'.table.memory, w'.readers[i])
    ensures var w' := Next(keys, w, e);
            e == Lookup(i) && Right(w'.table.memory, w.readers[i].key, Answer(keys, w'.table.memory, w'.readers[i]))
  {
    hide Inv, Step, Settled, Answer, Look, Right;
    if e != Lookup(i) {
      OthersDecideNothing(keys, w, e, i);
    } else {
      InvMemory(keys, w.table);
      SettlesRight(keys, w.table.memory, w.readers[i]);
    }
  }

  /** A key that was there when the lookup began is found. */
  lemma PresentIsFound(keys: Keying, w: World, events: seq<Event>, i: nat)
    requires WorldOk(keys, w) && i < |w.readers| && w.readers[i].at == Begin
    requires w.readers[i].key in w.table.memory.key
    ensures var r := Run(keys, w, events);
            && |r.readers| == |w.readers|
            && (Over(r.readers[i]) ==>
                  && r.readers[i].at.Found? && r.readers[i].at.id < |w.table.memory.key|
                  && w.table.memory.key[r.readers[i].at.id] == w.readers[i].key)
  {
    hide Run, Next, Inv, ReaderOk;
    LookupIsRight(keys, w, events, i);
    RunGrows(keys, w, events);
    var r := Run(keys, w, events);
    if Over(r.readers[i]) {
      var k :| 0 <= k <= |events| && Right(Run(keys, w, events[..k]).table.memory, w.readers[i].key,
                                           Answer(keys, r.table.memory, r.readers[i]));
      var m := Run(keys, w, events[..k]);
      RunGrows(keys, w, events[..k]);
      var id :| 0 <= id < |w.table.memory.key| && w.table.memory.key[id] == w.readers[i].key;
      assert m.table.memory.key[id] == w.readers[i].key;
      WorldMemory(keys, m);
      UniqueKeys(keys, m.table.memory, id, r.readers[i].at.id);
    }
  }

  lemma WorldMemory(keys: Keying, w: World)
    requires WorldOk(keys, w)
    ensures MemoryOk(keys, w.table.memory)
  {
  }

  // ----- How long a lookup takes

  /** A lookup that keeps being scheduled has at most this many steps left. */
  ghost function LooksLeft(keys: Keying, w: World, i: nat): int
    requires i < |w.readers| && |w.table.memory.heads| == |w.table.memory.chains| > 0
  {
    var rd, longest := w.readers[i], w.table.first + |w.table.threads|;
    match rd.at
    case Begin => longest + 2
    case Reading(prev, _) => longest + 1 - Position(ChainFor(keys, w.table.memory, rd.key), prev)
    case Found(_) => 0
    case Missed => 0
  }

  lemma OwnLookCounts(keys: Keying, w: World, i: nat)
    requires WorldOk(keys, w) && i < |w.readers|
    ensures |Next(keys, w, Lookup(i)).readers| == |w.readers|
    ensures 0 <= LooksLeft(keys, w, i)
    ensures Over(w.readers[i]) || LooksLeft(keys, Next(keys, w, Lookup(i)), i) < LooksLeft(keys, w, i)
  {
    hide Slot, Position, Passed, PassedBehind, Spelled, Ordered, Inv;
    var s, rd := w.table, w.readers[i];
    InvMemory(keys, s);
    PublishedBound(keys, s);
    ChainLength(keys, s.memory, Slot(HashOf(keys, rd.key), |s.memory.heads|));
    assert ReaderOk(keys, s.memory, rd);
    if rd.at.Reading? && Skips(keys, s.memory.key, rd.key, rd.at.cur) {
      WalkMovesOn(keys, s.memory, rd.key, rd.at.prev, rd.at.cur);
    }
  }

  lemma OthersLookCounts(keys: Keying, w: World, e: Event, i: nat)
    requires WorldOk(keys, w) && i < |w.readers| && e != Lookup(i)
    ensures var w' := Next(keys, w, e);
            && |w'.readers| == |w.readers| && w'.readers[i] == w.readers[i]
            && |w'.table.memory.heads| == |w'.table.memory.chains| > 0
            && LooksLeft(keys, w', i) <= LooksLeft(keys, w, i)
  {
    hide Slot, Position, Step, Inv;
    InvMemory(keys, w.table);
    var rd := w.readers[i];
    assert ReaderOk(keys, w.table.memory, rd);
    if e.Inserter? && e.t < |w.table.threads| {
      StepGrows(keys, w.table, e.t);
      StepKeepsInv(keys, w.table, e.t);
      InvMemory(keys, Step(keys, w.table, e.t));
      if rd.at.Reading? {
        CursorBounds(keys, w.table.memory, rd.key, rd.at.prev, rd.at.cur);
        ChainMoves(keys, w.table, e.t, rd.key, rd.at.prev);
      }
    }
  }

  function Looks(events: seq<Event>, i: nat): nat {
    if events == [] then 0
    else Looks(events[..|events| - 1], i) + if events[|events| - 1] == Lookup(i) then 1 else 0
  }

  lemma {:induction false} LooksCount(keys: Keying, w: World, events: seq<Event>, i: nat)
    requires WorldOk(keys, w) && i < |w.readers|
    ensures var r := Run(keys, w, events);
            && i < |r.readers| && |r.table.memory.heads| == |r.table.memory.chains| > 0
            && 0 <= LooksLeft(keys, r, i)
            && (Over(r.readers[i]) || LooksLeft(keys, r, i) + Looks(events, i) <= LooksLeft(keys, w, i))
  {
    hide Inv, ReaderOk, LooksLeft, Next;
    WorldMemory(keys, w);
    RunGrows(keys, w, events);
    WorldMemory(keys, Run(keys, w, events));
    if events == [] {
      OwnLookCounts(keys, w, i);
    } else {
      var e := events[|events| - 1];
      LooksCount(keys, w, events[..|events| - 1], i);
      var r := Run(keys, w, events[..|events| - 1]);
      OwnLookCounts(keys, Next(keys, r, e), i);
      if e == Lookup(i) {
        OwnLookCounts(keys, r, i);
        if Over(r.readers[i]) {
          OverStays(keys, r, i);
        }
      } else {
        OthersLookCounts(keys, r, e, i);
      }
    }
  }

  lemma OverStays(keys: Keying, w: World, i: nat)
    requires WorldOk(keys, w) && i < |w.readers| && Over(w.readers[i])
    ensures Next(keys, w, Lookup(i)) == w
  {
    assert ReaderOk(keys, w.table.memory, w.readers[i]);
    assert w.readers[i := w.readers[i]] == w.readers;
  }

  /** A lookup returns after a bounded number of its own steps, whatever the inserts do. */
  lemma EveryLookupReturns(keys: Keying, w: World, events: seq<Event>, i: nat)
    requires WorldOk(keys, w) && i < |w.readers| && w.readers[i].at == Begin
    requires Looks(events, i) >= w.table.first + |w.table.threads| + 2
    ensures var r := Run(keys, w, events); i < |r.readers| && Over(r.readers[i])
  {
    hide Run, Next, Looks, Inv, ReaderOk, LooksLeft;
    WorldMemory(keys, w);
    LooksCount(keys, w, events, i);
    LooksAtStart(keys, w, i);
    var r := Run(keys, w, events);
    if !Over(r.readers[i]) {
      StillLooking(keys, r, i);
    }
  }

  lemma LooksAtStart(keys: Keying, w: World, i: nat)
    requires i < |w.readers| && w.readers[i].at == Begin && |w.table.memory.heads| == |w.table.memory.chains| > 0
    ensures LooksLeft(keys, w, i) == w.table.first + |w.table.threads| + 2
  {
  }

  lemma StillLooking(keys: Keying, w: World, i: nat)
    requires WorldOk(keys, w) && i < |w.readers| && !Over(w.readers[i])
    ensures |w.table.memory.heads| == |w.table.memory.chains| > 0 && LooksLeft(keys, w, i) > 0
  {
    WorldMemory(keys, w);
    OwnLookCounts(keys, w, i);
    NextKeepsWorld(keys, w, Lookup(i));
    OwnLookCounts(keys, Next(keys, w, Lookup(i)), i);
  }
}
