/** How long an insert into the tree table can take while others insert: the retry loops end. */
module TreeProgress {
  import opened Words
  import opened Keys
  import opened TreeSpec
  import opened ChainSteps
  import opened TreeSteps

  // ----- How many nodes there can be

  /** The lengths of all inserted paths together. */
  function PathTotal(threads: seq<Thread>): nat {
    if threads == [] then 0 else PathTotal(threads[..|threads| - 1]) + |threads[|threads| - 1].path|
  }

  function AllPrefixes(threads: seq<Thread>): set<Key> {
    if threads == [] then {} else AllPrefixes(threads[..|threads| - 1]) + Lineage(threads[|threads| - 1].path)
  }

  /** The prefixes of p that end at or before k. */
  function ShortPrefixes(p: Key, k: nat): set<Key>
    requires k <= |p|
  {
    set i | 0 < i <= k && (i == |p| || IsSep(p[i])) :: p[..i]
  }

  lemma {:induction false} PrefixCount(p: Key, k: nat)
    requires k <= |p|
    ensures |ShortPrefixes(p, k)| <= k
    decreases k
  {
    if k == 0 {
      assert ShortPrefixes(p, k) == {};
    } else {
      PrefixCount(p, k - 1);
      assert ShortPrefixes(p, k) <= ShortPrefixes(p, k - 1) + {p[..k]};
      SubsetSize(ShortPrefixes(p, k), ShortPrefixes(p, k - 1) + {p[..k]});
    }
  }

  lemma {:induction false} AllPrefixesCount(threads: seq<Thread>)
    ensures |AllPrefixes(threads)| <= PathTotal(threads)
    ensures forall t | 0 <= t < |threads| :: Lineage(threads[t].path) <= AllPrefixes(threads)
  {
    if threads != [] {
      var front, p := threads[..|threads| - 1], threads[|threads| - 1].path;
      AllPrefixesCount(front);
      PrefixCount(p, |p|);
      assert Lineage(p) == ShortPrefixes(p, |p|);
      assert forall t | 0 <= t < |front| :: front[t] == threads[t];
    }
  }

  /** The published nodes are no more than the prefixes of the inserted paths. */
  lemma PublishedBound(keys: Keying, s: State)
    requires Inv(keys, s)
    ensures |s.memory.key| - s.first <= |AllPrefixes(s.threads)| <= PathTotal(s.threads)
  {
    hide KidsOk, ThreadOk, Linkers, Uncounted;
    var added := s.memory.key[s.first..];
    forall i, j | 0 <= i < j < |added| ensures added[i] != added[j] {
      if added[i] == added[j] {
        UniqueKeys(keys, s.memory, s.first + i, s.first + j);
      }
    }
    AllPrefixesCount(s.threads);
    forall q | q in added ensures q in AllPrefixes(s.threads) {
      var i :| 0 <= i < |added| && added[i] == q;
      assert OwnerOk(s, s.first + i);
    }
    var paths := set q | q in added;
    DistinctSize(added, paths);
    SubsetSize(paths, AllPrefixes(s.threads));
  }

  /** A thread's failed swaps are at most as many as the successful swaps it has not made itself, and these are
      bounded by the paths to insert. */
  lemma FailsBounded(keys: Keying, s: State, t: nat)
    requires Inv(keys, s) && t < |s.threads|
    ensures s.threads[t].fails + s.threads[t].wins <= Swaps(s) <= 2 * PathTotal(s.threads)
  {
    hide KidsOk, MemoryOk;
    assert ThreadOk(keys, s, t);
    PublishedBound(keys, s);
  }

  // ----- How many steps are left

  /** How far the walk of a thread has come. */
  ghost function Passed(keys: Keying, m: Memory, th: Thread): nat {
    if (th.at.SeekWalk? || th.at.AddWalk?) && th.at.end <= |th.path| && |m.heads| == |m.chains| > 0 then
      Position(ChainFor(keys, m, th.path[..th.at.end]), th.at.prev)
    else 0
  }

  function Rows(w: int, k: int): int {
    w * k
  }

  /** The steps that are left at a place, for a path of length len, when chains have at most n nodes, of which
      the walk has passed p, and no swap fails any more. */
  function Quota(at: Place, len: nat, n: nat, p: nat): int {
    var w := n + 8;
    match at
    case Seek(end) => Rows(w, len + end) + 2
    case SeekWalk(end, _, _) => Rows(w, len + end - 1) + n - p + 3
    case Add(end, _) => Rows(w, len - end) + n + 7
    case AddWalk(end, _, _, _) => Rows(w, len - end) + n - p + 6
    case AddSwap(end, _, _, _) => Rows(w, len - end) + 5
    case Link(end, _, _, Hold) => Rows(w, len - end) + 4
    case Link(end, _, _, Count) => Rows(w, len - end) + 3
    case Link(end, _, _, Push) => Rows(w, len - end) + 2
    case Link(end, _, _, PushSwap(_)) => Rows(w, len - end) + 1
    case Attach(_) => 2
    case Took(_) => 1
    case Won(_) => 0
    case Lost => 0
  }

  /** A thread that keeps being scheduled has at most this many steps left: each failed swap costs one round. */
  ghost function StepsLeft(keys: Keying, s: State, t: nat): int
    requires t < |s.threads|
  {
    var th, total := s.threads[t], PathTotal(s.threads);
    Rows(s.first + total + 8, 2 * total - th.fails)
    + Quota(th.at, |th.path|, s.first + total, Passed(keys, s.memory, th))
  }

  /** The places that follow a place in one step. */
  predicate Follows(at: Place, at': Place, len: nat, p: nat, p': nat) {
    match at
    case Seek(end) => (at'.SeekWalk? && at'.end == end > 0 && p' == 0) || Ahead(at', 0, len)
    case SeekWalk(end, _, _) =>
      (at'.SeekWalk? && at'.end == end && p < p') || (at'.Seek? && at'.end < end) || Ahead(at', end, len)
    case Add(end, _) => at'.AddWalk? && at'.end == end && p' == 0
    case AddWalk(end, _, _, _) =>
      (at'.AddWalk? && at'.end == end && p < p') || (at'.AddSwap? && at'.end == end) || at'.Attach?
      || Ahead(at', end, len)
    case AddSwap(end, _, _, _) => at'.Link? && at'.end == end && at'.stage.Hold?
    case Link(end, _, _, Hold) => at'.Link? && at'.end == end && at'.stage.Count?
    case Link(end, _, _, Count) => (at'.Link? && at'.end == end && at'.stage.Push?) || Ahead(at', end, len) || at'.Won?
    case Link(end, _, _, Push) => at'.Link? && at'.end == end && at'.stage.PushSwap?
    case Link(end, _, _, PushSwap(_)) => Ahead(at', end, len) || at'.Won?
    case Attach(_) => at'.Took? || at'.Lost?
    case Took(_) => at'.Won?
    case Won(_) => false
    case Lost => false
  }

  predicate Ahead(at': Place, end: nat, len: nat) {
    at'.Add? && end < at'.end <= len
  }

  /** The place after a failed swap. */
  predicate Restarts(at: Place, at': Place) {
    || (at.AddSwap? && at'.Add? && at'.end == at.end)
    || (at.Link? && at.stage.PushSwap? && at'.Link? && at'.end == at.end && at'.stage.Push?)
  }

  predicate WithinPath(at: Place, len: nat) {
    at.Attach? || at.Took? || at.Won? || at.Lost? || (at.end <= len && (at.SeekWalk? ==> at.end > 0))
  }

  /** What a step does to the thread: it goes on, or starts over after a failed swap. */
  ghost predicate GoesOn(keys: Keying, s: State, s': State, t: nat)
    requires t < |s.threads| && t < |s'.threads|
  {
    var th, th' := s.threads[t], s'.threads[t];
    && th'.path == th.path && WithinPath(th.at, |th.path|)
    && if th'.fails == th.fails then
         Follows(th.at, th'.at, |th.path|, Passed(keys, s.memory, th), Passed(keys, s'.memory, th'))
       else th'.fails == th.fails + 1 && Restarts(th.at, th'.at)
  }

  lemma Times(w: int, k: int)
    requires w >= 0
    ensures k >= 0 ==> w * k >= 0
    ensures k >= 1 ==> w * k >= w
  {
    assert w * k == w * (k - 1) + w;
  }

  lemma Cuts(w: int, a: int, b: int)
    requires w >= 0
    ensures a < b ==> Rows(w, a) + w <= Rows(w, b)
    ensures a <= b ==> Rows(w, a) <= Rows(w, b)
    ensures Rows(w, 0) == 0 && Rows(w, b - 1) == Rows(w, b) - w
  {
    Times(w, b - a);
    assert w * (b - a) == w * b - w * a;
  }

  lemma PassedBound(keys: Keying, s: State, t: nat)
    requires Inv(keys, s) && t < |s.threads|
    ensures Passed(keys, s.memory, s.threads[t]) <= |s.memory.key| <= s.first + PathTotal(s.threads)
  {
    hide KidsOk, ThreadOk, NodeOk, OwnerOk, RecordOk, Linkers, Uncounted;
    PublishedBound(keys, s);
    var th, m := s.threads[t], s.memory;
    if (th.at.SeekWalk? || th.at.AddWalk?) && th.at.end <= |th.path| {
      ChainLength(keys, m, Slot(HashOf(keys, th.path[..th.at.end]), |m.heads|));
    }
  }

  lemma NothingPassed(c: Ids)
    ensures Position(c, NULL) == 0
  {
  }

  /** Going on uses up the quota; starting over costs less than a round. */
  lemma QuotaDrops(at: Place, at': Place, len: nat, n: nat, p: nat, p': nat)
    requires WithinPath(at, len) && p <= n
    ensures Quota(at, len, n, p) >= 0
    ensures Follows(at, at', len, p, p') ==> Quota(at', len, n, p') < Quota(at, len, n, p)
    ensures Restarts(at, at') ==> Quota(at', len, n, p') < Quota(at, len, n, p) + n + 8
  {
    hide Rows;
    if at.Seek? || at.SeekWalk? {
      SeekQuota(at, at', len, n, p, p');
    } else if at.Add? || at.AddWalk? || at.AddSwap? || at.Link? {
      Cuts(n + 8, 0, len - at.end);
      if at'.Add? {
        Cuts(n + 8, len - at'.end, len - at.end);
      }
    }
  }

  lemma SeekQuota(at: Place, at': Place, len: nat, n: nat, p: nat, p': nat)
    requires WithinPath(at, len) && p <= n && (at.Seek? || at.SeekWalk?)
    ensures Quota(at, len, n, p) >= 0
    ensures Follows(at, at', len, p, p') ==> Quota(at', len, n, p') < Quota(at, len, n, p)
  {
    hide Rows;
    var w := n + 8;
    var from := if at.Seek? then len + at.end else len + at.end - 1;
    Cuts(w, 0, from);
    if at'.Add? {
      Cuts(w, len - at'.end, from);
    } else if at'.Seek? {
      Cuts(w, len + at'.end, from);
    } else {
      Cuts(w, from - 1, from);
    }
  }

  lemma SeekGoesOn(keys: Keying, s: State, t: nat)
    requires Inv(keys, s) && t < |s.threads| && ThreadOk(keys, s, t)
             && (s.threads[t].at.Seek? || s.threads[t].at.SeekWalk?)
    ensures |Step(keys, s, t).threads| == |s.threads| && GoesOn(keys, s, Step(keys, s, t), t)
  {
    hide Slot, Position, KidsOk, NodeOk, OwnerOk, RecordOk, Linkers, Uncounted;
    var th, m := s.threads[t], s.memory;
    if th.at.Seek? {
      NothingPassed(ChainFor(keys, m, th.path[..th.at.end]));
    } else if Skips(keys, m.key, th.path[..th.at.end], th.at.cur) {
      WalkMovesOn(keys, m, th.path[..th.at.end], th.at.prev, th.at.cur);
    }
  }

  lemma AddGoesOn(keys: Keying, s: State, t: nat)
    requires Inv(keys, s) && t < |s.threads| && ThreadOk(keys, s, t)
             && (s.threads[t].at.Add? || s.threads[t].at.AddWalk?)
    ensures |Step(keys, s, t).threads| == |s.threads| && GoesOn(keys, s, Step(keys, s, t), t)
  {
    hide Slot, Position, KidsOk, NodeOk, OwnerOk, RecordOk, Linkers, Uncounted;
    var th, m := s.threads[t], s.memory;
    if th.at.Add? {
      NothingPassed(ChainFor(keys, m, th.path[..th.at.end]));
    } else if Skips(keys, m.key, th.path[..th.at.end], th.at.cur) {
      WalkMovesOn(keys, m, th.path[..th.at.end], th.at.prev, th.at.cur);
    }
  }

  lemma LinkGoesOn(keys: Keying, s: State, t: nat)
    requires Inv(keys, s) && t < |s.threads| && ThreadOk(keys, s, t)
    requires s.threads[t].at.Link? || s.threads[t].at.Attach? || s.threads[t].at.Took?
    ensures |Step(keys, s, t).threads| == |s.threads| && GoesOn(keys, s, Step(keys, s, t), t)
  {
    hide Slot, Position, KidsOk, NodeOk, OwnerOk, RecordOk, Linkers, Uncounted, MemoryOk, CursorOk, ParentFor, Fresh;
  }

  lemma SwapGoesOn(keys: Keying, s: State, t: nat)
    requires Inv(keys, s) && t < |s.threads| && ThreadOk(keys, s, t) && s.threads[t].at.AddSwap?
    ensures |Step(keys, s, t).threads| == |s.threads| && GoesOn(keys, s, Step(keys, s, t), t)
  {
    hide Slot, Position, KidsOk, NodeOk, OwnerOk, RecordOk, Linkers, Uncounted, Publish, SiteOf, MemoryOk, CursorOk;
  }

  lemma {:induction false} SameTotal(a: seq<Thread>, b: seq<Thread>)
    requires |a| == |b| && forall t | 0 <= t < |a| :: a[t].path == b[t].path
    ensures PathTotal(a) == PathTotal(b)
  {
    if a != [] {
      SameTotal(a[..|a| - 1], b[..|b| - 1]);
    }
  }

  lemma StepGoesOn(keys: Keying, s: State, t: nat)
    requires Inv(keys, s) && t < |s.threads| && !Done(s.threads[t])
    ensures |Step(keys, s, t).threads| == |s.threads| && GoesOn(keys, s, Step(keys, s, t), t)
  {
    hide Step, GoesOn, KidsOk, NodeOk, OwnerOk, RecordOk, Linkers, Uncounted;
    assert ThreadOk(keys, s, t);
    match s.threads[t].at
    case Seek(_) => SeekGoesOn(keys, s, t);
    case SeekWalk(_, _, _) => SeekGoesOn(keys, s, t);
    case Add(_, _) => AddGoesOn(keys, s, t);
    case AddWalk(_, _, _, _) => AddGoesOn(keys, s, t);
    case AddSwap(_, _, _, _) => SwapGoesOn(keys, s, t);
    case Link(_, _, _, _) => LinkGoesOn(keys, s, t);
    case Attach(_) => LinkGoesOn(keys, s, t);
    case Took(_) => LinkGoesOn(keys, s, t);
    case Won(_) =>
    case Lost =>
  }

  /** A thread's own step brings it nearer to its end ... */
  lemma OwnStepCounts(keys: Keying, s: State, t: nat)
    requires Inv(keys, s) && t < |s.threads| && !Done(s.threads[t]) && Inv(keys, Step(keys, s, t))
    ensures var s' := Step(keys, s, t);
            |s'.threads| == |s.threads| && StepsLeft(keys, s', t) < StepsLeft(keys, s, t) && 0 <= StepsLeft(keys, s, t)
  {
    hide Quota, Follows, Restarts, WithinPath, Passed, Inv, PathTotal, Step, Rows;
    var s' := Step(keys, s, t);
    StepGoesOn(keys, s, t);
    var th, th' := s.threads[t], s'.threads[t];
    StepKeepsPaths(keys, s, t);
    FailsBounded(keys, s, t);
    PassedBound(keys, s, t);
    var total, n := PathTotal(s.threads), s.first + PathTotal(s.threads);
    QuotaDrops(th.at, th'.at, |th.path|, n, Passed(keys, s.memory, th), Passed(keys, s'.memory, th'));
    Cuts(n + 8, 0, 2 * total - th.fails);
  }

  lemma StepKeepsPaths(keys: Keying, s: State, t: nat)
    requires Inv(keys, s) && t < |s.threads|
    ensures var s' := Step(keys, s, t);
            |s'.threads| == |s.threads| && s'.first == s.first && PathTotal(s'.threads) == PathTotal(s.threads)
  {
    var s' := Step(keys, s, t);
    StepKeepsInv(keys, s, t);
    StepGrows(keys, s, t);
    SameTotal(s'.threads, s.threads);
  }

  /** ... and no step of another thread drives it away from there. */
  lemma OthersStepCounts(keys: Keying, s: State, t: nat, u: nat)
    requires Inv(keys, s) && t < |s.threads| && u < |s.threads| && u != t
    ensures var s' := Step(keys, s, u);
            |s'.threads| == |s.threads| && s'.threads[t] == s.threads[t]
            && StepsLeft(keys, s', t) <= StepsLeft(keys, s, t)
  {
    hide Inv, PathTotal, Passed, Step;
    StepKeepsPaths(keys, s, u);
    OtherStays(keys, s, t, u);
    PassedGrows(keys, s, t, u);
  }

  lemma OtherStays(keys: Keying, s: State, t: nat, u: nat)
    requires Inv(keys, s) && t < |s.threads| && u < |s.threads| && u != t
    ensures |Step(keys, s, u).threads| == |s.threads| && Step(keys, s, u).threads[t] == s.threads[t]
  {
    hide Slot, KidsOk, NodeOk, OwnerOk, RecordOk, CursorOk, MemoryOk, Publish, SiteOf;
    assert ThreadOk(keys, s, u);
  }

  lemma PassedGrows(keys: Keying, s: State, t: nat, u: nat)
    requires Inv(keys, s) && t < |s.threads| && u < |s.threads| && u != t
    ensures Passed(keys, Step(keys, s, u).memory, s.threads[t]) >= Passed(keys, s.memory, s.threads[t])
  {
    hide Slot, Position, KidsOk, NodeOk, OwnerOk, RecordOk, Linkers, Uncounted;
    var th, m := s.threads[t], s.memory;
    assert ThreadOk(keys, s, u) && ThreadOk(keys, s, t);
    if s.threads[u].at.AddSwap? && CanSwap(keys, s, u) && (th.at.SeekWalk? || th.at.AddWalk?) {
      var k := s.threads[u].path[..s.threads[u].at.end];
      var x := PublicationMemory(keys, s, u);
      PositionStable(keys, m, k, x, th.path[..th.at.end], th.at.prev);
    }
  }

  lemma {:induction false} TurnsCount(keys: Keying, s: State, schedule: seq<nat>, t: nat)
    requires Inv(keys, s) && t < |s.threads|
    ensures var r := Run(keys, s, schedule);
            t < |r.threads| &&
            (Done(r.threads[t]) || StepsLeft(keys, r, t) + Turns(schedule, t) <= StepsLeft(keys, s, t))
  {
    hide Inv, StepsLeft, Step;
    if schedule != [] {
      var before := schedule[..|schedule| - 1];
      var u := schedule[|schedule| - 1];
      TurnsCount(keys, s, before, t);
      var r := Run(keys, s, before);
      if u < |r.threads| {
        StepKeepsInv(keys, r, u);
        if u != t {
          OthersStepCounts(keys, r, t, u);
        } else if !Done(r.threads[t]) {
          OwnStepCounts(keys, r, t);
        } else {
          DoneStays(keys, r, t);
        }
      }
    }
  }

  lemma DoneStays(keys: Keying, s: State, t: nat)
    requires Inv(keys, s) && t < |s.threads| && Done(s.threads[t])
    ensures Step(keys, s, t) == s
  {
  }

  /** The retry loops of the tree insert end: whatever the others do, a thread returns after a bounded number of
      its own steps. */
  lemma EveryInsertReturns(keys: Keying, s: State, schedule: seq<nat>, t: nat)
    requires Initial(keys, s) && t < |s.threads|
    requires var total := PathTotal(s.threads);
             Turns(schedule, t) >= (s.first + total + 8) * (2 * total + 2 * |s.threads[t].path| + 1)
    ensures var r := Run(keys, s, schedule); t < |r.threads| && Done(r.threads[t])
  {
    hide Inv, Run, Turns, PathTotal, Step;
    var r := Run(keys, s, schedule);
    TurnsCount(keys, s, schedule, t);
    var th, total := s.threads[t], PathTotal(s.threads);
    var w := s.first + total + 8;
    var end := th.at.end;
    Cuts(w, |th.path| + end, 2 * |th.path|);
    RowsAdd(w, 2 * total, 2 * |th.path|);
    hide Rows;
    if !Done(r.threads[t]) {
      SomeLeft(keys, r, t);
    }
  }

  lemma RowsAdd(w: int, a: int, b: int)
    ensures w * (a + b + 1) == Rows(w, a) + Rows(w, b) + w
  {
  }

  lemma SomeLeft(keys: Keying, s: State, t: nat)
    requires Inv(keys, s) && t < |s.threads| && !Done(s.threads[t])
    ensures StepsLeft(keys, s, t) >= 0
  {
    hide PathTotal, Quota, Passed, Step;
    StepKeepsInv(keys, s, t);
    OwnStepCounts(keys, s, t);
  }
}
