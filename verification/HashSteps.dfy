/** HASH_TABLE under concurrent inserters: any number of threads run InsertRecord under the shared lock,
    interleaved at every read of a link and every interlocked operation. */
module HashSteps {
  import opened Words
  import opened Keys
  import opened ChainSteps

  /** Where a thread stands in InsertRecord.
      Start: it is about to read the bucket, for the first time or after a failed compare-and-swap.
      Walk: FindNodeInternal has read cur from the link at prev and is about to look at it.
      Swap: the new node points to cur and is about to be swapped in at prev.
      Hold, Count: the node is in; the reference on the record is not taken yet, the count not raised yet.
      Won, Lost: the call is about to return S_OK, or ERROR_ALREADY_EXISTS. */
  datatype Place =
    | Start
    | Walk(prev: int, cur: int)
    | Swap(prev: int, cur: int)
    | Hold(id: nat)
    | Count(id: nat)
    | Won(id: nat)
    | Lost

  /** A thread inserts a record of its own with the given canonical key. Auxiliary: the failed
      compare-and-swaps so far, and how many nodes others had published at its last read of a link. */
  datatype Thread = Thread(key: Key, at: Place, refs: nat, fails: nat, seen: nat)

  /** Auxiliary: the thread that published each node, NULL for the nodes that were there at first. */
  datatype State = State(memory: Memory, owner: seq<int>, nItems: DWord, threads: seq<Thread>, first: nat)

  ghost predicate Initial(keys: Keying, s: State) {
    && MemoryOk(keys, s.memory)
    && s.owner == seq(|s.memory.key|, i => NULL)
    && s.first == |s.memory.key| && s.nItems == Wrap(s.first)
    && forall t | 0 <= t < |s.threads| :: s.threads[t] == Thread(s.threads[t].key, Start, 0, 0, 0)
  }

  /** Nodes published so far. */
  function Published(s: State): int {
    |s.memory.key| - s.first
  }

  /** A thread reads the link at prev. */
  ghost function Read(keys: Keying, s: State, th: Thread, prev: int): Thread
    requires |s.memory.heads| > 0 && NULL <= prev < |s.memory.next| && Published(s) >= 0
  {
    th.(at := Walk(prev, Link(keys, s.memory, th.key, prev)), seen := Published(s))
  }

  /** The next atomic step of thread t. */
  ghost function Step(keys: Keying, s: State, t: nat): State
    requires Inv(keys, s) && t < |s.threads|
  {
    var th := s.threads[t];
    assert ThreadOk(keys, s, t);
    match th.at
    case Start =>
      Turn(s, t, Read(keys, s, th, NULL))
    case Walk(prev, cur) =>
      if cur == NULL || HashOf(keys, s.memory.key[cur]) > HashOf(keys, th.key) then
        Turn(s, t, th.(at := Swap(prev, cur)))
      else if s.memory.key[cur] == th.key then
        Turn(s, t, th.(at := Lost))
      else
        Turn(s, t, Read(keys, s, th, cur))
    case Swap(prev, cur) =>
      if Link(keys, s.memory, th.key, prev) == cur then
        var b := Slot(HashOf(keys, th.key), |s.memory.heads|);
        var x := SiteOf(keys, s.memory, th.key, prev, cur);
        Turn(s, t, th.(at := Hold(|s.memory.key|))).(memory := Publish(s.memory, b, x, th.key), owner := s.owner + [t])
      else
        Turn(s, t, th.(at := Start, fails := th.fails + 1))
    case Hold(id) =>
      Turn(s, t, th.(at := Count(id), refs := th.refs + 1))
    case Count(id) =>
      Turn(s, t, th.(at := Won(id))).(nItems := Wrap(s.nItems + 1))
    case Won(_) => s
    case Lost => s
  }

  function Turn(s: State, t: nat, th: Thread): State
    requires t < |s.threads|
  {
    s.(threads := s.threads[t := th])
  }

  // ----- The invariant

  ghost predicate Inv(keys: Keying, s: State) {
    && MemoryOk(keys, s.memory)
    && |s.owner| == |s.memory.key| && s.first <= |s.memory.key|
    && (forall t | 0 <= t < |s.threads| :: ThreadOk(keys, s, t))
    && (forall id | 0 <= id < |s.owner| :: OwnerOk(s, id))
    && s.nItems == Wrap(|s.memory.key| - |Uncounted(s)|)
  }

  /** The thread has published the node and has not returned yet, or has returned S_OK. */
  predicate Holds(th: Thread, id: nat) {
    th.at == Hold(id) || th.at == Count(id) || th.at == Won(id)
  }

  /** The thread's own node is in. */
  predicate Inside(th: Thread) {
    th.at.Hold? || th.at.Count? || th.at.Won?
  }

  ghost predicate ThreadOk(keys: Keying, s: State, t: nat)
    requires t < |s.threads| && |s.memory.heads| == |s.memory.chains| > 0
             && |s.memory.next| == |s.memory.key| == |s.owner|
  {
    var th := s.threads[t];
    && th.refs == (if th.at.Count? || th.at.Won? then 1 else 0)
    && th.fails + (if Inside(th) then 1 else 0) <= Published(s)
    && match th.at
       case Start => true
       case Walk(prev, cur) => Fresh(keys, s, th, prev, cur)
       case Swap(prev, cur) =>
         Fresh(keys, s, th, prev, cur) && (cur != NULL ==> HashOf(keys, s.memory.key[cur]) > HashOf(keys, th.key))
       case Lost => th.key in s.memory.key
       case _ => th.at.id < |s.owner| && s.owner[th.at.id] == t && s.memory.key[th.at.id] == th.key
  }

  /** The walk is well placed, and what it has read is still there unless somebody published since. */
  ghost predicate Fresh(keys: Keying, s: State, th: Thread, prev: int, cur: int)
    requires |s.memory.heads| == |s.memory.chains| > 0 && |s.memory.next| == |s.memory.key|
  {
    && CursorOk(keys, s.memory, th.key, prev, cur)
    && th.fails <= th.seen <= Published(s)
    && (Link(keys, s.memory, th.key, prev) != cur ==> th.seen < Published(s))
  }

  /** Nodes beyond the first ones belong to the thread that published them. */
  ghost predicate OwnerOk(s: State, id: nat)
    requires id < |s.owner|
  {
    if id < s.first then s.owner[id] == NULL
    else 0 <= s.owner[id] < |s.threads| && Holds(s.threads[s.owner[id]], id)
  }

  /** Threads whose node is in but not counted. */
  function Uncounted(s: State): set<nat> {
    set t | 0 <= t < |s.threads| && (s.threads[t].at.Hold? || s.threads[t].at.Count?)
  }

  lemma InitialInv(keys: Keying, s: State)
    requires Initial(keys, s)
    ensures Inv(keys, s)
  {
    assert Uncounted(s) == {};
  }

  /** A step that leaves the memory alone keeps the invariant when it suits the thread itself. */
  lemma TurnKeepsInv(keys: Keying, s: State, t: nat, th: Thread, n: DWord)
    requires Inv(keys, s) && t < |s.threads|
    requires ThreadOk(keys, Turn(s, t, th).(nItems := n), t)
    requires forall id | Holds(s.threads[t], id) :: Holds(th, id)
    requires n == Wrap(|s.memory.key| - |Uncounted(Turn(s, t, th).(nItems := n))|)
    ensures Inv(keys, Turn(s, t, th).(nItems := n))
  {
    var s' := Turn(s, t, th).(nItems := n);
    forall u | 0 <= u < |s'.threads| ensures ThreadOk(keys, s', u) {
      assert ThreadOk(keys, s, u);
    }
    forall id | 0 <= id < |s'.owner| ensures OwnerOk(s', id) {
      assert OwnerOk(s, id);
    }
  }

  lemma UncountedSame(s: State, t: nat, th: Thread)
    requires t < |s.threads|
    requires (th.at.Hold? || th.at.Count?) == (s.threads[t].at.Hold? || s.threads[t].at.Count?)
    ensures Uncounted(Turn(s, t, th)) == Uncounted(s)
  {
  }

  /** A successful compare-and-swap keeps the invariant for everybody. */
  lemma PublicationKeepsInv(keys: Keying, s: State, t: nat)
    requires Inv(keys, s) && t < |s.threads| && s.threads[t].at.Swap?
    requires ThreadOk(keys, s, t)
    requires Link(keys, s.memory, s.threads[t].key, s.threads[t].at.prev) == s.threads[t].at.cur
    ensures Inv(keys, Step(keys, s, t)) && s.threads[t].key !in s.memory.key
  {
    var th := s.threads[t];
    var s' := Step(keys, s, t);
    var b := Slot(HashOf(keys, th.key), |s.memory.heads|);
    var x := SiteOf(keys, s.memory, th.key, th.at.prev, th.at.cur);
    hide Slot, CursorOk, MemoryOk, Site;
    PublishKeepsOrder(keys, s.memory, th.key, x);
    forall u | 0 <= u < |s'.threads| ensures ThreadOk(keys, s', u) {
      assert ThreadOk(keys, s, u);
      if u != t {
        PublicationKeepsThread(keys, s, s', t, x, u);
      }
    }
    forall id | 0 <= id < |s'.owner| ensures OwnerOk(s', id) {
      assert id < |s.owner| ==> OwnerOk(s, id);
    }
    assert Uncounted(s') == Uncounted(s) + {t};
  }

  lemma PublicationKeepsThread(keys: Keying, s: State, s': State, t: nat, x: nat, u: nat)
    requires Inv(keys, s) && t < |s.threads| && u < |s.threads| && u != t && ThreadOk(keys, s, u)
    requires var k := s.threads[t].key;
             && Site(keys, s.memory.key, k, ChainFor(keys, s.memory, k), x)
             && (x > 0 ==> ChainFor(keys, s.memory, k)[x - 1] < |s.memory.next|)
             && s'.memory == Publish(s.memory, Slot(HashOf(keys, k), |s.memory.heads|), x, k)
             && MemoryOk(keys, s'.memory)
    requires |s'.threads| == |s.threads| && s'.threads[u] == s.threads[u]
    requires s'.owner == s.owner + [t] && s'.first == s.first
    ensures ThreadOk(keys, s', u)
  {
    hide Slot, CursorOk, Site;
    var th := s.threads[u];
    if th.at.Walk? || th.at.Swap? {
      CursorStable(keys, s.memory, s.threads[t].key, x, th.key, th.at.prev, th.at.cur);
      CursorBounds(keys, s.memory, th.key, th.at.prev, th.at.cur);
    }
  }

  /** Every step of every thread keeps the invariant. */
  lemma StepKeepsInv(keys: Keying, s: State, t: nat)
    requires Inv(keys, s) && t < |s.threads|
    ensures Inv(keys, Step(keys, s, t))
  {
    hide Slot;
    var th := s.threads[t];
    assert ThreadOk(keys, s, t);
    match th.at
    case Start =>
      CursorAtBucket(keys, s.memory, th.key);
      QuietStep(keys, s, t);
    case Walk(prev, cur) =>
      WalkStep(keys, s, t);
    case Swap(prev, cur) =>
      if Link(keys, s.memory, th.key, prev) == cur {
        PublicationKeepsInv(keys, s, t);
      } else {
        QuietStep(keys, s, t);
      }
    case Hold(_) =>
      QuietStep(keys, s, t);
    case Count(id) =>
      var s' := Step(keys, s, t);
      assert Uncounted(s') == Uncounted(s) - {t};
      WrapShift(|s.memory.key| - |Uncounted(s)|, 1);
      TurnKeepsInv(keys, s, t, s'.threads[t], s'.nItems);
    case Won(_) =>
    case Lost =>
  }

  lemma WalkStep(keys: Keying, s: State, t: nat)
    requires Inv(keys, s) && t < |s.threads| && ThreadOk(keys, s, t) && s.threads[t].at.Walk?
    ensures Inv(keys, Step(keys, s, t))
  {
    hide Slot;
    var th := s.threads[t];
    if Skips(keys, s.memory.key, th.key, th.at.cur) {
      CursorAdvances(keys, s.memory, th.key, th.at.prev, th.at.cur);
    }
    QuietStep(keys, s, t);
  }

  /** Steps that change nothing but the thread. */
  lemma QuietStep(keys: Keying, s: State, t: nat)
    requires Inv(keys, s) && t < |s.threads|
    requires var s' := Step(keys, s, t);
             s' == Turn(s, t, s'.threads[t]) && ThreadOk(keys, s', t)
    requires var th, th' := s.threads[t], Step(keys, s, t).threads[t];
             && (th'.at.Hold? || th'.at.Count?) == (th.at.Hold? || th.at.Count?)
             && forall id | Holds(th, id) :: Holds(th', id)
    ensures Inv(keys, Step(keys, s, t))
  {
    var s' := Step(keys, s, t);
    UncountedSame(s, t, s'.threads[t]);
    TurnKeepsInv(keys, s, t, s'.threads[t], s.nItems);
  }

  // ----- Runs

  ghost function Run(keys: Keying, s: State, schedule: seq<nat>): (r: State)
    requires Inv(keys, s)
    ensures Inv(keys, r)
  {
    if schedule == [] then s
    else
      var r := Run(keys, s, schedule[..|schedule| - 1]);
      var t := schedule[|schedule| - 1];
      if t < |r.threads| then
        StepKeepsInv(keys, r, t);
        Step(keys, r, t)
      else r
  }

  /** What never changes, and what only grows: a published node stays published. */
  ghost predicate Grows(s: State, s': State) {
    && s'.first == s.first && |s'.threads| == |s.threads|
    && s.memory.key <= s'.memory.key && s.owner <= s'.owner
    && forall t | 0 <= t < |s.threads| :: s'.threads[t].key == s.threads[t].key
  }

  lemma {:induction false} NothingIsLost(keys: Keying, s: State, schedule: seq<nat>)
    requires Inv(keys, s)
    ensures Grows(s, Run(keys, s, schedule))
  {
    if schedule != [] {
      NothingIsLost(keys, s, schedule[..|schedule| - 1]);
      var r := Run(keys, s, schedule[..|schedule| - 1]);
      var t := schedule[|schedule| - 1];
      if t < |r.threads| {
        StepGrows(keys, r, t);
      }
    }
  }

  lemma StepGrows(keys: Keying, s: State, t: nat)
    requires Inv(keys, s) && t < |s.threads|
    ensures Grows(s, Step(keys, s, t))
  {
  }

  predicate Done(th: Thread) {
    th.at.Won? || th.at.Lost?
  }

  ghost predicate Finished(s: State) {
    forall t | 0 <= t < |s.threads| :: Done(s.threads[t])
  }

  /** The threads that insert key k. */
  ghost function Rivals(s: State, k: Key): set<nat> {
    set t | 0 <= t < |s.threads| && s.threads[t].key == k
  }

  /** Of any number of threads that insert equal keys, exactly one returns S_OK when the key was not there,
      and none when it was. */
  lemma ExactlyOneWins(keys: Keying, s: State, schedule: seq<nat>, k: Key)
    requires Initial(keys, s) && Inv(keys, s) && Finished(Run(keys, s, schedule))
    requires Rivals(s, k) != {}
    ensures var r := Run(keys, s, schedule);
            && |r.threads| == |s.threads| && k in r.memory.key
            && (k in s.memory.key ==> forall t | t in Rivals(s, k) :: r.threads[t].at.Lost?)
            && (k !in s.memory.key ==>
                  exists t | t in Rivals(s, k) ::
                    r.threads[t].at.Won? && forall u | u in Rivals(s, k) && u != t :: r.threads[u].at.Lost?)
  {
    NothingIsLost(keys, s, schedule);
    var r := Run(keys, s, schedule);
    var t :| t in Rivals(s, k);
    var id := NodeOf(keys, r, t);
    forall u | u in Rivals(s, k) ensures r.threads[u].at.Lost? || (r.threads[u].at.Won? && r.owner[id] == u) {
      OnlyOwnerWins(keys, r, id, u);
    }
    if k in s.memory.key {
      var id' :| 0 <= id' < |s.memory.key| && s.memory.key[id'] == k;
      UniqueKeys(keys, r.memory, id, id');
      assert OwnerOk(r, id);
    } else {
      OwnerWon(keys, r, id);
    }
  }

  lemma NodeOf(keys: Keying, r: State, t: nat) returns (id: nat)
    requires Inv(keys, r) && Finished(r) && t < |r.threads|
    ensures id < |r.memory.key| && r.memory.key[id] == r.threads[t].key
  {
    assert ThreadOk(keys, r, t);
    id :| id < |r.memory.key| && r.memory.key[id] == r.threads[t].key;
  }

  lemma OnlyOwnerWins(keys: Keying, r: State, id: nat, u: nat)
    requires Inv(keys, r) && Finished(r) && id < |r.memory.key| && u < |r.threads|
    requires r.threads[u].key == r.memory.key[id]
    ensures r.threads[u].at.Lost? || (r.threads[u].at.Won? && r.owner[id] == u)
  {
    assert ThreadOk(keys, r, u);
    if r.threads[u].at.Won? {
      UniqueKeys(keys, r.memory, r.threads[u].at.id, id);
    }
  }

  lemma OwnerWon(keys: Keying, r: State, id: nat)
    requires Inv(keys, r) && Finished(r) && r.first <= id < |r.memory.key|
    ensures var t := r.owner[id];
            0 <= t < |r.threads| && r.threads[t].at.Won? && r.threads[t].key == r.memory.key[id]
  {
    assert OwnerOk(r, id);
    assert ThreadOk(keys, r, r.owner[id]);
  }

  /** When no insert is in flight any more, the count is the number of nodes, and each winner has taken one
      reference on its record, each loser none. */
  lemma FinishedCounts(keys: Keying, s: State, schedule: seq<nat>)
    requires Inv(keys, s) && Finished(Run(keys, s, schedule))
    ensures var r := Run(keys, s, schedule);
            && r.nItems == Wrap(|r.memory.key|)
            && forall t | 0 <= t < |r.threads| :: r.threads[t].refs == if r.threads[t].at.Won? then 1 else 0
  {
    hide ThreadOk, OwnerOk, MemoryOk, Uncounted;
    var r := Run(keys, s, schedule);
    AllCounted(r);
    forall t | 0 <= t < |r.threads| ensures r.threads[t].refs == if r.threads[t].at.Won? then 1 else 0 {
      RefsOf(keys, r, t);
    }
  }

  lemma AllCounted(r: State)
    requires Finished(r)
    ensures Uncounted(r) == {}
  {
  }

  lemma RefsOf(keys: Keying, r: State, t: nat)
    requires Inv(keys, r) && Finished(r) && t < |r.threads|
    ensures r.threads[t].refs == if r.threads[t].at.Won? then 1 else 0
  {
    hide CursorOk, Slot;
    assert ThreadOk(keys, r, t);
  }

  // ----- Failed swaps and the length of a call

  /** The threads whose nodes are in. */
  function Insiders(s: State): set<nat> {
    set t | 0 <= t < |s.threads| && Inside(s.threads[t])
  }

  lemma PublishersDistinct(keys: Keying, s: State, i: nat, j: nat)
    requires Inv(keys, s) && s.first <= i < |s.owner| && s.first <= j < |s.owner| && s.owner[i] == s.owner[j]
    ensures i == j
  {
    assert OwnerOk(s, i) && OwnerOk(s, j);
  }

  lemma PublisherIsInside(keys: Keying, s: State, t: int)
    requires Inv(keys, s)
    ensures t in s.owner[s.first..] <==> 0 <= t < |s.threads| && Inside(s.threads[t])
  {
    hide CursorOk, Slot;
    var publishers := s.owner[s.first..];
    if t in publishers {
      var i :| 0 <= i < |publishers| && publishers[i] == t;
      assert OwnerOk(s, s.first + i);
    }
    if 0 <= t < |s.threads| && Inside(s.threads[t]) {
      assert ThreadOk(keys, s, t);
      assert OwnerOk(s, s.threads[t].at.id);
      assert publishers[s.threads[t].at.id - s.first] == t;
    }
  }

  lemma PublishedCount(keys: Keying, s: State)
    requires Inv(keys, s)
    ensures Published(s) == |Insiders(s)|
  {
    var publishers := s.owner[s.first..];
    var inside := set t: int | 0 <= t < |s.threads| && Inside(s.threads[t]);
    forall t ensures t in publishers <==> t in inside {
      PublisherIsInside(keys, s, t);
    }
    forall i, j | 0 <= i < j < |publishers| ensures publishers[i] != publishers[j] {
      if publishers[i] == publishers[j] {
        PublishersDistinct(keys, s, s.first + i, s.first + j);
      }
    }
    DistinctSize(publishers, inside);
    assert inside == Insiders(s);
  }

  /** A thread's failed compare-and-swaps are at most as many as the successful ones of the other threads. */
  lemma FailsBounded(keys: Keying, s: State, t: nat)
    requires Inv(keys, s) && t < |s.threads|
    ensures s.threads[t].fails <= |Insiders(s) - {t}| < |s.threads|
  {
    assert ThreadOk(keys, s, t);
    PublishedCount(keys, s);
    Below(Insiders(s) + {t}, |s.threads|);
    if t in Insiders(s) {
      assert |Insiders(s)| == |Insiders(s) - {t}| + 1;
      assert Insiders(s) + {t} == Insiders(s);
    } else {
      assert Insiders(s) - {t} == Insiders(s);
    }
  }

  /** A thread that keeps being scheduled has at most this many steps left. */
  ghost function StepsLeft(keys: Keying, s: State, t: nat): int
    requires t < |s.threads| && |s.memory.heads| == |s.memory.chains| > 0
  {
    var th := s.threads[t];
    var longest := s.first + |s.threads|;
    var rounds := (|s.threads| - th.fails) * (longest + 6);
    match th.at
    case Start => rounds + longest + 3
    case Walk(prev, _) => rounds + longest - Position(ChainFor(keys, s.memory, th.key), prev) + 2
    case Swap(_, _) => rounds + 1
    case Hold(_) => 2
    case Count(_) => 1
    case Won(_) => 0
    case Lost => 0
  }

  /** Nodes never outnumber the first ones and the threads. */
  lemma PublishedBound(keys: Keying, s: State)
    requires Inv(keys, s)
    ensures |s.memory.key| <= s.first + |s.threads|
  {
    PublishedCount(keys, s);
    Below(Insiders(s), |s.threads|);
  }

  /** A thread's own step brings it nearer to its end ... */
  lemma OwnStepCounts(keys: Keying, s: State, t: nat)
    requires Inv(keys, s) && t < |s.threads|
    ensures 0 <= StepsLeft(keys, s, t)
    ensures Done(s.threads[t]) || StepsLeft(keys, Step(keys, s, t), t) < StepsLeft(keys, s, t)
  {
    hide Slot, Position, Passed, PassedBehind, Spelled, Ordered, Insiders;
    FailsBounded(keys, s, t);
    PublishedBound(keys, s);
    assert ThreadOk(keys, s, t);
    var m, th := s.memory, s.threads[t];
    ChainLength(keys, m, Slot(HashOf(keys, th.key), |m.heads|));
    Rounds(|s.threads| - th.fails, s.first + |s.threads| + 6);
    if th.at.Walk? && Skips(keys, m.key, th.key, th.at.cur) {
      WalkMovesOn(keys, m, th.key, th.at.prev, th.at.cur);
    }
  }

  lemma Rounds(n: int, w: nat)
    requires n > 0
    ensures n * w == (n - 1) * w + w && (n - 1) * w >= 0
  {
  }

  /** ... and no step of another thread drives it away from there. */
  lemma OthersStepCounts(keys: Keying, s: State, t: nat, u: nat)
    requires Inv(keys, s) && t < |s.threads| && u < |s.threads| && u != t
    ensures StepsLeft(keys, Step(keys, s, u), t) <= StepsLeft(keys, s, t)
  {
    hide Slot, Step, Position;
    var th := s.threads[t];
    StepOfOther(keys, s, t, u);
    if th.at.Walk? {
      assert ThreadOk(keys, s, t);
      CursorBounds(keys, s.memory, th.key, th.at.prev, th.at.cur);
      ChainMoves(keys, s, u, th.key, th.at.prev);
    }
  }

  lemma StepOfOther(keys: Keying, s: State, t: nat, u: nat)
    requires Inv(keys, s) && t < |s.threads| && u < |s.threads| && u != t
    ensures var s' := Step(keys, s, u);
            && |s'.threads| == |s.threads| && s'.threads[t] == s.threads[t] && s'.first == s.first
            && |s'.memory.heads| == |s.memory.heads| == |s'.memory.chains|
  {
  }

  lemma ChainMoves(keys: Keying, s: State, u: nat, k: Key, p: int)
    requires Inv(keys, s) && u < |s.threads| && NULL <= p < |s.memory.key|
    ensures var m' := Step(keys, s, u).memory;
            |m'.heads| == |m'.chains| == |s.memory.heads| &&
            Position(ChainFor(keys, m', k), p) >= Position(ChainFor(keys, s.memory, k), p)
  {
    hide Slot, Position, Site;
    var m, th := s.memory, s.threads[u];
    assert ThreadOk(keys, s, u);
    if th.at.Swap? && Link(keys, m, th.key, th.at.prev) == th.at.cur {
      var x := SiteOf(keys, m, th.key, th.at.prev, th.at.cur);
      PositionStable(keys, m, th.key, x, k, p);
    }
  }

  lemma DoneStays(keys: Keying, s: State, t: nat, u: nat)
    requires Inv(keys, s) && t < |s.threads| && u < |s.threads|
    ensures |Step(keys, s, u).threads| == |s.threads| && (Done(s.threads[t]) ==> Done(Step(keys, s, u).threads[t]))
  {
    hide CursorOk, Slot, Site;
    assert ThreadOk(keys, s, u);
  }

  lemma {:induction false} TurnsCount(keys: Keying, s: State, schedule: seq<nat>, t: nat)
    requires Inv(keys, s) && t < |s.threads|
    ensures var r := Run(keys, s, schedule);
            t < |r.threads| && 0 <= StepsLeft(keys, r, t) &&
            (Done(r.threads[t]) || StepsLeft(keys, r, t) + Turns(schedule, t) <= StepsLeft(keys, s, t))
  {
    hide ThreadOk, OwnerOk, ChainOk, StepsLeft, Uncounted, Step;
    if schedule == [] {
      OwnStepCounts(keys, s, t);
    } else {
      var before := schedule[..|schedule| - 1];
      var u := schedule[|schedule| - 1];
      TurnsCount(keys, s, before, t);
      var r := Run(keys, s, before);
      if u < |r.threads| {
        StepKeepsInv(keys, r, u);
        DoneStays(keys, r, t, u);
        OwnStepCounts(keys, Step(keys, r, u), t);
        if u == t {
          OwnStepCounts(keys, r, t);
        } else {
          OthersStepCounts(keys, r, t, u);
        }
      }
    }
  }

  /** The retry loop ends: whatever the others do, a thread returns after a bounded number of its own steps. */
  lemma EveryInsertReturns(keys: Keying, s: State, schedule: seq<nat>, t: nat)
    requires Initial(keys, s) && Inv(keys, s) && t < |s.threads|
    requires Turns(schedule, t) >= (|s.threads| + 1) * (|s.memory.key| + |s.threads| + 6)
    ensures var r := Run(keys, s, schedule); t < |r.threads| && Done(r.threads[t])
  {
    hide Inv, ThreadOk, Run, MemoryOk, Turns;
    TurnsCount(keys, s, schedule, t);
    Rounds(|s.threads| + 1, s.first + |s.threads| + 6);
  }
}
