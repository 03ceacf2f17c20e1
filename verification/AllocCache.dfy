/** ALLOC_CACHE_HANDLER: free blocks are kept on one lock-free list per processor. Threads run Alloc and Free,
    interleaved at every operation on a list and on the heap. */
module AllocCache {
  import opened Words

  type Block = nat

  /** QueryDepthSList returns a USHORT. */
  const DEPTH_LIMIT: nat := 0x1_0000

  function Depth(list: seq<Block>): nat {
    |list| % DEPTH_LIMIT
  }

  /** Where a thread stands, and the block that it has in its hands.
      Alloc: Missed is about to call HeapAlloc, Got about to clear the signature and return.
      Free: Given is about to sign the block, Signed to look at the depth of its processor's list, Over to call
      HeapFree, Under to push the block. */
  datatype Pc =
    | Idle | Missed | Got(b: Block) | Given(b: Block) | Signed(b: Block) | Over(b: Block) | Under(b: Block, cpu: nat)

  /** clients are the blocks that callers own, signed the ones whose header carries the free signature. */
  datatype State = State(threshold: int, lists: seq<seq<Block>>, clients: set<Block>, signed: set<Block>,
                         threads: seq<Pc>)

  /** The next step of a thread: it calls Alloc or Free, or goes on, on the given processor or with the block
      that the heap gives it. */
  datatype Act = CallAlloc(cpu: nat) | CallFree(b: Block) | FromHeap(b: Block) | Go(cpu: nat)

  datatype Place = Heap | Client | Hands(t: nat) | OnList(i: nat)

  ghost predicate At(s: State, b: Block, p: Place) {
    match p
    case Heap =>
      && b !in s.clients && (forall t | 0 <= t < |s.threads| :: !Holds(s.threads[t], b))
      && (forall i | 0 <= i < |s.lists| :: b !in s.lists[i])
    case Client => b in s.clients
    case Hands(t) => t < |s.threads| && Holds(s.threads[t], b)
    case OnList(i) => i < |s.lists| && b in s.lists[i]
  }

  predicate Holds(pc: Pc, b: Block) {
    !pc.Idle? && !pc.Missed? && pc.b == b
  }

  /** Initialize caps the threshold at 0xFFFF; it may be zero or negative. */
  ghost predicate Initial(s: State) {
    && s.threshold <= 0xFFFF && s.clients == {}
    && (forall i | 0 <= i < |s.lists| :: s.lists[i] == [])
    && (forall t | 0 <= t < |s.threads| :: s.threads[t] == Idle)
  }

  /** Callers free only what they own; the heap gives out only what nobody has. */
  ghost predicate Enabled(s: State, t: nat, act: Act) {
    t < |s.threads| &&
    match s.threads[t]
    case Idle => (act.CallAlloc? && act.cpu < |s.lists|) || (act.CallFree? && act.b in s.clients)
    case Missed => act.FromHeap? && At(s, act.b, Heap)
    case Signed(_) => act.Go? && act.cpu < |s.lists|
    case Under(_, cpu) => act.Go? && cpu < |s.lists|
    case _ => act.Go?
  }

  ghost function Step(s: State, t: nat, act: Act): State
    requires Enabled(s, t, act)
  {
    match s.threads[t]
    case Idle =>
      if act.CallFree? then Turn(s, t, Given(act.b)).(clients := s.clients - {act.b})
      else if s.threshold > 0 && s.lists[act.cpu] != [] then
        Turn(s, t, Got(s.lists[act.cpu][0])).(lists := s.lists[act.cpu := s.lists[act.cpu][1..]])
      else Turn(s, t, Missed)
    case Missed => Turn(s, t, Got(act.b))
    case Got(b) => Turn(s, t, Idle).(clients := s.clients + {b}, signed := s.signed - {b})
    case Given(b) => Turn(s, t, Signed(b)).(signed := s.signed + {b})
    case Signed(b) => Turn(s, t, if Depth(s.lists[act.cpu]) >= s.threshold then Over(b) else Under(b, act.cpu))
    case Over(b) => Turn(s, t, Idle)
    case Under(b, cpu) => Turn(s, t, Idle).(lists := s.lists[cpu := [b] + s.lists[cpu]])
  }

  function Turn(s: State, t: nat, pc: Pc): State
    requires t < |s.threads|
  {
    s.(threads := s.threads[t := pc])
  }

  // ----- Every block is in one place

  ghost predicate OnePlace(s: State) {
    && (forall b, p, q :: At(s, b, p) && At(s, b, q) ==> p == q)
    && (forall i | 0 <= i < |s.lists| :: Distinct(s.lists[i]))
  }

  /** Where a step of thread t takes the block that it moves, and where from. */
  ghost function Moved(s: State, t: nat, act: Act): Option<(Block, Place, Place)>
    requires Enabled(s, t, act)
  {
    match s.threads[t]
    case Idle =>
      if act.CallFree? then Some((act.b, Client, Hands(t)))
      else if s.threshold > 0 && s.lists[act.cpu] != [] then Some((s.lists[act.cpu][0], OnList(act.cpu), Hands(t)))
      else None
    case Missed => Some((act.b, Heap, Hands(t)))
    case Got(b) => Some((b, Hands(t), Client))
    case Over(b) => Some((b, Hands(t), Heap))
    case Under(b, cpu) => Some((b, Hands(t), OnList(cpu)))
    case _ => None
  }

  lemma TailHas(list: seq<Block>, b: Block)
    requires list != [] && Distinct(list)
    ensures b in list[1..] <==> b in list && b != list[0]
    ensures Distinct(list[1..])
  {
  }

  /** A step moves at most that block; everything else stays where it is. */
  lemma StepMoves(s: State, t: nat, act: Act, b: Block, p: Place)
    requires Enabled(s, t, act) && OnePlace(s) && p != Heap
    ensures At(Step(s, t, act), b, p) <==>
            match Moved(s, t, act)
            case None => At(s, b, p)
            case Some(m) => if b == m.0 then p == m.2 else At(s, b, p)
  {
    var m := Moved(s, t, act);
    if m.Some? {
      MovedWasThere(s, t, act);
      assert b == m.value.0 && At(s, b, p) ==> p == m.value.1;
    }
    if s.threads[t].Idle? && act.CallAlloc? && s.lists[act.cpu] != [] {
      TailHas(s.lists[act.cpu], b);
    }
  }

  lemma MovedWasThere(s: State, t: nat, act: Act)
    requires Enabled(s, t, act) && Moved(s, t, act).Some?
    ensures var m := Moved(s, t, act).value; At(s, m.0, m.1) && m.1 != m.2
  {
  }

  lemma HeapIsElsewhere(s: State, b: Block)
    ensures At(s, b, Heap) <==> forall p | p != Heap :: !At(s, b, p)
  {
    if !At(s, b, Heap) {
      if b in s.clients {
        assert At(s, b, Client);
      } else if t :| 0 <= t < |s.threads| && Holds(s.threads[t], b) {
        assert At(s, b, Hands(t));
      } else if i :| 0 <= i < |s.lists| && b in s.lists[i] {
        assert At(s, b, OnList(i));
      }
    }
    if p :| p != Heap && At(s, b, p) {
      assert !At(s, b, Heap);
    }
  }

  lemma StepKeepsPlaces(s: State, t: nat, act: Act)
    requires Enabled(s, t, act) && OnePlace(s)
    ensures OnePlace(Step(s, t, act))
  {
    var s' := Step(s, t, act);
    forall b, p, q | At(s', b, p) && At(s', b, q) ensures p == q {
      HeapIsElsewhere(s', b);
      if p != Heap && q != Heap {
        StepMoves(s, t, act, b, p);
        StepMoves(s, t, act, b, q);
      }
    }
    forall i | 0 <= i < |s'.lists| ensures Distinct(s'.lists[i]) {
      if s.threads[t].Under? {
        assert At(s, s.threads[t].b, Hands(t));
        assert !At(s, s.threads[t].b, OnList(i));
      }
    }
  }

  // ----- Signatures

  /** The header carries the signature on every list and once Free has set it, and not while a client has the
      block, as long as clients do not write the signature themselves. */
  ghost predicate SignaturesOk(s: State) {
    && s.clients !! s.signed
    && (forall i, b | 0 <= i < |s.lists| && b in s.lists[i] :: b in s.signed)
    && (forall t | 0 <= t < |s.threads| ::
          match s.threads[t]
          case Given(b) => b !in s.signed
          case Signed(b) => b in s.signed
          case Over(b) => b in s.signed
          case Under(b, _) => b in s.signed
          case _ => true)
  }

  lemma StepKeepsSignatures(s: State, t: nat, act: Act)
    requires Enabled(s, t, act) && OnePlace(s) && SignaturesOk(s)
    ensures SignaturesOk(Step(s, t, act))
  {
    var s' := Step(s, t, act);
    if s.threads[t].Got? || s.threads[t].Given? {
      var b := s.threads[t].b;
      assert At(s, b, Hands(t));
      forall u | 0 <= u < |s.threads| && u != t ensures !Holds(s.threads[u], b) {
        assert !At(s, b, Hands(u));
      }
      forall i | 0 <= i < |s.lists| ensures b !in s.lists[i] {
        assert !At(s, b, OnList(i));
      }
      assert !At(s, b, Client);
    } else if s.threads[t].Idle? && act.CallAlloc? && s.lists[act.cpu] != [] {
      assert forall b | b in s.lists[act.cpu][1..] :: b in s.lists[act.cpu];
    }
  }

  // ----- The length of a list

  /** Threads that have seen a list below the threshold and are about to push onto it. */
  function Pushers(s: State, i: nat): set<nat> {
    set t | 0 <= t < |s.threads| && s.threads[t].Under? && s.threads[t].cpu == i
  }

  /** With a threshold of 0 or less nothing is cached. Otherwise a list and those about to push onto it stay
      within the threshold and the number of threads, provided that the depth never leaves the 16 bits that
      it is read in. */
  ghost predicate WithinDepth(s: State, i: nat)
    requires i < |s.lists|
  {
    if s.threshold <= 0 then s.lists[i] == [] && Pushers(s, i) == {}
    else s.threshold + |s.threads| <= DEPTH_LIMIT ==> |s.lists[i]| + |Pushers(s, i)| <= s.threshold + |s.threads| - 1
  }

  ghost predicate DepthOk(s: State) {
    forall i | 0 <= i < |s.lists| :: WithinDepth(s, i)
  }

  lemma StepKeepsDepth(s: State, t: nat, act: Act)
    requires Enabled(s, t, act) && DepthOk(s)
    ensures DepthOk(Step(s, t, act))
  {
    hide WithinDepth;
    forall i | 0 <= i < |s.lists| ensures WithinDepth(Step(s, t, act), i) {
      StepKeepsWithin(s, t, act, i);
    }
  }

  lemma StepKeepsWithin(s: State, t: nat, act: Act, i: nat)
    requires Enabled(s, t, act) && i < |s.lists| && WithinDepth(s, i)
    ensures WithinDepth(Step(s, t, act), i)
  {
    var s' := Step(s, t, act);
    Below(Pushers(s', i), |s'.threads|);
    if s.threads[t].Signed? && act.cpu == i {
      assert s'.lists == s.lists;
      if Depth(s.lists[i]) >= s.threshold {
        assert Pushers(s', i) == Pushers(s, i);
      }
    } else if s.threads[t].Under? && s.threads[t].cpu == i {
      assert Pushers(s', i) == Pushers(s, i) - {t};
    } else {
      assert Pushers(s', i) == Pushers(s, i);
    }
  }

  // ----- Runs

  ghost predicate Inv(s: State) {
    OnePlace(s) && SignaturesOk(s) && DepthOk(s)
  }

  lemma InitialInv(s: State)
    requires Initial(s)
    ensures Inv(s)
  {
  }

  lemma StepKeepsInv(s: State, t: nat, act: Act)
    requires Inv(s) && Enabled(s, t, act)
    ensures Inv(Step(s, t, act))
  {
    StepKeepsPlaces(s, t, act);
    StepKeepsSignatures(s, t, act);
    StepKeepsDepth(s, t, act);
  }

  /** A run makes the enabled steps of a schedule. */
  ghost function Run(s: State, schedule: seq<(nat, Act)>): State {
    if schedule == [] then s
    else
      var r := Run(s, schedule[..|schedule| - 1]);
      var (t, act) := schedule[|schedule| - 1];
      if Enabled(r, t, act) then Step(r, t, act) else r
  }

  lemma {:induction false} RunKeepsInv(s: State, schedule: seq<(nat, Act)>)
    requires Inv(s)
    ensures var r := Run(s, schedule);
            Inv(r) && r.threshold == s.threshold && |r.threads| == |s.threads| && |r.lists| == |s.lists|
  {
    if schedule != [] {
      RunKeepsInv(s, schedule[..|schedule| - 1]);
      var r := Run(s, schedule[..|schedule| - 1]);
      var (t, act) := schedule[|schedule| - 1];
      if Enabled(r, t, act) {
        StepKeepsInv(r, t, act);
      }
    }
  }

  /** In every run each block is in exactly one place: with a client, in a thread's hands, on one list, or
      in the heap. */
  lemma ExactlyOnePlace(s: State, schedule: seq<(nat, Act)>, b: Block)
    requires Initial(s)
    ensures exists p :: At(Run(s, schedule), b, p) && forall q :: At(Run(s, schedule), b, q) ==> q == p
  {
    InitialInv(s);
    RunKeepsInv(s, schedule);
    var r := Run(s, schedule);
    HeapIsElsewhere(r, b);
    if !At(r, b, Heap) {
      var p :| At(r, b, p);
    }
  }

  /** Alloc returns a block that no client owns and that is on no list, and its debug check on the signature of
      a cached block holds; so does the check of Free against freeing twice. */
  lemma AllocReturnsUnowned(s: State, schedule: seq<(nat, Act)>, t: nat, act: Act)
    requires Initial(s) && Enabled(Run(s, schedule), t, act)
    ensures var r := Run(s, schedule);
            && (r.threads[t].Got? ==>
                  r.threads[t].b !in r.clients && forall i | 0 <= i < |r.lists| :: r.threads[t].b !in r.lists[i])
            && (r.threads[t].Idle? && act.CallAlloc? && Step(r, t, act).threads[t].Got? ==>
                  Step(r, t, act).threads[t].b in r.signed)
            && (r.threads[t].Given? ==> r.threads[t].b !in r.signed)
  {
    InitialInv(s);
    RunKeepsInv(s, schedule);
    var r := Run(s, schedule);
    if r.threads[t].Got? {
      var b := r.threads[t].b;
      assert At(r, b, Hands(t)) && !At(r, b, Client);
      forall i | 0 <= i < |r.lists| ensures b !in r.lists[i] {
        assert !At(r, b, OnList(i));
      }
    }
  }

  // ----- What a call does that runs alone

  lemma RunNothing(s: State)
    ensures Run(s, []) == s
  {
  }

  lemma RunSnoc(s: State, schedule: seq<(nat, Act)>, t: nat, act: Act)
    ensures var r := Run(s, schedule);
            Run(s, schedule + [(t, act)]) == if Enabled(r, t, act) then Step(r, t, act) else r
  {
    var longer := schedule + [(t, act)];
    assert longer[..|longer| - 1] == schedule;
  }

  function FreeOn(t: nat, b: Block, cpu: nat): seq<(nat, Act)> {
    [(t, CallFree(b))] + [(t, Go(cpu))] + [(t, Go(cpu))] + [(t, Go(cpu))]
  }

  /** Free signs the block and puts it in front of the list of its processor while that is shorter than the threshold,
      and gives it back to the heap otherwise. */
  lemma FreeDoes(s: State, t: nat, b: Block, cpu: nat)
    requires Inv(s) && t < |s.threads| && s.threads[t] == Idle && b in s.clients && cpu < |s.lists|
    ensures var r := Run(s, FreeOn(t, b, cpu));
            && r.clients == s.clients - {b} && r.signed == s.signed + {b} && r.threads == s.threads
            && r.threshold == s.threshold
            && if |s.lists[cpu]| % 0x1_0000 < s.threshold then r.lists == s.lists[cpu := [b] + s.lists[cpu]]
               else r.lists == s.lists && At(r, b, Heap)
  {
    hide Inv, Run, At;
    RunNothing(s);
    assert [] + [(t, CallFree(b))] == [(t, CallFree(b))];
    RunSnoc(s, [], t, CallFree(b));
    RunSnoc(s, [(t, CallFree(b))], t, Go(cpu));
    RunSnoc(s, [(t, CallFree(b))] + [(t, Go(cpu))], t, Go(cpu));
    RunSnoc(s, [(t, CallFree(b))] + [(t, Go(cpu))] + [(t, Go(cpu))], t, Go(cpu));
    if |s.lists[cpu]| % 0x1_0000 >= s.threshold {
      ClientIsNowhereElse(s, b);
    }
  }

  lemma ClientIsNowhereElse(s: State, b: Block)
    requires Inv(s) && b in s.clients
    ensures b !in s.signed && At(s.(clients := s.clients - {b}, signed := s.signed + {b}), b, Heap)
  {
    assert At(s, b, Client);
    forall t | 0 <= t < |s.threads| ensures !Holds(s.threads[t], b) {
      assert !At(s, b, Hands(t));
    }
    forall i | 0 <= i < |s.lists| ensures b !in s.lists[i] {
      assert !At(s, b, OnList(i));
    }
  }

  /** Alloc takes the first block of its processor's list, or one from the heap when that list is empty or caching is
      off, and clears the signature. */
  lemma AllocDoes(s: State, schedule: seq<(nat, Act)>, t: nat, cpu: nat, b: Block)
    requires var r := Run(s, schedule); t < |r.threads| && r.threads[t] == Idle && cpu < |r.lists|
    ensures var r, call := Run(s, schedule), schedule + [(t, CallAlloc(cpu))];
            && (r.threshold > 0 && r.lists[cpu] != [] ==>
                  Run(s, call + [(t, Go(cpu))])
                  == r.(clients := r.clients + {r.lists[cpu][0]}, signed := r.signed - {r.lists[cpu][0]},
                        lists := r.lists[cpu := r.lists[cpu][1..]]))
            && (r.threshold <= 0 || r.lists[cpu] == [] ==> At(r, b, Heap) ==>
                  Run(s, call + [(t, FromHeap(b))] + [(t, Go(cpu))])
                  == r.(clients := r.clients + {b}, signed := r.signed - {b}))
  {
    hide Run;
    var r, call := Run(s, schedule), schedule + [(t, CallAlloc(cpu))];
    RunSnoc(s, schedule, t, CallAlloc(cpu));
    RunSnoc(s, call, t, Go(cpu));
    RunSnoc(s, call, t, FromHeap(b));
    RunSnoc(s, call + [(t, FromHeap(b))], t, Go(cpu));
    assert r.threads[t := Idle] == r.threads;
  }

  /** A block that is freed and cached is what the next Alloc on its processor returns, and the state is as before. */
  lemma FreedIsReused(s: State, t: nat, b: Block, cpu: nat)
    requires Inv(s) && t < |s.threads| && s.threads[t] == Idle && b in s.clients && cpu < |s.lists|
    requires |s.lists[cpu]| % 0x1_0000 < s.threshold
    ensures Run(s, FreeOn(t, b, cpu) + [(t, CallAlloc(cpu))] + [(t, Go(cpu))]) == s
  {
    hide Inv, Run;
    FreeDoes(s, t, b, cpu);
    ClientIsNowhereElse(s, b);
    AllocDoes(s, FreeOn(t, b, cpu), t, cpu, b);
    var r := Run(s, FreeOn(t, b, cpu));
    assert r.lists[cpu][1..] == s.lists[cpu] && r.lists[cpu := s.lists[cpu]] == s.lists;
    assert r.clients + {b} == s.clients && r.signed - {b} == s.signed;
  }

  // ----- When the bound on the length fails

  ghost predicate Reaches(s: State, r: State) {
    exists schedule :: Run(s, schedule) == r
  }

  lemma ReachStep(s: State, r: State, t: nat, act: Act)
    requires Reaches(s, r) && Enabled(r, t, act)
    ensures Reaches(s, Step(r, t, act))
  {
    var schedule :| Run(s, schedule) == r;
    var longer := schedule + [(t, act)];
    assert longer[..|longer| - 1] == schedule;
    assert Run(s, longer) == Step(r, t, act);
  }

  lemma ReachStart(s: State)
    ensures Reaches(s, s)
  {
    assert Run(s, []) == s;
  }

  /** The first k threads are about to push onto list 0, the others are idle. */
  ghost predicate Racing(s: State, k: nat) {
    && k <= |s.threads| && s.lists != []
    && (forall t | 0 <= t < k :: s.threads[t].Under? && s.threads[t].cpu == 0)
    && (forall t | k <= t < |s.threads| :: s.threads[t] == Idle)
  }

  /** r' comes from r by running on, with list 0 longer by n and fewer blocks with clients. */
  ghost predicate Later(s: State, r: State, r': State, n: int, used: int) {
    && Reaches(s, r') && r'.threshold == r.threshold && |r'.threads| == |r.threads| && |r'.lists| == |r.lists| > 0
    && |r'.lists[0]| == |r.lists[0]| + n && |r'.clients| == |r.clients| - used
  }

  /** A client frees a block, and the thread sees a list that is short enough. */
  lemma OneRaces(s: State, r: State, k: nat) returns (r': State)
    requires Reaches(s, r) && Racing(r, k) && k < |r.threads| && r.clients != {} && Depth(r.lists[0]) < r.threshold
    ensures Later(s, r, r', 0, 1) && Racing(r', k + 1)
  {
    var b :| b in r.clients;
    ReachStep(s, r, k, CallFree(b));
    var r1 := Step(r, k, CallFree(b));
    ReachStep(s, r1, k, Go(0));
    var r2 := Step(r1, k, Go(0));
    ReachStep(s, r2, k, Go(0));
    r' := Step(r2, k, Go(0));
  }

  /** n threads pass the test before one of them pushes. */
  lemma {:induction false} AllRace(s: State, r: State, k: nat, n: nat) returns (r': State)
    requires Reaches(s, r) && Racing(r, k) && k + n <= |r.threads| && |r.clients| >= n
             && Depth(r.lists[0]) < r.threshold
    ensures Later(s, r, r', 0, n) && Racing(r', k + n)
    decreases n
  {
    if n == 0 {
      r' := r;
    } else {
      var r1 := OneRaces(s, r, k);
      r' := AllRace(s, r1, k + 1, n - 1);
    }
  }

  /** The racers push. */
  lemma {:induction false} AllPush(s: State, r: State, k: nat) returns (r': State)
    requires Reaches(s, r) && Racing(r, k)
    ensures Later(s, r, r', k, 0) && Racing(r', 0)
    decreases k
  {
    if k == 0 {
      r' := r;
    } else {
      ReachStep(s, r, k - 1, Go(0));
      r' := AllPush(s, Step(r, k - 1, Go(0)), k - 1);
    }
  }

  /** n threads together push n blocks. */
  lemma Volley(s: State, r: State, n: nat) returns (r': State)
    requires Reaches(s, r) && Racing(r, 0) && n <= |r.threads| && |r.clients| >= n && Depth(r.lists[0]) < r.threshold
    ensures Later(s, r, r', n, n) && Racing(r', 0)
  {
    var r1 := AllRace(s, r, 0, n);
    r' := AllPush(s, r1, n);
  }

  /** One block after the other, up to the threshold. */
  lemma {:induction false} Fill(s: State, r: State, n: nat) returns (r': State)
    requires Reaches(s, r) && Racing(r, 0) && r.threads != [] && |r.clients| >= n
    requires Depth(r.lists[0]) + n <= r.threshold < DEPTH_LIMIT
    ensures Later(s, r, r', n, n) && Racing(r', 0)
    decreases n
  {
    if n == 0 {
      r' := r;
    } else {
      var r1 := Volley(s, r, 1);
      assert Depth(r1.lists[0]) == Depth(r.lists[0]) + 1;
      r' := Fill(s, r1, n - 1);
    }
  }

  /** The list grows until its depth reads as 0 again. */
  lemma WrapAround(s: State, r: State) returns (r': State)
    requires Reaches(s, r) && Racing(r, 0) && |r.clients| >= DEPTH_LIMIT && Depth(r.lists[0]) == 0
    requires 0 < r.threshold <= 0xFFFF && r.threshold + |r.threads| > DEPTH_LIMIT
    ensures Later(s, r, r', DEPTH_LIMIT, DEPTH_LIMIT) && Racing(r', 0) && Depth(r'.lists[0]) == 0
  {
    var r1 := Fill(s, r, r.threshold - 1);
    r' := Volley(s, r1, DEPTH_LIMIT + 1 - r.threshold);
  }

  lemma {:induction false} GrowOn(s: State, r: State, n: nat) returns (r': State)
    requires Reaches(s, r) && Racing(r, 0) && |r.clients| >= n * DEPTH_LIMIT && Depth(r.lists[0]) == 0
    requires 0 < r.threshold <= 0xFFFF && r.threshold + |r.threads| > DEPTH_LIMIT
    ensures Reaches(s, r') && r'.lists != [] && |r'.lists[0]| >= n
    decreases n
  {
    r' := r;
    var k := 0;
    while k < n
      invariant k <= n && Reaches(s, r') && Racing(r', 0) && Depth(r'.lists[0]) == 0
      invariant r'.threshold == r.threshold && |r'.threads| == |r.threads|
      invariant |r'.clients| >= (n - k) * DEPTH_LIMIT && |r'.lists[0]| >= k * DEPTH_LIMIT
    {
      r' := WrapAround(s, r');
      k := k + 1;
    }
  }

  lemma {:induction false} FreshBlock(taken: set<Block>) returns (b: Block)
    ensures forall x | x in taken :: x < b
    decreases |taken|
  {
    if taken == {} {
      b := 0;
    } else {
      var x :| x in taken;
      var y := FreshBlock(taken - {x});
      b := if x < y then y else x + 1;
      assert forall z | z in taken :: z == x || z in taken - {x};
    }
  }

  /** Clients can hold as many blocks as they like: while the lists are empty every block comes from the heap. */
  lemma {:induction false} Hoard(s: State, n: nat) returns (r: State)
    requires Initial(s) && s.threads != [] && s.lists != []
    ensures Reaches(s, r) && r == s.(clients := r.clients, signed := r.signed) && |r.clients| == n
    decreases n
  {
    if n == 0 {
      ReachStart(s);
      r := s;
    } else {
      var r0 := Hoard(s, n - 1);
      var b := FreshBlock(r0.clients);
      ReachStep(s, r0, 0, CallAlloc(0));
      var r1 := Step(r0, 0, CallAlloc(0));
      ReachStep(s, r1, 0, FromHeap(b));
      var r2 := Step(r1, 0, FromHeap(b));
      ReachStep(s, r2, 0, Go(0));
      r := Step(r2, 0, Go(0));
      assert r.threads == s.threads;
    }
  }

  /** The depth of a list cannot wrap around in the 16 bits that it is read in. */
  ghost predicate Shallow(s: State) {
    s.threshold <= 0 || s.threshold + |s.threads| <= DEPTH_LIMIT
  }

  /** In no run is a list longer than the threshold and all but one of the threads, or not empty although the
      threshold turns caching off. */
  ghost predicate AlwaysWithin(s: State) {
    forall schedule, i | 0 <= i < |Run(s, schedule).lists| ::
      |Run(s, schedule).lists[i]| <= if s.threshold <= 0 then 0 else s.threshold + |s.threads| - 1
  }

  /** The bound holds exactly when the depth cannot wrap around. */
  lemma LengthBoundIff(s: State)
    requires Initial(s) && s.lists != []
    ensures AlwaysWithin(s) <==> Shallow(s)
  {
    InitialInv(s);
    if Shallow(s) {
      forall schedule, i | 0 <= i < |Run(s, schedule).lists|
        ensures |Run(s, schedule).lists[i]| <= if s.threshold <= 0 then 0 else s.threshold + |s.threads| - 1
      {
        RunKeepsInv(s, schedule);
        assert WithinDepth(Run(s, schedule), i);
      }
    } else {
      var n := s.threshold + |s.threads|;
      var r := Hoard(s, n * DEPTH_LIMIT);
      var r' := GrowOn(s, r, n);
      var schedule :| Run(s, schedule) == r';
      assert |Run(s, schedule).lists[0]| > s.threshold + |s.threads| - 1;
    }
  }

  // ----- CleanupLookaside

  /** What is left of a list after CleanupLookaside: it frees as many blocks as the depth says, and one more
      block has been popped by then. */
  function LeftOver(list: seq<Block>): seq<Block> {
    if |list| < DEPTH_LIMIT then [] else list[Depth(list) + 1..]
  }

  function Returned(list: seq<Block>): seq<Block> {
    list[..Depth(list)]
  }

  /** The lists at shutdown, and the blocks that have gone back to the heap, in order. */
  class Lookaside {
    var freeLists: array<seq<Block>>
    var heap: seq<Block>

    constructor (lists: seq<seq<Block>>)
      ensures fresh(freeLists) && freeLists[..] == lists && heap == []
    {
      freeLists := new seq<Block>[|lists|](i requires 0 <= i < |lists| => lists[i]);
      heap := [];
    }

    method Pop(i: nat) returns (pl: Option<Block>)
      requires i < freeLists.Length
      modifies freeLists
      ensures pl == (if old(freeLists[i]) == [] then None else Some(old(freeLists[i])[0]))
      ensures freeLists[..] == old(freeLists[..])[i := if pl.None? then [] else old(freeLists[i])[1..]]
    {
      if freeLists[i] == [] {
        pl := None;
      } else {
        pl := Some(freeLists[i][0]);
        freeLists[i] := freeLists[i][1..];
      }
    }

    /** Frees the blocks of one list. */
    method CleanupList(i: nat)
      requires i < freeLists.Length
      modifies freeLists, this`heap
      ensures freeLists[..] == old(freeLists[..])[i := LeftOver(old(freeLists[i]))]
      ensures heap == old(heap) + Returned(old(freeLists[i]))
    {
      ghost var list := freeLists[i];
      var nodesToDelete: int := Depth(freeLists[i]);
      var pl := Pop(i);
      ghost var n := 0;
      while pl != None && nodesToDelete - 1 >= 0
        invariant nodesToDelete == Depth(list) - n && n <= Depth(list)
        invariant pl == if n < |list| then Some(list[n]) else None
        invariant freeLists[..] == old(freeLists[..])[i := if n < |list| then list[n + 1..] else []]
        invariant heap == old(heap) + list[..n]
        decreases nodesToDelete
      {
        assert list[..n + 1] == list[..n] + [list[n]] && (n + 1 < |list| ==> list[n + 1..][1..] == list[n + 2..]);
        nodesToDelete := nodesToDelete - 1;
        heap := heap + [pl.value];
        pl := Pop(i);
        n := n + 1;
      }
    }

    /** CleanupLookaside with nobody else at work. */
    method CleanupLookaside()
      modifies freeLists, this`heap
      ensures forall i | 0 <= i < freeLists.Length :: freeLists[i] == LeftOver(old(freeLists[i]))
      ensures heap == old(heap) + AllReturned(old(freeLists[..]))
    {
      hide LeftOver, Returned, AllReturned;
      ghost var lists := freeLists[..];
      NoneReturned(lists);
      for i := 0 to freeLists.Length
        invariant forall k | 0 <= k < freeLists.Length ::
                    freeLists[k] == if k < i then LeftOver(lists[k]) else lists[k]
        invariant heap == old(heap) + AllReturned(lists[..i])
      {
        CleanupList(i);
        OneMoreReturned(lists, i);
      }
      assert lists[..freeLists.Length] == lists;
    }
  }

  lemma NoneReturned(lists: seq<seq<Block>>)
    ensures AllReturned(lists[..0]) == []
  {
  }

  lemma OneMoreReturned(lists: seq<seq<Block>>, i: nat)
    requires i < |lists|
    ensures AllReturned(lists[..i + 1]) == AllReturned(lists[..i]) + Returned(lists[i])
  {
    assert lists[..i + 1][..i] == lists[..i];
  }

  function AllReturned(lists: seq<seq<Block>>): seq<Block> {
    if lists == [] then [] else AllReturned(lists[..|lists| - 1]) + Returned(lists[|lists| - 1])
  }

  ghost predicate AllShort(lists: seq<seq<Block>>) {
    forall i | 0 <= i < |lists| :: |lists[i]| < DEPTH_LIMIT
  }

  function AllBlocks(lists: seq<seq<Block>>): seq<Block> {
    if lists == [] then [] else AllBlocks(lists[..|lists| - 1]) + lists[|lists| - 1]
  }

  /** Cleaning up gives every block back to the heap exactly when all depths fit in 16 bits. */
  lemma {:induction false} CleanupIsComplete(lists: seq<seq<Block>>)
    ensures AllReturned(lists) == AllBlocks(lists) <==> AllShort(lists)
    ensures |AllReturned(lists)| <= |AllBlocks(lists)|
    ensures |AllReturned(lists)| == |AllBlocks(lists)| ==> AllShort(lists)
    ensures AllShort(lists) ==> forall i | 0 <= i < |lists| :: LeftOver(lists[i]) == []
  {
    if lists != [] {
      var front, last := lists[..|lists| - 1], lists[|lists| - 1];
      CleanupIsComplete(front);
      assert |AllReturned(lists)| == |AllReturned(front)| + Depth(last);
      assert Depth(last) <= |last| && (Depth(last) == |last| <==> |last| < DEPTH_LIMIT);
      assert AllShort(lists) <==> AllShort(front) && |last| < DEPTH_LIMIT by {
        assert forall i | 0 <= i < |front| :: front[i] == lists[i];
      }
      if AllShort(lists) {
        assert Returned(last) == last;
      }
    }
  }

  /** So after any run in which the bound holds, cleaning up leaves no block behind. */
  lemma CleanupAfterRun(s: State, schedule: seq<(nat, Act)>)
    requires Initial(s) && Shallow(s)
    ensures var lists := Run(s, schedule).lists;
            AllReturned(lists) == AllBlocks(lists) && forall i | 0 <= i < |lists| :: LeftOver(lists[i]) == []
  {
    InitialInv(s);
    RunKeepsInv(s, schedule);
    var r := Run(s, schedule);
    forall i | 0 <= i < |r.lists| ensures |r.lists[i]| < DEPTH_LIMIT {
      assert WithinDepth(r, i);
    }
    CleanupIsComplete(r.lists);
  }
}
