/** ASYNC_DISCONNECT_CONTEXT: the disconnect notification and the end of a request race for the one reference
    that SetHandler has taken on the request handler. */
module Disconnect {
  import opened Words

  /** Where a thread stands. A pointer is named by the number of the SetHandler call that stored it.
      Setting: it has referenced the handler and is about to store the pointer.
      Notified: its NotifyDisconnect has got the pointer and is about to terminate the request, Terminated to
      drop the reference. Reset: its ResetHandler has got the pointer and is about to drop the reference. */
  datatype Pc = Idle | Setting(e: nat) | Notified(e: nat) | Terminated(e: nat) | Reset(e: nat)

  /** Auxiliary: for each SetHandler call the handler, and how many calls have obtained the pointer that it
      stored, how many of these were of NotifyDisconnect, and how many times that led to TerminateRequest and to
      dropping the reference. */
  datatype Epoch = Epoch(handler: nat, obtained: nat, notified: nat, terminated: nat, dropped: nat)

  /** slot is m_pHandler, refs the reference counts of the handlers. Auxiliary: outside counts the references that
      others hold, and calls the NotifyDisconnect and ResetHandler calls since the slot was last filled. */
  datatype State = State(
    slot: Option<nat>, refs: map<nat, nat>, outside: map<nat, nat>, threads: seq<Pc>, epochs: seq<Epoch>, calls: nat)

  datatype Act = Create(h: nat) | OutRef(h: nat) | OutDeref(h: nat) | CallSet(h: nat) | CallNotify | CallReset | Go

  ghost predicate Initial(s: State) {
    && s.slot == None && s.refs == map[] && s.outside == map[] && s.epochs == [] && s.calls == 0
    && forall t | 0 <= t < |s.threads| :: s.threads[t] == Idle
  }

  /** Somebody who references a handler holds a reference already; SetHandler is called on an empty slot, and not
      while another call of it is at work. */
  ghost predicate Enabled(s: State, t: nat, act: Act) {
    t < |s.threads| &&
    if s.threads[t] != Idle then act.Go?
    else
      match act
      case Create(h) => h !in s.refs
      case OutRef(h) => h in s.outside && s.outside[h] > 0
      case OutDeref(h) => h in s.outside && s.outside[h] > 0 && h in s.refs && s.refs[h] > 0
      case CallSet(h) =>
        && h in s.outside && s.outside[h] > 0 && s.slot == None
        && forall u | 0 <= u < |s.threads| :: !s.threads[u].Setting?
      case CallNotify => true
      case CallReset => true
      case Go => false
  }

  function Turn(s: State, t: nat, pc: Pc): State
    requires t < |s.threads|
  {
    s.(threads := s.threads[t := pc])
  }

  function Count(m: map<nat, nat>, h: nat): nat {
    if h in m then m[h] else 0
  }

  /** InterlockedExchangePointer with NULL. */
  function TakeSlot(s: State, t: nat, notify: bool): State
    requires t < |s.threads|
    requires s.slot.Some? ==> s.slot.value < |s.epochs|
  {
    match s.slot
    case None => s.(calls := s.calls + 1)
    case Some(e) =>
      Turn(s, t, if notify then Notified(e) else Reset(e)).(
        slot := None, calls := s.calls + 1,
        epochs := s.epochs[e := s.epochs[e].(
          obtained := s.epochs[e].obtained + 1, notified := s.epochs[e].notified + if notify then 1 else 0)])
  }

  /** DereferenceRequestHandler: at zero the handler deletes itself. */
  function Dereference(s: State, t: nat, e: nat): State
    requires t < |s.threads| && e < |s.epochs| && Count(s.refs, s.epochs[e].handler) > 0
  {
    var h := s.epochs[e].handler;
    Turn(s, t, Idle).(
      refs := s.refs[h := Count(s.refs, h) - 1],
      epochs := s.epochs[e := s.epochs[e].(dropped := s.epochs[e].dropped + 1)])
  }

  ghost function Step(s: State, t: nat, act: Act): State
    requires Inv(s) && Enabled(s, t, act)
  {
    assert Known(s, t);
    match s.threads[t]
    case Idle =>
      (match act
       case Create(h) => s.(refs := s.refs[h := 1], outside := s.outside[h := 1])
       case OutRef(h) => s.(refs := s.refs[h := Count(s.refs, h) + 1], outside := s.outside[h := s.outside[h] + 1])
       case OutDeref(h) => s.(refs := s.refs[h := s.refs[h] - 1], outside := s.outside[h := s.outside[h] - 1])
       case CallSet(h) =>
         Turn(s, t, Setting(|s.epochs|)).(
           refs := s.refs[h := Count(s.refs, h) + 1], epochs := s.epochs + [Epoch(h, 0, 0, 0, 0)])
       case CallNotify => TakeSlot(s, t, true)
       case CallReset => TakeSlot(s, t, false)
       case Go => s)
    case Setting(e) => Turn(s, t, Idle).(slot := Some(e), calls := 0)
    case Notified(e) =>
      Turn(s, t, Terminated(e)).(epochs := s.epochs[e := s.epochs[e].(terminated := s.epochs[e].terminated + 1)])
    case Terminated(e) => HeldMeansReferenced(s, t); Dereference(s, t, e)
    case Reset(e) => HeldMeansReferenced(s, t); Dereference(s, t, e)
  }

  // ----- The invariant

  predicate With(pc: Pc, e: nat) {
    !pc.Idle? && pc.e == e
  }

  ghost predicate Known(s: State, t: nat)
    requires t < |s.threads|
  {
    !s.threads[t].Idle? ==> s.threads[t].e < |s.epochs| && EpochAt(s, s.threads[t].e, t)
  }

  /** The thread that has to do with call e of SetHandler, and how far that call has come. */
  ghost predicate EpochAt(s: State, e: nat, t: nat)
    requires t < |s.threads| && e < |s.epochs| && With(s.threads[t], e)
  {
    var c := s.epochs[e];
    && s.slot != Some(e)
    && (forall u | 0 <= u < |s.threads| && With(s.threads[u], e) :: u == t)
    && c.dropped == 0
    && match s.threads[t]
       case Setting(_) => c.obtained == 0 && c.notified == 0 && c.terminated == 0
       case Notified(_) => c.obtained == 1 && c.notified == 1 && c.terminated == 0
       case Terminated(_) => c.obtained == 1 && c.notified == 1 && c.terminated == 1
       case Reset(_) => c.obtained == 1 && c.notified == 0 && c.terminated == 0
  }

  /** A call that no thread has to do with is either in the slot, untouched, or over. */
  ghost predicate EpochOk(s: State, e: nat)
    requires e < |s.epochs|
  {
    var c := s.epochs[e];
    (forall t | 0 <= t < |s.threads| :: !With(s.threads[t], e)) ==>
      if s.slot == Some(e) then c.obtained == 0 && c.notified == 0 && c.terminated == 0 && c.dropped == 0
      else c.obtained == 1 && c.terminated == c.notified <= 1 && c.dropped == 1
  }

  /** The SetHandler calls on h whose reference has not been dropped. */
  ghost function Undropped(s: State, h: nat): set<nat> {
    set e | 0 <= e < |s.epochs| && s.epochs[e].handler == h && s.epochs[e].dropped == 0
  }

  ghost predicate Inv(s: State) {
    && (s.slot.Some? ==> s.slot.value < |s.epochs| && s.calls == 0)
    && (forall t | 0 <= t < |s.threads| :: Known(s, t))
    && (forall t, u | 0 <= t < |s.threads| && 0 <= u < |s.threads| ::
          s.threads[t].Setting? && s.threads[u].Setting? ==> t == u)
    && (s.slot.Some? ==> forall t | 0 <= t < |s.threads| :: !s.threads[t].Setting?)
    && (forall e | 0 <= e < |s.epochs| :: EpochOk(s, e))
    && s.refs.Keys == s.outside.Keys
    && (forall h :: Count(s.refs, h) == Count(s.outside, h) + |Undropped(s, h)|)
  }

  /** Who holds the pointer of a SetHandler call holds a reference on the handler. */
  lemma HeldMeansReferenced(s: State, t: nat)
    requires Inv(s) && t < |s.threads| && !s.threads[t].Idle?
    ensures s.threads[t].e < |s.epochs| && Count(s.refs, s.epochs[s.threads[t].e].handler) > 0
  {
    assert Known(s, t);
    assert s.threads[t].e in Undropped(s, s.epochs[s.threads[t].e].handler);
  }

  lemma InitialInv(s: State)
    requires Initial(s)
    ensures Inv(s)
  {
    assert forall h :: Undropped(s, h) == {};
  }

  /** Which references on h are left when the calls of SetHandler change at e only. */
  lemma UndroppedAfter(s: State, s': State, e: nat)
    requires e < |s'.epochs| && |s.epochs| <= |s'.epochs| <= |s.epochs| + 1
             && (e < |s.epochs| <==> |s'.epochs| == |s.epochs|)
    requires forall i | 0 <= i < |s'.epochs| && i != e :: i < |s.epochs| && s'.epochs[i] == s.epochs[i]
    requires e < |s.epochs| ==> s'.epochs[e].handler == s.epochs[e].handler
    ensures forall h ::
              |Undropped(s', h)| == |Undropped(s, h)|
              + (if s'.epochs[e].handler == h && s'.epochs[e].dropped == 0 then 1 else 0)
              - (if e < |s.epochs| && s.epochs[e].handler == h && s.epochs[e].dropped == 0 then 1 else 0)
  {
    forall h
      ensures |Undropped(s', h)| == |Undropped(s, h)|
              + (if s'.epochs[e].handler == h && s'.epochs[e].dropped == 0 then 1 else 0)
              - (if e < |s.epochs| && s.epochs[e].handler == h && s.epochs[e].dropped == 0 then 1 else 0)
    {
      var a, b := Undropped(s', h), Undropped(s, h);
      forall i | i != e ensures i in a <==> i in b {
        assert 0 <= i < |s'.epochs| ==> i < |s.epochs| && s'.epochs[i] == s.epochs[i];
      }
      assert a - {e} == b - {e};
      SizeWithout(a, e);
      SizeWithout(b, e);
    }
  }

  /** Steps that have to do with one call of SetHandler leave the others alone. */
  lemma OtherEpochs(s: State, s': State, t: nat, e: nat)
    requires Inv(s) && t < |s.threads| == |s'.threads| && e < |s'.epochs|
    requires forall u | 0 <= u < |s.threads| && u != t :: s'.threads[u] == s.threads[u]
    requires forall i | 0 <= i < |s'.epochs| && i != e :: i < |s.epochs| && s'.epochs[i] == s.epochs[i]
    requires |s.epochs| <= |s'.epochs|
    requires forall i | i != e :: s'.slot == Some(i) <==> s.slot == Some(i)
    requires forall i | i != e :: !With(s.threads[t], i) && !With(s'.threads[t], i)
    ensures forall i | 0 <= i < |s'.epochs| && i != e :: EpochOk(s', i)
    ensures forall u | 0 <= u < |s.threads| && u != t && !With(s.threads[u], e) :: Known(s', u)
  {
    forall i | 0 <= i < |s'.epochs| && i != e ensures EpochOk(s', i) {
      var c := s'.epochs[i];
      assert i < |s.epochs| && c == s.epochs[i];
      assert EpochOk(s, i);
      if forall u | 0 <= u < |s'.threads| :: !With(s'.threads[u], i) {
        assert forall u | 0 <= u < |s.threads| :: !With(s.threads[u], i);
      }
    }
    forall u | 0 <= u < |s.threads| && u != t && !With(s.threads[u], e) ensures Known(s', u) {
      assert Known(s, u);
    }
  }

  lemma SetKeepsInv(s: State, t: nat, act: Act)
    requires Inv(s) && Enabled(s, t, act) && ((s.threads[t].Idle? && act.CallSet?) || s.threads[t].Setting?)
    ensures Inv(Step(s, t, act))
  {
    var s' := Step(s, t, act);
    var e := if s.threads[t].Setting? then s.threads[t].e else |s.epochs|;
    assert Known(s, t);
    forall u | 0 <= u < |s.threads| && u != t ensures !With(s.threads[u], e) {
      assert Known(s, u);
    }
    OtherEpochs(s, s', t, e);
    if s.threads[t].Idle? {
      UndroppedAfter(s, s', e);
      assert EpochAt(s', e, t);
    } else {
      assert forall h :: Undropped(s', h) == Undropped(s, h);
    }
    assert EpochOk(s', e);
  }

  lemma TakeKeepsInv(s: State, t: nat, act: Act)
    requires Inv(s) && Enabled(s, t, act) && s.threads[t].Idle? && (act.CallNotify? || act.CallReset?)
    ensures Inv(Step(s, t, act))
  {
    var s' := Step(s, t, act);
    if s.slot == None {
      assert forall h :: Undropped(s', h) == Undropped(s, h);
      forall u | 0 <= u < |s.threads| ensures Known(s', u) {
        assert Known(s, u);
      }
      forall i | 0 <= i < |s.epochs| ensures EpochOk(s', i) {
        assert EpochOk(s, i);
      }
    } else {
      var e := s.slot.value;
      forall u | 0 <= u < |s.threads| ensures !With(s.threads[u], e) {
        assert Known(s, u);
      }
      assert EpochOk(s, e);
      OtherEpochs(s, s', t, e);
      UndroppedAfter(s, s', e);
      assert EpochAt(s', e, t) && EpochOk(s', e);
    }
  }

  lemma FinishKeepsInv(s: State, t: nat, act: Act)
    requires Inv(s) && Enabled(s, t, act) && (s.threads[t].Notified? || s.threads[t].Terminated? || s.threads[t].Reset?)
    ensures Inv(Step(s, t, act))
  {
    var s' := Step(s, t, act);
    var e := s.threads[t].e;
    assert Known(s, t);
    HeldMeansReferenced(s, t);
    OtherEpochs(s, s', t, e);
    UndroppedAfter(s, s', e);
    if s.threads[t].Notified? {
      assert EpochAt(s', e, t);
    }
    assert EpochOk(s', e);
  }

  lemma OutsideKeepsInv(s: State, t: nat, act: Act)
    requires Inv(s) && Enabled(s, t, act) && s.threads[t].Idle? && (act.Create? || act.OutRef? || act.OutDeref?)
    ensures Inv(Step(s, t, act))
  {
    var s' := Step(s, t, act);
    assert forall h :: Undropped(s', h) == Undropped(s, h);
    forall h ensures Count(s'.refs, h) == Count(s'.outside, h) + |Undropped(s', h)| {
      assert Count(s.refs, h) == Count(s.outside, h) + |Undropped(s, h)|;
    }
    forall u | 0 <= u < |s.threads| ensures Known(s', u) {
      assert Known(s, u);
    }
    forall i | 0 <= i < |s.epochs| ensures EpochOk(s', i) {
      assert EpochOk(s, i);
    }
  }

  /** Every step of every thread keeps the invariant. */
  lemma StepKeepsInv(s: State, t: nat, act: Act)
    requires Inv(s) && Enabled(s, t, act)
    ensures Inv(Step(s, t, act))
  {
    match s.threads[t]
    case Idle =>
      if act.CallSet? {
        SetKeepsInv(s, t, act);
      } else if act.CallNotify? || act.CallReset? {
        TakeKeepsInv(s, t, act);
      } else {
        OutsideKeepsInv(s, t, act);
      }
    case Setting(_) => SetKeepsInv(s, t, act);
    case _ => FinishKeepsInv(s, t, act);
  }

  // ----- Runs

  ghost function Run(s: State, schedule: seq<(nat, Act)>): (r: State)
    requires Inv(s)
    ensures Inv(r)
  {
    if schedule == [] then s
    else
      var r := Run(s, schedule[..|schedule| - 1]);
      var (t, act) := schedule[|schedule| - 1];
      if Enabled(r, t, act) then
        StepKeepsInv(r, t, act);
        Step(r, t, act)
      else r
  }

  /** In every run, of the NotifyDisconnect and ResetHandler calls that follow a SetHandler call at most one
      obtains its pointer, and exactly one once any of them has run or another SetHandler call has begun. That
      one drops the reference, once; the request is terminated once if it was a NotifyDisconnect call, and never
      otherwise. */
  lemma OneTaker(s: State, schedule: seq<(nat, Act)>, e: nat)
    requires Initial(s) && Inv(s) && e < |Run(s, schedule).epochs|
    ensures var r := Run(s, schedule);
            var c := r.epochs[e];
            && c.terminated <= c.notified <= c.obtained <= 1 && c.dropped <= c.obtained
            && (c.obtained == 1 <==> r.slot != Some(e) && forall t | 0 <= t < |r.threads| :: r.threads[t] != Setting(e))
            && (r.slot == Some(e) ==> r.calls == 0)
            && ((forall t | 0 <= t < |r.threads| :: r.threads[t] == Idle) ==>
                  c.dropped == c.obtained && c.terminated == c.notified)
  {
    var r := Run(s, schedule);
    if t: nat :| t < |r.threads| && With(r.threads[t], e) {
      assert Known(r, t);
      forall u | 0 <= u < |r.threads| && r.threads[u] == Setting(e) ensures u == t {
        assert With(r.threads[u], e);
      }
    } else {
      assert EpochOk(r, e);
      forall t | 0 <= t < |r.threads| ensures r.threads[t] != Setting(e) {
        assert !With(r.threads[t], e);
      }
    }
  }

  /** TerminateRequest runs, and the reference is dropped, only while the caller's reference keeps the handler
      alive. When nobody holds a pointer and the slot is empty, a handler has its outside references only. */
  lemma AliveWhileHeld(s: State, schedule: seq<(nat, Act)>)
    requires Initial(s) && Inv(s)
    ensures var r := Run(s, schedule);
            && (forall t | 0 <= t < |r.threads| && !r.threads[t].Idle? ::
                  r.threads[t].e < |r.epochs| && Count(r.refs, r.epochs[r.threads[t].e].handler) > 0)
            && (r.slot == None && (forall t | 0 <= t < |r.threads| :: r.threads[t] == Idle) ==> r.refs == r.outside)
  {
    var r := Run(s, schedule);
    forall t | 0 <= t < |r.threads| && !r.threads[t].Idle?
      ensures r.threads[t].e < |r.epochs| && Count(r.refs, r.epochs[r.threads[t].e].handler) > 0
    {
      HeldMeansReferenced(r, t);
    }
    if r.slot == None && forall t | 0 <= t < |r.threads| :: r.threads[t] == Idle {
      forall h ensures Count(r.refs, h) == Count(r.outside, h) {
        forall e | 0 <= e < |r.epochs| ensures r.epochs[e].dropped != 0 {
          assert EpochOk(r, e);
        }
        assert Undropped(r, h) == {};
      }
      forall h | h in r.refs ensures r.refs[h] == r.outside[h] {
        assert Count(r.refs, h) == Count(r.outside, h);
      }
    }
  }

  // ----- Which call does what

  /** A call on a filled slot empties it and goes on according to its name, a call on an empty slot does nothing. */
  lemma CallOnSlot(s: State, t: nat, act: Act)
    requires Inv(s) && t < |s.threads| && s.threads[t] == Idle && (act == CallNotify || act == CallReset)
    ensures Enabled(s, t, act)
    ensures var s' := Step(s, t, act);
            && s'.slot == None && s'.refs == s.refs && |s'.threads| == |s.threads|
            && s'.threads[t] == match s.slot
                                case None => Idle
                                case Some(e) => if act == CallNotify then Notified(e) else Reset(e)
  {
  }

  /** SetHandler references the handler that it is given, and then stores it. */
  lemma CallSetStores(s: State, t: nat, h: nat)
    requires Inv(s) && Enabled(s, t, CallSet(h)) && s.threads[t] == Idle
    ensures var s', e := Step(s, t, CallSet(h)), |s.epochs|;
            && Count(s'.refs, h) == Count(s.refs, h) + 1 && s'.slot == None
            && Inv(s') && Enabled(s', t, Go)
            && var s'' := Step(s', t, Go);
               s''.slot == Some(e) && e < |s''.epochs| && s''.epochs[e].handler == h && s''.threads[t] == Idle
  {
    SetKeepsInv(s, t, CallSet(h));
  }

  /** Only these two calls empty the slot. */
  lemma TakingStep(s: State, t: nat, act: Act, e: nat)
    requires Inv(s) && Enabled(s, t, act) && s.slot == Some(e)
    ensures e < |s.epochs| && s.epochs[e].obtained == 0 && s.epochs[e].notified == 0
    ensures var s' := Step(s, t, act);
            s'.slot == None ==>
              && (act == CallNotify || act == CallReset) && e < |s'.epochs|
              && s'.epochs[e].obtained == 1 && s'.epochs[e].notified == if act == CallNotify then 1 else 0
  {
    forall u | 0 <= u < |s.threads| ensures !With(s.threads[u], e) {
      assert Known(s, u);
    }
    assert EpochOk(s, e);
  }

  /** Who has obtained the pointer of a SetHandler call is settled for good. */
  lemma TakenStays(s: State, t: nat, act: Act, e: nat)
    requires Inv(s) && Enabled(s, t, act) && e < |s.epochs| && s.epochs[e].obtained == 1
    ensures var s' := Step(s, t, act);
            e < |s'.epochs| && s'.epochs[e].obtained == 1 && s'.epochs[e].notified == s.epochs[e].notified
  {
    if s.slot == Some(e) {
      TakingStep(s, t, act, e);
    }
    assert Known(s, t);
  }

  lemma {:induction false} RunTaken(s: State, schedule: seq<(nat, Act)>, k: nat, e: nat)
    requires Inv(s) && k <= |schedule|
    requires e < |Run(s, schedule[..k]).epochs| && Run(s, schedule[..k]).epochs[e].obtained == 1
    ensures var r := Run(s, schedule);
            && e < |r.epochs| && r.epochs[e].obtained == 1
            && r.epochs[e].notified == Run(s, schedule[..k]).epochs[e].notified
    decreases |schedule|
  {
    hide Inv, Enabled, Step;
    if k == |schedule| {
      assert schedule[..k] == schedule;
    } else {
      var front := schedule[..|schedule| - 1];
      assert front[..k] == schedule[..k];
      RunTaken(s, front, k, e);
      var (t, act) := schedule[|schedule| - 1];
      if Enabled(Run(s, front), t, act) {
        TakenStays(Run(s, front), t, act, e);
      }
    }
  }

  /** In every run it is a NotifyDisconnect or a ResetHandler call that takes a stored pointer. When all calls have
      returned, the request has been terminated once if that was a NotifyDisconnect, and not at all if it was a
      ResetHandler; the reference has been dropped once either way. */
  lemma TakerDecides(s: State, schedule: seq<(nat, Act)>, k: nat, e: nat)
    requires Initial(s) && Inv(s) && k < |schedule|
    requires Run(s, schedule[..k]).slot == Some(e) && Run(s, schedule[..k + 1]).slot == None
    ensures schedule[k].1 == CallNotify || schedule[k].1 == CallReset
    ensures var r := Run(s, schedule);
            && e < |r.epochs|
            && ((forall t | 0 <= t < |r.threads| :: r.threads[t] == Idle) ==>
                  && (r.epochs[e].terminated == 1 <==> schedule[k].1 == CallNotify)
                  && (r.epochs[e].terminated == 0 <==> schedule[k].1 == CallReset)
                  && r.epochs[e].dropped == 1)
  {
    hide Inv, Enabled, Step;
    var (t, act) := schedule[k];
    assert schedule[..k + 1][..k] == schedule[..k];
    TakingStep(Run(s, schedule[..k]), t, act, e);
    RunTaken(s, schedule, k + 1, e);
    OneTaker(s, schedule, e);
  }

  lemma RunOneMore(s: State, schedule: seq<(nat, Act)>, k: nat)
    requires Inv(s) && k < |schedule|
    ensures var r, (t, act) := Run(s, schedule[..k]), schedule[k];
            Run(s, schedule[..k + 1]) == if Enabled(r, t, act) then Step(r, t, act) else r
  {
    hide Inv, Step, Enabled;
    assert schedule[..k + 1][..k] == schedule[..k];
  }

  /** In every run a NotifyDisconnect or ResetHandler call by an idle thread leaves the slot empty. */
  lemma CallEmptiesSlot(s: State, schedule: seq<(nat, Act)>, k: nat)
    requires Inv(s) && k < |schedule| && (schedule[k].1 == CallNotify || schedule[k].1 == CallReset)
    requires var r := Run(s, schedule[..k]); schedule[k].0 < |r.threads| && r.threads[schedule[k].0] == Idle
    ensures Run(s, schedule[..k + 1]).slot == None
  {
    hide Inv, Step, Enabled, Run;
    var (t, act) := schedule[k];
    RunOneMore(s, schedule, k);
    CallOnSlot(Run(s, schedule[..k]), t, act);
  }
}
