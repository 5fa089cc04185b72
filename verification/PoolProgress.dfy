/**
 What the connection manager gives its callers: when `drain` answers what, that it does answer,
 when a call is turned away, and that an open manager serves every call
 (adapters/persistence/sqlite/connection.py).
 */
module PoolProgress {
  import opened Options
  import opened ConnectionPool

  // ---------- What drain answers ----------

  predicate SomeoneInFlight(calls: seq<Call>) { exists i :: 0 <= i < |calls| && calls[i].InFlight() }

  lemma {:induction false} NoneInFlightIff(calls: seq<Call>)
    ensures CountInFlight(calls) == 0 <==> !SomeoneInFlight(calls)
  {
    if i :| 0 <= i < |calls| && calls[i].InFlight() {
      InFlightIsCounted(calls, i);
    } else {
      NobodyCounted(calls);
    }
  }

  lemma {:induction false} NobodyCounted(calls: seq<Call>)
    requires forall i | 0 <= i < |calls| :: !calls[i].InFlight()
    ensures CountInFlight(calls) == 0
  {
    if calls != [] {
      NobodyCounted(calls[..|calls| - 1]);
    }
  }

  /** Asked in any reachable state, drain answers True at once exactly if no call is in flight. */
  lemma DrainAnswersAtOnceIff(states: seq<State>, steps: seq<Step>, k: nat)
    requires IsRun(states, steps) && k < |steps| && steps[k] == DrainCheck
    ensures states[k + 1].drainer == if SomeoneInFlight(states[k].calls) then Blocked else Returned(true)
  {
    RunInv(states, steps, k);
    NoneInFlightIff(states[k].calls);
  }

  /** What happens to a waiting drain: only its time-out makes it answer False. */
  lemma WaitingDrain(states: seq<State>, steps: seq<Step>, k: nat)
    requires IsRun(states, steps) && k < |steps| && states[k].drainer.Blocked?
    ensures states[k + 1].drainer == match steps[k]
                                     case DrainWake => Returned(true)
                                     case DrainTimeOut => Returned(false)
                                     case _ => Blocked
  {
  }

  lemma OnlyTimeOutFailsDrain(states: seq<State>, steps: seq<Step>, k: nat)
    requires IsRun(states, steps) && k < |steps|
    requires states[k + 1].drainer == Returned(false) && states[k].drainer != Returned(false)
    ensures states[k].drainer.Blocked? && steps[k] == DrainTimeOut
  {
  }

  /** With the lock free, a waiting drain can wake up exactly if no call is in flight. */
  lemma WakesIff(states: seq<State>, steps: seq<Step>, k: nat)
    requires IsRun(states, steps) && k < |states| && states[k].drainer.Blocked? && states[k].lock.None?
    ensures Enabled(states[k], DrainWake) <==> !SomeoneInFlight(states[k].calls)
  {
    RunInv(states, steps, k);
    NoneInFlightIff(states[k].calls);
    LockHolder(states[k]);
  }

  /** No schedule can leave a drain waiting for good: from anywhere there is one that answers True. */
  lemma WaitingDrainCanSucceed(states: seq<State>, steps: seq<Step>)
    returns (states': seq<State>, steps': seq<Step>)
    requires IsRun(states, steps) && states[|steps|].drainer.Blocked?
    ensures IsRun(states', steps') && states <= states'
    ensures states'[|steps'|].drainer == Returned(true)
  {
    hide Enabled, Apply, Init;
    states', steps' := OthersFinish(states, steps, -1);
    var s := states'[|steps'|];
    forall i | 0 <= i < |s.calls| ensures !s.calls[i].InFlight() {
      assert Through(s.calls[i]);
    }
    WakesIff(states', steps', |steps'|);
    states', steps' := Extend(states', steps', DrainWake);
    WaitingDrain(states', steps', |steps'| - 1);
  }

  /** Nor can one keep its caller: the time-out can always strike. */
  lemma WaitingDrainCanGiveUp(states: seq<State>, steps: seq<Step>)
    returns (states': seq<State>, steps': seq<Step>)
    requires IsRun(states, steps) && states[|steps|].drainer.Blocked?
    ensures IsRun(states', steps') && states <= states' && |steps'| == |steps| + 1
    ensures states'[|steps'|] == states[|steps|].(drainer := Returned(false))
  {
    states', steps' := Extend(states, steps, DrainTimeOut);
  }

  /** On a closed manager a drain can always be asked again until it has answered True. */
  lemma DrainCanSucceed(states: seq<State>, steps: seq<Step>)
    returns (states': seq<State>, steps': seq<Step>)
    requires IsRun(states, steps) && states[|steps|].closed
    ensures IsRun(states', steps') && states <= states'
    ensures states'[|steps'|].drainer == Returned(true)
  {
    hide Apply, Init;
    var s := states[|steps|];
    states', steps' := states, steps;
    if s.drainer != Returned(true) {
      if !s.drainer.Blocked? {
        states', steps' := Extend(states, steps, DrainCheck);
        DrainAnswersAtOnceIff(states', steps', |steps|);
      }
      if states'[|steps'|].drainer.Blocked? {
        states', steps' := WaitingDrainCanSucceed(states', steps');
      }
    }
  }

  /** And close comes to its end from anywhere. */
  lemma {:induction false} CloseCanEnd(states: seq<State>, steps: seq<Step>)
    returns (states': seq<State>, steps': seq<Step>)
    requires IsRun(states, steps)
    ensures IsRun(states', steps') && states <= states'
    ensures states'[|steps'|].closed && states'[|steps'|].closer.DoneClosing?
    decreases if states[|steps|].closer.NotClosing? then 1 else 0,
              2 * |states[|steps|].pool| + match states[|steps|].closer
                                           case Draining => 1
                                           case Shutting(_) => 2
                                           case _ => 0
  {
    hide Init;
    ClosingIsClosed(states, steps, |steps|);
    var step := match states[|steps|].closer
                case NotClosing => RaiseFlag
                case Draining => CloseTake
                case _ => CloseOne;
    states', steps' := states, steps;
    if !states[|steps|].closer.DoneClosing? {
      states', steps' := Extend(states, steps, step);
      states', steps' := CloseCanEnd(states', steps');
    }
  }

  // ---------- Who is turned away ----------

  /** Call `i` has never run its function up to state `k`. */
  ghost predicate NeverRan(states: seq<State>, i: nat, k: nat)
    requires k < |states|
  {
    forall j | 0 <= j <= k :: i < |states[j].calls| && !states[j].calls[i].Running?
  }

  /** Read the flag raised, failed to connect, or waited in vain. */
  ghost predicate TurnedAway(s: State, step: Step, i: nat) {
    (step == ReadFlag(i) && s.closed) || step == ConnectFail(i) || step == TimeOut(i)
  }

  predicate Before(c: Call) {
    c.NotStarted? || c.Counting? || c.Counted? || c.Admitted? || c.Missed? || c.Connecting? || c.Waiting?
  }

  lemma BeforeStays(s: State, step: Step, i: nat)
    requires Enabled(s, step) && i < |s.calls| && Before(s.calls[i]) && !TurnedAway(s, step, i)
    ensures i < |Apply(s, step).calls| && (Before(Apply(s, step).calls[i]) || Apply(s, step).calls[i].Running?)
  {
  }

  lemma {:induction false} OnItsWay(states: seq<State>, steps: seq<Step>, i: nat, k: nat)
    requires IsRun(states, steps) && k < |states| && NeverRan(states, i, k)
    requires forall j | 0 <= j < k :: !TurnedAway(states[j], steps[j], i)
    ensures Before(states[k].calls[i])
  {
    hide Apply, Enabled;
    if k > 0 {
      OnItsWay(states, steps, i, k - 1);
      BeforeStays(states[k - 1], steps[k - 1], i);
    }
  }

  /**
   A call that is over without having run its function read the flag raised, failed to
   connect, or waited in vain: nothing else turns a call away.
   */
  lemma RefusalHasReason(states: seq<State>, steps: seq<Step>, i: nat, k: nat) returns (j: nat)
    requires IsRun(states, steps) && k < |states| && NeverRan(states, i, k) && states[k].calls[i].Finished?
    ensures j < k && TurnedAway(states[j], steps[j], i)
  {
    if n :| 0 <= n < k && TurnedAway(states[n], steps[n], i) {
      j := n;
    } else {
      OnItsWay(states, steps, i, k);
      assert false;
    }
  }

  // ---------- An open manager serves ----------

  ghost predicate NothingShut(s: State) {
    !s.closed ==> s.closer.NotClosing? && s.shut == {} && forall i | 0 <= i < |s.calls| :: !s.calls[i].Retiring?
  }

  lemma StepKeepsOpen(s: State, step: Step)
    requires NothingShut(s) && Enabled(s, step)
    ensures NothingShut(Apply(s, step))
  {
    var s' := Apply(s, step);
    if Actor(step).Some? {
      var i := Actor(step).value;
      assert s'.calls == s.calls[i := s'.calls[i]];
    }
  }

  lemma {:induction false} OpenShutsNothing(states: seq<State>, steps: seq<Step>, k: nat)
    requires IsRun(states, steps) && k < |states|
    ensures NothingShut(states[k])
  {
    hide Apply, Enabled, NothingShut;
    if k == 0 {
      InitShutsNothing(states[0]);
    } else {
      OpenShutsNothing(states, steps, k - 1);
      StepKeepsOpen(states[k - 1], steps[k - 1]);
    }
  }

  lemma InitShutsNothing(s: State)
    requires Init(s)
    ensures NothingShut(s)
  {
  }

  /**
   With everybody else through and a call that holds nothing left, an open manager has its
   connections in the pool: as many as were ever opened.
   */
  lemma PoolIsFilledIff(states: seq<State>, steps: seq<Step>, k: nat, i: nat)
    requires IsRun(states, steps) && k < |states| && !states[k].closed && i < |states[k].calls|
    requires states[k].calls[i].Admitted? || states[k].calls[i].Waiting?
    requires forall j | 0 <= j < |states[k].calls| && j != i :: Through(states[k].calls[j])
    ensures states[k].pool != [] <==> states[k].made >= 1
    ensures states[k].made == states[k].created && states[k].lock.None?
  {
    RunInv(states, steps, k);
    OpenShutsNothing(states, steps, k);
    var s := states[k];
    LockHolder(s);
    if s.lock.Some? {
      LockOfCall(s, s.lock.value);
      assert false;
    }
    if s.pool != [] {
      var c := s.pool[0];
      assert multiset(s.pool)[c] >= 1;
      assert Places(s, c) >= 1;
    }
    if s.made >= 1 {
      NobodyHolds(s.calls, 0);
      assert Places(s, 0) == 1;
      assert multiset(s.pool)[0] == 1;
    }
  }

  lemma SizeIsPositive(states: seq<State>, steps: seq<Step>, k: nat)
    requires IsRun(states, steps) && k < |states|
    ensures states[k].size >= 1
  {
    RunInv(states, steps, k);
  }

  lemma {:induction false} NobodyHolds(calls: seq<Call>, c: Conn)
    requires forall i | 0 <= i < |calls| :: !calls[i].Holds(c)
    ensures CountHolding(calls, c) == 0
  {
    if calls != [] {
      NobodyHolds(calls[..|calls| - 1], c);
    }
  }

  /** Brings a call past the counting and the flag of an open manager. */
  lemma Admit(states: seq<State>, steps: seq<Step>, i: nat) returns (states': seq<State>, steps': seq<Step>)
    requires IsRun(states, steps) && i < |states[|steps|].calls| && states[|steps|].calls[i].NotStarted?
    requires states[|steps|].lock.None? && !states[|steps|].closed
    ensures IsRun(states', steps') && states <= states'
    ensures states'[|steps'|] == At(states[|steps|], i, Admitted).(inflight := states[|steps|].inflight + 1, idle := false)
  {
    states', steps' := Extend(states, steps, CountIn(i));
    states', steps' := Extend(states', steps', ClearIdle(i));
    states', steps' := Extend(states', steps', ReadFlag(i));
  }

  lemma Serve(states: seq<State>, steps: seq<Step>, i: nat) returns (states': seq<State>, steps': seq<Step>)
    requires IsRun(states, steps) && i < |states[|steps|].calls| && states[|steps|].calls[i].Admitted?
    requires states[|steps|].lock.None?
    requires states[|steps|].created < states[|steps|].size || states[|steps|].pool != []
    ensures IsRun(states', steps') && states <= states'
    ensures i < |states'[|steps'|].calls| && states'[|steps'|].calls[i].Running?
  {
    states', steps' := Extend(states, steps, TakeNow(i));
    if states[|steps|].pool == [] {
      states', steps' := Extend(states', steps', Reserve(i));
      states', steps' := Extend(states', steps', ConnectOk(i));
    }
  }

  /** From every reachable state of an open manager a call yet to come can be run. */
  lemma OpenManagerServes(states: seq<State>, steps: seq<Step>, i: nat) returns (states': seq<State>, steps': seq<Step>)
    requires IsRun(states, steps) && !states[|steps|].closed
    requires i < |states[|steps|].calls| && states[|steps|].calls[i].NotStarted?
    ensures IsRun(states', steps') && states <= states'
    ensures i < |states'[|steps'|].calls| && states'[|steps'|].calls[i].Running?
  {
    hide Enabled, Apply, Init;
    states', steps' := OthersFinish(states, steps, i);
    states', steps' := Admit(states', steps', i);
    PoolIsFilledIff(states', steps', |steps'|, i);
    SizeIsPositive(states', steps', |steps'|);
    states', steps' := Serve(states', steps', i);
  }

  /**
   A call waiting for a connection of an open manager can be served by the others' coming to
   their end, if a connection was ever opened.
   */
  lemma WaitingCallCanBeServed(states: seq<State>, steps: seq<Step>, i: nat)
    returns (states': seq<State>, steps': seq<Step>)
    requires IsRun(states, steps) && !states[|steps|].closed && states[|steps|].made >= 1
    requires i < |states[|steps|].calls| && states[|steps|].calls[i].Waiting?
    ensures IsRun(states', steps') && states <= states'
    ensures i < |states'[|steps'|].calls| && states'[|steps'|].calls[i].Running?
  {
    hide Init;
    states', steps' := OthersFinish(states, steps, i);
    PoolIsFilledIff(states', steps', |steps'|, i);
    states', steps' := Extend(states', steps', TakeLater(i));
  }
}
