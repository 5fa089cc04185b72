/**
 The connection manager as a protocol: any number of calls, one closer and one drainer take
 atomic steps in any order (adapters/persistence/sqlite/connection.py). A step is one lock
 section or one unlocked read or write of shared state.
 */
module ConnectionPool {
  import opened Options

  type Conn = nat

  /** Where a call stands in `_run`. */
  datatype Call =
    | NotStarted
    | Counting               // holds the lock, counted, _idle not cleared yet
    | Counted                // about to read _closed in _acquire
    | Admitted               // read _closed == False, about to try the pool
    | Missed                 // the pool was empty, about to compare _created
    | Connecting             // reserved a slot, connecting under the lock
    | Waiting                // blocked on the pool with a timeout
    | Running(conn: Conn)    // running its function
    | Returning(conn: Conn)  // function over, about to read _closed again
    | Retiring(conn: Conn)   // read True, about to close the connection
    | Pooling(conn: Conn)    // read False, about to put it back
    | Leaving                // about to uncount itself
    | Uncounted              // holds the lock, uncounted, _idle not set yet
    | Finished
  {
    /** Included in `_inflight`. */
    predicate InFlight() { !NotStarted? && !Uncounted? && !Finished? }

    predicate HoldsLock() { Counting? || Connecting? || Uncounted? }

    predicate Holds(c: Conn) {
      (Running? || Returning? || Retiring? || Pooling?) && conn == c
    }

    /** Past the closed check and not yet done with its function: it runs or may still run. */
    predicate MayRun() { Admitted? || Missed? || Connecting? || Waiting? || Running? }
  }

  datatype Closer = NotClosing | Draining | Shutting(conn: Conn) | DoneClosing

  datatype Drainer = NotDraining | Blocked | Returned(ok: bool)

  datatype State = State(
    size: nat, created: int, inflight: int, closed: bool, idle: bool, lock: Option<nat>,
    pool: seq<Conn>, made: nat, shut: set<Conn>,
    calls: seq<Call>, closer: Closer, drainer: Drainer)

  datatype Step =
    | CountIn(i: nat) | ClearIdle(i: nat) | ReadFlag(i: nat) | TakeNow(i: nat) | Reserve(i: nat)
    | ConnectOk(i: nat) | ConnectFail(i: nat) | TakeLater(i: nat) | TimeOut(i: nat) | Finish(i: nat)
    | ReadFlagBack(i: nat) | Retire(i: nat) | PutBack(i: nat) | CountOut(i: nat) | SetIdle(i: nat)
    | RaiseFlag | CloseTake | CloseOne
    | DrainCheck | DrainWake | DrainTimeOut

  predicate Init(s: State) {
    && s.size >= 1 && s.created == 0 && s.inflight == 0 && !s.closed && s.idle && s.lock.None?
    && s.pool == [] && s.made == 0 && s.shut == {}
    && (forall i | 0 <= i < |s.calls| :: s.calls[i].NotStarted?)
    && s.closer.NotClosing? && s.drainer.NotDraining?
  }

  predicate Enabled(s: State, step: Step) {
    match step
    case CountIn(i) => i < |s.calls| && s.calls[i].NotStarted? && s.lock.None?
    case ClearIdle(i) => i < |s.calls| && s.calls[i].Counting?
    case ReadFlag(i) => i < |s.calls| && s.calls[i].Counted?
    case TakeNow(i) => i < |s.calls| && s.calls[i].Admitted?
    case Reserve(i) => i < |s.calls| && s.calls[i].Missed? && s.lock.None?
    case ConnectOk(i) => i < |s.calls| && s.calls[i].Connecting?
    case ConnectFail(i) => i < |s.calls| && s.calls[i].Connecting?
    case TakeLater(i) => i < |s.calls| && s.calls[i].Waiting? && s.pool != []
    case TimeOut(i) => i < |s.calls| && s.calls[i].Waiting?
    case Finish(i) => i < |s.calls| && s.calls[i].Running?
    case ReadFlagBack(i) => i < |s.calls| && s.calls[i].Returning?
    case Retire(i) => i < |s.calls| && s.calls[i].Retiring?
    case PutBack(i) => i < |s.calls| && s.calls[i].Pooling?
    case CountOut(i) => i < |s.calls| && s.calls[i].Leaving? && s.lock.None?
    case SetIdle(i) => i < |s.calls| && s.calls[i].Uncounted?
    case RaiseFlag => s.closer.NotClosing?
    case CloseTake => s.closer.Draining?
    case CloseOne => s.closer.Shutting?
    case DrainCheck => s.closed && (s.drainer.NotDraining? || s.drainer == Returned(false))
    case DrainWake => s.drainer.Blocked? && s.idle
    case DrainTimeOut => s.drainer.Blocked?
  }

  function At(s: State, i: nat, c: Call): State
    requires i < |s.calls|
  {
    s.(calls := s.calls[i := c])
  }

  function Apply(s: State, step: Step): State
    requires Enabled(s, step)
  {
    match step
    case CountIn(i) => At(s, i, Counting).(lock := Some(i), inflight := s.inflight + 1)
    case ClearIdle(i) => At(s, i, Counted).(lock := None, idle := false)
    case ReadFlag(i) => At(s, i, if s.closed then Leaving else Admitted)
    case TakeNow(i) =>
      if s.pool == [] then At(s, i, Missed)
      else At(s, i, Running(s.pool[0])).(pool := s.pool[1..])
    case Reserve(i) =>
      if s.created < s.size then At(s, i, Connecting).(lock := Some(i), created := s.created + 1)
      else At(s, i, Waiting)
    case ConnectOk(i) => At(s, i, Running(s.made)).(lock := None, made := s.made + 1)
    case ConnectFail(i) => At(s, i, Leaving).(lock := None, created := s.created - 1)
    case TakeLater(i) => At(s, i, Running(s.pool[0])).(pool := s.pool[1..])
    case TimeOut(i) => At(s, i, Leaving)
    case Finish(i) => At(s, i, Returning(s.calls[i].conn))
    case ReadFlagBack(i) =>
      At(s, i, if s.closed then Retiring(s.calls[i].conn) else Pooling(s.calls[i].conn))
    case Retire(i) => At(s, i, Leaving).(shut := s.shut + {s.calls[i].conn})
    case PutBack(i) => At(s, i, Leaving).(pool := s.pool + [s.calls[i].conn])
    case CountOut(i) => At(s, i, Uncounted).(lock := Some(i), inflight := s.inflight - 1)
    case SetIdle(i) => At(s, i, Finished).(lock := None, idle := s.inflight == 0 || s.idle)
    case RaiseFlag => s.(closed := true, closer := Draining)
    case CloseTake =>
      if s.pool == [] then s.(closer := DoneClosing)
      else s.(closer := Shutting(s.pool[0]), pool := s.pool[1..])
    case CloseOne => s.(closer := Draining, shut := s.shut + {s.closer.conn})
    case DrainCheck => s.(drainer := if s.inflight == 0 then Returned(true) else Blocked)
    case DrainWake => s.(drainer := Returned(true))
    case DrainTimeOut => s.(drainer := Returned(false))
  }

  // ---------- Counting ----------

  function CountInFlight(calls: seq<Call>): nat {
    if calls == [] then 0
    else CountInFlight(calls[..|calls| - 1]) + (if calls[|calls| - 1].InFlight() then 1 else 0)
  }

  function CountHolding(calls: seq<Call>, c: Conn): nat {
    if calls == [] then 0
    else CountHolding(calls[..|calls| - 1], c) + (if calls[|calls| - 1].Holds(c) then 1 else 0)
  }

  lemma {:induction false} InFlightAt(calls: seq<Call>, i: nat, p: Call)
    requires i < |calls|
    ensures CountInFlight(calls[i := p])
         == CountInFlight(calls) - (if calls[i].InFlight() then 1 else 0) + (if p.InFlight() then 1 else 0)
  {
    var n := |calls| - 1;
    if i < n {
      InFlightAt(calls[..n], i, p);
      assert calls[i := p][..n] == calls[..n][i := p];
    } else {
      assert calls[i := p][..n] == calls[..n];
    }
  }

  lemma {:induction false} HoldingAt(calls: seq<Call>, i: nat, p: Call, c: Conn)
    requires i < |calls|
    ensures CountHolding(calls[i := p], c)
         == CountHolding(calls, c) - (if calls[i].Holds(c) then 1 else 0) + (if p.Holds(c) then 1 else 0)
  {
    var n := |calls| - 1;
    if i < n {
      HoldingAt(calls[..n], i, p, c);
      assert calls[i := p][..n] == calls[..n][i := p];
    } else {
      assert calls[i := p][..n] == calls[..n];
    }
  }

  lemma {:induction false} InFlightIsCounted(calls: seq<Call>, i: nat)
    requires i < |calls| && calls[i].InFlight()
    ensures CountInFlight(calls) >= 1
    ensures CountInFlight(calls) == 1 ==> forall j | 0 <= j < |calls| && j != i :: !calls[j].InFlight()
  {
    InFlightAt(calls, i, Finished);
    var others := calls[i := Finished];
    forall j | 0 <= j < |calls| && j != i && calls[j].InFlight()
      ensures CountInFlight(others) >= 1
    {
      assert others[j] == calls[j];
      InFlightAt(others, j, Finished);
    }
  }

  lemma {:induction false} NoneStarted(calls: seq<Call>, c: Conn)
    requires forall i | 0 <= i < |calls| :: calls[i].NotStarted?
    ensures CountInFlight(calls) == 0 && CountHolding(calls, c) == 0
  {
    if calls != [] {
      NoneStarted(calls[..|calls| - 1], c);
    }
  }

  // ---------- The invariant ----------

  /** In how many places a connection is: pooled, held by calls, held by the closer, or shut. */
  function Places(s: State, c: Conn): nat {
    multiset(s.pool)[c] + CountHolding(s.calls, c)
    + (if s.closer == Shutting(c) then 1 else 0) + (if c in s.shut then 1 else 0)
  }

  ghost predicate LockOk(s: State) {
    && (s.lock.Some? ==> s.lock.value < |s.calls|)
    && forall i | 0 <= i < |s.calls| :: s.calls[i].HoldsLock() <==> s.lock == Some(i)
  }

  /** The call inside a lock section, or NotStarted when the lock is free. */
  function Inside(s: State): Call {
    if s.lock.Some? && s.lock.value < |s.calls| then s.calls[s.lock.value] else NotStarted
  }

  /** `_idle` is set exactly when `_inflight` is 0, up to the one line inside a lock section. */
  ghost predicate IdleOk(s: State) {
    && s.inflight == CountInFlight(s.calls)
    && (s.idle <==> !Inside(s).Uncounted? && s.inflight == if Inside(s).Counting? then 1 else 0)
  }

  ghost predicate SlotsOk(s: State) {
    s.created == s.made + (if Inside(s).Connecting? then 1 else 0) && s.created <= s.size
  }

  /** Every opened connection is in exactly one place. */
  ghost predicate PlacesOk(s: State) {
    forall c: Conn :: Places(s, c) == if c < s.made then 1 else 0
  }

  ghost predicate DrainOk(s: State) {
    && (s.drainer.Blocked? || s.drainer.Returned? ==> s.closed)
    && (s.drainer == Returned(true) ==> forall i | 0 <= i < |s.calls| :: !s.calls[i].MayRun())
  }

  ghost predicate Inv(s: State) {
    LockOk(s) && IdleOk(s) && SlotsOk(s) && PlacesOk(s) && DrainOk(s)
  }

  lemma InitInv(s: State)
    requires Init(s)
    ensures Inv(s)
  {
    forall c: Conn ensures Places(s, c) == 0 {
      NoneStarted(s.calls, c);
    }
    NoneStarted(s.calls, 0);
  }

  /** The call a step belongs to. */
  function Actor(step: Step): Option<nat> {
    match step
    case RaiseFlag => None
    case CloseTake => None
    case CloseOne => None
    case DrainCheck => None
    case DrainWake => None
    case DrainTimeOut => None
    case _ => Some(step.i)
  }

  /** A step moves its own call only, and takes or frees the lock for it only. */
  ghost predicate Local(s: State, step: Step, s': State) {
    match Actor(step)
    case None => s'.calls == s.calls && s'.lock == s.lock
    case Some(i) =>
      && i < |s.calls| == |s'.calls| && s'.calls == s.calls[i := s'.calls[i]]
      && (s'.lock == s.lock || (s.lock in {None, Some(i)} && s'.lock in {None, Some(i)}))
      && (s.calls[i].HoldsLock() <==> s.lock == Some(i))
      && (s'.calls[i].HoldsLock() <==> s'.lock == Some(i))
  }

  lemma StepIsLocal(s: State, step: Step)
    requires LockOk(s) && Enabled(s, step)
    ensures Local(s, step, Apply(s, step))
  {
    hide LockOk;
    if Actor(step).Some? {
      LockOfCall(s, Actor(step).value);
      CallStepIsLocal(s, step, Actor(step).value);
    }
  }

  lemma LockOfCall(s: State, i: nat)
    requires LockOk(s) && i < |s.calls|
    ensures s.calls[i].HoldsLock() <==> s.lock == Some(i)
  {
  }

  lemma CallStepIsLocal(s: State, step: Step, i: nat)
    requires Enabled(s, step) && Actor(step) == Some(i)
    requires s.calls[i].HoldsLock() <==> s.lock == Some(i)
    ensures Local(s, step, Apply(s, step))
  {
    var s' := Apply(s, step);
    assert s'.calls == s.calls[i := s'.calls[i]];
  }

  lemma LocalKeepsLock(s: State, step: Step, s': State)
    requires LockOk(s) && Local(s, step, s')
    ensures LockOk(s')
    ensures Inside(s') == match Actor(step)
                          case None => Inside(s)
                          case Some(i) =>
                            if s'.lock == Some(i) then s'.calls[i]
                            else if s.lock == Some(i) then NotStarted else Inside(s)
  {
  }

  /** What the lock says before and after a step of call `i`, or of nobody. */
  lemma LockAround(s: State, step: Step)
    requires LockOk(s) && Enabled(s, step)
    ensures LockOk(Apply(s, step)) && Local(s, step, Apply(s, step))
    ensures match Actor(step)
            case None => Inside(Apply(s, step)) == Inside(s)
            case Some(i) =>
              && i < |s.calls| == |Apply(s, step).calls|
              && (s.calls[i].HoldsLock() ==> Inside(s) == s.calls[i])
              && (Apply(s, step).calls[i].HoldsLock() ==> Inside(Apply(s, step)) == Apply(s, step).calls[i])
              && (s.calls[i].HoldsLock() && !Apply(s, step).calls[i].HoldsLock() ==> Inside(Apply(s, step)) == NotStarted)
              && (!s.calls[i].HoldsLock() && Apply(s, step).calls[i].HoldsLock() ==> Inside(s) == NotStarted)
              && (!s.calls[i].HoldsLock() && !Apply(s, step).calls[i].HoldsLock() ==> Inside(Apply(s, step)) == Inside(s))
  {
    hide LockOk, Inside, Apply, Enabled;
    StepIsLocal(s, step);
    LocalKeepsLock(s, step, Apply(s, step));
    LockHolder(s);
  }

  lemma StepKeepsSlots(s: State, step: Step)
    requires LockOk(s) && SlotsOk(s) && Enabled(s, step)
    ensures SlotsOk(Apply(s, step))
  {
    hide LockOk, Inside, Local;
    LockAround(s, step);
  }

  lemma StepKeepsIdle(s: State, step: Step)
    requires LockOk(s) && IdleOk(s) && SlotsOk(s) && Enabled(s, step)
    ensures LockOk(Apply(s, step)) && IdleOk(Apply(s, step)) && SlotsOk(Apply(s, step))
  {
    hide LockOk, Inside, CountInFlight, SlotsOk;
    var s' := Apply(s, step);
    StepKeepsSlots(s, step);
    LockAround(s, step);
    if Actor(step).Some? {
      var i := Actor(step).value;
      InFlightAt(s.calls, i, s'.calls[i]);
      if s.calls[i].InFlight() {
        InFlightIsCounted(s.calls, i);
      }
    }
  }

  lemma LockHolder(s: State)
    requires LockOk(s)
    ensures s.lock.None? ==> Inside(s) == NotStarted
    ensures s.lock.Some? ==> s.lock.value < |s.calls| && Inside(s) == s.calls[s.lock.value]
    ensures forall i | 0 <= i < |s.calls| && s.calls[i].HoldsLock() :: s.lock == Some(i)
  {
  }

  lemma StepKeepsPlaces(s: State, step: Step)
    requires PlacesOk(s) && Enabled(s, step)
    ensures PlacesOk(Apply(s, step))
  {
    forall c: Conn ensures Places(Apply(s, step), c) == if c < Apply(s, step).made then 1 else 0 {
      assert Places(s, c) == if c < s.made then 1 else 0;
      if Actor(step).Some? {
        StepKeepsPlace(s, step, Actor(step).value, c);
      } else if s.pool != [] {
        TakingOne(s.pool, c);
      }
    }
  }

  lemma TakingOne(pool: seq<Conn>, c: Conn)
    requires pool != []
    ensures multiset(pool)[c] == multiset(pool[1..])[c] + (if pool[0] == c then 1 else 0)
  {
    assert pool == [pool[0]] + pool[1..];
  }

  function One(b: bool): nat { if b then 1 else 0 }

  /** A call's step moves a connection between the pool, itself and the shut ones, or opens one. */
  ghost predicate Conserves(s: State, s': State, i: nat, c: Conn)
    requires i < |s.calls|
  {
    && |s'.calls| == |s.calls| && s'.calls == s.calls[i := s'.calls[i]] && s'.closer == s.closer
    && (s'.made == s.made || s'.made == s.made + 1)
    && multiset(s'.pool)[c] + One(s'.calls[i].Holds(c)) + One(c in s'.shut)
       == multiset(s.pool)[c] + One(s.calls[i].Holds(c)) + One(c in s.shut)
          + One(s'.made > s.made && c == s.made)
  }

  lemma TakingStepConserves(s: State, step: Step, i: nat, c: Conn)
    requires Enabled(s, step) && (step == TakeNow(i) || step == TakeLater(i))
    ensures Conserves(s, Apply(s, step), i, c)
  {
    if s.pool != [] {
      TakingOne(s.pool, c);
    }
  }

  lemma GivingStepConserves(s: State, step: Step, i: nat, c: Conn)
    requires Enabled(s, step) && (step == PutBack(i) || step == Retire(i))
    requires s.calls[i].Holds(c) ==> c !in s.shut
    ensures Conserves(s, Apply(s, step), i, c)
  {
  }

  lemma OtherStepConserves(s: State, step: Step, i: nat, c: Conn)
    requires Enabled(s, step) && Actor(step) == Some(i)
    requires !step.TakeNow? && !step.TakeLater? && !step.PutBack? && !step.Retire?
    ensures Conserves(s, Apply(s, step), i, c)
  {
    var s' := Apply(s, step);
    assert s'.pool == s.pool && s'.shut == s.shut;
  }

  lemma StepKeepsPlace(s: State, step: Step, i: nat, c: Conn)
    requires Enabled(s, step) && Actor(step) == Some(i)
    requires Places(s, c) == if c < s.made then 1 else 0
    ensures Places(Apply(s, step), c) == if c < Apply(s, step).made then 1 else 0
  {
    hide CountHolding, Apply;
    var s' := Apply(s, step);
    HoldingAt(s.calls, i, Finished, c);
    if step.TakeNow? || step.TakeLater? {
      TakingStepConserves(s, step, i, c);
    } else if step.PutBack? || step.Retire? {
      GivingStepConserves(s, step, i, c);
    } else {
      OtherStepConserves(s, step, i, c);
    }
    HoldingAt(s.calls, i, s'.calls[i], c);
  }

  /** When the counter reads 0, or `_idle` is seen set, nobody is past the closed check. */
  lemma QuietWhenSeen(s: State)
    requires LockOk(s) && IdleOk(s) && (s.inflight == 0 || s.idle)
    ensures forall i | 0 <= i < |s.calls| :: !s.calls[i].MayRun()
  {
    forall i | 0 <= i < |s.calls| && s.calls[i].InFlight() ensures !s.calls[i].MayRun() {
      InFlightIsCounted(s.calls, i);
      if Inside(s).Counting? {
        InFlightIsCounted(s.calls, s.lock.value);
      }
    }
  }

  lemma StepKeepsDrain(s: State, step: Step)
    requires LockOk(s) && IdleOk(s) && DrainOk(s) && Enabled(s, step)
    ensures DrainOk(Apply(s, step))
  {
    hide LockOk, IdleOk;
    if step.DrainCheck? || step.DrainWake? {
      if s.inflight == 0 || s.idle {
        QuietWhenSeen(s);
      }
    } else if Actor(step).Some? {
      var i := Actor(step).value;
      assert Apply(s, step).calls == s.calls[i := Apply(s, step).calls[i]];
    }
  }

  lemma StepKeepsInv(s: State, step: Step)
    requires Inv(s) && Enabled(s, step)
    ensures Inv(Apply(s, step))
  {
    StepKeepsIdle(s, step);
    StepKeepsPlaces(s, step);
    StepKeepsDrain(s, step);
  }

  // ---------- Runs ----------

  /** The state after the first `k` steps of an interleaving. */
  ghost predicate IsRun(states: seq<State>, steps: seq<Step>) {
    && |states| == |steps| + 1 && Init(states[0])
    && forall k | 0 <= k < |steps| :: Enabled(states[k], steps[k]) && states[k + 1] == Apply(states[k], steps[k])
  }

  lemma {:induction false} RunInv(states: seq<State>, steps: seq<Step>, k: nat)
    requires IsRun(states, steps) && k < |states|
    ensures Inv(states[k]) && states[k].size == states[0].size
  {
    hide Inv;
    if k == 0 {
      InitInv(states[0]);
    } else {
      RunInv(states, steps, k - 1);
      StepKeepsInv(states[k - 1], steps[k - 1]);
    }
  }

  lemma {:induction false} DrainedForEver(states: seq<State>, steps: seq<Step>, k: nat, j: nat)
    requires IsRun(states, steps) && k <= j < |states| && states[k].drainer == Returned(true)
    ensures states[j].drainer == Returned(true)
  {
    if k < j {
      DrainedForEver(states, steps, k, j - 1);
    }
  }

  /**
   Once drain has returned True after close, no call is running its function and none ever
   will: in every state of every interleaving from there on.
   */
  lemma DrainedMeansQuiet(states: seq<State>, steps: seq<Step>, k: nat, j: nat)
    requires IsRun(states, steps) && k <= j < |states| && states[k].drainer == Returned(true)
    ensures forall i | 0 <= i < |states[j].calls| :: !states[j].calls[i].Running?
    ensures j < |steps| ==> !steps[j].ConnectOk? && !steps[j].TakeNow? && !steps[j].TakeLater?
  {
    RunInv(states, steps, j);
    DrainedForEver(states, steps, k, j);
  }

  /**
   In every reachable state: never more than `size` connections; each opened one in exactly one
   place, so no two calls share one and none runs on a shut or pooled one; and `_idle` agrees
   with `_inflight`, which counts the calls in flight, whenever the lock is free.
   */
  lemma PoolIsSound(states: seq<State>, steps: seq<Step>, k: nat)
    requires IsRun(states, steps) && k < |states|
    ensures var s := states[k];
            && s.made <= s.created <= s.size
            && (forall c: Conn :: Places(s, c) == if c < s.made then 1 else 0)
            && (s.lock.None? ==> (s.idle <==> s.inflight == 0))
            && s.inflight == CountInFlight(s.calls)
            && (forall i | 0 <= i < |s.calls| && s.calls[i].Running? ::
                  s.calls[i].conn !in s.pool && s.calls[i].conn !in s.shut)
            && (forall i, j | 0 <= i < |s.calls| && 0 <= j < |s.calls| && i != j
                              && s.calls[i].Running? && s.calls[j].Running? ::
                  s.calls[i].conn != s.calls[j].conn)
  {
    RunInv(states, steps, k);
    var s := states[k];
    forall i | 0 <= i < |s.calls| && s.calls[i].Running?
      ensures s.calls[i].conn !in s.pool && s.calls[i].conn !in s.shut
      ensures forall j | 0 <= j < |s.calls| && i != j && s.calls[j].Running? ::
                s.calls[i].conn != s.calls[j].conn
    {
      var c := s.calls[i].conn;
      HoldingAt(s.calls, i, Finished, c);
      assert Places(s, c) <= 1;
      forall j | 0 <= j < |s.calls| && i != j && s.calls[j].Running? ensures s.calls[j].conn != c {
        var rest := s.calls[i := Finished];
        assert rest[j] == s.calls[j];
        HoldingAt(rest, j, Finished, c);
      }
    }
  }

  // ---------- What close does not promise ----------

  lemma OneMore(states: seq<State>, steps: seq<Step>, step: Step)
    requires IsRun(states, steps) && Enabled(states[|steps|], step)
    ensures IsRun(states + [Apply(states[|steps|], step)], steps + [step])
  {
    hide Apply, Enabled, Init;
  }

  /**
   The flag read and the put are separate steps: a call that read the flag before close and
   puts its connection back after close has finished leaves it pooled and open.
   */
  lemma ConnectionCanOutliveClose(s: State) returns (states: seq<State>, steps: seq<Step>)
    requires Init(s) && s.calls == [NotStarted]
    ensures IsRun(states, steps) && states[0] == s
    ensures var last := states[|steps|];
            last.closer.DoneClosing? && last.calls == [Finished] && last.pool == [0] && last.shut == {}
  {
    states, steps := UntilPooling(s);
    states, steps := Extend(states, steps, RaiseFlag);
    states, steps := Extend(states, steps, CloseTake);
    states, steps := Extend(states, steps, PutBack(0));
    states, steps := Extend(states, steps, CountOut(0));
    states, steps := Extend(states, steps, SetIdle(0));
  }

  lemma Extend(states: seq<State>, steps: seq<Step>, step: Step)
    returns (states': seq<State>, steps': seq<Step>)
    requires IsRun(states, steps) && Enabled(states[|steps|], step)
    ensures IsRun(states', steps') && states <= states' && steps' == steps + [step]
    ensures states'[|steps'|] == Apply(states[|steps|], step)
  {
    OneMore(states, steps, step);
    states', steps' := states + [Apply(states[|steps|], step)], steps + [step];
  }

  lemma UntilPooling(s: State) returns (states: seq<State>, steps: seq<Step>)
    requires Init(s) && s.calls == [NotStarted]
    ensures IsRun(states, steps) && states[0] == s
    ensures states[|steps|] == s.(inflight := 1, idle := false, created := 1, made := 1, calls := [Pooling(0)])
  {
    states, steps := [s], [];
    states, steps := Extend(states, steps, CountIn(0));
    states, steps := Extend(states, steps, ClearIdle(0));
    states, steps := Extend(states, steps, ReadFlag(0));
    states, steps := Extend(states, steps, TakeNow(0));
    states, steps := Extend(states, steps, Reserve(0));
    states, steps := Extend(states, steps, ConnectOk(0));
    states, steps := Extend(states, steps, Finish(0));
    states, steps := Extend(states, steps, ReadFlagBack(0));
  }

  // ---------- When does a connection outlive close? ----------

  /** Nobody is in a call. */
  predicate Quiescent(s: State) {
    forall i | 0 <= i < |s.calls| :: s.calls[i].NotStarted? || s.calls[i].Finished?
  }

  ghost predicate AllShut(s: State) { forall c | 0 <= c < s.made :: c in s.shut }

  /** Some call has read the flag before close raised it and not put its connection back yet. */
  predicate PuttingBack(s: State) { exists i :: 0 <= i < |s.calls| && s.calls[i].Pooling? }

  /** The loop of close has just ended: it found the pool empty. */
  predicate LoopEnded(s: State) { s.closer.DoneClosing? && s.closed && s.pool == [] }

  lemma {:induction false} ClosingIsClosed(states: seq<State>, steps: seq<Step>, k: nat)
    requires IsRun(states, steps) && k < |states|
    ensures !states[k].closer.NotClosing? ==> states[k].closed
  {
    if k > 0 {
      ClosingIsClosed(states, steps, k - 1);
    }
  }

  /** That is the state after the last turn of the loop. */
  lemma LastTurnEndsLoop(states: seq<State>, steps: seq<Step>, k: nat)
    requires IsRun(states, steps) && k < |steps| && steps[k] == CloseTake
    requires states[k + 1].closer.DoneClosing?
    ensures LoopEnded(states[k + 1])
  {
    ClosingIsClosed(states, steps, k);
  }

  lemma AllShutWhenQuiescent(states: seq<State>, steps: seq<Step>, k: nat)
    requires IsRun(states, steps) && k < |states| && states[k].closer.DoneClosing? && Quiescent(states[k])
    ensures AllShut(states[k]) <==> states[k].pool == []
  {
    RunInv(states, steps, k);
    var s := states[k];
    forall c: Conn ensures CountHolding(s.calls, c) == 0 {
      NoneHolding(s.calls, c);
    }
    forall c: Conn ensures Places(s, c) == if c < s.made then 1 else 0 {
    }
    if s.pool != [] {
      var c := s.pool[0];
      assert multiset(s.pool)[c] >= 1;
      assert Places(s, c) == 1;
    } else {
      forall c | 0 <= c < s.made ensures c in s.shut {
        assert Places(s, c) == 1 && multiset(s.pool)[c] == 0;
      }
    }
  }

  lemma {:induction false} NoneHolding(calls: seq<Call>, c: Conn)
    requires forall i | 0 <= i < |calls| :: calls[i].NotStarted? || calls[i].Finished?
    ensures CountHolding(calls, c) == 0
  {
    if calls != [] {
      NoneHolding(calls[..|calls| - 1], c);
    }
  }

  /** Past the closed check, so it may still take a pooled connection. */
  predicate MayTake(c: Call) { c.Admitted? || c.Missed? || c.Waiting? }

  lemma StepAfterClose(s: State, step: Step)
    requires Enabled(s, step) && s.closed && s.closer.DoneClosing?
    ensures var s' := Apply(s, step);
      && s'.closed && s'.closer.DoneClosing? && |s'.calls| == |s.calls|
      && (forall i | 0 <= i < |s.calls| && !s.calls[i].Pooling? :: !s'.calls[i].Pooling?)
      && (forall i | 0 <= i < |s.calls| && !MayTake(s.calls[i]) :: !MayTake(s'.calls[i]))
      && (!PuttingBack(s) && s.pool == [] ==> s'.pool == [])
      && (|s'.pool| < |s.pool| ==> exists i :: 0 <= i < |s.calls| && MayTake(s.calls[i]))
      && (forall i | 0 <= i < |s.calls| && s.calls[i].Pooling? && !s'.calls[i].Pooling? :: s'.pool != [])
  {
  }

  /** After close the flag is read as raised: nobody starts putting a connection back. */
  lemma {:induction false} NothingPutBackLater(states: seq<State>, steps: seq<Step>, m: nat, k: nat)
    requires IsRun(states, steps) && m <= k < |states|
    requires LoopEnded(states[m]) && !PuttingBack(states[m])
    ensures LoopEnded(states[k]) && !PuttingBack(states[k])
  {
    hide Apply, Enabled;
    if m < k {
      NothingPutBackLater(states, steps, m, k - 1);
      StepAfterClose(states[k - 1], steps[k - 1]);
    }
  }

  /** With nobody left to take from the pool, what is put back stays. */
  lemma {:induction false} PutBackStays(states: seq<State>, steps: seq<Step>, m: nat, k: nat, i: nat)
    requires IsRun(states, steps) && m <= k < |states| && LoopEnded(states[m])
    requires i < |states[m].calls| && states[m].calls[i].Pooling?
    requires forall j | 0 <= j < |states[m].calls| :: !MayTake(states[m].calls[j])
    ensures states[k].closed && states[k].closer.DoneClosing? && |states[k].calls| == |states[m].calls|
    ensures forall j | 0 <= j < |states[k].calls| :: !MayTake(states[k].calls[j])
    ensures states[k].calls[i].Pooling? || states[k].pool != []
  {
    hide Apply, Enabled;
    if m < k {
      PutBackStays(states, steps, m, k - 1, i);
      StepAfterClose(states[k - 1], steps[k - 1]);
    }
  }

  /**
   When close's loop ends with no call between its flag read and its put, every connection is
   shut by the time all calls are through. With no call past the closed check either, this is
   exact: one that is between the two leaves its connection open.
   */
  lemma ClosedForGood(states: seq<State>, steps: seq<Step>, m: nat, k: nat)
    requires IsRun(states, steps) && m <= k < |states| && LoopEnded(states[m]) && Quiescent(states[k])
    ensures !PuttingBack(states[m]) ==> AllShut(states[k])
    ensures (forall j | 0 <= j < |states[m].calls| :: !MayTake(states[m].calls[j])) ==>
              (AllShut(states[k]) <==> !PuttingBack(states[m]))
  {
    if !PuttingBack(states[m]) {
      NothingPutBackLater(states, steps, m, k);
      AllShutWhenQuiescent(states, steps, k);
    } else if forall j | 0 <= j < |states[m].calls| :: !MayTake(states[m].calls[j]) {
      var i :| 0 <= i < |states[m].calls| && states[m].calls[i].Pooling?;
      PutBackStays(states, steps, m, k, i);
      AllShutWhenQuiescent(states, steps, k);
    }
  }

  // ---------- The schedule that leaves one open ----------

  /** How many steps a call is at most away from its end. */
  function Left(c: Call): nat {
    match c
    case NotStarted => 0
    case Counting => 12
    case Counted => 11
    case Admitted => 10
    case Missed => 9
    case Connecting => 8
    case Waiting => 8
    case Running(_) => 7
    case Returning(_) => 6
    case Retiring(_) => 5
    case Pooling(_) => 5
    case Leaving => 4
    case Uncounted => 3
    case Finished => 0
  }

  function LeftOver(calls: seq<Call>): nat {
    if calls == [] then 0 else LeftOver(calls[..|calls| - 1]) + Left(calls[|calls| - 1])
  }

  lemma {:induction false} LeftOverAt(calls: seq<Call>, i: nat, c: Call)
    requires i < |calls|
    ensures LeftOver(calls[i := c]) == LeftOver(calls) - Left(calls[i]) + Left(c)
  {
    var n := |calls| - 1;
    if i < n {
      LeftOverAt(calls[..n], i, c);
      assert calls[i := c][..n] == calls[..n][i := c];
    } else {
      assert calls[i := c][..n] == calls[..n];
    }
  }

  /** The step that brings a call nearer to its end. */
  function NextStep(c: Call, i: nat): Step {
    match c
    case NotStarted => CountIn(i)
    case Counting => ClearIdle(i)
    case Counted => ReadFlag(i)
    case Admitted => TakeNow(i)
    case Missed => Reserve(i)
    case Connecting => ConnectFail(i)
    case Waiting => TimeOut(i)
    case Running(_) => Finish(i)
    case Returning(_) => ReadFlagBack(i)
    case Retiring(_) => Retire(i)
    case Pooling(_) => PutBack(i)
    case Leaving => CountOut(i)
    case Uncounted => SetIdle(i)
    case Finished => SetIdle(i)
  }

  predicate Through(c: Call) { c.NotStarted? || c.Finished? }

  lemma NextStepEnabled(s: State, i: nat)
    requires i < |s.calls| && !Through(s.calls[i]) && (s.lock.None? || s.calls[i].HoldsLock())
    ensures Enabled(s, NextStep(s.calls[i], i)) && Actor(NextStep(s.calls[i], i)) == Some(i)
  {
  }

  lemma NextStepAdvances(s: State, i: nat)
    requires i < |s.calls| && !Through(s.calls[i])
    requires Enabled(s, NextStep(s.calls[i], i)) && Actor(NextStep(s.calls[i], i)) == Some(i)
    requires s.calls[i].HoldsLock() <==> s.lock == Some(i)
    ensures var s' := Apply(s, NextStep(s.calls[i], i));
            && s'.calls == s.calls[i := s'.calls[i]] && Left(s'.calls[i]) < Left(s.calls[i])
            && s'.closed == s.closed && s'.closer == s.closer && s'.drainer == s.drainer && s'.made >= s.made
  {
    CallStepIsLocal(s, NextStep(s.calls[i], i), i);
  }

  /** Lets every call but `i` come to its end, a lock holder first; with `i` -1 that is every call. */
  lemma {:induction false} OthersFinish(states: seq<State>, steps: seq<Step>, i: int)
    returns (states': seq<State>, steps': seq<Step>)
    requires IsRun(states, steps) && -1 <= i < |states[|steps|].calls|
    requires i >= 0 ==> !states[|steps|].calls[i].HoldsLock()
    ensures IsRun(states', steps') && states <= states' && |steps| <= |steps'|
    ensures var s, s' := states[|steps|], states'[|steps'|];
      && |s'.calls| == |s.calls| && (i >= 0 ==> s'.calls[i] == s.calls[i])
      && s'.closed == s.closed && s'.closer == s.closer && s'.drainer == s.drainer && s'.made >= s.made
      && s'.lock.None? && forall j | 0 <= j < |s.calls| && j != i :: Through(s'.calls[j])
    decreases LeftOver(states[|steps|].calls)
  {
    hide Apply, Enabled, Left, LeftOver;
    var s := states[|steps|];
    RunInv(states, steps, |steps|);
    states', steps' := states, steps;
    var j: nat;
    if s.lock.Some? {
      LockHolder(s);
      j := s.lock.value;
      assert s.calls[j].HoldsLock();
    } else if exists x :: 0 <= x < |s.calls| && x != i && !Through(s.calls[x]) {
      j :| 0 <= j < |s.calls| && j != i && !Through(s.calls[j]);
    } else {
      return;
    }
    LockOfCall(s, j);
    NextStepEnabled(s, j);
    NextStepAdvances(s, j);
    var step := NextStep(s.calls[j], j);
    LeftOverAt(s.calls, j, Apply(s, step).calls[j]);
    OneMore(states, steps, step);
    states', steps' := OthersFinish(states + [Apply(s, step)], steps + [step], i);
  }

  lemma PuttingBackLast(s: State, i: nat)
    requires i < |s.calls| && s.calls[i].Pooling? && s.lock.None? && s.closer.DoneClosing?
    requires forall j | 0 <= j < |s.calls| && j != i :: Through(s.calls[j])
    ensures Enabled(s, PutBack(i)) && Enabled(Apply(s, PutBack(i)), CountOut(i))
    ensures Enabled(Apply(Apply(s, PutBack(i)), CountOut(i)), SetIdle(i))
    ensures var last := Apply(Apply(Apply(s, PutBack(i)), CountOut(i)), SetIdle(i));
            Quiescent(last) && last.pool != [] && last.closer.DoneClosing?
  {
  }

  lemma OneIsLeftOpen(states: seq<State>, steps: seq<Step>) returns (states': seq<State>, steps': seq<Step>)
    requires IsRun(states, steps) && LoopEnded(states[|steps|]) && PuttingBack(states[|steps|])
    ensures IsRun(states', steps') && states <= states'
    ensures Quiescent(states'[|steps'|]) && !AllShut(states'[|steps'|])
  {
    hide Apply, Enabled;
    var i :| 0 <= i < |states[|steps|].calls| && states[|steps|].calls[i].Pooling?;
    states', steps' := OthersFinish(states, steps, i);
    PuttingBackLast(states'[|steps'|], i);
    states', steps' := Extend(states', steps', PutBack(i));
    states', steps' := Extend(states', steps', CountOut(i));
    states', steps' := Extend(states', steps', SetIdle(i));
    AllShutWhenQuiescent(states', steps', |steps'|);
  }

  ghost predicate EndsQuiescent(states: seq<State>, steps: seq<Step>, from: seq<State>) {
    IsRun(states, steps) && from <= states && Quiescent(states[|steps|])
  }

  /**
   The exact condition, where close's loop ends: whatever the calls do from there on, no
   connection outlives them exactly if no call is between its flag read and its put.
   */
  lemma NoneOutlivesCloseIff(states: seq<State>, steps: seq<Step>)
    requires IsRun(states, steps) && LoopEnded(states[|steps|])
    ensures (forall states', steps' | EndsQuiescent(states', steps', states) :: AllShut(states'[|steps'|]))
       <==> !PuttingBack(states[|steps|])
  {
    hide Quiescent, AllShut, PuttingBack, LoopEnded, Apply, Enabled, Init;
    if PuttingBack(states[|steps|]) {
      var states', steps' := OneIsLeftOpen(states, steps);
      assert EndsQuiescent(states', steps', states);
    } else {
      forall states', steps' | EndsQuiescent(states', steps', states) ensures AllShut(states'[|steps'|]) {
        assert states'[|steps|] == states[|steps|];
        ClosedForGood(states', steps', |steps|, |steps'|);
      }
    }
  }
}
