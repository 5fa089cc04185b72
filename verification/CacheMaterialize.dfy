/**
 Concurrent openers of one cache path (core/application/download_server_io.py):
 check, one lock per path from a guarded registry, check again, download, publish atomically.
 A step is one critical section, one look at the file, or one atomic publish.
 */
module CacheMaterialize {
  import opened Options

  type Lock = nat

  datatype Opener =
    | Fresh                          // about to look at the cache
    | Missed                         // saw no complete file, about to ask for the path's lock
    | Wanting(lock: Lock)            // blocked on it
    | Locked(lock: Lock)             // holds it, about to look again
    | Downloading(lock: Lock)
    | Releasing(lock: Lock, ok: bool)
    | Served                         // returned the path
    | Raised                         // the download raised
  {
    predicate Inside() { Locked? || Downloading? || Releasing? }

    predicate KnowsLock() { Wanting? || Inside() }
  }

  datatype State = State(
    expected: int,           // the recorded size, 0 or less when unknown
    file: Option<nat>,       // size of the cache file, if there is one
    registry: Option<Lock>,  // svc._cache_locks for this path
    owners: seq<Option<nat>>,  // who holds each lock ever created
    openers: seq<Opener>,
    published: nat)          // downloads completed so far

  /** _cache_is_complete. */
  predicate Complete(file: Option<nat>, expected: int) {
    file.Some? && (if expected > 0 then file.value >= expected else file.value > 0)
  }

  predicate Whole(s: State) { Complete(s.file, s.expected) }

  datatype Step =
    | Look(i: nat) | AskLock(i: nat) | Acquire(i: nat) | LookAgain(i: nat)
    | Publish(i: nat, size: nat) | Fail(i: nat) | Release(i: nat)

  predicate Init(s: State) {
    s.registry.None? && s.owners == [] && s.published == 0
    && forall i | 0 <= i < |s.openers| :: s.openers[i].Fresh?
  }

  predicate Enabled(s: State, step: Step) {
    step.i < |s.openers| &&
    var o := s.openers[step.i];
    match step
    case Look(_) => o.Fresh?
    case AskLock(_) => o.Missed?
    case Acquire(_) => o.Wanting? && o.lock < |s.owners| && s.owners[o.lock].None?
    case LookAgain(_) => o.Locked?
    case Publish(_, size) => o.Downloading? && Complete(Some(size), s.expected)
    case Fail(_) => o.Downloading?
    case Release(_) => o.Releasing? && o.lock < |s.owners|
  }

  function At(s: State, i: nat, o: Opener): State
    requires i < |s.openers|
  {
    s.(openers := s.openers[i := o])
  }

  function Apply(s: State, step: Step): State
    requires Enabled(s, step)
  {
    var i := step.i;
    var o := s.openers[i];
    match step
    case Look(_) => At(s, i, if Whole(s) then Served else Missed)
    case AskLock(_) =>
      if s.registry.Some? then At(s, i, Wanting(s.registry.value))
      else At(s, i, Wanting(|s.owners|)).(registry := Some(|s.owners|), owners := s.owners + [None])
    case Acquire(_) => At(s, i, Locked(o.lock)).(owners := s.owners[o.lock := Some(i)])
    case LookAgain(_) => At(s, i, if Whole(s) then Releasing(o.lock, true) else Downloading(o.lock))
    case Publish(_, size) =>
      At(s, i, Releasing(o.lock, true)).(file := Some(size), published := s.published + 1)
    case Fail(_) => At(s, i, Releasing(o.lock, false))
    case Release(_) => At(s, i, if o.ok then Served else Raised).(owners := s.owners[o.lock := None])
  }

  // ---------- The invariant ----------

  /** The guarded registry hands every opener the same lock. */
  ghost predicate OneLock(s: State) {
    && (s.registry.None? ==> s.owners == [])
    && (s.registry.Some? ==> s.registry.value == 0 && |s.owners| == 1)
    && forall i | 0 <= i < |s.openers| && s.openers[i].KnowsLock() ::
         s.registry.Some? && s.openers[i].lock == 0
  }

  ghost predicate OwnerInside(s: State) {
    && (s.owners != [] && s.owners[0].Some? ==> s.owners[0].value < |s.openers|)
    && forall i | 0 <= i < |s.openers| :: s.openers[i].Inside() <==> s.owners != [] && s.owners[0] == Some(i)
  }

  ghost predicate FileOk(s: State, whole0: bool) {
    && (forall i | 0 <= i < |s.openers| && s.openers[i].Downloading? :: !Whole(s))
    && (forall i | 0 <= i < |s.openers| && (s.openers[i].Served? || (s.openers[i].Releasing? && s.openers[i].ok)) ::
          Whole(s))
    && (Whole(s) <==> whole0 || s.published > 0)
    && s.published <= if whole0 then 0 else 1
  }

  ghost predicate Inv(s: State, whole0: bool) { OneLock(s) && OwnerInside(s) && FileOk(s, whole0) }

  lemma StepKeepsOneLock(s: State, step: Step)
    requires OneLock(s) && Enabled(s, step)
    ensures OneLock(Apply(s, step))
  {
  }

  lemma StepKeepsOwner(s: State, step: Step)
    requires OneLock(s) && OwnerInside(s) && Enabled(s, step)
    ensures OwnerInside(Apply(s, step))
  {
  }

  lemma StepKeepsFile(s: State, step: Step, whole0: bool)
    requires Inv(s, whole0) && Enabled(s, step)
    ensures FileOk(Apply(s, step), whole0)
  {
  }

  // ---------- Runs ----------

  ghost predicate IsRun(states: seq<State>, steps: seq<Step>) {
    && |states| == |steps| + 1 && Init(states[0])
    && forall k | 0 <= k < |steps| :: Enabled(states[k], steps[k]) && states[k + 1] == Apply(states[k], steps[k])
  }

  lemma {:induction false} RunInv(states: seq<State>, steps: seq<Step>, k: nat)
    requires IsRun(states, steps) && k < |states|
    ensures Inv(states[k], Whole(states[0])) && states[k].expected == states[0].expected
  {
    hide OneLock, OwnerInside, FileOk;
    if k == 0 {
      InitInv(states[0]);
    } else {
      RunInv(states, steps, k - 1);
      StepKeepsOneLock(states[k - 1], steps[k - 1]);
      StepKeepsOwner(states[k - 1], steps[k - 1]);
      StepKeepsFile(states[k - 1], steps[k - 1], Whole(states[0]));
    }
  }

  lemma InitInv(s: State)
    requires Init(s)
    ensures Inv(s, Whole(s))
  {
  }

  lemma {:induction false} WholeForEver(states: seq<State>, steps: seq<Step>, k: nat, j: nat)
    requires IsRun(states, steps) && k <= j < |states| && Whole(states[k])
    ensures Whole(states[j]) && states[j].published == states[k].published
  {
    if k < j {
      WholeForEver(states, steps, k, j - 1);
      RunInv(states, steps, j - 1);
    }
  }

  /** A whole file is never empty and as long as recorded, if that is known. */
  lemma WholeMeans(s: State)
    ensures Whole(s) <==> s.file.Some? && s.file.value >= 1 && s.file.value >= s.expected
  {
  }

  /** At most one download runs at a time, and every opener that has returned found a whole file. */
  lemma OneDownloadAtATime(states: seq<State>, steps: seq<Step>, k: nat)
    requires IsRun(states, steps) && k < |states|
    ensures var os := states[k].openers;
            && (forall i, j | 0 <= i < |os| && 0 <= j < |os| && os[i].Downloading? && os[j].Downloading? :: i == j)
            && (forall i | 0 <= i < |os| && os[i].Served? ::
                  states[k].file.Some? && states[k].file.value >= 1 && states[k].file.value >= states[k].expected)
            && states[k].published <= 1
  {
    RunInv(states, steps, k);
    WholeMeans(states[k]);
  }

  /** Once a complete file is there no download is running and none ever starts. */
  lemma NoDownloadAfterPublish(states: seq<State>, steps: seq<Step>, k: nat, j: nat, i: nat)
    requires IsRun(states, steps) && k <= j < |states| && Whole(states[k]) && i < |states[j].openers|
    ensures Whole(states[j]) && !states[j].openers[i].Downloading?
    ensures states[j].published == states[k].published
  {
    WholeForEver(states, steps, k, j);
    RunInv(states, steps, j);
  }

  // ---------- Who is served ----------

  /** A look at a whole file serves at once; nobody asks for the lock then. */
  lemma HitIsServed(states: seq<State>, steps: seq<Step>, k: nat, i: nat)
    requires IsRun(states, steps) && k < |steps| && steps[k] == Look(i)
    requires states[k].file.Some? && states[k].file.value >= 1 && states[k].file.value >= states[k].expected
    ensures i < |states[k + 1].openers| && states[k + 1].openers[i].Served?
    ensures states[k + 1].owners == states[k].owners && states[k + 1].registry == states[k].registry
  {
  }

  predicate Failing(o: Opener) { o.Raised? || (o.Releasing? && !o.ok) }

  lemma StepFails(s: State, step: Step, i: nat)
    requires Enabled(s, step) && i < |s.openers| && step != Fail(i)
    ensures i < |Apply(s, step).openers| && (Failing(Apply(s, step).openers[i]) ==> Failing(s.openers[i]))
  {
  }

  /** Only a failed download of its own makes an opener raise. */
  lemma {:induction false} RaisedByItsDownload(states: seq<State>, steps: seq<Step>, k: nat, i: nat) returns (j: nat)
    requires IsRun(states, steps) && k < |states| && i < |states[k].openers| && Failing(states[k].openers[i])
    ensures j < k && steps[j] == Fail(i) && states[j].openers[i].Downloading?
  {
    hide Apply;
    if k > 0 {
      if steps[k - 1] == Fail(i) {
        j := k - 1;
      } else {
        SameOpeners(states[k - 1], steps[k - 1]);
        StepFails(states[k - 1], steps[k - 1], i);
        j := RaisedByItsDownload(states, steps, k - 1, i);
      }
    }
  }

  lemma SameOpeners(s: State, step: Step)
    requires Enabled(s, step)
    ensures |Apply(s, step).openers| == |s.openers|
  {
  }

  predicate Over(o: Opener) { o.Served? || o.Raised? }

  /** How many steps an opener is at most away from its end. */
  function Left(o: Opener): nat {
    match o
    case Fresh => 6
    case Missed => 5
    case Wanting(_) => 4
    case Locked(_) => 3
    case Downloading(_) => 2
    case Releasing(_, _) => 1
    case Served => 0
    case Raised => 0
  }

  function LeftOver(os: seq<Opener>): nat {
    if os == [] then 0 else LeftOver(os[..|os| - 1]) + Left(os[|os| - 1])
  }

  lemma {:induction false} LeftOverAt(os: seq<Opener>, i: nat, o: Opener)
    requires i < |os|
    ensures LeftOver(os[i := o]) == LeftOver(os) - Left(os[i]) + Left(o)
  {
    var n := |os| - 1;
    if i < n {
      LeftOverAt(os[..n], i, o);
      assert os[i := o][..n] == os[..n][i := o];
    } else {
      assert os[i := o][..n] == os[..n];
    }
  }

  /** The step that brings an opener nearer to being served. */
  function NextStep(s: State, i: nat): Step
    requires i < |s.openers|
  {
    match s.openers[i]
    case Fresh => Look(i)
    case Missed => AskLock(i)
    case Wanting(_) => Acquire(i)
    case Locked(_) => LookAgain(i)
    case Downloading(_) => Publish(i, if s.expected > 0 then s.expected else 1)
    case _ => Release(i)
  }

  lemma NextStepAdvances(s: State, i: nat)
    requires OneLock(s) && OwnerInside(s) && i < |s.openers| && !Over(s.openers[i])
    requires s.openers[i].Wanting? ==> s.owners[0].None?
    ensures Enabled(s, NextStep(s, i)) && |Apply(s, NextStep(s, i)).openers| == |s.openers|
    ensures Left(Apply(s, NextStep(s, i)).openers[i]) < Left(s.openers[i])
    ensures Apply(s, NextStep(s, i)).openers == s.openers[i := Apply(s, NextStep(s, i)).openers[i]]
    ensures Failing(Apply(s, NextStep(s, i)).openers[i]) <==> Failing(s.openers[i])
  {
    var s' := Apply(s, NextStep(s, i));
    assert s'.openers == s.openers[i := s'.openers[i]];
  }

  /** Somebody can move: the one inside, or anybody when the lock is free. */
  lemma SomeoneMoves(s: State) returns (i: nat)
    requires OneLock(s) && OwnerInside(s) && exists i :: 0 <= i < |s.openers| && !Over(s.openers[i])
    ensures i < |s.openers| && !Over(s.openers[i]) && (s.openers[i].Wanting? ==> s.owners[0].None?)
  {
    if n :| 0 <= n < |s.openers| && s.openers[n].Inside() {
      i := n;
    } else {
      i :| i < |s.openers| && !Over(s.openers[i]);
    }
  }

  lemma OneMore(states: seq<State>, steps: seq<Step>, step: Step)
    requires IsRun(states, steps) && Enabled(states[|steps|], step)
    ensures IsRun(states + [Apply(states[|steps|], step)], steps + [step])
  {
    hide Apply, Enabled, Init;
  }

  /** A failed download raises for its own opener and leaves the lock to the others. */
  lemma FailureFreesTheLock(states: seq<State>, steps: seq<Step>, i: nat)
    returns (states': seq<State>, steps': seq<Step>)
    requires IsRun(states, steps) && i < |states[|steps|].openers| && states[|steps|].openers[i].Downloading?
    ensures IsRun(states', steps') && states <= states'
    ensures var os, os' := states[|steps|].openers, states'[|steps'|].openers;
            os' == os[i := Raised] && forall j | 0 <= j < |os'| :: !os'[j].Inside()
    ensures states'[|steps'|].file == states[|steps|].file
  {
    RunInv(states, steps, |steps|);
    OneMore(states, steps, Fail(i));
    states', steps' := states + [Apply(states[|steps|], Fail(i))], steps + [Fail(i)];
    var s := states'[|steps'|];
    OneMore(states', steps', Release(i));
    states', steps' := states' + [Apply(s, Release(i))], steps' + [Release(i)];
  }

  /** From every reachable state all openers can come to their end, served unless a download of theirs failed. */
  lemma {:induction false} EveryoneCanBeServed(states: seq<State>, steps: seq<Step>)
    returns (states': seq<State>, steps': seq<Step>)
    requires IsRun(states, steps)
    ensures IsRun(states', steps') && states <= states'
    ensures var os, os' := states[|steps|].openers, states'[|steps'|].openers;
            |os'| == |os|
            && forall i | 0 <= i < |os| :: if Failing(os[i]) then os'[i].Raised? else os'[i].Served?
    decreases LeftOver(states[|steps|].openers)
  {
    hide Apply, Enabled, Left, LeftOver, OneLock, OwnerInside, FileOk;
    var s := states[|steps|];
    states', steps' := states, steps;
    if exists i :: 0 <= i < |s.openers| && !Over(s.openers[i]) {
      RunInv(states, steps, |steps|);
      var i := SomeoneMoves(s);
      NextStepAdvances(s, i);
      var step := NextStep(s, i);
      LeftOverAt(s.openers, i, Apply(s, step).openers[i]);
      OneMore(states, steps, step);
      states', steps' := EveryoneCanBeServed(states + [Apply(s, step)], steps + [step]);
    }
  }
}
