/**
 Bounded cancellation (core/task_cancel.py). Time is counted in whole ticks. A bounded wait
 returns as soon as all its tasks are done, and otherwise exactly at its deadline. When a task
 finishes is arbitrary: it may obey a cancellation, absorb any number of them, or never end.
 */
module TaskCancel {
  import opened Options

  type Task = nat

  const CANCEL_SLICE := 50  // milliseconds

  function Min(a: int, b: int): int { if a < b then a else b }

  function Max(a: int, b: int): int { if a < b then b else a }

  class EventLoop {
    var now: int
    var cancels: seq<(Task, int)>           // every cancellation sent, with its time
    const ends: Task -> Option<int>         // when a task finishes, if ever

    constructor (ends: Task -> Option<int>)
      ensures now == 0 && cancels == [] && this.ends == ends
    {
      this.ends := ends;
      now, cancels := 0, [];
    }

    predicate DoneBy(t: Task, time: int) { ends(t).Some? && ends(t).value <= time }

    predicate Done(t: Task)
      reads this
    {
      DoneBy(t, now)
    }

    predicate AllDoneBy(tasks: seq<Task>, time: int) {
      forall i | 0 <= i < |tasks| :: DoneBy(tasks[i], time)
    }

    method Cancel(t: Task)
      modifies this`cancels
      ensures cancels == old(cancels) + [(t, now)]
    {
      cancels := cancels + [(t, now)];
    }

    /** The time all tasks are done, or the deadline if that is earlier. */
    function WakeAt(tasks: seq<Task>, from: int, deadline: int): (w: int)
      requires from <= deadline
      ensures from <= w <= deadline
      ensures AllDoneBy(tasks, w) || w == deadline
      ensures forall time | from <= time < w :: !AllDoneBy(tasks, time)
      ensures forall i | 0 <= i < |tasks| && !DoneBy(tasks[i], w) :: w == deadline
    {
      if tasks == [] then from
      else
        var w := WakeAt(tasks[..|tasks| - 1], from, deadline);
        var e := ends(tasks[|tasks| - 1]);
        assert forall time :: AllDoneBy(tasks, time) ==> AllDoneBy(tasks[..|tasks| - 1], time);
        if e.None? then deadline else Min(deadline, Max(w, e.value))
    }

    /** asyncio.wait(tasks, timeout): a timeout of zero or less returns at once. */
    method Wait(tasks: seq<Task>, timeout: int)
      modifies this`now
      ensures old(now) <= now <= old(now) + Max(timeout, 0)
      ensures AllDoneBy(tasks, now) || now == old(now) + Max(timeout, 0)
      ensures forall time | old(now) <= time < now :: !AllDoneBy(tasks, time)
    {
      now := WakeAt(tasks, now, now + Max(timeout, 0));
    }

    /** The task at `i` is the first in the list that is not done at that time. */
    ghost predicate FirstAlive(tasks: seq<Task>, i: nat, time: int)
      requires i < |tasks|
    {
      !DoneBy(tasks[i], time) && forall j | 0 <= j < i :: DoneBy(tasks[j], time)
    }

    /** At every moment from `from` to `to` the first living task was cancelled within a slice. */
    ghost predicate KeptUp(tasks: seq<Task>, sent: seq<(Task, int)>, from: int, to: int) {
      forall i, time | 0 <= i < |tasks| && from <= time < to && FirstAlive(tasks, i, time) ::
        SentWithin(sent, tasks[i], time)
    }

    ghost predicate SentWithin(sent: seq<(Task, int)>, t: Task, time: int) {
      exists c :: c in sent && c.0 == t && c.1 <= time < c.1 + CANCEL_SLICE
    }

    /** A repeated cancel goes to the first living task, before the deadline. */
    ghost predicate Repeats(tasks: seq<Task>, sent: seq<(Task, int)>, deadline: int) {
      forall c | c in sent :: c.1 < deadline && exists i :: 0 <= i < |tasks| && tasks[i] == c.0 && FirstAlive(tasks, i, c.1)
    }

    lemma SentStays(sent: seq<(Task, int)>, more: (Task, int), t: Task, time: int)
      requires SentWithin(sent, t, time)
      ensures SentWithin(sent + [more], t, time)
    {
      var c :| c in sent && c.0 == t && c.1 <= time < c.1 + CANCEL_SLICE;
      assert c in sent + [more];
    }

    /** One more turn: the task at `i` is cancelled, then waited for during at most a slice. */
    lemma TurnKeepsUp(tasks: seq<Task>, sent: seq<(Task, int)>, from: int, i: nat, at: int, until: int)
      requires i < |tasks| && KeptUp(tasks, sent, from, at) && FirstAlive(tasks, i, at)
      requires at <= until <= at + CANCEL_SLICE
      requires forall time | at <= time < until :: !DoneBy(tasks[i], time)
      ensures KeptUp(tasks, sent + [(tasks[i], at)], from, until)
    {
      var more := (tasks[i], at);
      forall n, time | 0 <= n < |tasks| && from <= time < until && FirstAlive(tasks, n, time)
        ensures SentWithin(sent + [more], tasks[n], time)
      {
        if time < at {
          SentStays(sent, more, tasks[n], time);
        } else {
          assert n == i;
          assert more in sent + [more];
        }
      }
    }

    /**
     Returns by the deadline whatever the tasks do, with exactly the tasks still alive, and
     gives up on a task only at the deadline. Every task is cancelled once at the start. After
     that the cancels go, at every slice, to the first task in the list that is still alive,
     and to no other: behind a survivor nobody is cancelled again.
     */
    method CancelTasks(tasks: seq<Task>, timeout: int) returns (alive: seq<Task>)
      modifies this`now, this`cancels
      ensures old(now) <= now <= old(now) + Max(timeout, 0)
      ensures forall t :: t in alive <==> t in tasks && !Done(t)
      ensures alive == Alive(tasks, now)
      ensures alive != [] ==> now == old(now) + Max(timeout, 0)
      ensures |old(cancels)| + |tasks| <= |cancels|
      ensures cancels[..|old(cancels)| + |tasks|] == old(cancels) + AllAt(tasks, old(now))
      ensures Repeats(tasks, cancels[|old(cancels)| + |tasks|..], old(now) + timeout)
      ensures KeptUp(tasks, cancels[|old(cancels)|..], old(now), now)
    {
      hide KeptUp, Repeats, Alive, WakeAt, FirstAlive, AllAt;
      if tasks == [] {
        NothingToKeepUp(cancels[|cancels|..], now);
        NoneAt(now);
        return [];
      }
      var start := now;
      var deadline := now + timeout;
      NoneAt(start);
      for i := 0 to |tasks|
        invariant now == start && cancels == old(cancels) + AllAt(tasks[..i], start)
      {
        OneMoreAt(tasks, i, start);
        Cancel(tasks[i]);
      }
      assert tasks[..|tasks|] == tasks;
      ghost var first := AllAt(tasks, start);
      ghost var repeats: seq<(Task, int)> := [];
      Wait(tasks, Min(timeout, CANCEL_SLICE));
      FirstRoundKeepsUp(tasks, start, now, deadline);
      assert first + repeats == first;
      for i := 0 to |tasks|
        invariant start <= now <= start + Max(timeout, 0) && cancels == old(cancels) + (first + repeats)
        invariant Repeats(tasks, repeats, deadline) && KeptUp(tasks, first + repeats, start, now)
        invariant forall j | 0 <= j < i :: Done(tasks[j]) || now == start + Max(timeout, 0)
      {
        var t := tasks[i];
        while !Done(t)
          invariant start <= now <= start + Max(timeout, 0) && cancels == old(cancels) + (first + repeats)
          invariant Repeats(tasks, repeats, deadline) && KeptUp(tasks, first + repeats, start, now)
          invariant forall j | 0 <= j < i :: Done(tasks[j]) || now == start + Max(timeout, 0)
          decreases deadline - now, if Done(t) then 0 else 1
        {
          var remaining := deadline - now;
          if remaining <= 0 {
            break;
          }
          ghost var at, sent := now, first + repeats;
          IsFirstAlive(tasks, i, at);
          Cancel(t);
          RepeatOnce(tasks, repeats, i, at, deadline);
          repeats := repeats + [(t, at)];
          assert first + repeats == sent + [(t, at)];
          Wait([t], Min(remaining, CANCEL_SLICE));
          forall time | at <= time < now ensures !DoneBy(t, time) {
            assert [t][0] == t;
            assert !AllDoneBy([t], time);
          }
          TurnKeepsUp(tasks, sent, start, i, at, now);
          assert AllDoneBy([t], now) ==> DoneBy([t][0], now);
        }
      }
      alive := Alive(tasks, now);
      assert cancels[|old(cancels)|..] == first + repeats;
      assert cancels[|old(cancels)| + |tasks|..] == repeats;
      assert cancels[..|old(cancels)| + |tasks|] == old(cancels) + first;
      assert alive != [] ==> alive[0] in alive;
    }

    /** One cancel to each task, in order. */
    function AllAt(tasks: seq<Task>, time: int): (r: seq<(Task, int)>)
      ensures |r| == |tasks|
    {
      seq(|tasks|, i requires 0 <= i < |tasks| => (tasks[i], time))
    }

    lemma NoneAt(time: int)
      ensures AllAt([], time) == [] && Alive([], time) == []
    {
    }

    lemma OneMoreAt(tasks: seq<Task>, i: nat, time: int)
      requires i < |tasks|
      ensures AllAt(tasks[..i + 1], time) == AllAt(tasks[..i], time) + [(tasks[i], time)]
    {
    }

    lemma IsFirstAlive(tasks: seq<Task>, i: nat, time: int)
      requires i < |tasks| && !DoneBy(tasks[i], time) && forall j | 0 <= j < i :: DoneBy(tasks[j], time)
      ensures FirstAlive(tasks, i, time)
    {
    }

    lemma NothingToKeepUp(sent: seq<(Task, int)>, time: int)
      requires sent == []
      ensures Repeats([], sent, time) && KeptUp([], sent, time, time)
      ensures forall deadline :: Repeats([], sent, deadline)
    {
    }

    lemma FirstRoundKeepsUp(tasks: seq<Task>, start: int, until: int, deadline: int)
      requires start <= until <= start + CANCEL_SLICE
      ensures KeptUp(tasks, AllAt(tasks, start), start, until) && Repeats(tasks, [], deadline)
    {
      forall i, time | 0 <= i < |tasks| && start <= time < until
        ensures SentWithin(AllAt(tasks, start), tasks[i], time)
      {
        assert AllAt(tasks, start)[i] == (tasks[i], start);
      }
    }

    lemma RepeatOnce(tasks: seq<Task>, repeats: seq<(Task, int)>, i: nat, at: int, deadline: int)
      requires i < |tasks| && Repeats(tasks, repeats, deadline) && FirstAlive(tasks, i, at) && at < deadline
      ensures Repeats(tasks, repeats + [(tasks[i], at)], deadline)
    {
    }

    function Alive(tasks: seq<Task>, time: int): (r: seq<Task>)
      ensures forall t :: t in r <==> t in tasks && !DoneBy(t, time)
    {
      if tasks == [] then []
      else
        var last := tasks[|tasks| - 1];
        assert forall t :: t in tasks <==> t in tasks[..|tasks| - 1] || t == last;
        Alive(tasks[..|tasks| - 1], time) + (if DoneBy(last, time) then [] else [last])
    }
  }
}
