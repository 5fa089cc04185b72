/**
 The task ledger: racing writes through one guarded upsert, the restart reconciliation, and
 the operation log (adapters/persistence/sqlite/outbox.py). States are the stored texts.
 */
module Outbox {
  import opened Options

  datatype LedgerRow = LedgerRow(kind: string, target: string, payload: string, state: string,
                                 retries: int, error: Option<string>)

  /** The arguments of one ledger_upsert call have the shape of the row they would insert. */
  type Write = LedgerRow

  const BREAKPOINT_KINDS: set<string> := {"convert_volumes", "video_upload", "netdisk_index"}

  /** The WHERE clause of the upsert, in its own three arms. */
  predicate Guard(old_: string, new_: string) {
    || (old_ != "cancelled" && old_ != "done" && old_ != "failed")
    || new_ == "cancelled"
    || (old_ != "cancelled" && (new_ == "done" || new_ == "failed"))
  }

  function MergedError(r: LedgerRow, w: Write): Option<string> {
    if w.error.Some? then w.error
    else if w.state == "done" || w.state == "cancelled" then None
    else r.error
  }

  /** INSERT ... ON CONFLICT(task_id) DO UPDATE ... WHERE: kind and target are insert-only. */
  function Upsert(row: Option<LedgerRow>, w: Write): LedgerRow {
    match row
    case None => w
    case Some(r) =>
      if Guard(r.state, w.state) then
        r.(payload := w.payload, state := w.state, retries := w.retries, error := MergedError(r, w))
      else r
  }

  /** The row one task has after its writes arrived in this order. */
  function After(row: Option<LedgerRow>, ws: seq<Write>): Option<LedgerRow> {
    if ws == [] then row
    else Some(Upsert(After(row, ws[..|ws| - 1]), ws[|ws| - 1]))
  }

  // ---------- Ranks ----------

  function Rank(state: string): nat {
    if state == "cancelled" then 2
    else if state == "done" || state == "failed" then 1
    else 0
  }

  /** The three-armed guard is one comparison. */
  lemma GuardComparesRanks(old_: string, new_: string)
    ensures Guard(old_, new_) <==> Rank(old_) <= Rank(new_)
  {
  }

  ghost predicate BestAt(ws: seq<Write>, i: nat) {
    && i < |ws|
    && (forall j | 0 <= j < |ws| :: Rank(ws[j].state) <= Rank(ws[i].state))
    && (forall j | i < j < |ws| :: Rank(ws[j].state) < Rank(ws[i].state))
  }

  /** The last write of greatest rank. */
  function LastBest(ws: seq<Write>): (i: nat)
    requires ws != []
    ensures BestAt(ws, i)
  {
    var n := |ws| - 1;
    if n == 0 then 0
    else
      var before := LastBest(ws[..n]);
      assert forall j | 0 <= j < n :: ws[..n][j] == ws[j];
      if Rank(ws[before].state) <= Rank(ws[n].state) then n else before
  }

  /**
   Whatever the arrival order, the ledger holds the last write of greatest rank; kind and
   target are those of the first write.
   */
  lemma {:induction false} LastOfGreatestRankWins(ws: seq<Write>)
    requires ws != []
    ensures After(None, ws).Some?
    ensures var r, w := After(None, ws).value, ws[LastBest(ws)];
            && r.state == w.state && r.payload == w.payload && r.retries == w.retries
            && r.kind == ws[0].kind && r.target == ws[0].target
  {
    var n := |ws| - 1;
    if n > 0 {
      LastOfGreatestRankWins(ws[..n]);
      var before := After(None, ws[..n]).value;
      GuardComparesRanks(before.state, ws[n].state);
    } else {
      assert After(None, ws[..0]) == None;
    }
  }

  /** On a row that already exists, the rank only ever rises to the greatest written. */
  lemma {:induction false} RankAfter(row: Option<LedgerRow>, ws: seq<Write>)
    requires row.Some?
    ensures After(row, ws).Some?
    ensures Rank(row.value.state) <= Rank(After(row, ws).value.state)
    ensures forall w | w in ws :: Rank(w.state) <= Rank(After(row, ws).value.state)
    ensures Rank(After(row, ws).value.state) == Rank(row.value.state)
         || exists w :: w in ws && Rank(w.state) == Rank(After(row, ws).value.state)
  {
    if ws != [] {
      var n := |ws| - 1;
      RankAfter(row, ws[..n]);
      GuardComparesRanks(After(row, ws[..n]).value.state, ws[n].state);
      assert ws[n] in ws;
      forall w | w in ws ensures w in ws[..n] || w == ws[n] {
      }
    }
  }

  /** Racing writes converge: the final rank does not depend on the arrival order. */
  lemma OrderDoesNotMatter(ws1: seq<Write>, ws2: seq<Write>)
    requires ws1 != [] && multiset(ws1) == multiset(ws2)
    ensures ws2 != []
    ensures Rank(After(None, ws1).value.state) == Rank(After(None, ws2).value.state)
  {
    assert ws1[0] in multiset(ws2);
    LastOfGreatestRankWins(ws1);
    LastOfGreatestRankWins(ws2);
    var w1, w2 := ws1[LastBest(ws1)], ws2[LastBest(ws2)];
    assert w1 in multiset(ws1) && w2 in multiset(ws2);
    assert w1 in ws2 && w2 in ws1;
  }

  /** A cancelled write wins wherever it arrives. */
  lemma CancelledWins(ws: seq<Write>, i: nat)
    requires i < |ws| && ws[i].state == "cancelled"
    ensures After(None, ws).value.state == "cancelled"
  {
    LastOfGreatestRankWins(ws);
    assert Rank(ws[i].state) <= Rank(ws[LastBest(ws)].state);
  }

  /** No earlier write outranks this one, so it is stored when it arrives. */
  ghost predicate Accepted(ws: seq<Write>, i: nat)
    requires i < |ws|
  {
    forall j | 0 <= j < i :: Rank(ws[j].state) <= Rank(ws[i].state)
  }

  /** An accepted write that sets or clears the error. */
  ghost predicate SetsError(ws: seq<Write>, i: int) {
    0 <= i < |ws| && Accepted(ws, i) && (ws[i].error.Some? || ws[i].state == "done" || ws[i].state == "cancelled")
  }

  lemma SetsErrorBefore(ws: seq<Write>, n: nat, i: nat)
    requires i < n <= |ws|
    ensures SetsError(ws[..n], i) <==> SetsError(ws, i)
  {
    assert forall j | 0 <= j <= i :: ws[..n][j] == ws[j];
  }

  lemma AcceptedLast(ws: seq<Write>)
    requires |ws| > 1
    ensures var n := |ws| - 1;
            After(None, ws[..n]).Some?
            && (Accepted(ws, n) <==> Guard(After(None, ws[..n]).value.state, ws[n].state))
  {
    var n := |ws| - 1;
    LastOfGreatestRankWins(ws[..n]);
    var best := LastBest(ws[..n]);
    GuardComparesRanks(After(None, ws[..n]).value.state, ws[n].state);
    assert forall j | 0 <= j < n :: ws[..n][j] == ws[j];
    hide Rank, Guard, After;
  }

  /**
   The error that stays is that of the last accepted write which carries one or ends its task
   without one, write `i`; with no such write, `i` being -1, there is none.
   */
  lemma {:induction false} LastErrorStays(ws: seq<Write>) returns (i: int)
    requires ws != []
    ensures -1 <= i < |ws| && forall j | i < j < |ws| :: !SetsError(ws, j)
    ensures i >= 0 ==> SetsError(ws, i)
    ensures After(None, ws).Some? && After(None, ws).value.error == if i >= 0 then ws[i].error else None
  {
    hide SetsError, Guard;
    var n := |ws| - 1;
    if n == 0 {
      i := FirstSetsError(ws);
    } else {
      i := LastErrorStays(ws[..n]);
      forall j | 0 <= j < n ensures SetsError(ws[..n], j) <==> SetsError(ws, j) {
        SetsErrorBefore(ws, n, j);
      }
      AcceptedLast(ws);
      LastSets(ws);
      if SetsError(ws, n) {
        i := n;
      }
    }
  }

  lemma LastSets(ws: seq<Write>)
    requires ws != []
    ensures var w := ws[|ws| - 1];
            SetsError(ws, |ws| - 1) <==> Accepted(ws, |ws| - 1) && (w.error.Some? || w.state == "done" || w.state == "cancelled")
  {
  }

  lemma FirstSetsError(ws: seq<Write>) returns (i: int)
    requires |ws| == 1
    ensures i == (if SetsError(ws, 0) then 0 else -1)
    ensures After(None, ws).Some? && After(None, ws).value.error == if i >= 0 then ws[i].error else None
  {
    assert After(None, ws[..0]) == None;
    assert Accepted(ws, 0);
    i := if SetsError(ws, 0) then 0 else -1;
  }

  // ---------- Reconciliation after a restart ----------

  predicate Terminal(state: string) { Rank(state) > 0 }

  predicate Suspended(state: string) { state == "running" || state == "paused" || state == "retry" }

  predicate KnownState(state: string) { Terminal(state) || Suspended(state) || state == "pending" }

  predicate Resumable(r: LedgerRow) { Suspended(r.state) && r.kind in BREAKPOINT_KINDS }

  predicate Interrupted(r: LedgerRow) {
    (Suspended(r.state) || r.state == "pending") && r.kind !in BREAKPOINT_KINDS
  }

  /** First UPDATE: breakpoint kinds go back to pending. */
  function Requeued(r: LedgerRow): LedgerRow {
    if Resumable(r) then r.(state := "pending") else r
  }

  /** Second UPDATE: everything else that was unfinished failed. */
  function Failed(r: LedgerRow): LedgerRow {
    if Interrupted(r) then
      r.(state := "failed", error := Some(if r.error.Some? then r.error.value else "interrupted by restart"))
    else r
  }

  type Table = map<string, LedgerRow>

  function Reconciled(t: Table): Table {
    var requeued := map id | id in t :: Requeued(t[id]);
    map id | id in requeued :: Failed(requeued[id])
  }

  predicate Settled(r: LedgerRow) {
    Terminal(r.state) || (r.state == "pending" && r.kind in BREAKPOINT_KINDS)
  }

  /**
   After reconciliation only terminal rows and pending breakpoint tasks are left, exactly if
   every stored state is one of the seven the queue writes.
   */
  lemma ReconcileSettlesIff(t: Table)
    ensures Reconciled(t).Keys == t.Keys
    ensures (forall id | id in t :: Settled(Reconciled(t)[id]))
       <==> (forall id | id in t :: KnownState(t[id].state))
  {
    forall id | id in t ensures Settled(Reconciled(t)[id]) <==> KnownState(t[id].state) {
      assert Reconciled(t)[id] == Failed(Requeued(t[id]));
    }
  }

  /**
   What both updates together make of a row: an unfinished task that can go on from a
   breakpoint is pending, any other unfinished one has failed, keeping the error it had.
   */
  lemma ReconciledRow(t: Table, id: string)
    requires id in t
    ensures var r := t[id];
            var resumes := r.kind == "convert_volumes" || r.kind == "video_upload" || r.kind == "netdisk_index";
            Reconciled(t)[id] ==
            if r.state in {"running", "paused", "retry", "pending"} then
              if resumes then r.(state := "pending")
              else r.(state := "failed", error := Some(if r.error == None then "interrupted by restart" else r.error.value))
            else r
  {
    assert Reconciled(t)[id] == Failed(Requeued(t[id]));
  }

  /** Terminal rows are not touched, and nothing but state and error of the others is. */
  lemma ReconcileKeepsTerminals(t: Table, id: string)
    requires id in t
    ensures Terminal(t[id].state) ==> Reconciled(t)[id] == t[id]
    ensures Reconciled(t)[id] == t[id].(state := Reconciled(t)[id].state, error := Reconciled(t)[id].error)
    ensures t[id].error.Some? ==> Reconciled(t)[id].error == t[id].error
  {
    assert Reconciled(t)[id] == Failed(Requeued(t[id]));
  }

  /** Reconciling twice is reconciling once: the second run finds nothing to do. */
  lemma ReconcileIsIdempotent(t: Table)
    ensures Reconciled(Reconciled(t)) == Reconciled(t)
    ensures forall id | id in t :: !Resumable(Reconciled(t)[id]) && !Interrupted(Reconciled(t)[id])
  {
    forall id | id in t
      ensures !Resumable(Reconciled(t)[id]) && !Interrupted(Reconciled(t)[id])
      ensures Reconciled(Reconciled(t))[id] == Reconciled(t)[id]
    {
      assert Reconciled(t)[id] == Failed(Requeued(t[id]));
      assert Reconciled(Reconciled(t))[id] == Failed(Requeued(Reconciled(t)[id]));
    }
  }

  // ---------- The operation log ----------

  datatype Op = Op(task: string, no: int, action: string)

  function MaxNo(ops: seq<Op>, task: string): int {
    if ops == [] then 0
    else
      var before := MaxNo(ops[..|ops| - 1], task);
      var last := ops[|ops| - 1];
      if last.task == task && last.no > before then last.no else before
  }

  function CountOf(ops: seq<Op>, task: string): nat {
    if ops == [] then 0
    else CountOf(ops[..|ops| - 1], task) + (if ops[|ops| - 1].task == task then 1 else 0)
  }

  /** INSERT ... SELECT COALESCE(MAX(seq), 0) + 1: read and write in one statement. */
  function Append(ops: seq<Op>, task: string, action: string): seq<Op> {
    ops + [Op(task, MaxNo(ops, task) + 1, action)]
  }

  /** Each task's operations are numbered 1, 2, 3, ... in the order they were appended. */
  ghost predicate Numbered(ops: seq<Op>) {
    forall i | 0 <= i < |ops| :: ops[i].no == CountOf(ops[..i + 1], ops[i].task)
  }

  lemma {:induction false} MaxIsCount(ops: seq<Op>, task: string)
    requires Numbered(ops)
    ensures MaxNo(ops, task) == CountOf(ops, task)
  {
    if ops != [] {
      var n := |ops| - 1;
      forall i | 0 <= i < n
        ensures ops[..n][i].no == CountOf(ops[..n][..i + 1], ops[..n][i].task)
      {
        assert ops[..n][..i + 1] == ops[..i + 1];
      }
      MaxIsCount(ops[..n], task);
      assert ops[..n + 1] == ops;
    }
  }

  /** Appending keeps the numbering gapless and duplicate-free for every task. */
  lemma AppendKeepsNumbering(ops: seq<Op>, task: string, action: string)
    requires Numbered(ops)
    ensures Numbered(Append(ops, task, action))
  {
    var after := Append(ops, task, action);
    MaxIsCount(ops, task);
    forall i | 0 <= i < |after| ensures after[i].no == CountOf(after[..i + 1], after[i].task) {
      if i < |ops| {
        assert after[..i + 1] == ops[..i + 1];
      } else {
        assert after[..i + 1] == after && after[..i] == ops;
      }
    }
  }

  // ---------- The store ----------

  class Outbox {
    var ledger: Table
    var ops: seq<Op>

    constructor ()
      ensures ledger == map[] && ops == []
    {
      ledger, ops := map[], [];
    }

    function Row(task: string): Option<LedgerRow>
      reads this
    {
      if task in ledger then Some(ledger[task]) else None
    }

    method LedgerUpsert(task: string, w: Write)
      modifies this`ledger
      ensures Row(task) == Some(Upsert(old(Row(task)), w))
      ensures forall t | t != task :: Row(t) == old(Row(t))
    {
      if task !in ledger {
        ledger := ledger[task := w];
      } else {
        var r := ledger[task];
        if (r.state != "cancelled" && r.state != "done" && r.state != "failed")
           || w.state == "cancelled"
           || (r.state != "cancelled" && (w.state == "done" || w.state == "failed")) {
          ledger := ledger[task := r.(payload := w.payload, state := w.state, retries := w.retries,
                                      error := MergedError(r, w))];
        }
      }
    }

    /** Any number of writes to one task, as they arrive. */
    method Deliver(task: string, ws: seq<Write>)
      modifies this`ledger
      ensures Row(task) == After(old(Row(task)), ws)
      ensures forall t | t != task :: Row(t) == old(Row(t))
    {
      for k := 0 to |ws|
        invariant Row(task) == After(old(Row(task)), ws[..k])
        invariant forall t | t != task :: Row(t) == old(Row(t))
      {
        assert ws[..k + 1][..k] == ws[..k];
        LedgerUpsert(task, ws[k]);
      }
      assert ws[..|ws|] == ws;
    }

    /** Both bulk updates; the result counts the rows they matched. */
    method LedgerReconcile() returns (n: nat)
      modifies this`ledger
      ensures ledger == Reconciled(old(ledger))
      ensures n == |set id | id in old(ledger) && Resumable(old(ledger)[id])|
                 + |set id | id in old(ledger) && Interrupted(old(ledger)[id])|
    {
      var t := ledger;
      var n1 := |set id | id in t && Resumable(t[id])|;
      var requeued := map id | id in t :: Requeued(t[id]);
      var interrupted := set id | id in requeued && Interrupted(requeued[id]);
      assert interrupted == set id | id in t && Interrupted(t[id]);
      ledger := map id | id in requeued :: Failed(requeued[id]);
      n := n1 + |interrupted|;
    }

    method OpsAppend(task: string, action: string)
      modifies this`ops
      ensures ops == Append(old(ops), task, action)
      ensures old(Numbered(ops)) ==> Numbered(ops)
    {
      if Numbered(ops) {
        AppendKeepsNumbering(ops, task, action);
      }
      ops := ops + [Op(task, MaxNo(ops, task) + 1, action)];
    }
  }
}
