/**
 Where a batch takes the registered parts, and when it commits, told from the old table and the
 items alone, whatever the items' status (adapters/persistence/sqlite/resources_write.py,
 resources.py). The identity hand-over and the chase run one repointing statement after another;
 no statement undoes or continues another.
 */
module PartMoves {
  import opened Options
  import opened ResourceTable
  import opened ResourceBatch
  import opened RepeatedNames
  import opened CommitCondition
  import opened StoredRows

  /**
   The parts under file row `i` go to the id of item `j`: the item lists this file under another
   id, and the row is live or hands over.
   */
  ghost predicate GoesTo(rows: seq<Row>, items: seq<Item>, i: nat, j: nat) {
    && i < |rows| && j < |items| && rows[i].kind == File
    && rows[i].Ident() == items[j].Ident() && rows[i].rid != items[j].Rid()
    && (rows[i].Live() || Predecessor(rows, items, j, i))
  }

  ghost predicate TakesFrom(rows: seq<Row>, items: seq<Item>, i: nat, j: nat, parent: string) {
    GoesTo(rows, items, i, j) && rows[i].rid == parent
  }

  /** The parent a part ends with. */
  ghost function NewParent(rows: seq<Row>, items: seq<Item>, parent: string): string {
    if i: nat, j: nat :| TakesFrom(rows, items, i, j, parent) then items[j].Rid() else parent
  }

  // ---------- No statement continues another ----------

  lemma OneTarget(rows: seq<Row>, items: seq<Item>, i: nat, j: nat, a: nat, b: nat, parent: string)
    requires UniqueRids(rows) && ItemsOk(rows, items)
    requires TakesFrom(rows, items, i, j, parent) && TakesFrom(rows, items, a, b, parent)
    ensures a == i && b == j
  {
    assert rows[a].rid == rows[i].rid;
    assert items[b].Ident() == items[j].Ident();
  }

  lemma NewParentIs(rows: seq<Row>, items: seq<Item>, i: nat, j: nat, parent: string)
    requires UniqueRids(rows) && ItemsOk(rows, items) && TakesFrom(rows, items, i, j, parent)
    ensures j < |items| && NewParent(rows, items, parent) == items[j].Rid()
  {
    forall a: nat, b: nat | TakesFrom(rows, items, a, b, parent) ensures a == i && b == j {
      OneTarget(rows, items, i, j, a, b, parent);
    }
  }

  /** Nothing is taken from the id of an item. */
  lemma ItemsKeepTheirParts(rows: seq<Row>, items: seq<Item>, i: nat, j: nat, n: nat)
    requires ItemsOk(rows, items) && n < |items|
    ensures !TakesFrom(rows, items, i, j, items[n].Rid())
  {
  }

  /** Each statement takes the parts of a row where they belong. */
  ghost predicate Sound(rows: seq<Row>, items: seq<Item>, moves: seq<Move>) {
    forall n | 0 <= n < |moves| :: RightMove(rows, items, moves[n])
  }

  ghost predicate RightMove(rows: seq<Row>, items: seq<Item>, m: Move) {
    exists i: nat, j: nat :: TakesFrom(rows, items, i, j, m.from) && j < |items| && m.to == items[j].Rid()
  }

  lemma {:induction false} DestIs(rows: seq<Row>, items: seq<Item>, moves: seq<Move>, k: nat, parent: string)
    requires UniqueRids(rows) && ItemsOk(rows, items) && Sound(rows, items, moves) && k <= |moves|
    ensures Dest(moves, k, parent)
         == if exists n :: 0 <= n < k && moves[n].from == parent then NewParent(rows, items, parent) else parent
  {
    hide UniqueRids, ItemsOk, NewParent, TakesFrom;
    if k > 0 {
      DestIs(rows, items, moves, k - 1, parent);
      assert RightMove(rows, items, moves[k - 1]);
      var i: nat, j: nat :| TakesFrom(rows, items, i, j, moves[k - 1].from) && j < |items| && moves[k - 1].to == items[j].Rid();
      NewParentIs(rows, items, i, j, moves[k - 1].from);
      if n :| 0 <= n < k - 1 && moves[n].from == parent {
        assert RightMove(rows, items, moves[n]);
        var a: nat, b: nat :| TakesFrom(rows, items, a, b, parent) && b < |items| && moves[n].to == items[b].Rid();
        NewParentIs(rows, items, a, b, parent);
        ItemsKeepTheirParts(rows, items, i, j, b);
      }
    }
  }

  // ---------- The statements of a batch ----------

  lemma {:induction false} HandOverHas(items: seq<Item>, preds: seq<Row>, p: Row)
    requires p in preds && Heir(items, p).Some?
    ensures Move(p.rid, Heir(items, p).value.Rid()) in HandOvers(items, preds)
  {
    hide Heir;
    var n := |preds| - 1;
    if p != preds[n] {
      HandOverHas(items, preds[..n], p);
    }
  }

  lemma {:induction false} HandOverOnly(items: seq<Item>, preds: seq<Row>, m: Move) returns (p: Row)
    requires m in HandOvers(items, preds)
    ensures p in preds && Heir(items, p).Some? && m == Move(p.rid, Heir(items, p).value.Rid())
  {
    hide Heir;
    var n := |preds| - 1;
    if Heir(items, preds[n]).Some? && m == Move(preds[n].rid, Heir(items, preds[n]).value.Rid()) {
      p := preds[n];
    } else {
      p := HandOverOnly(items, preds[..n], m);
    }
  }

  lemma HandOverTakes(rows0: seq<Row>, items: seq<Item>, rows1: seq<Row>, m: Move) returns (i: nat, j: nat)
    requires TableOk(rows0) && KeysMatch(rows0) && ItemsOk(rows0, items) && Progress(rows0, items, |items|, rows1)
    requires m in HandOvers(items, ParentsOf(rows1))
    ensures TakesFrom(rows0, items, i, j, m.from) && j < |items| && m.to == items[j].Rid()
  {
    hide TableOk, KeysMatch, ItemsOk, Progress, Heir, ParentsOf, HandOvers, CompositionParent, Predecessor;
    var p := HandOverOnly(items, ParentsOf(rows1), m);
    i :| i < |rows1| && rows1[i] == p;
    assert CompositionParent(p);
    j :| j < |items| && items[j] == Heir(items, p).value;
    HandsOverIff(rows0, items, rows1, j, i);
    PredecessorIs(rows0, items, i, j);
  }

  lemma PredecessorIs(rows: seq<Row>, items: seq<Item>, i: nat, j: nat)
    requires j < |items| && Predecessor(rows, items, j, i)
    ensures GoesTo(rows, items, i, j)
  {
  }

  lemma PlanTakes(rows0: seq<Row>, items: seq<Item>, m: Move) returns (i: nat, j: nat)
    requires m in Plan(rows0, items)
    ensures TakesFrom(rows0, items, i, j, m.from) && j < |items| && m.to == items[j].Rid()
  {
    j := PlanOnly(rows0, items, |items|, m);
    i := FindLiveNamed(rows0, items[j]).value;
  }

  /** The statements the batch runs, in order. */
  ghost function Statements(rows0: seq<Row>, items: seq<Item>, rows1: seq<Row>): seq<Move> {
    HandOvers(items, ParentsOf(rows1)) + Plan(rows0, items)
  }

  lemma StatementsAreSound(rows0: seq<Row>, items: seq<Item>, rows1: seq<Row>)
    requires TableOk(rows0) && KeysMatch(rows0) && ItemsOk(rows0, items) && Progress(rows0, items, |items|, rows1)
    ensures Sound(rows0, items, Statements(rows0, items, rows1))
  {
    hide TableOk, KeysMatch, ItemsOk, Progress, HandOvers, ParentsOf, PlanPrefix, TakesFrom;
    var moves := Statements(rows0, items, rows1);
    forall n | 0 <= n < |moves|
      ensures RightMove(rows0, items, moves[n])
    {
      if moves[n] in HandOvers(items, ParentsOf(rows1)) {
        var i, j := HandOverTakes(rows0, items, rows1, moves[n]);
      } else {
        var i, j := PlanTakes(rows0, items, moves[n]);
      }
    }
  }

  /** No row that should give up its parts is forgotten. */
  lemma StatementsAreAll(rows0: seq<Row>, items: seq<Item>, rows1: seq<Row>, i: nat, j: nat, parent: string)
    requires TableOk(rows0) && KeysMatch(rows0) && ItemsOk(rows0, items) && Progress(rows0, items, |items|, rows1)
    requires TakesFrom(rows0, items, i, j, parent)
    ensures exists n :: 0 <= n < |Statements(rows0, items, rows1)| && Statements(rows0, items, rows1)[n].from == parent
  {
    hide TableOk, KeysMatch, ItemsOk, Progress, HandOvers, ParentsOf, PlanPrefix, Predecessor, Heir, CompositionParent;
    var m: Move;
    if rows0[i].Live() {
      m := LiveRowIsPlanned(rows0, items, i, j);
    } else {
      OldRowsStay(rows0, items, rows1);
      HandsOverIff(rows0, items, rows1, j, i);
      CompositionIdentity.ParentsOfHas(rows1, i);
      HandOverHas(items, ParentsOf(rows1), rows1[i]);
      m := Move(rows1[i].rid, Heir(items, rows1[i]).value.Rid());
    }
    assert m in Statements(rows0, items, rows1);
  }

  lemma LiveRowIsPlanned(rows0: seq<Row>, items: seq<Item>, i: nat, j: nat) returns (m: Move)
    requires TableOk(rows0) && KeysMatch(rows0) && ItemsOk(rows0, items)
    requires GoesTo(rows0, items, i, j) && rows0[i].Live()
    ensures m in Plan(rows0, items) && m.from == rows0[i].rid
  {
    assert LiveNamed(rows0[i], items[j]);
    var found := FindLiveNamed(rows0, items[j]).value;
    OneLiveRow(rows0, i, found);
    m := Move(rows0[i].rid, items[j].Rid());
    assert MoveFor(rows0, items[j]) == Some(m);
    PlanHas(rows0, items, |items|, j);
  }

  // ---------- The theorems ----------

  /** The whole run of statements takes every part to its new parent. */
  lemma DestIsNewParent(rows0: seq<Row>, items: seq<Item>, rows1: seq<Row>, parent: string)
    requires TableOk(rows0) && KeysMatch(rows0) && ItemsOk(rows0, items) && Progress(rows0, items, |items|, rows1)
    ensures var moves := Statements(rows0, items, rows1);
            Dest(moves, |moves|, parent) == NewParent(rows0, items, parent)
  {
    hide KeysMatch, ItemsOk, Progress, Statements, Sound, TakesFrom, UniqueLive;
    var moves := Statements(rows0, items, rows1);
    StatementsAreSound(rows0, items, rows1);
    DestIs(rows0, items, moves, |moves|, parent);
    if i: nat, j: nat :| TakesFrom(rows0, items, i, j, parent) {
      StatementsAreAll(rows0, items, rows1, i, j, parent);
    }
  }

  /** No two parts of one number come under one parent. */
  ghost predicate PartsStayApart(db: Db, items: seq<Item>) {
    forall a, b | 0 <= a < |db.vols| && 0 <= b < |db.vols| && db.vols[a].no == db.vols[b].no
                  && db.vols[a].parent != db.vols[b].parent ::
      NewParent(db.rows, items, db.vols[a].parent) != NewParent(db.rows, items, db.vols[b].parent)
  }

  ghost predicate PartsTaken(db: Db, items: seq<Item>, vols: seq<Vol>) {
    && |vols| == |db.vols|
    && forall m | 0 <= m < |vols| :: vols[m] == db.vols[m].(parent := NewParent(db.rows, items, db.vols[m].parent))
  }

  /**
   A batch of items of any status commits exactly if none of them brings back a deleted row whose
   name a live row has, and no two parts of one number come under one parent; and then every part
   is under its new parent and otherwise as it was.
   */
  lemma WhereThePartsGo(db: Db, items: seq<Item>)
    requires TableOk(db.rows) && KeysMatch(db.rows) && ItemsOk(db.rows, items)
    ensures Batch(db, items).Committed? <==> NoneRevives(db.rows, items, |items|) && PartsStayApart(db, items)
    ensures Batch(db, items).Committed? ==> PartsTaken(db, items, Batch(db, items).value.vols)
  {
    hide TableOk, KeysMatch, ItemsOk, Progress, UpsertPrefix, ChasePrefix, Inherit, PlanPrefix, HandOvers, ParentsOf,
         NoneRevives, NewParent, KeepsApart, AllAtDest, Dest;
    UpsertCommitsIff(db.rows, items, |items|);
    if UpsertAll(db.rows, items).Committed? {
      var rows1 := UpsertAll(db.rows, items).value;
      UpsertProgress(db.rows, items, |items|);
      var first, plan := HandOvers(items, ParentsOf(rows1)), Plan(db.rows, items);
      var moves := Statements(db.rows, items, rows1);
      InheritMoves(Db(rows1, db.vols), items);
      ChaseInTwo(db.vols, first, plan, |plan|);
      ChaseCommitsIff(db.vols, moves, |moves|);
      forall parent ensures Dest(moves, |moves|, parent) == NewParent(db.rows, items, parent) {
        DestIsNewParent(db.rows, items, rows1, parent);
      }
      ApartIff(db, items, moves);
      if KeepsApart(db.vols, moves, |moves|) {
        TakenThere(db, items, moves, ChasePrefix(db.vols, moves, |moves|).value);
      }
    }
  }

  lemma InheritMoves(db: Db, items: seq<Item>)
    ensures var moves := HandOvers(items, ParentsOf(db.rows));
            && (Inherit(db, items).Committed? <==> ChasePrefix(db.vols, moves, |moves|).Committed?)
            && (Inherit(db, items).Committed? ==> Inherit(db, items).value.vols == ChasePrefix(db.vols, moves, |moves|).value)
  {
    hide ChasePrefix, HandOvers, ParentsOf, InheritPrefix;
    var preds := ParentsOf(db.rows);
    if AnyChaseable(items) {
      assert preds[..|preds|] == preds;
      InheritIsChase(db, items, preds, |preds|);
    } else {
      NoHandOvers(items, preds);
      NoneChased(db.vols);
    }
  }

  lemma {:induction false} NoHandOvers(items: seq<Item>, preds: seq<Row>)
    requires !AnyChaseable(items)
    ensures HandOvers(items, preds) == []
  {
    if preds != [] {
      NoHandOvers(items, preds[..|preds| - 1]);
      NobodyHandsOver(items, preds, "");
    }
  }

  lemma ApartIff(db: Db, items: seq<Item>, moves: seq<Move>)
    requires forall parent :: Dest(moves, |moves|, parent) == NewParent(db.rows, items, parent)
    ensures KeepsApart(db.vols, moves, |moves|) <==> PartsStayApart(db, items)
  {
    hide Dest, NewParent;
  }

  lemma TakenThere(db: Db, items: seq<Item>, moves: seq<Move>, vols: seq<Vol>)
    requires forall parent :: Dest(moves, |moves|, parent) == NewParent(db.rows, items, parent)
    requires AllAtDest(db.vols, moves, |moves|, vols)
    ensures PartsTaken(db, items, vols)
  {
    hide Dest, NewParent;
  }
}
