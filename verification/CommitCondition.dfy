/**
 When a batch commits (adapters/persistence/sqlite/resources_write.py, resources.py). Two
 things can abort it: an item that brings a deleted row back while another live row holds its
 name, and repointing statements that put two parts of one number under one parent.
 */
module CommitCondition {
  import opened Options
  import opened ResourceTable
  import opened ResourceBatch
  import opened RepeatedNames
  import CompositionIdentity

  // ---------- The upsert ----------

  /** The id of the item belongs to a deleted row, and a live row has its name. */
  ghost predicate Revives(rows: seq<Row>, it: Item) {
    && it.status != Deleted
    && (exists a :: 0 <= a < |rows| && rows[a].rid == it.Rid() && !rows[a].Live())
    && (exists b :: 0 <= b < |rows| && rows[b].Live() && rows[b].Ident() == it.Ident())
  }

  ghost predicate NoneRevives(rows: seq<Row>, items: seq<Item>, k: nat)
    requires k <= |items|
  {
    forall j | 0 <= j < k :: !Revives(rows, items[j])
  }

  /** A row of the item's id or file is untouched by the items before it. */
  lemma StillUntouched(rows0: seq<Row>, items: seq<Item>, k: nat, rows: seq<Row>, a: nat)
    requires k < |items| && ItemsOk(rows0, items) && Progress(rows0, items, k, rows) && a < |rows0|
    requires rows0[a].rid == items[k].Rid() || rows0[a].Ident() == items[k].Ident()
    ensures rows[a] == rows0[a]
  {
    assert RowAccounted(rows0, items, k, a, rows[a]);
    forall j | 0 <= j < k ensures !Landed(rows0, items[j], a, rows[a]) {
      DistinctPair(rows0, items, j, k);
    }
  }

  lemma RevivesNow(rows0: seq<Row>, items: seq<Item>, k: nat, rows: seq<Row>)
    requires k < |items| && ItemsOk(rows0, items) && Progress(rows0, items, k, rows)
    ensures Revives(rows, items[k]) <==> Revives(rows0, items[k])
  {
    forall a | 0 <= a < |rows|
      ensures rows[a].rid == items[k].Rid() || rows[a].Ident() == items[k].Ident() ==>
                a < |rows0| && rows[a] == rows0[a]
    {
      if rows[a].rid == items[k].Rid() || rows[a].Ident() == items[k].Ident() {
        UntouchedBefore(rows0, items, k, rows, a);
      }
    }
    forall a | 0 <= a < |rows0|
      ensures rows0[a].rid == items[k].Rid() || rows0[a].Ident() == items[k].Ident() ==> rows[a] == rows0[a]
    {
      if rows0[a].rid == items[k].Rid() || rows0[a].Ident() == items[k].Ident() {
        StillUntouched(rows0, items, k, rows, a);
      }
    }
  }

  /** One statement on a table without stale keys aborts exactly if it revives a row like that. */
  lemma OneUpsertCommitsIff(rows: seq<Row>, it: Item)
    requires TableOk(rows) && KeysMatch(rows)
    requires forall a | 0 <= a < |rows| && rows[a].rid == it.Rid() :: rows[a].Ident() == it.Ident()
    ensures UpsertRow(rows, it).Committed? <==> !Revives(rows, it)
  {
    match ConflictRow(rows, it)
    case None =>
      assert FindRid(rows, it.Rid()).None?;
    case Some(i) =>
      var r := ConflictBody(rows[i], it);
      if FindRid(rows, it.Rid()).None? {
        assert InSlot(rows[i], it.group, it.kind, it.Key());
      }
      assert KeyMatches(rows[i]);
      forall j | 0 <= j < |rows| && j != i
        ensures rows[j].rid != r.rid
        ensures SameSlot(rows[j], r) <==> it.status != Deleted && !rows[i].Live() && rows[j].Live() && rows[j].Ident() == it.Ident()
      {
        assert KeyMatches(rows[j]);
        SlotIsFile(rows, i, j, it);
      }
      if !rows[i].Live() {
        assert rows[i].rid == it.Rid();
      } else if FindRid(rows, it.Rid()).Some? {
        assert forall a | 0 <= a < |rows| && rows[a].rid == it.Rid() :: a == i;
      }
  }

  lemma SlotIsFile(rows: seq<Row>, i: nat, j: nat, it: Item)
    requires UniqueLive(rows) && i < |rows| && j < |rows| && i != j && KeyMatches(rows[i]) && KeyMatches(rows[j])
    requires rows[i].rid == it.Rid() ==> rows[i].Ident() == it.Ident()
    requires rows[i].rid == it.Rid() || InSlot(rows[i], it.group, it.kind, it.Key())
    ensures SameSlot(rows[j], ConflictBody(rows[i], it)) <==>
            it.status != Deleted && !rows[i].Live() && rows[j].Live() && rows[j].Ident() == it.Ident()
  {
    if rows[j].group == rows[i].group && rows[j].kind == rows[i].kind {
      KeyDeterminesName(rows[i].group, rows[i].kind, rows[i].name, rows[j].name);
      KeyDeterminesName(rows[i].group, rows[i].kind, rows[i].name, it.name);
    }
    if rows[i].Live() {
      assert !SameSlot(rows[i], rows[j]);
    }
  }

  lemma {:induction false} UpsertCommitsIff(rows0: seq<Row>, items: seq<Item>, k: nat)
    requires k <= |items| && TableOk(rows0) && KeysMatch(rows0) && ItemsOk(rows0, items)
    ensures UpsertPrefix(rows0, items, k).Committed? <==> NoneRevives(rows0, items, k)
  {
    hide UpsertRow, Progress, Revives, ItemsOk, TableOk, KeysMatch;
    if k > 0 {
      UpsertCommitsIff(rows0, items, k - 1);
      if UpsertPrefix(rows0, items, k - 1).Committed? {
        var rows := UpsertPrefix(rows0, items, k - 1).value;
        UpsertProgress(rows0, items, k - 1);
        StepCommitsIff(rows0, items, k - 1, rows);
      }
    }
  }

  lemma StepCommitsIff(rows0: seq<Row>, items: seq<Item>, k: nat, rows: seq<Row>)
    requires k < |items| && ItemsOk(rows0, items) && Progress(rows0, items, k, rows)
    ensures UpsertRow(rows, items[k]).Committed? <==> !Revives(rows0, items[k])
  {
    hide UpsertRow, Revives;
    forall a | 0 <= a < |rows| && rows[a].rid == items[k].Rid() ensures rows[a].Ident() == items[k].Ident() {
      UntouchedBefore(rows0, items, k, rows, a);
    }
    RevivesNow(rows0, items, k, rows);
    OneUpsertCommitsIff(rows, items[k]);
  }

  // ---------- Repointing ----------

  /** Where the parts of a parent end after the first `k` moves. */
  function Dest(moves: seq<Move>, k: nat, parent: string): string
    requires k <= |moves|
  {
    if k == 0 then parent
    else
      var before := Dest(moves, k - 1, parent);
      if before == moves[k - 1].from then moves[k - 1].to else before
  }

  /** No two parts of one number come together from different parents. */
  ghost predicate KeepsApart(vols: seq<Vol>, moves: seq<Move>, k: nat)
    requires k <= |moves|
  {
    forall a, b | 0 <= a < |vols| && 0 <= b < |vols| && vols[a].no == vols[b].no && vols[a].parent != vols[b].parent ::
      Dest(moves, k, vols[a].parent) != Dest(moves, k, vols[b].parent)
  }

  ghost predicate AllAtDest(vols: seq<Vol>, moves: seq<Move>, k: nat, after: seq<Vol>)
    requires k <= |moves|
  {
    |after| == |vols| &&
    forall a | 0 <= a < |vols| :: after[a] == vols[a].(parent := Dest(moves, k, vols[a].parent))
  }

  lemma RepointStep(vols: seq<Vol>, moves: seq<Move>, k: nat, v: seq<Vol>)
    requires k < |moves| && AllAtDest(vols, moves, k, v) && KeepsApart(vols, moves, k)
    ensures Repoint(v, moves[k].from, moves[k].to).Committed? <==> KeepsApart(vols, moves, k + 1)
    ensures Repoint(v, moves[k].from, moves[k].to).Committed? ==>
              AllAtDest(vols, moves, k + 1, Repoint(v, moves[k].from, moves[k].to).value)
  {
    var from, to := moves[k].from, moves[k].to;
    if PartsCollide(v, from, to) {
      var a, b :| 0 <= a < |v| && 0 <= b < |v| && v[a].parent == from && v[b].parent == to && v[a].no == v[b].no;
      assert vols[a].no == vols[b].no && vols[a].parent != vols[b].parent;
    } else {
      forall a, b | 0 <= a < |vols| && 0 <= b < |vols| && vols[a].no == vols[b].no && vols[a].parent != vols[b].parent
        ensures Dest(moves, k + 1, vols[a].parent) != Dest(moves, k + 1, vols[b].parent)
      {
        assert v[a].parent != v[b].parent && v[a].no == v[b].no;
      }
    }
  }

  lemma ApartBefore(vols: seq<Vol>, moves: seq<Move>, k: nat)
    requires k < |moves| && KeepsApart(vols, moves, k + 1)
    ensures KeepsApart(vols, moves, k)
  {
    forall a, b | 0 <= a < |vols| && 0 <= b < |vols| && vols[a].no == vols[b].no && vols[a].parent != vols[b].parent
      ensures Dest(moves, k, vols[a].parent) != Dest(moves, k, vols[b].parent)
    {
      assert Dest(moves, k + 1, vols[a].parent) != Dest(moves, k + 1, vols[b].parent);
    }
  }

  /** Any run of repointing statements goes through exactly if it keeps such parts apart. */
  lemma {:induction false} ChaseCommitsIff(vols: seq<Vol>, moves: seq<Move>, k: nat)
    requires k <= |moves|
    ensures ChasePrefix(vols, moves, k).Committed? <==> KeepsApart(vols, moves, k)
    ensures ChasePrefix(vols, moves, k).Committed? ==> AllAtDest(vols, moves, k, ChasePrefix(vols, moves, k).value)
  {
    hide Repoint, KeepsApart, AllAtDest;
    if k == 0 {
      NoMoves(vols, moves);
    } else {
      ChaseCommitsIff(vols, moves, k - 1);
      if KeepsApart(vols, moves, k - 1) {
        RepointStep(vols, moves, k - 1, ChasePrefix(vols, moves, k - 1).value);
      } else if KeepsApart(vols, moves, k) {
        ApartBefore(vols, moves, k - 1);
      }
    }
  }

  lemma NoMoves(vols: seq<Vol>, moves: seq<Move>)
    ensures KeepsApart(vols, moves, 0) && AllAtDest(vols, moves, 0, vols)
  {
  }

  // ---------- The statements of inheritance ----------

  function HandOvers(items: seq<Item>, preds: seq<Row>): seq<Move> {
    if preds == [] then []
    else
      var pred := preds[|preds| - 1];
      HandOvers(items, preds[..|preds| - 1])
      + (match Heir(items, pred) case None => [] case Some(s) => [Move(pred.rid, s.Rid())])
  }

  lemma {:induction false} InheritIsChase(db: Db, items: seq<Item>, preds: seq<Row>, k: nat)
    requires k <= |preds|
    ensures var moves := HandOvers(items, preds[..k]);
            && (InheritPrefix(db, items, preds, k).Committed? <==> ChasePrefix(db.vols, moves, |moves|).Committed?)
            && (InheritPrefix(db, items, preds, k).Committed? ==>
                  InheritPrefix(db, items, preds, k).value.vols == ChasePrefix(db.vols, moves, |moves|).value)
  {
    hide Repoint, Heir, ChasePrefix;
    if k == 0 {
      NoneChased(db.vols);
    } else {
      InheritIsChase(db, items, preds, k - 1);
      assert preds[..k][..k - 1] == preds[..k - 1];
      var before, heir := HandOvers(items, preds[..k - 1]), Heir(items, preds[k - 1]);
      if heir.Some? {
        var mv := Move(preds[k - 1].rid, heir.value.Rid());
        ChaseOneMore(db.vols, before, mv);
        assert HandOvers(items, preds[..k]) == before + [mv];
      } else {
        assert HandOvers(items, preds[..k]) == before;
      }
    }
  }

  lemma NoneChased(vols: seq<Vol>)
    ensures ChasePrefix(vols, [], 0) == Committed(vols)
  {
  }

  lemma {:induction false} ChaseInTwo(vols: seq<Vol>, first: seq<Move>, second: seq<Move>, k: nat)
    requires k <= |second|
    ensures ChasePrefix(vols, first, |first|).Aborted? ==> ChasePrefix(vols, first + second, |first| + k).Aborted?
    ensures ChasePrefix(vols, first, |first|).Committed? ==>
              ChasePrefix(vols, first + second, |first| + k)
              == ChasePrefix(ChasePrefix(vols, first, |first|).value, second, k)
  {
    hide Repoint;
    if k == 0 {
      ChaseOfPrefix(vols, first, second, |first|);
    } else {
      ChaseInTwo(vols, first, second, k - 1);
      assert (first + second)[|first| + k - 1] == second[k - 1];
    }
  }

  // ---------- The whole batch ----------

  /** The hand-overs of an active batch, read off the old table: from each ghost to the last item of its name. */
  ghost function GhostMoves(rows: seq<Row>, items: seq<Item>, n: nat): seq<Move>
    requires n <= |rows|
  {
    if n == 0 then []
    else
      GhostMoves(rows, items, n - 1)
      + (if CompositionIdentity.Ghost(rows, items, n - 1)
         then [Move(rows[n - 1].rid, items[LastNaming(items, |items|, rows[n - 1].Ident()).value].Rid())] else [])
  }

  lemma {:induction false} HandOversAreGhosts(db: Db, items: seq<Item>, n: nat)
    requires TableOk(db.rows) && KeysMatch(db.rows) && HandlesOk(db.rows, items)
    requires UpsertAll(db.rows, items).Committed? && n <= |UpsertAll(db.rows, items).value|
    ensures HandOvers(items, ParentsOf(UpsertAll(db.rows, items).value[..n]))
         == GhostMoves(db.rows, items, if n < |db.rows| then n else |db.rows|)
  {
    hide Heir, CompositionIdentity.Ghost, HandlesOk, TableOk, KeysMatch, UpsertPrefix, CompositionParent;
    if n > 0 {
      var rows1 := UpsertAll(db.rows, items).value;
      HandOversAreGhosts(db, items, n - 1);
      CompositionIdentity.OnlyGhostsHandOver(db, items, n - 1);
      HandOversOfRow(items, rows1, n - 1);
      GhostIsOld(db.rows, items, n - 1);
      hide ParentsOf, HandOvers;
    }
  }

  lemma HandOversOfRow(items: seq<Item>, rows: seq<Row>, n: nat)
    requires n < |rows|
    ensures HandOvers(items, ParentsOf(rows[..n + 1]))
         == HandOvers(items, ParentsOf(rows[..n]))
            + (if CompositionParent(rows[n]) && Heir(items, rows[n]).Some?
               then [Move(rows[n].rid, Heir(items, rows[n]).value.Rid())] else [])
  {
    hide Heir, CompositionParent;
    assert rows[..n + 1][..n] == rows[..n];
    var before := ParentsOf(rows[..n]);
    if CompositionParent(rows[n]) {
      assert ParentsOf(rows[..n + 1]) == before + [rows[n]];
      HandOverOf(items, before, rows[n]);
    } else {
      assert ParentsOf(rows[..n + 1]) == before;
    }
  }

  lemma HandOverOf(items: seq<Item>, preds: seq<Row>, pred: Row)
    ensures HandOvers(items, preds + [pred])
         == HandOvers(items, preds) + (if Heir(items, pred).Some? then [Move(pred.rid, Heir(items, pred).value.Rid())] else [])
  {
    hide Heir;
    var all := preds + [pred];
    assert all != [] && all[|all| - 1] == pred && all[..|all| - 1] == preds;
  }

  lemma GhostIsOld(rows: seq<Row>, items: seq<Item>, p: nat)
    ensures CompositionIdentity.Ghost(rows, items, p) ==> p < |rows|
  {
  }

  /** Every repointing statement of an active batch, in order. */
  ghost function Repointings(db: Db, items: seq<Item>): seq<Move> {
    GhostMoves(db.rows, items, |db.rows|) + Plan(db.rows, items)
  }

  lemma ActiveItemsHandles(rows: seq<Row>, items: seq<Item>)
    requires ItemsOk(rows, items) && forall j | 0 <= j < |items| :: items[j].status == Active
    ensures HandlesOk(rows, items)
  {
  }

  lemma GhostIsListed(rows: seq<Row>, items: seq<Item>, p: nat)
    requires HandlesOk(rows, items)
    ensures CompositionIdentity.Ghost(rows, items, p) ==> AnyChaseable(items)
  {
    if CompositionIdentity.Ghost(rows, items, p) {
      assert Chaseable(items[LastNaming(items, |items|, rows[p].Ident()).value]);
    }
  }

  lemma NoGhostsUnlessChaseable(db: Db, items: seq<Item>, n: nat)
    requires !AnyChaseable(items) && n <= |db.rows| && HandlesOk(db.rows, items)
    ensures GhostMoves(db.rows, items, n) == []
  {
    if n > 0 {
      NoGhostsUnlessChaseable(db, items, n - 1);
      GhostIsListed(db.rows, items, n - 1);
    }
  }

  /**
   An active batch that meets the hypotheses commits exactly if no item brings back a deleted
   row whose name a live row has, and the repointings bring no two parts of one number together.
   */
  lemma BatchCommitsIff(db: Db, items: seq<Item>)
    requires TableOk(db.rows) && KeysMatch(db.rows) && ItemsOk(db.rows, items)
    requires forall j | 0 <= j < |items| :: items[j].status == Active
    ensures Batch(db, items).Committed? <==>
            && NoneRevives(db.rows, items, |items|)
            && KeepsApart(db.vols, Repointings(db, items), |Repointings(db, items)|)
  {
    hide TableOk, KeysMatch, ItemsOk, HandlesOk, UpsertPrefix, InheritPrefix, ChasePrefix, KeepsApart, GhostMoves,
         PlanPrefix, HandOvers, NoneRevives, AllAtDest, ParentsOf;
    ActiveItemsHandles(db.rows, items);
    UpsertCommitsIff(db.rows, items, |items|);
    if UpsertAll(db.rows, items).Committed? {
      var rows1 := UpsertAll(db.rows, items).value;
      var ghosts, plan := GhostMoves(db.rows, items, |db.rows|), Plan(db.rows, items);
      RowsGrow(db, items);
      HandOversAreGhosts(db, items, |rows1|);
      assert rows1[..|rows1|] == rows1;
      var preds := ParentsOf(rows1);
      assert preds[..|preds|] == preds;
      InheritIsChase(Db(rows1, db.vols), items, preds, |preds|);
      if !AnyChaseable(items) {
        NoGhostsUnlessChaseable(db, items, |db.rows|);
        NoneChased(db.vols);
      }
      ChaseInTwo(db.vols, ghosts, plan, |plan|);
      ChaseCommitsIff(db.vols, ghosts + plan, |ghosts + plan|);
    }
  }

  lemma RowsGrow(db: Db, items: seq<Item>)
    requires TableOk(db.rows) && KeysMatch(db.rows) && HandlesOk(db.rows, items) && UpsertAll(db.rows, items).Committed?
    ensures |db.rows| <= |UpsertAll(db.rows, items).value|
  {
    UpsertFate(db.rows, items, |items|);
  }
}
