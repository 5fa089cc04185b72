/**
 What identity inheritance is for: a composed file stays a composed file when its session
 handle changes (adapters/persistence/sqlite/resources_write.py, resources.py).
 */
module CompositionIdentity {
  import opened Options
  import opened ResourceTable
  import opened ResourceBatch
  import opened RepeatedNames

  /** A cloud listing knows nothing about composition. */
  ghost predicate PlainListing(items: seq<Item>) {
    forall i | 0 <= i < |items| :: items[i].meta == Object(None, None)
  }

  ghost predicate StaysComposed(rows: seq<Row>, rows': seq<Row>) {
    && |rows| <= |rows'|
    && forall i | 0 <= i < |rows| && ParentMeta(rows[i].meta) :: ParentMeta(rows'[i].meta)
  }

  lemma UpsertKeepsComposed(rows: seq<Row>, it: Item)
    requires it.meta == Object(None, None) && UpsertRow(rows, it).Committed?
    ensures StaysComposed(rows, UpsertRow(rows, it).value)
  {
  }

  lemma {:induction false} UpsertAllKeepsComposed(rows: seq<Row>, items: seq<Item>, k: nat)
    requires k <= |items| && PlainListing(items) && UpsertPrefix(rows, items, k).Committed?
    ensures StaysComposed(rows, UpsertPrefix(rows, items, k).value)
  {
    hide UpsertRow;
    if k > 0 {
      UpsertAllKeepsComposed(rows, items, k - 1);
      UpsertKeepsComposed(UpsertPrefix(rows, items, k - 1).value, items[k - 1]);
    }
  }

  /** The parent at index `p` has handed over: it is retired and its heir is composed. */
  ghost predicate HandedOver(items: seq<Item>, pred: Row, rows: seq<Row>) {
    Heir(items, pred).Some? ==>
      && (forall i | 0 <= i < |rows| && rows[i].rid == pred.rid :: rows[i].status == Deleted)
      && (forall i | 0 <= i < |rows| && rows[i].rid == Heir(items, pred).value.Rid() ::
            ParentMeta(rows[i].meta))
  }

  ghost predicate Inherited(items: seq<Item>, preds: seq<Row>, k: nat, rows: seq<Row>, rows': seq<Row>)
    requires k <= |preds|
  {
    && StaysComposed(rows, rows') && |rows'| == |rows|
    && forall p | 0 <= p < k :: HandedOver(items, preds[p], rows')
  }

  lemma InheritOneHandsOver(items: seq<Item>, preds: seq<Row>, k: nat, rows: seq<Row>, db: Db)
    requires k < |preds| && ParentMeta(preds[k].meta)
    requires Inherited(items, preds, k, rows, db.rows) && InheritOne(db, items, preds[k]).Committed?
    ensures Inherited(items, preds, k + 1, rows, InheritOne(db, items, preds[k]).value.rows)
  {
    var after := InheritOne(db, items, preds[k]).value.rows;
    forall p | 0 <= p < k + 1 ensures HandedOver(items, preds[p], after) {
      if p < k {
        assert HandedOver(items, preds[p], db.rows);
      }
    }
  }

  lemma {:induction false} InheritHandsOver(db: Db, items: seq<Item>, preds: seq<Row>, k: nat)
    requires k <= |preds| && InheritPrefix(db, items, preds, k).Committed?
    requires forall p | p in preds :: ParentMeta(p.meta)
    ensures Inherited(items, preds, k, db.rows, InheritPrefix(db, items, preds, k).value.rows)
  {
    hide InheritOne;
    if k > 0 {
      InheritHandsOver(db, items, preds, k - 1);
      assert preds[k - 1] in preds;
      InheritOneHandsOver(items, preds, k - 1, db.rows, InheritPrefix(db, items, preds, k - 1).value);
    }
  }

  lemma {:induction false} ParentsOfHas(rows: seq<Row>, i: nat)
    requires i < |rows| && CompositionParent(rows[i])
    ensures rows[i] in ParentsOf(rows)
  {
    if i < |rows| - 1 {
      ParentsOfHas(rows[..|rows| - 1], i);
    }
  }

  /**
   Re-listing never loses a composition: whatever a plain listing renames, revives or retires,
   every composed row stays composed, and a parent whose handle vanished while its name is
   listed is retired in favour of a composed heir.
   */
  lemma CompositionSurvivesRelisting(db: Db, items: seq<Item>)
    requires PlainListing(items) && Batch(db, items).Committed?
    ensures StaysComposed(db.rows, Batch(db, items).value.rows)
    ensures forall i | 0 <= i < |UpsertAll(db.rows, items).value|
                       && CompositionParent(UpsertAll(db.rows, items).value[i])
                       && AnyChaseable(items) ::
              HandedOver(items, UpsertAll(db.rows, items).value[i], Batch(db, items).value.rows)
  {
    hide UpsertPrefix, ChasePrefix, InheritPrefix, HandedOver;
    var rows1 := UpsertAll(db.rows, items).value;
    UpsertAllKeepsComposed(db.rows, items, |items|);
    if AnyChaseable(items) {
      var preds := ParentsOf(rows1);
      InheritHandsOver(Db(rows1, db.vols), items, preds, |preds|);
      forall i | 0 <= i < |rows1| && CompositionParent(rows1[i])
        ensures HandedOver(items, rows1[i], Batch(db, items).value.rows)
      {
        ParentsOfHas(rows1, i);
        var p :| 0 <= p < |preds| && preds[p] == rows1[i];
      }
    }
  }

  // ---------- Who hands over, and what the heir gets ----------

  /**
   A composition parent that was already deleted, that no item brings back, whose handle is
   not listed, and whose name is.
   */
  ghost predicate Ghost(rows: seq<Row>, items: seq<Item>, p: nat) {
    && p < |rows| && CompositionParent(rows[p]) && Buried(rows[p], items, |items|)
    && !Listed(items, rows[p].ref) && LastNaming(items, |items|, rows[p].Ident()).Some?
  }

  ghost predicate GhostOf(rows: seq<Row>, items: seq<Item>, p: int, id: Ident) {
    0 <= p && Ghost(rows, items, p) && rows[p].Ident() == id
  }

  /** Under an active listing only such a row hands over: which ones do can be told beforehand. */
  lemma OnlyGhostsHandOver(db: Db, items: seq<Item>, q: nat)
    requires TableOk(db.rows) && KeysMatch(db.rows) && HandlesOk(db.rows, items)
    requires UpsertAll(db.rows, items).Committed? && q < |UpsertAll(db.rows, items).value|
    ensures var pred := UpsertAll(db.rows, items).value[q];
            && (CompositionParent(pred) && Heir(items, pred).Some? <==> Ghost(db.rows, items, q))
            && (Ghost(db.rows, items, q) ==> pred == db.rows[q])
            && (Ghost(db.rows, items, q) ==>
                  Heir(items, pred).value == items[LastNaming(items, |items|, pred.Ident()).value])
  {
    hide UpsertPrefix, TableOk, KeysMatch;
    var rows1 := UpsertAll(db.rows, items).value;
    UpsertFate(db.rows, items, |items|);
    assert items[..|items|] == items;
    SuccessorIsLast(items, |items|, rows1[q].group, rows1[q].name);
    if rows1[q].kind == File && Heir(items, rows1[q]).Some? {
      HeirOfTombstone(db.rows, items, rows1, q);
      assert IdFate(db.rows, items, |items|, q, rows1[q]);
    }
  }

  /** The last of the first `k` parents that hands over to a row. */
  function LastHeirTo(items: seq<Item>, preds: seq<Row>, k: nat, rid: string): (r: Option<Row>)
    requires k <= |preds|
    ensures r.Some? ==> r.value in preds && Heir(items, r.value).Some? && Heir(items, r.value).value.Rid() == rid
    ensures r.None? ==> forall p | 0 <= p < k :: Heir(items, preds[p]).Some? ==> Heir(items, preds[p]).value.Rid() != rid
  {
    if k == 0 then None
    else if Heir(items, preds[k - 1]).Some? && Heir(items, preds[k - 1]).value.Rid() == rid then Some(preds[k - 1])
    else LastHeirTo(items, preds, k - 1, rid)
  }

  lemma {:induction false} InheritedMeta(db: Db, items: seq<Item>, preds: seq<Row>, k: nat, b: nat)
    requires k <= |preds| && InheritPrefix(db, items, preds, k).Committed? && b < |db.rows|
    ensures var rows, from := InheritPrefix(db, items, preds, k).value.rows, LastHeirTo(items, preds, k, db.rows[b].rid);
            |rows| == |db.rows| && rows[b].rid == db.rows[b].rid
            && rows[b].meta == if from.Some? then from.value.meta else db.rows[b].meta
  {
    hide Repoint, Heir;
    if k > 0 {
      InheritedMeta(db, items, preds, k - 1, b);
    }
  }

  /**
   What a listed file's row carries after an active batch: the meta of a ghost of that name
   exactly if there is one, in every batch anew, and what the upsert gave it otherwise.
   */
  lemma GhostsImposeTheirMeta(db: Db, items: seq<Item>, b: nat)
    requires TableOk(db.rows) && KeysMatch(db.rows) && HandlesOk(db.rows, items)
    requires Batch(db, items).Committed? && b < |UpsertAll(db.rows, items).value|
    requires var r := UpsertAll(db.rows, items).value[b];
             var last := LastNaming(items, |items|, r.Ident());
             r.kind == File && last.Some? && r.rid == items[last.value].Rid()
    ensures var r, rows' := UpsertAll(db.rows, items).value[b], Batch(db, items).value.rows;
            b < |rows'| &&
            if exists p :: GhostOf(db.rows, items, p, r.Ident()) then
              exists p :: GhostOf(db.rows, items, p, r.Ident()) && rows'[b].meta == db.rows[p].meta
            else rows'[b].meta == r.meta
  {
    hide UpsertPrefix, InheritPrefix, ChasePrefix, TableOk, KeysMatch, HandlesOk;
    var rows1 := UpsertAll(db.rows, items).value;
    var r := rows1[b];
    var preds := ParentsOf(rows1);
    var last := LastNaming(items, |items|, r.Ident()).value;
    AChaseable(db.rows, items, last, r);
    InheritedMeta(Db(rows1, db.vols), items, preds, |preds|, b);
    var from := LastHeirTo(items, preds, |preds|, r.rid);
    if from.Some? {
      var q :| 0 <= q < |rows1| && rows1[q] == from.value;
      OnlyGhostsHandOver(db, items, q);
      SameIdSameFile(items, rows1[q], r, db.rows);
      assert GhostOf(db.rows, items, q, r.Ident());
    } else {
      forall p | 0 <= p && Ghost(db.rows, items, p) ensures !GhostOf(db.rows, items, p, r.Ident()) {
        RowsOnlyGrow(db.rows, items);
        OnlyGhostsHandOver(db, items, p);
        ParentsOfHas(rows1, p);
        assert rows1[p] in preds;
        var n :| 0 <= n < |preds| && preds[n] == rows1[p];
      }
    }
  }

  lemma RowsOnlyGrow(rows0: seq<Row>, items: seq<Item>)
    requires TableOk(rows0) && KeysMatch(rows0) && HandlesOk(rows0, items) && UpsertAll(rows0, items).Committed?
    ensures |rows0| <= |UpsertAll(rows0, items).value|
  {
    UpsertFate(rows0, items, |items|);
  }

  lemma AChaseable(rows0: seq<Row>, items: seq<Item>, j: nat, r: Row)
    requires HandlesOk(rows0, items) && j < |items| && items[j].Ident() == r.Ident() && r.kind == File
    ensures AnyChaseable(items)
  {
    assert Chaseable(items[j]);
  }

  lemma SameIdSameFile(items: seq<Item>, pred: Row, r: Row, rows0: seq<Row>)
    requires HandlesOk(rows0, items) && pred.kind == File && r.kind == File
    requires Heir(items, pred).Some? && Heir(items, pred).value.Rid() == r.rid
    requires var last := LastNaming(items, |items|, r.Ident()); last.Some? && r.rid == items[last.value].Rid()
    ensures pred.Ident() == r.Ident()
  {
    var s := Heir(items, pred).value;
    var j :| 0 <= j < |items| && items[j] == s;
    assert j == LastNaming(items, |items|, r.Ident()).value;
  }
}
