/**
 What every row holds after a committed batch, told from the old table and the items alone
 (adapters/persistence/sqlite/resources_write.py, resources.py): identity, handle, status and
 meta of the rows the batch names, and what becomes of all the others.
 */
module StoredRows {
  import opened Options
  import opened ResourceTable
  import opened ResourceBatch
  import opened RepeatedNames
  import opened CompositionIdentity

  /**
   The row at `p` hands its meta to the row of item `j`: a composition parent of the same file
   under another id, whose handle is not listed, and which the item does not itself rewrite.
   */
  ghost predicate Predecessor(rows: seq<Row>, items: seq<Item>, j: nat, p: nat)
    requires j < |items|
  {
    && p < |rows| && rows[p].Ident() == items[j].Ident() && rows[p].rid != items[j].Rid()
    && rows[p].kind == File && rows[p].meta.Object?
    && (rows[p].meta.composition == Some("volumes") || rows[p].meta.volumes == Some(true))
    && (forall i | 0 <= i < |items| :: items[i].ref != rows[p].ref)
    && (rows[p].Live() ==> items[j].status == Deleted)
  }

  /** The last of them in table order. */
  ghost predicate LastPredecessor(rows: seq<Row>, items: seq<Item>, j: nat, p: nat)
    requires j < |items|
  {
    Predecessor(rows, items, j, p) && forall q | p < q < |rows| :: !Predecessor(rows, items, j, q)
  }

  // ---------- Who hands over ----------

  lemma SuccessorOf(items: seq<Item>, j: nat, pred: Row)
    requires DistinctItems(items) && (forall i | 0 <= i < |items| :: items[i].ref != "")
    requires j < |items| && pred.kind == File
    ensures Heir(items, pred) == Some(items[j]) <==>
            pred.Ident() == items[j].Ident() && pred.rid != items[j].Rid() && !Listed(items, pred.ref)
  {
    assert items[..|items|] == items;
    SuccessorIsLast(items, |items|, pred.group, pred.name);
    if pred.Ident() == items[j].Ident() {
      assert LastNaming(items, |items|, pred.Ident()) == Some(j);
    }
  }

  lemma NotListed(items: seq<Item>, ref: string)
    requires forall i | 0 <= i < |items| :: items[i].ref != ""
    ensures Listed(items, ref) <==> exists i :: 0 <= i < |items| && items[i].ref == ref
  {
  }

  /** The rows that hand over are known beforehand, and the upserts leave them alone. */
  lemma HandsOverIff(rows0: seq<Row>, items: seq<Item>, rows1: seq<Row>, j: nat, q: nat)
    requires TableOk(rows0) && KeysMatch(rows0) && ItemsOk(rows0, items)
    requires Progress(rows0, items, |items|, rows1) && j < |items| && q < |rows1|
    ensures Predecessor(rows0, items, j, q) ==> rows1[q] == rows0[q]
    ensures CompositionParent(rows1[q]) && Heir(items, rows1[q]) == Some(items[j]) <==> Predecessor(rows0, items, j, q)
  {
    assert RowAccounted(rows0, items, |items|, q, rows1[q]);
    NotListed(items, rows1[q].ref);
    if rows1[q].kind == File {
      SuccessorOf(items, j, rows1[q]);
    }
    if Predecessor(rows0, items, j, q) {
      forall n | 0 <= n < |items| ensures !Landed(rows0, items[n], q, rows1[q]) {
        assert rows0[q].Ident() == items[n].Ident() ==> n == j;
      }
    } else if CompositionParent(rows1[q]) && Heir(items, rows1[q]) == Some(items[j]) {
      UntouchedHandsOver(rows0, items, rows1, j, q);
    }
  }

  lemma UntouchedHandsOver(rows0: seq<Row>, items: seq<Item>, rows1: seq<Row>, j: nat, q: nat)
    requires ItemsOk(rows0, items) && Progress(rows0, items, |items|, rows1) && j < |items| && q < |rows1|
    requires CompositionParent(rows1[q]) && Heir(items, rows1[q]) == Some(items[j])
    ensures q < |rows0| && rows1[q] == rows0[q] && Predecessor(rows0, items, j, q)
  {
    assert RowAccounted(rows0, items, |items|, q, rows1[q]);
    NotListed(items, rows1[q].ref);
    SuccessorOf(items, j, rows1[q]);
    if rows1[q].Live() && items[j].status != Deleted {
      assert ItemAccounted(rows0, items[j], rows1);
      var a :| 0 <= a < |rows1| && Landed(rows0, items[j], a, rows1[a]);
      LandedIsLive(rows0, items, rows1, q, a, j);
    }
  }

  // ---------- What the hand-over writes ----------

  lemma {:induction false} LastHeirOfPrefix(items: seq<Item>, preds: seq<Row>, more: seq<Row>, k: nat, rid: string)
    requires k <= |preds|
    ensures LastHeirTo(items, preds + more, k, rid) == LastHeirTo(items, preds, k, rid)
  {
    hide Heir;
    if k > 0 {
      LastHeirOfPrefix(items, preds, more, k - 1, rid);
      assert (preds + more)[k - 1] == preds[k - 1];
    }
  }

  ghost predicate HandsTo(items: seq<Item>, pred: Row, rid: string) {
    CompositionParent(pred) && Heir(items, pred).Some? && Heir(items, pred).value.Rid() == rid
  }

  lemma ScanStep(items: seq<Item>, rows: seq<Row>, rid: string)
    requires rows != []
    ensures var before, last := ParentsOf(rows[..|rows| - 1]), rows[|rows| - 1];
            LastHeirTo(items, ParentsOf(rows), |ParentsOf(rows)|, rid)
            == if HandsTo(items, last, rid) then Some(last) else LastHeirTo(items, before, |before|, rid)
  {
    hide Heir, CompositionParent;
    var before, last := ParentsOf(rows[..|rows| - 1]), rows[|rows| - 1];
    if CompositionParent(last) {
      LastHeirOfPrefix(items, before, [last], |before|, rid);
      assert ParentsOf(rows) == before + [last] && (before + [last])[|before|] == last;
    } else {
      assert ParentsOf(rows) == before;
    }
  }

  /** The last parent that hands over to a row, in table order; -1 if there is none. */
  lemma {:induction false} LastInTable(items: seq<Item>, rows: seq<Row>, rid: string) returns (p: int)
    ensures -1 <= p < |rows| && forall q | p < q < |rows| :: !HandsTo(items, rows[q], rid)
    ensures p >= 0 ==> HandsTo(items, rows[p], rid)
    ensures LastHeirTo(items, ParentsOf(rows), |ParentsOf(rows)|, rid) == if p >= 0 then Some(rows[p]) else None
  {
    hide HandsTo, Heir, CompositionParent;
    if rows == [] {
      p := -1;
    } else {
      var n := |rows| - 1;
      ScanStep(items, rows, rid);
      hide ParentsOf, LastHeirTo;
      if HandsTo(items, rows[n], rid) {
        p := n;
      } else {
        p := LastInTable(items, rows[..n], rid);
      }
    }
  }

  ghost predicate Retires(items: seq<Item>, preds: seq<Row>, k: nat, rid: string)
    requires k <= |preds|
  {
    exists p :: 0 <= p < k && Heir(items, preds[p]).Some? && preds[p].rid == rid
  }

  lemma {:induction false} InheritedStatus(db: Db, items: seq<Item>, preds: seq<Row>, k: nat, b: nat)
    requires k <= |preds| && InheritPrefix(db, items, preds, k).Committed? && b < |db.rows|
    ensures var rows := InheritPrefix(db, items, preds, k).value.rows;
            |rows| == |db.rows|
            && rows[b] == db.rows[b].(meta := rows[b].meta,
                 status := if Retires(items, preds, k, db.rows[b].rid) then Deleted else db.rows[b].status)
  {
    hide Repoint, Heir;
    if k > 0 {
      InheritedStatus(db, items, preds, k - 1, b);
      assert Retires(items, preds, k, db.rows[b].rid) <==>
             Retires(items, preds, k - 1, db.rows[b].rid)
             || (Heir(items, preds[k - 1]).Some? && preds[k - 1].rid == db.rows[b].rid);
    }
  }

  /** After the hand-over: the meta of the last parent handing over, and who is retired. */
  lemma RowAfterInherit(rows1: seq<Row>, db: Db, items: seq<Item>, b: nat) returns (p: int)
    requires db.rows == rows1 && UniqueRids(rows1) && b < |rows1| && Inherit(db, items).Committed?
    ensures -1 <= p < |rows1| && forall q | p < q < |rows1| :: !HandsTo(items, rows1[q], rows1[b].rid)
    ensures p >= 0 ==> HandsTo(items, rows1[p], rows1[b].rid)
    ensures var rows2 := Inherit(db, items).value.rows;
            |rows2| == |rows1|
            && rows2[b] == rows1[b].(meta := if p >= 0 then rows1[p].meta else rows1[b].meta,
                 status := if CompositionParent(rows1[b]) && Heir(items, rows1[b]).Some? then Deleted else rows1[b].status)
  {
    hide InheritPrefix, Heir, CompositionParent;
    if AnyChaseable(items) {
      var preds := ParentsOf(rows1);
      p := LastInTable(items, rows1, rows1[b].rid);
      InheritedMeta(db, items, preds, |preds|, b);
      InheritedStatus(db, items, preds, |preds|, b);
      if CompositionParent(rows1[b]) {
        ParentsOfHas(rows1, b);
        var n :| 0 <= n < |preds| && preds[n] == rows1[b];
      }
      if Retires(items, preds, |preds|, rows1[b].rid) {
        var n :| 0 <= n < |preds| && Heir(items, preds[n]).Some? && preds[n].rid == rows1[b].rid;
        assert preds[n] in preds;
      }
    } else {
      p := -1;
      NobodyHandsOver(items, rows1, rows1[b].rid);
    }
  }

  lemma NobodyHandsOver(items: seq<Item>, rows: seq<Row>, rid: string)
    requires !AnyChaseable(items)
    ensures forall q | 0 <= q < |rows| :: Heir(items, rows[q]) == None && !HandsTo(items, rows[q], rid)
  {
    forall it | it in items ensures !Chaseable(it) {
    }
  }

  // ---------- The theorem ----------

  /** Each flag from the item where it is present, the row's own otherwise. */
  ghost predicate Patched(own: Meta, given: MetaObject, m: Meta)
    requires own.Object?
  {
    && m.Object?
    && (given.volumes.Some? ==> m.volumes == given.volumes)
    && (given.volumes.None? ==> m.volumes == own.volumes)
    && (given.composition.Some? ==> m.composition == given.composition)
    && (given.composition.None? ==> m.composition == own.composition)
  }

  ghost predicate StoredMeta(rows0: seq<Row>, items: seq<Item>, j: nat, b: nat, m: Meta)
    requires j < |items|
  {
    if exists p: nat :: LastPredecessor(rows0, items, j, p) then
      exists p: nat :: LastPredecessor(rows0, items, j, p) && m == rows0[p].meta
    else if b < |rows0| && rows0[b].meta.Object?
            && (rows0[b].meta.composition.Some? || rows0[b].meta.volumes == Some(true)) then
      Patched(rows0[b].meta, items[j].meta, m)
    else
      m == items[j].meta
  }

  /** Item `j` is stored at `b`: on the row with its id, else on the live row of its file, else on a new one. */
  ghost predicate StoredAt(rows0: seq<Row>, it: Item, b: nat) {
    && (b < |rows0| ==> rows0[b].rid == it.Rid() || (rows0[b].Live() && it.status != Deleted && rows0[b].Ident() == it.Ident()))
    && (forall a | 0 <= a < |rows0| && rows0[a].rid == it.Rid() :: a == b)
    && (forall a | 0 <= a < |rows0| && rows0[a].Live() && it.status != Deleted && rows0[a].Ident() == it.Ident() :: a == b)
  }

  ghost predicate StoresItem(rows0: seq<Row>, items: seq<Item>, j: nat, b: nat, r: Row)
    requires j < |items|
  {
    var it := items[j];
    && StoredAt(rows0, it, b)
    && r.rid == it.Rid() && r.group == it.group && r.kind == it.kind && r.name == it.name && r.ref == it.ref
    && KeyMatches(r)
    && r.status == (if b < |rows0| && rows0[b].status == Archived && it.status == Active then Archived else it.status)
    && StoredMeta(rows0, items, j, b, r.meta)
  }

  /** No item names the row: it is as it was, or retired because it handed over. */
  ghost predicate LeftAlone(rows0: seq<Row>, items: seq<Item>, b: nat, r: Row) {
    && b < |rows0|
    && r == if exists j :: 0 <= j < |items| && Predecessor(rows0, items, j, b)
            then rows0[b].(status := Deleted) else rows0[b]
  }

  lemma LandsAt(rows0: seq<Row>, items: seq<Item>, rows1: seq<Row>, j: nat, b: nat)
    requires TableOk(rows0) && KeysMatch(rows0) && ItemsOk(rows0, items)
    requires Progress(rows0, items, |items|, rows1) && j < |items| && b < |rows1|
    requires rows1[b].rid == items[j].Rid()
    ensures Landed(rows0, items[j], b, rows1[b]) && StoredAt(rows0, items[j], b)
  {
    var it := items[j];
    assert ItemAccounted(rows0, it, rows1);
    var i :| 0 <= i < |rows1| && Landed(rows0, it, i, rows1[i]);
    assert i == b;
    forall a | 0 <= a < |rows0| && rows0[a].rid == it.Rid() ensures a == b {
      assert RowAccounted(rows0, items, |items|, a, rows1[a]);
      assert rows0[a].Ident() == it.Ident();
      if rows1[a] != rows0[a] {
        var n :| 0 <= n < |items| && Landed(rows0, items[n], a, rows1[a]);
        assert items[n].Ident() == it.Ident();
      }
    }
    forall a | 0 <= a < |rows0| && rows0[a].Live() && it.status != Deleted && rows0[a].Ident() == it.Ident() ensures a == b {
      LandedIsLive(rows0, items, rows1, a, b, j);
    }
  }

  lemma NotNamed(rows0: seq<Row>, items: seq<Item>, rows1: seq<Row>, b: nat)
    requires Progress(rows0, items, |items|, rows1) && b < |rows1|
    requires forall j | 0 <= j < |items| :: rows1[b].rid != items[j].Rid()
    ensures b < |rows0| && rows1[b] == rows0[b]
  {
    assert RowAccounted(rows0, items, |items|, b, rows1[b]);
  }

  lemma StoredInherited(rows0: seq<Row>, items: seq<Item>, rows1: seq<Row>, j: nat, b: nat, p: int, m: Meta)
    requires TableOk(rows0) && KeysMatch(rows0) && ItemsOk(rows0, items)
    requires Progress(rows0, items, |items|, rows1) && j < |items| && b < |rows1| && rows1[b].rid == items[j].Rid()
    requires -1 <= p < |rows1| && forall q | p < q < |rows1| :: !HandsTo(items, rows1[q], rows1[b].rid)
    requires p >= 0 ==> HandsTo(items, rows1[p], rows1[b].rid)
    requires m == if p >= 0 then rows1[p].meta else rows1[b].meta
    ensures StoredMeta(rows0, items, j, b, m)
  {
    hide TableOk, KeysMatch, ItemsOk, Progress;
    LandsAt(rows0, items, rows1, j, b);
    OldRowsStay(rows0, items, rows1);
    forall q: nat | q < |rows1| ensures HandsTo(items, rows1[q], rows1[b].rid) <==> Predecessor(rows0, items, j, q) {
      HandsOverIff(rows0, items, rows1, j, q);
      OneItemPerId(rows0, items, j, rows1[q]);
    }
    if p >= 0 {
      HandsOverIff(rows0, items, rows1, j, p);
      assert LastPredecessor(rows0, items, j, p);
    }
  }

  lemma OldRowsStay(rows0: seq<Row>, items: seq<Item>, rows1: seq<Row>)
    requires Progress(rows0, items, |items|, rows1)
    ensures |rows0| <= |rows1|
  {
  }

  lemma OneItemPerId(rows0: seq<Row>, items: seq<Item>, j: nat, pred: Row)
    requires ItemsOk(rows0, items) && j < |items|
    ensures Heir(items, pred).Some? && Heir(items, pred).value.Rid() == items[j].Rid() <==> Heir(items, pred) == Some(items[j])
  {
    if Heir(items, pred).Some? {
      var n :| 0 <= n < |items| && items[n] == Heir(items, pred).value;
    }
  }

  /** A row some item names hands nothing over; any other does exactly as told. */
  lemma RetiredIff(rows0: seq<Row>, items: seq<Item>, rows1: seq<Row>, b: nat)
    requires TableOk(rows0) && KeysMatch(rows0) && ItemsOk(rows0, items)
    requires Progress(rows0, items, |items|, rows1) && b < |rows1|
    ensures CompositionParent(rows1[b]) && Heir(items, rows1[b]).Some?
       <==> exists j :: 0 <= j < |items| && Predecessor(rows0, items, j, b)
    ensures (exists j :: 0 <= j < |items| && rows1[b].rid == items[j].Rid()) ==> Heir(items, rows1[b]).None?
  {
    hide TableOk, KeysMatch, ItemsOk, Progress;
    forall j | 0 <= j < |items|
      ensures CompositionParent(rows1[b]) && Heir(items, rows1[b]) == Some(items[j]) <==> Predecessor(rows0, items, j, b)
    {
      HandsOverIff(rows0, items, rows1, j, b);
    }
    if Heir(items, rows1[b]).Some? {
      var n :| 0 <= n < |items| && items[n] == Heir(items, rows1[b]).value;
    }
    if j :| 0 <= j < |items| && rows1[b].rid == items[j].Rid() {
      LandsAt(rows0, items, rows1, j, b);
      HandleIsListed(rows0, items, j, b, rows1[b]);
    }
  }

  lemma HandleIsListed(rows0: seq<Row>, items: seq<Item>, j: nat, b: nat, r: Row)
    requires ItemsOk(rows0, items) && j < |items| && Landed(rows0, items[j], b, r)
    ensures Listed(items, r.ref)
  {
    assert items[j].ref == r.ref;
  }

  lemma StagesOfRow(db: Db, items: seq<Item>, b: nat) returns (rows1: seq<Row>, p: int)
    requires TableOk(db.rows) && KeysMatch(db.rows) && ItemsOk(db.rows, items) && Batch(db, items).Committed?
    requires b < |Batch(db, items).value.rows|
    ensures TableOk(rows1) && Progress(db.rows, items, |items|, rows1) && KeysMatch(Batch(db, items).value.rows)
    ensures |rows1| == |Batch(db, items).value.rows|
    ensures -1 <= p < |rows1| && forall q | p < q < |rows1| :: !HandsTo(items, rows1[q], rows1[b].rid)
    ensures p >= 0 ==> HandsTo(items, rows1[p], rows1[b].rid)
    ensures Batch(db, items).value.rows[b] == rows1[b].(meta := if p >= 0 then rows1[p].meta else rows1[b].meta,
                 status := if CompositionParent(rows1[b]) && Heir(items, rows1[b]).Some? then Deleted else rows1[b].status)
  {
    hide ItemsOk, KeysMatch, Progress, ChasePrefix, Inherit, Heir, HandsTo, CompositionParent;
    rows1 := BatchStages(db, items);
    p := RowAfterInherit(rows1, Db(rows1, db.vols), items, b);
  }

  ghost predicate RowStored(rows0: seq<Row>, items: seq<Item>, b: nat, r: Row) {
    && (forall j | 0 <= j < |items| && items[j].Rid() == r.rid :: StoresItem(rows0, items, j, b, r))
    && ((forall j | 0 <= j < |items| :: items[j].Rid() != r.rid) ==> LeftAlone(rows0, items, b, r))
  }

  /** Every row is accounted for, and so is every item. */
  ghost predicate BatchStored(rows0: seq<Row>, items: seq<Item>, rows: seq<Row>) {
    && |rows0| <= |rows|
    && (forall b | 0 <= b < |rows| :: RowStored(rows0, items, b, rows[b]))
    && (forall j | 0 <= j < |items| :: ExactlyOneRow(rows, items[j].Rid()))
  }

  lemma OneRowStored(db: Db, items: seq<Item>, b: nat)
    requires TableOk(db.rows) && KeysMatch(db.rows) && ItemsOk(db.rows, items) && Batch(db, items).Committed?
    requires b < |Batch(db, items).value.rows|
    ensures RowStored(db.rows, items, b, Batch(db, items).value.rows[b])
  {
    hide Batch, TableOk, ItemsOk, Progress, Heir, CompositionParent, HandsTo, Predecessor;
    var r := Batch(db, items).value.rows[b];
    var rows1, p := StagesOfRow(db, items, b);
    RetiredIff(db.rows, items, rows1, b);
    forall j | 0 <= j < |items| && items[j].Rid() == r.rid ensures StoresItem(db.rows, items, j, b, r) {
      LandsAt(db.rows, items, rows1, j, b);
      StoredInherited(db.rows, items, rows1, j, b, p, r.meta);
    }
    if forall j | 0 <= j < |items| :: items[j].Rid() != r.rid {
      NotNamed(db.rows, items, rows1, b);
      if p >= 0 {
        NobodyInherits(items, rows1[p], r.rid);
      }
    }
  }

  /**
   The whole table after a committed batch, from the old table and the items: the row with an
   item's id is where that item belongs, with its name, handle and key, its status unless that
   is the archived row of an active item, and its meta unless a vanished parent imposes its own
   or the row is itself composed; every other row is as it was, but for the parents that hand
   over, which are retired.
   */
  lemma WhatABatchStores(db: Db, items: seq<Item>)
    requires TableOk(db.rows) && KeysMatch(db.rows) && ItemsOk(db.rows, items) && Batch(db, items).Committed?
    ensures BatchStored(db.rows, items, Batch(db, items).value.rows)
  {
    hide Batch, TableOk, KeysMatch, ItemsOk, RowStored;
    CommittedBatch(db, items);
    forall b | 0 <= b < |Batch(db, items).value.rows|
      ensures RowStored(db.rows, items, b, Batch(db, items).value.rows[b])
    {
      OneRowStored(db, items, b);
    }
  }

  lemma NobodyInherits(items: seq<Item>, pred: Row, rid: string)
    requires HandsTo(items, pred, rid)
    ensures exists j :: 0 <= j < |items| && items[j].Rid() == rid
  {
    var n :| 0 <= n < |items| && items[n] == Heir(items, pred).value;
  }

  // ---------- Items without a handle ----------

  /** Whatever else a batch lists, an item without a handle plans no move and is nobody's heir. */
  lemma HandlelessIsInert(rows: seq<Row>, before: seq<Item>, it: Item, after: seq<Item>, pred: Row)
    requires it.ref == ""
    ensures Plan(rows, before + [it] + after) == Plan(rows, before + after)
    ensures Heir(before + [it] + after, pred) == Heir(before + after, pred)
  {
    hide Listed, Successor, PlanPrefix;
    HandlelessPlansNothing(rows, before, it, after, |after|);
    HandlelessSucceedsNobody(before, it, after, pred.group, pred.name);
    HandlelessIsNotListed(before, it, after, pred.ref);
  }

  lemma HandlelessIsNotListed(before: seq<Item>, it: Item, after: seq<Item>, ref: string)
    requires it.ref == ""
    ensures Listed(before + [it] + after, ref) <==> Listed(before + after, ref)
  {
    var short, long := before + after, before + [it] + after;
    if Listed(long, ref) {
      var i :| 0 <= i < |long| && long[i].ref != "" && long[i].ref == ref;
      assert long[i] == if i < |before| then short[i] else short[i - 1];
    }
    if Listed(short, ref) {
      var i :| 0 <= i < |short| && short[i].ref != "" && short[i].ref == ref;
      assert short[i] == if i < |before| then long[i] else long[i + 1];
    }
  }

  lemma {:induction false} PlanOfPrefix(rows: seq<Row>, items: seq<Item>, more: seq<Item>, k: nat)
    requires k <= |items|
    ensures PlanPrefix(rows, items + more, k) == PlanPrefix(rows, items, k)
  {
    hide MoveFor;
    if k > 0 {
      PlanOfPrefix(rows, items, more, k - 1);
      assert (items + more)[k - 1] == items[k - 1];
    }
  }

  lemma NotMoved(rows: seq<Row>, it: Item)
    requires it.ref == ""
    ensures MoveFor(rows, it) == None
  {
  }

  lemma {:induction false} HandlelessPlansNothing(rows: seq<Row>, before: seq<Item>, it: Item, after: seq<Item>, k: nat)
    requires it.ref == "" && k <= |after|
    ensures PlanPrefix(rows, before + [it] + after, |before| + 1 + k) == PlanPrefix(rows, before + after, |before| + k)
  {
    hide MoveFor;
    var short, long := before + after, before + [it] + after;
    if k == 0 {
      assert long == before + ([it] + after) && long[|before|] == it;
      NotMoved(rows, it);
      PlanOfPrefix(rows, before, [it] + after, |before|);
      PlanOfPrefix(rows, before, after, |before|);
    } else {
      HandlelessPlansNothing(rows, before, it, after, k - 1);
      assert long[|before| + k] == after[k - 1] == short[|before| + k - 1];
    }
  }

  lemma SuccessorOfMore(items: seq<Item>, last: Item, group: string, name: string)
    ensures Successor(items + [last], group, name)
         == if Chaseable(last) && last.group == group && last.name == name then Some(last)
            else Successor(items, group, name)
  {
    assert (items + [last])[..|items|] == items;
  }

  lemma {:induction false} HandlelessSucceedsNobody(before: seq<Item>, it: Item, after: seq<Item>, group: string, name: string)
    requires it.ref == ""
    ensures Successor(before + [it] + after, group, name) == Successor(before + after, group, name)
  {
    hide Successor;
    if after == [] {
      assert before + [it] + after == before + [it] && before + after == before;
      SuccessorOfMore(before, it, group, name);
    } else {
      var n := |after| - 1;
      HandlelessSucceedsNobody(before, it, after[..n], group, name);
      assert before + [it] + after == (before + [it] + after[..n]) + [after[n]];
      assert before + after == (before + after[..n]) + [after[n]];
      SuccessorOfMore(before + [it] + after[..n], after[n], group, name);
      SuccessorOfMore(before + after[..n], after[n], group, name);
    }
  }
}
