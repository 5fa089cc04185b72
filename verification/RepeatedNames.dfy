/**
 Batches that list one name several times. Two distinct cloud files may share a name in one
 folder (adapters/persistence/sqlite/resources_write.py, resources.py), and then the chase can
 lose the parts of the row they collapse onto. This module says exactly when.
 */
module RepeatedNames {
  import opened Options
  import opened ResourceTable
  import opened ResourceBatch

  /** The hypotheses of the index theorems for an active listing, without distinct names. */
  ghost predicate HandlesOk(rows: seq<Row>, items: seq<Item>) {
    && (forall i, j | 0 <= i < |items| && 0 <= j < |items| && i != j :: items[i].Rid() != items[j].Rid())
    && (forall i | 0 <= i < |items| :: items[i].ref != "" && items[i].status == Active)
    && KeepsNames(rows, items)
  }

  /** The last of the first `k` items that names a file. */
  function LastNaming(items: seq<Item>, k: nat, id: Ident): (r: Option<nat>)
    requires k <= |items|
    ensures r.Some? ==> r.value < k && items[r.value].Ident() == id
    ensures r.Some? ==> forall j | r.value < j < k :: items[j].Ident() != id
    ensures r.None? ==> forall j | 0 <= j < k :: items[j].Ident() != id
  {
    if k == 0 then None
    else if items[k - 1].Ident() == id then Some(k - 1)
    else LastNaming(items, k - 1, id)
  }

  // ---------- Which id each row ends with ----------

  /** Row `a` is untouched, or it is live and carries the id of the last item that named it. */
  ghost predicate IdFate(rows0: seq<Row>, items: seq<Item>, k: nat, a: nat, r: Row)
    requires k <= |items|
  {
    || KeptId(rows0, items, k, a, r)
    || (r.Live() && LastNaming(items, k, r.Ident()).Some?
        && r.rid == items[LastNaming(items, k, r.Ident()).value].Rid())
  }

  ghost predicate KeptId(rows0: seq<Row>, items: seq<Item>, k: nat, a: nat, r: Row)
    requires k <= |items|
  {
    && a < |rows0| && r == rows0[a]
    && (rows0[a].Live() ==> LastNaming(items, k, r.Ident()).None?)
    && (forall j | 0 <= j < k :: items[j].Rid() != r.rid)
  }

  ghost predicate Fate(rows0: seq<Row>, items: seq<Item>, k: nat, rows: seq<Row>)
    requires k <= |items|
  {
    && |rows0| <= |rows| && TableOk(rows) && KeysMatch(rows)
    && (forall a | 0 <= a < |rows0| :: rows[a].Ident() == rows0[a].Ident() && (rows0[a].Live() ==> rows[a].Live()))
    && (forall a | 0 <= a < |rows| :: IdFate(rows0, items, k, a, rows[a]))
    && (forall a | 0 <= a < |rows0| && Buried(rows0[a], items, k) :: rows[a] == rows0[a])
  }

  /** A deleted row none of the first `k` items brings back. */
  ghost predicate Buried(r: Row, items: seq<Item>, k: nat)
    requires k <= |items|
  {
    !r.Live() && forall j | 0 <= j < k :: items[j].Rid() != r.rid
  }

  /** Two live rows of one file are one row. */
  lemma OneLiveRow(rows: seq<Row>, a: nat, b: nat)
    requires TableOk(rows) && KeysMatch(rows) && a < |rows| && b < |rows|
    requires rows[a].Live() && rows[b].Live() && rows[a].Ident() == rows[b].Ident()
    ensures a == b
  {
    assert KeyMatches(rows[a]) && KeyMatches(rows[b]);
    assert SameSlot(rows[a], rows[b]);
  }

  lemma LandsOnItsFile(rows0: seq<Row>, items: seq<Item>, k: nat, rows: seq<Row>, b: nat)
    requires k < |items| && HandlesOk(rows0, items) && Fate(rows0, items, k, rows)
    requires ConflictRow(rows, items[k]) == Some(b)
    ensures rows[b].Ident() == items[k].Ident()
    ensures FindRid(rows, items[k].Rid()).Some? ==> FindRid(rows, items[k].Rid()) == Some(b)
  {
    var it := items[k];
    if FindRid(rows, it.Rid()).None? {
      assert InSlot(rows[b], it.group, it.kind, it.Key());
      assert KeyMatches(rows[b]);
      KeyDeterminesName(it.group, it.kind, rows[b].name, it.name);
    } else {
      assert IdFate(rows0, items, k, b, rows[b]);
    }
  }

  lemma OthersKeepTheirFate(rows0: seq<Row>, items: seq<Item>, k: nat, rows: seq<Row>, after: seq<Row>, a: nat, b: nat)
    requires k < |items| && Fate(rows0, items, k, rows) && TableOk(after) && KeysMatch(after)
    requires a < |rows| && a < |after| && b < |after| && a != b && after[a] == rows[a]
    requires after[b].rid == items[k].Rid() && after[b].Ident() == items[k].Ident() && after[b].Live()
    ensures IdFate(rows0, items, k + 1, a, after[a])
  {
    assert IdFate(rows0, items, k, a, rows[a]);
    assert after[a].rid != after[b].rid;
    if after[a].Live() && after[a].Ident() == items[k].Ident() {
      OneLiveRow(after, a, b);
    }
    if a < |rows0| && rows0[a].Live() {
      assert rows[a].Live();
    }
  }

  lemma FateStep(rows0: seq<Row>, items: seq<Item>, k: nat, rows: seq<Row>)
    requires k < |items| && HandlesOk(rows0, items) && Fate(rows0, items, k, rows)
    requires UpsertRow(rows, items[k]).Committed?
    ensures Fate(rows0, items, k + 1, UpsertRow(rows, items[k]).value)
  {
    hide TableOk, KeysMatch, IdFate, Fits;
    var it := items[k];
    var after := UpsertRow(rows, it).value;
    var b := |rows|;
    match ConflictRow(rows, it) {
      case Some(i) =>
        b := i;
        LandsOnItsFile(rows0, items, k, rows, i);
        assert after == rows[i := ConflictBody(rows[i], it)];
      case None =>
    }
    OneUpsertKeepsIndex(rows, it);
    LandsLive(rows0, items, k, b, after[b]);
    forall a | 0 <= a < |after| ensures IdFate(rows0, items, k + 1, a, after[a]) {
      if a != b {
        OthersKeepTheirFate(rows0, items, k, rows, after, a, b);
      }
    }
    forall a | 0 <= a < |rows0| && Buried(rows0[a], items, k + 1) ensures after[a] == rows0[a] {
      assert Buried(rows0[a], items, k);
      assert a != b;
    }
  }

  lemma LandsLive(rows0: seq<Row>, items: seq<Item>, k: nat, b: nat, r: Row)
    requires k < |items| && r.Live() && r.rid == items[k].Rid() && r.Ident() == items[k].Ident()
    ensures IdFate(rows0, items, k + 1, b, r)
  {
  }

  lemma FateStart(rows0: seq<Row>, items: seq<Item>)
    requires TableOk(rows0) && KeysMatch(rows0)
    ensures Fate(rows0, items, 0, rows0)
  {
    forall a | 0 <= a < |rows0| ensures IdFate(rows0, items, 0, a, rows0[a]) {
      assert KeptId(rows0, items, 0, a, rows0[a]);
    }
  }

  lemma {:induction false} UpsertFate(rows0: seq<Row>, items: seq<Item>, k: nat)
    requires k <= |items| && TableOk(rows0) && KeysMatch(rows0) && HandlesOk(rows0, items)
    requires UpsertPrefix(rows0, items, k).Committed?
    ensures Fate(rows0, items, k, UpsertPrefix(rows0, items, k).value)
  {
    hide UpsertRow, Fate, HandlesOk, TableOk, KeysMatch;
    if k == 0 {
      FateStart(rows0, items);
    } else {
      UpsertFate(rows0, items, k - 1);
      FateStep(rows0, items, k - 1, UpsertPrefix(rows0, items, k - 1).value);
    }
  }

  // ---------- Inheritance leaves the parts of a live row alone ----------

  lemma {:induction false} SuccessorIsLast(items: seq<Item>, k: nat, group: string, name: string)
    requires k <= |items| && forall i | 0 <= i < |items| :: items[i].ref != ""
    ensures Successor(items[..k], group, name)
         == match LastNaming(items, k, LogicalFile(group, File, name))
            case None => None
            case Some(j) => Some(items[j])
  {
    if k > 0 {
      SuccessorIsLast(items, k - 1, group, name);
      assert items[..k][..k - 1] == items[..k - 1];
    }
  }

  /** Only a row that was already deleted before the batch hands anything over. */
  lemma HeirOfTombstone(rows0: seq<Row>, items: seq<Item>, rows1: seq<Row>, p: nat)
    requires HandlesOk(rows0, items) && Fate(rows0, items, |items|, rows1)
    requires p < |rows1| && rows1[p].kind == File && Heir(items, rows1[p]).Some?
    ensures p < |rows0| && !rows0[p].Live() && rows1[p].rid == rows0[p].rid
  {
    assert items[..|items|] == items;
    SuccessorIsLast(items, |items|, rows1[p].group, rows1[p].name);
    assert IdFate(rows0, items, |items|, p, rows1[p]);
  }

  lemma {:induction false} InheritSparesLiveRow(rows0: seq<Row>, rows1: seq<Row>, db: Db, items: seq<Item>,
                                                preds: seq<Row>, k: nat, m: nat, i: nat)
    requires TableOk(rows0) && HandlesOk(rows0, items) && Fate(rows0, items, |items|, rows1)
    requires forall p | p in preds :: p in rows1 && p.kind == File
    requires k <= |preds| && m < |db.vols| && InheritPrefix(db, items, preds, k).Committed?
    requires i < |rows0| && rows0[i].Live() && db.vols[m].parent == rows0[i].rid
    ensures var vols := InheritPrefix(db, items, preds, k).value.vols;
            |vols| == |db.vols| && vols[m] == db.vols[m]
  {
    hide InheritOne, Fate, HandlesOk;
    if k > 0 {
      InheritSparesLiveRow(rows0, rows1, db, items, preds, k - 1, m, i);
      var pred := preds[k - 1];
      assert pred in preds;
      var p :| 0 <= p < |rows1| && rows1[p] == pred;
      if Heir(items, pred).Some? {
        HeirOfTombstone(rows0, items, rows1, p);
      }
      InheritOneAt(InheritPrefix(db, items, preds, k - 1).value, items, pred, m);
    }
  }

  // ---------- Where the chase takes the parts ----------

  /** The first of the first `k` items that names the file under another id. */
  function FirstOther(items: seq<Item>, k: nat, id: Ident, old_: string): (r: Option<nat>)
    requires k <= |items|
    ensures r.Some? ==> r.value < k && items[r.value].Ident() == id && items[r.value].Rid() != old_
    ensures forall j | 0 <= j < (if r.Some? then r.value else k) && items[j].Ident() == id :: items[j].Rid() == old_
  {
    if k == 0 then None
    else
      var before := FirstOther(items, k - 1, id, old_);
      if before.Some? then before
      else if items[k - 1].Ident() == id && items[k - 1].Rid() != old_ then Some(k - 1)
      else None
  }

  lemma {:induction false} ChaseOfPrefix(vols: seq<Vol>, moves: seq<Move>, more: seq<Move>, k: nat)
    requires k <= |moves|
    ensures ChasePrefix(vols, moves + more, k) == ChasePrefix(vols, moves, k)
  {
    hide Repoint;
    if k > 0 {
      ChaseOfPrefix(vols, moves, more, k - 1);
      assert (moves + more)[k - 1] == moves[k - 1];
    }
  }

  lemma ChaseOneMore(vols: seq<Vol>, moves: seq<Move>, mv: Move)
    ensures ChasePrefix(vols, moves + [mv], |moves| + 1)
         == match ChasePrefix(vols, moves, |moves|)
            case Aborted => Aborted
            case Committed(v) => Repoint(v, mv.from, mv.to)
  {
    hide Repoint;
    ChaseOfPrefix(vols, moves, [mv], |moves|);
    assert (moves + [mv])[|moves|] == mv;
  }

  /** A move starts at the part's parent only for the file's own first new id. */
  lemma MoveOf(rows0: seq<Row>, items: seq<Item>, k: nat, i: nat, parent: string)
    requires TableOk(rows0) && KeysMatch(rows0) && HandlesOk(rows0, items) && k < |items|
    requires i < |rows0| && rows0[i].Live() && rows0[i].kind == File
    requires var first := FirstOther(items, k, rows0[i].Ident(), rows0[i].rid);
             parent == if first.Some? then items[first.value].Rid() else rows0[i].rid
    ensures var mv, first := MoveFor(rows0, items[k]), FirstOther(items, k, rows0[i].Ident(), rows0[i].rid);
            var next := FirstOther(items, k + 1, rows0[i].Ident(), rows0[i].rid);
            && (mv.Some? && mv.value.from == parent ==> next == Some(k) && mv.value.to == items[k].Rid())
            && (mv.None? || mv.value.from != parent ==> next == first)
  {
    var it, id := items[k], rows0[i].Ident();
    if it.Ident() == id {
      assert LiveNamed(rows0[i], it);
      var b := FindLiveNamed(rows0, it).value;
      OneLiveRow(rows0, i, b);
    }
    if MoveFor(rows0, it).Some? {
      var b := FindLiveNamed(rows0, it).value;
      if rows0[b].rid == parent && rows0[b].Ident() == id {
        OneLiveRow(rows0, i, b);
      }
    }
  }

  lemma {:induction false} ChaseTakesToFirst(rows0: seq<Row>, items: seq<Item>, vols: seq<Vol>, k: nat, m: nat, i: nat)
    requires TableOk(rows0) && KeysMatch(rows0) && HandlesOk(rows0, items) && k <= |items|
    requires i < |rows0| && rows0[i].Live() && rows0[i].kind == File
    requires m < |vols| && vols[m].parent == rows0[i].rid
    requires var moves := PlanPrefix(rows0, items, k); ChasePrefix(vols, moves, |moves|).Committed?
    ensures var moves := PlanPrefix(rows0, items, k);
            var after := ChasePrefix(vols, moves, |moves|).value;
            var first := FirstOther(items, k, rows0[i].Ident(), rows0[i].rid);
            |after| == |vols|
            && after[m] == vols[m].(parent := if first.Some? then items[first.value].Rid() else rows0[i].rid)
  {
    hide HandlesOk, TableOk, KeysMatch, ChasePrefix, Repoint, MoveFor, FirstOther;
    if k == 0 {
      NothingChased(items, vols, rows0[i].Ident(), rows0[i].rid);
    } else {
      var before := PlanPrefix(rows0, items, k - 1);
      var mv := MoveFor(rows0, items[k - 1]);
      if mv.Some? {
        ChaseOneMore(vols, before, mv.value);
      }
      hide PlanPrefix;
      ChaseTakesToFirst(rows0, items, vols, k - 1, m, i);
      var v := ChasePrefix(vols, before, |before|).value;
      MoveOf(rows0, items, k - 1, i, v[m].parent);
      if mv.Some? {
        RepointAt(v, mv.value.from, mv.value.to, m);
      }
    }
  }

  lemma NothingChased(items: seq<Item>, vols: seq<Vol>, id: Ident, old_: string)
    ensures FirstOther(items, 0, id, old_) == None && ChasePrefix(vols, [], 0) == Committed(vols)
  {
  }

  // ---------- The exact condition ----------

  predicate Names(it: Item, r: Row) { it.Ident() == r.Ident() }

  /** Every item that names the file, except the last that does, carries the row's own id. */
  ghost predicate OnlyTheLastIsNew(rows: seq<Row>, items: seq<Item>, i: nat)
    requires i < |rows|
  {
    forall j, n | 0 <= j < n < |items| && Names(items[j], rows[i]) && Names(items[n], rows[i]) ::
      items[j].Rid() == rows[i].rid
  }

  lemma RowOfId(rows0: seq<Row>, items: seq<Item>, rows1: seq<Row>, i: nat)
    requires TableOk(rows0) && KeysMatch(rows0) && HandlesOk(rows0, items) && Fate(rows0, items, |items|, rows1)
    requires i < |rows0| && rows0[i].Live()
    ensures var first := FirstOther(items, |items|, rows0[i].Ident(), rows0[i].rid);
            HasRow(rows1, if first.Some? then items[first.value].Rid() else rows0[i].rid, rows0[i].Ident())
            <==> OnlyTheLastIsNew(rows0, items, i)
  {
    var id := rows0[i].Ident();
    var first, last := FirstOther(items, |items|, id, rows0[i].rid), LastNaming(items, |items|, id);
    assert IdFate(rows0, items, |items|, i, rows1[i]);
    assert rows1[i].Ident() == id && rows1[i].Live();
    if first.None? {
      assert rows1[i].rid == rows0[i].rid;
    } else {
      var f := first.value;
      assert OnlyTheLastIsNew(rows0, items, i) <==> last == Some(f) by {
        assert Names(items[f], rows0[i]) && Names(items[last.value], rows0[i]);
      }
      if HasRow(rows1, items[f].Rid(), id) {
        var b :| 0 <= b < |rows1| && rows1[b].rid == items[f].Rid() && rows1[b].Ident() == id;
        assert IdFate(rows0, items, |items|, b, rows1[b]);
      }
      if last == Some(f) {
        assert rows1[i].rid == items[f].Rid();
      }
    }
  }

  lemma ShapeKeepsHasRow(items: seq<Item>, rows1: seq<Row>, rows2: seq<Row>, rid: string, id: Ident)
    requires InheritShape(items, rows1, rows2)
    ensures HasRow(rows1, rid, id) <==> HasRow(rows2, rid, id)
  {
    if HasRow(rows1, rid, id) {
      var a :| 0 <= a < |rows1| && rows1[a].rid == rid && rows1[a].Ident() == id;
      assert SameButRetired(rows1[a], rows2[a]);
      assert rows2[a].rid == rid && rows2[a].Ident() == id;
    }
    if HasRow(rows2, rid, id) {
      var a :| 0 <= a < |rows2| && rows2[a].rid == rid && rows2[a].Ident() == id;
      assert SameButRetired(rows1[a], rows2[a]);
      assert rows1[a].rid == rid && rows1[a].Ident() == id;
    }
  }

  /**
   A part of a live file row stays with its file through a batch that may repeat names exactly
   if every item naming that file, but the last, carries the id the row has. The chase takes
   the parts to the first new id, and the row ends with the last.
   */
  lemma RepeatedNamesIff(db: Db, items: seq<Item>, m: nat, i: nat)
    requires TableOk(db.rows) && KeysMatch(db.rows) && HandlesOk(db.rows, items)
    requires Batch(db, items).Committed?
    requires i < |db.rows| && db.rows[i].Live() && db.rows[i].kind == File
    requires m < |db.vols| && db.vols[m].parent == db.rows[i].rid
    ensures var db' := Batch(db, items).value;
            && |db'.vols| == |db.vols| && db'.vols[m] == db.vols[m].(parent := db'.vols[m].parent)
            && (HasRow(db'.rows, db'.vols[m].parent, db.rows[i].Ident()) <==> OnlyTheLastIsNew(db.rows, items, i))
  {
    hide HandlesOk, TableOk, KeysMatch, InheritPrefix, ChasePrefix, PlanPrefix, Fate, HasRow, OnlyTheLastIsNew;
    var rows1 := BatchStages(db, items);
    UpsertFate(db.rows, items, |items|);
    var mid := Db(rows1, db.vols);
    if AnyChaseable(items) {
      InheritSparesLiveRow(db.rows, rows1, mid, items, ParentsOf(rows1), |ParentsOf(rows1)|, m, i);
    }
    var inherited := Inherit(mid, items).value;
    ChaseTakesToFirst(db.rows, items, inherited.vols, |items|, m, i);
    RowOfId(db.rows, items, rows1, i);
    var db' := Batch(db, items).value;
    ShapeKeepsHasRow(items, rows1, db'.rows, db'.vols[m].parent, db.rows[i].Ident());
  }

  ghost predicate NamedAtMostOnce(rows: seq<Row>, items: seq<Item>, i: nat)
    requires i < |rows|
  {
    forall j, n | 0 <= j < |items| && 0 <= n < |items| && Names(items[j], rows[i]) && Names(items[n], rows[i]) :: j == n
  }

  /** When every id of the listing is new to the table, that is: if at most one item names it. */
  lemma NewIdsMayNotRepeatNames(db: Db, items: seq<Item>, m: nat, i: nat)
    requires TableOk(db.rows) && KeysMatch(db.rows) && HandlesOk(db.rows, items)
    requires forall j, a | 0 <= j < |items| && 0 <= a < |db.rows| :: items[j].Rid() != db.rows[a].rid
    requires Batch(db, items).Committed?
    requires i < |db.rows| && db.rows[i].Live() && db.rows[i].kind == File
    requires m < |db.vols| && db.vols[m].parent == db.rows[i].rid
    ensures var db' := Batch(db, items).value;
            && |db'.vols| == |db.vols|
            && (HasRow(db'.rows, db'.vols[m].parent, db.rows[i].Ident()) <==> NamedAtMostOnce(db.rows, items, i))
  {
    hide Batch, HandlesOk, TableOk, KeysMatch, HasRow;
    RepeatedNamesIff(db, items, m, i);
    if OnlyTheLastIsNew(db.rows, items, i) {
      forall j, n | 0 <= j < |items| && 0 <= n < |items| && Names(items[j], db.rows[i]) && Names(items[n], db.rows[i])
        ensures j == n
      {
        assert items[j].Rid() != db.rows[i].rid && items[n].Rid() != db.rows[i].rid;
      }
    }
  }
}
