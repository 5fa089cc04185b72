/**
 A complete listing: one upsert batch, then the sweep of what the cloud no longer lists
 (adapters/persistence/sqlite/resources_write.py, core/application/sync/resource_sync.py).
 */
module ResourceSync {
  import opened Options
  import opened ResourceTable
  import opened ResourceBatch

  /** A row the sweep must not touch: only a readable meta can prove it. */
  predicate VolumeParent(r: Row) { r.meta.Object? && r.meta.volumes == Some(true) }

  predicate Sweepable(r: Row, group: string, refs: set<string>) {
    r.group == group && r.kind == File && r.status == Active && r.ref !in refs && !VolumeParent(r)
  }

  function Swept(rows: seq<Row>, group: string, refs: set<string>): (r: seq<Row>)
    ensures |r| == |rows|
    ensures forall i | 0 <= i < |rows| ::
              r[i] == if Sweepable(rows[i], group, refs) then rows[i].(status := Deleted) else rows[i]
  {
    seq(|rows|, i requires 0 <= i < |rows| =>
      if Sweepable(rows[i], group, refs) then rows[i].(status := Deleted) else rows[i])
  }

  function Sweep(rows: seq<Row>, group: string, complete: bool, refs: set<string>): seq<Row> {
    if complete then Swept(rows, group, refs) else rows
  }

  function Refs(items: seq<Item>): set<string> { set it | it in items :: it.ref }

  /** The listing of one group's cloud files. */
  ghost predicate FileListing(items: seq<Item>, group: string) {
    forall i | 0 <= i < |items| ::
      items[i].group == group && items[i].kind == File && items[i].status == Active
  }

  /** Row `i` shows a listed file: active, or archived by the user before this sync. */
  ghost predicate Shown(rows0: seq<Row>, it: Item, i: nat, r: Row) {
    && Carries(r, it)
    && (r.status == Active || (r.status == Archived && i < |rows0| && rows0[i].status == Archived))
  }

  ghost predicate ListedIsShown(rows0: seq<Row>, it: Item, rows: seq<Row>) {
    exists i :: 0 <= i < |rows| && Shown(rows0, it, i, rows[i])
  }

  ghost predicate AgreesWithListing(rows0: seq<Row>, items: seq<Item>, group: string, rows: seq<Row>) {
    && TableOk(rows) && KeysMatch(rows)
    && (forall i | 0 <= i < |rows| && rows[i].group == group && rows[i].kind == File
                   && rows[i].status == Active && !VolumeParent(rows[i]) ::
          rows[i].ref in Refs(items))
    && (forall j | 0 <= j < |items| :: ListedIsShown(rows0, items[j], rows))
  }

  lemma UpsertShows(db: Db, items: seq<Item>, j: nat)
    requires TableOk(db.rows) && KeysMatch(db.rows) && ItemsOk(db.rows, items)
    requires Batch(db, items).Committed? && j < |items| && items[j].status == Active
    ensures ListedIsShown(db.rows, items[j], Batch(db, items).value.rows)
  {
    hide TableOk, KeysMatch;
    var it := items[j];
    var rows1 := BatchStages(db, items);
    var rows2 := Batch(db, items).value.rows;
    assert ItemAccounted(db.rows, it, rows1);
    var i :| 0 <= i < |rows1| && Landed(db.rows, it, i, rows1[i]);
    LandedCarries(db.rows, it, i, rows1[i], rows2[i]);
    assert Listed(items, rows1[i].ref);
    assert SameButRetired(rows1[i], rows2[i]);
    assert Shown(db.rows, it, i, rows2[i]);
  }

  /**
   After a committed upsert of a complete active listing and its sweep, the index agrees with
   the cloud: an active file row that is no volume parent is listed, and every listed file has
   a row that is active or was already archived.
   */
  lemma CompleteSyncAgreesWithTheCloud(db: Db, group: string, items: seq<Item>)
    requires TableOk(db.rows) && KeysMatch(db.rows) && ItemsOk(db.rows, items)
    requires FileListing(items, group) && Batch(db, items).Committed?
    ensures AgreesWithListing(db.rows, items, group,
                              Sweep(Batch(db, items).value.rows, group, true, Refs(items)))
  {
    hide Batch, ItemsOk, TableOk, KeysMatch;
    var rows2 := Batch(db, items).value.rows;
    var rows3 := Swept(rows2, group, Refs(items));
    forall j | 0 <= j < |items| ensures ListedIsShown(db.rows, items[j], rows3) {
      UpsertShows(db, items, j);
      var i :| 0 <= i < |rows2| && Shown(db.rows, items[j], i, rows2[i]);
      assert rows3[i] == rows2[i];
    }
    CommittedBatch(db, items);
    SweepKeepsTheIndex(rows2, group, true, Refs(items));
  }

  /** The sweep touches nothing but the statuses it must: no other group, no incomplete listing. */
  lemma SweepKeepsTheIndex(rows: seq<Row>, group: string, complete: bool, refs: set<string>)
    requires TableOk(rows)
    ensures var after := Sweep(rows, group, complete, refs);
            && TableOk(after) && |after| == |rows|
            && (KeysMatch(rows) ==> KeysMatch(after))
            && (!complete ==> after == rows)
            && (forall i | 0 <= i < |rows| && rows[i].group != group :: after[i] == rows[i])
            && (forall i | 0 <= i < |rows| ::
                  after[i] != rows[i] <==> complete && Sweepable(rows[i], group, refs))
  {
    var after := Sweep(rows, group, complete, refs);
    forall a, b | 0 <= a < |after| && 0 <= b < |after|
      ensures after[a].rid == after[b].rid ==> a == b
      ensures SameSlot(after[a], after[b]) ==> a == b
    {
      assert SameSlot(after[a], after[b]) ==> SameSlot(rows[a], rows[b]);
    }
    if KeysMatch(rows) {
      forall i | 0 <= i < |after| ensures KeyMatches(after[i]) {
        assert KeyMatches(rows[i]);
      }
    }
  }

  // ---------- Archived is a user state ----------

  ghost predicate AllActive(items: seq<Item>) {
    forall i | 0 <= i < |items| :: items[i].status == Active
  }

  lemma OneLiveRowPerSlot(rows: seq<Row>, i: nat, j: nat)
    requires TableOk(rows) && i < |rows| && j < |rows| && SameSlot(rows[i], rows[j])
    ensures i == j
  {
  }

  /** Inheritance never retires a live row while its file is listed as active. */
  lemma LiveRowIsNotRetired(rows0: seq<Row>, items: seq<Item>, rows1: seq<Row>, i: nat)
    requires ItemsOk(rows0, items) && AllActive(items)
    requires Progress(rows0, items, |items|, rows1)
    requires i < |rows1| && rows1[i].Live()
    ensures !Vanished(items, rows1[i])
  {
    hide ItemsOk, TableOk, RowAccounted;
    forall s | s in items && Chaseable(s) && s.Ident() == rows1[i].Ident()
      ensures s.Rid() == rows1[i].rid
    {
      var j :| 0 <= j < |items| && items[j] == s;
      assert ItemAccounted(rows0, items[j], rows1);
      var i1 :| 0 <= i1 < |rows1| && Landed(rows0, s, i1, rows1[i1]);
      assert KeyMatches(rows1[i]) && KeyMatches(rows1[i1]);
      OneLiveRowPerSlot(rows1, i, i1);
    }
  }

  lemma ActiveBatchKeepsArchived(db: Db, items: seq<Item>, i: nat)
    requires TableOk(db.rows) && KeysMatch(db.rows) && ItemsOk(db.rows, items) && AllActive(items)
    requires Batch(db, items).Committed? && i < |db.rows| && db.rows[i].status == Archived
    ensures i < |Batch(db, items).value.rows| && Batch(db, items).value.rows[i].status == Archived
  {
    hide TableOk, KeysMatch;
    var rows1 := BatchStages(db, items);
    assert RowAccounted(db.rows, items, |items|, i, rows1[i]);
    LiveRowIsNotRetired(db.rows, items, rows1, i);
  }
}
