/**
 The metadata index over whole runs: any sequence of upsert batches, committed or rolled back,
 of sweeps, complete or not, of part registrations and of renames
 (adapters/persistence/sqlite/resources_write.py, volumes.py).
 */
module IndexHistory {
  import opened ResourceTable
  import opened ResourceBatch
  import opened ResourceSync
  import RegisteredParts

  datatype Change =
    | Upserted(items: seq<Item>)
    | SweptAway(group: string, complete: bool, refs: set<string>)
    | Registered(parts: seq<Vol>)
    | Renamed(row: nat, name: string)

  ghost function After(db: Db, c: Change): Db {
    match c
    case Upserted(items) => AfterBatch(db, items)
    case SweptAway(group, complete, refs) => db.(rows := Sweep(db.rows, group, complete, refs))
    case Registered(parts) => db.(vols := RegisteredParts.InsertParts(db.vols, parts))
    case Renamed(i, name) =>
      if i < |db.rows| && Rename(db.rows, i, name).Committed? then db.(rows := Rename(db.rows, i, name).value)
      else db
  }

  ghost function History(db: Db, changes: seq<Change>): Db {
    if changes == [] then db
    else After(History(db, changes[..|changes| - 1]), changes[|changes| - 1])
  }

  /** Batches meet the item hypotheses; no rename takes a name another live row has. */
  ghost predicate ChangeOk(db: Db, c: Change) {
    match c
    case Upserted(items) => ItemsOk(db.rows, items)
    case Renamed(i, name) => i < |db.rows| && NameTaken(db.rows, i, name) ==> name == db.rows[i].name
    case _ => true
  }

  /** Every change meets its hypothesis in the state it starts from. */
  ghost predicate HistoryOk(db: Db, changes: seq<Change>) {
    changes == [] ||
    var done, last := changes[..|changes| - 1], changes[|changes| - 1];
    HistoryOk(db, done) && ChangeOk(History(db, done), last)
  }

  ghost predicate IndexOk(db: Db) { TableOk(db.rows) && KeysMatch(db.rows) }

  /** What row `i` stands for after the changes: only a rename of that row alters it. */
  function Follow(changes: seq<Change>, i: nat, id: Ident): Ident {
    if changes == [] then id
    else FollowOne(changes[|changes| - 1], i, Follow(changes[..|changes| - 1], i, id))
  }

  function FollowOne(c: Change, i: nat, id: Ident): Ident {
    if c.Renamed? && c.row == i then id.(name := c.name) else id
  }

  lemma ChangeKeepsTheIndex(db: Db, c: Change)
    requires IndexOk(db) && ChangeOk(db, c)
    ensures IndexOk(After(db, c)) && |db.rows| <= |After(db, c).rows|
    ensures forall i | 0 <= i < |db.rows| :: After(db, c).rows[i].Ident() == FollowOne(c, i, db.rows[i].Ident())
  {
    match c
    case Upserted(items) =>
      if Batch(db, items).Committed? {
        CommittedBatch(db, items);
      }
    case SweptAway(group, complete, refs) =>
      SweepKeepsTheIndex(db.rows, group, complete, refs);
    case Registered(parts) =>
    case Renamed(i, name) =>
      if i < |db.rows| {
        RenameKeepsKeysIff(db.rows, i, name);
      }
  }

  /**
   Over every run: resource ids stay unique, at most one live row holds a logical key, every
   key is group:type:name, rows are never removed, and what a row stands for changes by its own
   renames only.
   */
  lemma {:induction false} HistoryKeepsTheIndex(db: Db, changes: seq<Change>)
    requires IndexOk(db) && HistoryOk(db, changes)
    ensures IndexOk(History(db, changes)) && |db.rows| <= |History(db, changes).rows|
    ensures forall i | 0 <= i < |db.rows| ::
              History(db, changes).rows[i].Ident() == Follow(changes, i, db.rows[i].Ident())
  {
    hide IndexOk, ChangeOk, After;
    if changes != [] {
      var done, last := changes[..|changes| - 1], changes[|changes| - 1];
      HistoryKeepsTheIndex(db, done);
      ChangeKeepsTheIndex(History(db, done), last);
    }
  }

  // ---------- Parts ----------

  /** The part registered at `m` belongs to a row of the table, and that row stands for `id`. */
  ghost predicate Attached(db: Db, m: nat, id: Ident) {
    m < |db.vols| && HasRow(db.rows, db.vols[m].parent, id)
  }

  /** The file of a part after a change: renaming the row it is under renames it. */
  ghost function PartFile(db: Db, c: Change, m: nat, id: Ident): Ident
    requires m < |db.vols|
  {
    if c.Renamed? && c.row < |db.rows| && db.rows[c.row].rid == db.vols[m].parent then id.(name := c.name) else id
  }

  /** Only files are chased: a part of something else needs its row to keep its id. */
  ghost predicate KeepsHandle(db: Db, c: Change, m: nat, id: Ident)
    requires m < |db.vols|
  {
    id.kind == File ||
    (c.Upserted? ==> forall j | 0 <= j < |c.items| && c.items[j].Ident() == id && c.items[j].status != Deleted ::
                       c.items[j].Rid() == db.vols[m].parent)
  }

  ghost predicate SamePlace(v: Vol, v': Vol) {
    v'.no == v.no && v'.ref == v.ref && (v.status == "uploaded" ==> v'.status == "uploaded")
  }

  lemma BatchKeepsPart(db: Db, items: seq<Item>, m: nat, id: Ident, i: nat)
    requires IndexOk(db) && ItemsOk(db.rows, items) && Batch(db, items).Committed?
    requires m < |db.vols| && KeepsHandle(db, Upserted(items), m, id)
    requires i < |db.rows| && db.rows[i].rid == db.vols[m].parent && db.rows[i].Ident() == id
    ensures var db' := Batch(db, items).value;
            Attached(db', m, id) && SamePlace(db.vols[m], db'.vols[m])
  {
    hide Batch, ItemsOk, TableOk, KeysMatch, HasRow;
    PartStaysAttachedIff(db, items, m, i);
  }

  lemma ChangeKeepsPart(db: Db, c: Change, m: nat, id: Ident)
    requires IndexOk(db) && ChangeOk(db, c)
    requires Attached(db, m, id) && KeepsHandle(db, c, m, id)
    ensures Attached(After(db, c), m, PartFile(db, c, m, id)) && SamePlace(db.vols[m], After(db, c).vols[m])
  {
    var i :| 0 <= i < |db.rows| && db.rows[i].rid == db.vols[m].parent && db.rows[i].Ident() == id;
    match c
    case Upserted(items) =>
      if Batch(db, items).Committed? {
        BatchKeepsPart(db, items, m, id, i);
      }
    case SweptAway(group, complete, refs) =>
      var after := Sweep(db.rows, group, complete, refs);
      assert after[i].rid == db.rows[i].rid && after[i].Ident() == id;
    case Registered(parts) =>
      RegisteredParts.PartKeepsPlace(db.vols, parts, m);
    case Renamed(n, name) =>
      if n < |db.rows| {
        RenameKeepsKeysIff(db.rows, n, name);
        var after := Rename(db.rows, n, name).value;
        assert after[i].rid == db.rows[i].rid;
        assert after[i].Ident() == PartFile(db, c, m, id);
      }
  }

  /** The file of a part after the changes. */
  ghost function PartFileAfter(db: Db, changes: seq<Change>, m: nat, id: Ident): Ident {
    if changes == [] then id
    else
      var done, last := changes[..|changes| - 1], changes[|changes| - 1];
      var before := History(db, done);
      if m < |before.vols| then PartFile(before, last, m, PartFileAfter(db, done, m, id)) else id
  }

  ghost predicate KeepsHandles(db: Db, changes: seq<Change>, m: nat, id: Ident) {
    changes == [] ||
    var done, last := changes[..|changes| - 1], changes[|changes| - 1];
    && KeepsHandles(db, done, m, id) && m < |History(db, done).vols|
    && KeepsHandle(History(db, done), last, m, PartFileAfter(db, done, m, id))
  }

  /**
   Over every run a part stays with its file, under the row that stands for it now, whatever
   becomes of the session handles; its number and handle are kept and uploaded stays uploaded.
   */
  lemma {:induction false} PartsStayAttachedForEver(db: Db, changes: seq<Change>, m: nat, id: Ident)
    requires IndexOk(db) && HistoryOk(db, changes) && Attached(db, m, id) && KeepsHandles(db, changes, m, id)
    ensures Attached(History(db, changes), m, PartFileAfter(db, changes, m, id))
    ensures SamePlace(db.vols[m], History(db, changes).vols[m])
  {
    hide IndexOk, ChangeOk, After, HasRow, KeepsHandle, PartFile;
    if changes != [] {
      var done, last := changes[..|changes| - 1], changes[|changes| - 1];
      HistoryKeepsTheIndex(db, done);
      PartsStayAttachedForEver(db, done, m, id);
      ChangeKeepsPart(History(db, done), last, m, PartFileAfter(db, done, m, id));
    }
  }

  /** For the parts of files no hypothesis on handles is left. */
  lemma {:induction false} FilesKeepTheirParts(db: Db, changes: seq<Change>, m: nat, id: Ident)
    requires IndexOk(db) && HistoryOk(db, changes) && Attached(db, m, id) && id.kind == File
    ensures KeepsHandles(db, changes, m, id) && PartFileAfter(db, changes, m, id).kind == File
  {
    hide IndexOk, ChangeOk, After, HasRow;
    if changes != [] {
      var done := changes[..|changes| - 1];
      FilesKeepTheirParts(db, done, m, id);
      PartsStayAttachedForEver(db, done, m, id);
    }
  }

  // ---------- Archived ----------

  ghost predicate ActiveListings(changes: seq<Change>) {
    forall c | c in changes && c.Upserted? :: AllActive(c.items)
  }

  lemma ChangeKeepsArchived(db: Db, c: Change, i: nat)
    requires IndexOk(db) && ChangeOk(db, c) && (c.Upserted? ==> AllActive(c.items))
    requires i < |db.rows| && db.rows[i].status == Archived
    ensures i < |After(db, c).rows| && After(db, c).rows[i].status == Archived
  {
    hide Batch, ItemsOk, TableOk, KeysMatch;
    if c.Upserted? && Batch(db, c.items).Committed? {
      ActiveBatchKeepsArchived(db, c.items, i);
    }
  }

  /** No run of active re-listings, sweeps, registrations and renames undoes an archiving. */
  lemma {:induction false} ArchivedSurvivesEveryRelisting(db: Db, changes: seq<Change>, i: nat)
    requires IndexOk(db) && HistoryOk(db, changes) && ActiveListings(changes)
    requires i < |db.rows| && db.rows[i].status == Archived
    ensures i < |History(db, changes).rows| && History(db, changes).rows[i].status == Archived
    ensures History(db, changes).rows[i].Ident() == Follow(changes, i, db.rows[i].Ident())
  {
    hide IndexOk, ChangeOk, After, AllActive, Follow;
    HistoryKeepsTheIndex(db, changes);
    if changes != [] {
      var done, last := changes[..|changes| - 1], changes[|changes| - 1];
      HistoryKeepsTheIndex(db, done);
      ArchivedSurvivesEveryRelisting(db, done, i);
      ChangeKeepsArchived(History(db, done), last, i);
    }
  }
}
