/**
 One upsert batch as a transformation of both tables: plan the volume chase, upsert every
 item, let vanished composition parents hand over their identity, chase the volumes
 (adapters/persistence/sqlite/resources_write.py, resources.py, volumes.py).
 */
module ResourceBatch {
  import opened Options
  import opened ResourceTable

  /** A registered part. UNIQUE(parent_resource_id, seq); no foreign key on the parent. */
  datatype Vol = Vol(parent: string, no: int, partName: string, ref: string, status: string)

  datatype Db = Db(rows: seq<Row>, vols: seq<Vol>)

  datatype Move = Move(from: string, to: string)

  // ---------- Upserting the batch ----------

  /** The table after the first `k` items; a violation anywhere aborts. */
  ghost function UpsertPrefix(rows: seq<Row>, items: seq<Item>, k: nat): Outcome<seq<Row>>
    requires k <= |items|
  {
    if k == 0 then Committed(rows)
    else match UpsertPrefix(rows, items, k - 1)
      case Aborted => Aborted
      case Committed(r) => UpsertRow(r, items[k - 1])
  }

  ghost function UpsertAll(rows: seq<Row>, items: seq<Item>): Outcome<seq<Row>> {
    UpsertPrefix(rows, items, |items|)
  }

  /** Upserting a later chunk onto the table the earlier chunks left is upserting it all. */
  lemma {:induction false} ChunksCompose(rows: seq<Row>, items: seq<Item>, lo: nat, hi: nat, k: nat)
    requires lo + k <= hi <= |items|
    ensures UpsertPrefix(rows, items, lo).Aborted? ==> UpsertPrefix(rows, items, lo + k).Aborted?
    ensures UpsertPrefix(rows, items, lo).Committed? ==>
              UpsertPrefix(UpsertPrefix(rows, items, lo).value, items[lo..hi], k)
              == UpsertPrefix(rows, items, lo + k)
  {
    hide UpsertRow;
    if k > 0 {
      ChunksCompose(rows, items, lo, hi, k - 1);
      assert items[lo..hi][k - 1] == items[lo + k - 1];
    }
  }

  // ---------- Planning the chase ----------

  /** Only files with a session handle are chased. */
  predicate Chaseable(it: Item) { it.kind == File && it.ref != "" }

  predicate LiveNamed(r: Row, it: Item) {
    r.group == it.group && r.kind == it.kind && r.name == it.name && r.Live()
  }

  /** SELECT ... WHERE group_id=? AND type=? AND name=? AND status != 'deleted'. */
  function FindLiveNamed(rows: seq<Row>, it: Item): (r: Option<nat>)
    ensures r.Some? ==> r.value < |rows| && LiveNamed(rows[r.value], it)
    ensures r.None? ==> forall i | 0 <= i < |rows| :: !LiveNamed(rows[i], it)
  {
    if rows == [] then None
    else if LiveNamed(rows[|rows| - 1], it) then Some(|rows| - 1)
    else FindLiveNamed(rows[..|rows| - 1], it)
  }

  function MoveFor(rows: seq<Row>, it: Item): Option<Move> {
    if !Chaseable(it) then None
    else match FindLiveNamed(rows, it)
      case None => None
      case Some(i) => if rows[i].rid != it.Rid() then Some(Move(rows[i].rid, it.Rid())) else None
  }

  function PlanPrefix(rows: seq<Row>, items: seq<Item>, k: nat): seq<Move>
    requires k <= |items|
  {
    if k == 0 then []
    else match MoveFor(rows, items[k - 1])
      case None => PlanPrefix(rows, items, k - 1)
      case Some(m) => PlanPrefix(rows, items, k - 1) + [m]
  }

  function Plan(rows: seq<Row>, items: seq<Item>): seq<Move> { PlanPrefix(rows, items, |items|) }

  lemma {:induction false} PlanHas(rows: seq<Row>, items: seq<Item>, k: nat, j: nat)
    requires j < k <= |items| && MoveFor(rows, items[j]).Some?
    ensures MoveFor(rows, items[j]).value in PlanPrefix(rows, items, k)
  {
    if j < k - 1 {
      PlanHas(rows, items, k - 1, j);
    }
  }

  lemma {:induction false} PlanOnly(rows: seq<Row>, items: seq<Item>, k: nat, m: Move) returns (j: nat)
    requires k <= |items| && m in PlanPrefix(rows, items, k)
    ensures j < k && MoveFor(rows, items[j]) == Some(m)
  {
    if MoveFor(rows, items[k - 1]) == Some(m) {
      j := k - 1;
    } else {
      j := PlanOnly(rows, items, k - 1, m);
    }
  }

  // ---------- Moving volumes ----------

  function Moved(vols: seq<Vol>, from: string, to: string): (r: seq<Vol>)
    ensures |r| == |vols|
    ensures forall i | 0 <= i < |vols| ::
              r[i] == if vols[i].parent == from then vols[i].(parent := to) else vols[i]
  {
    seq(|vols|, i requires 0 <= i < |vols| =>
      if vols[i].parent == from then vols[i].(parent := to) else vols[i])
  }

  /** A part would land on a sequence number its new parent already has. */
  predicate PartsCollide(vols: seq<Vol>, from: string, to: string) {
    from != to &&
    exists i, j :: 0 <= i < |vols| && 0 <= j < |vols|
                && vols[i].parent == from && vols[j].parent == to && vols[i].no == vols[j].no
  }

  /** UPDATE volumes SET parent_resource_id = to WHERE parent_resource_id = from. */
  function Repoint(vols: seq<Vol>, from: string, to: string): Outcome<seq<Vol>> {
    if PartsCollide(vols, from, to) then Aborted else Committed(Moved(vols, from, to))
  }

  lemma RepointToItself(vols: seq<Vol>, id: string)
    ensures Repoint(vols, id, id) == Committed(vols)
  {
    assert Moved(vols, id, id) == vols;
  }

  function CountParent(vols: seq<Vol>, parent: string): nat {
    if vols == [] then 0
    else CountParent(vols[..|vols| - 1], parent) + (if vols[|vols| - 1].parent == parent then 1 else 0)
  }

  function ChasePrefix(vols: seq<Vol>, moves: seq<Move>, k: nat): Outcome<seq<Vol>>
    requires k <= |moves|
  {
    if k == 0 then Committed(vols)
    else match ChasePrefix(vols, moves, k - 1)
      case Aborted => Aborted
      case Committed(v) => Repoint(v, moves[k - 1].from, moves[k - 1].to)
  }

  // ---------- Identity inheritance ----------

  /** Both parent shapes; a NULL or malformed meta cannot prove it is a parent. */
  predicate ParentMeta(m: Meta) {
    m.Object? && (m.composition == Some("volumes") || m.volumes == Some(true))
  }

  predicate CompositionParent(r: Row) { r.kind == File && ParentMeta(r.meta) }

  function ParentsOf(rows: seq<Row>): (r: seq<Row>)
    ensures forall p | p in r :: p in rows && CompositionParent(p)
  {
    if rows == [] then []
    else ParentsOf(rows[..|rows| - 1])
         + (if CompositionParent(rows[|rows| - 1]) then [rows[|rows| - 1]] else [])
  }

  /** The newest listed file of that group and name. */
  function Successor(items: seq<Item>, group: string, name: string): (r: Option<Item>)
    ensures r.Some? ==>
      && r.value in items && Chaseable(r.value)
      && r.value.group == group && r.value.name == name
  {
    if items == [] then None
    else
      var last := items[|items| - 1];
      if Chaseable(last) && last.group == group && last.name == name then Some(last)
      else Successor(items[..|items| - 1], group, name)
  }

  predicate Listed(items: seq<Item>, ref: string) {
    exists i :: 0 <= i < |items| && items[i].ref != "" && items[i].ref == ref
  }

  /** The successor a vanished parent hands over to, if any. */
  function Heir(items: seq<Item>, pred: Row): (r: Option<Item>)
    ensures r.Some? ==>
      && r.value in items && Chaseable(r.value) && r.value.Rid() != pred.rid
      && r.value.group == pred.group && r.value.name == pred.name
      && !Listed(items, pred.ref)
  {
    match Successor(items, pred.group, pred.name)
    case None => None
    case Some(s) => if s.Rid() == pred.rid || Listed(items, pred.ref) then None else Some(s)
  }

  function WithMeta(rows: seq<Row>, rid: string, meta: Meta): (r: seq<Row>)
    ensures |r| == |rows|
    ensures forall i | 0 <= i < |rows| ::
              r[i] == if rows[i].rid == rid then rows[i].(meta := meta) else rows[i]
  {
    seq(|rows|, i requires 0 <= i < |rows| =>
      if rows[i].rid == rid then rows[i].(meta := meta) else rows[i])
  }

  function Tombstoned(rows: seq<Row>, rid: string): (r: seq<Row>)
    ensures |r| == |rows|
    ensures forall i | 0 <= i < |rows| ::
              r[i] == if rows[i].rid == rid then rows[i].(status := Deleted) else rows[i]
  {
    seq(|rows|, i requires 0 <= i < |rows| =>
      if rows[i].rid == rid then rows[i].(status := Deleted) else rows[i])
  }

  function InheritOne(db: Db, items: seq<Item>, pred: Row): Outcome<Db> {
    match Heir(items, pred)
    case None => Committed(db)
    case Some(s) =>
      match Repoint(db.vols, pred.rid, s.Rid())
      case Aborted => Aborted
      case Committed(v) =>
        Committed(Db(Tombstoned(WithMeta(db.rows, s.Rid(), pred.meta), pred.rid), v))
  }

  function InheritPrefix(db: Db, items: seq<Item>, preds: seq<Row>, k: nat): Outcome<Db>
    requires k <= |preds|
  {
    if k == 0 then Committed(db)
    else match InheritPrefix(db, items, preds, k - 1)
      case Aborted => Aborted
      case Committed(d) => InheritOne(d, items, preds[k - 1])
  }

  predicate AnyChaseable(items: seq<Item>) {
    exists i :: 0 <= i < |items| && Chaseable(items[i])
  }

  function Inherit(db: Db, items: seq<Item>): Outcome<Db> {
    if AnyChaseable(items) then
      var preds := ParentsOf(db.rows);
      InheritPrefix(db, items, preds, |preds|)
    else Committed(db)
  }

  // ---------- The whole batch ----------

  ghost function Batch(db: Db, items: seq<Item>): Outcome<Db> {
    var moves := Plan(db.rows, items);
    match UpsertAll(db.rows, items)
    case Aborted => Aborted
    case Committed(rows1) =>
      match Inherit(Db(rows1, db.vols), items)
      case Aborted => Aborted
      case Committed(d) =>
        match ChasePrefix(d.vols, moves, |moves|)
        case Aborted => Aborted
        case Committed(v) => Committed(Db(d.rows, v))
  }

  // ---------- The hypotheses of the theorems ----------

  ghost predicate DistinctItems(items: seq<Item>) {
    forall i, j | 0 <= i < |items| && 0 <= j < |items| && i != j ::
      items[i].Rid() != items[j].Rid() && items[i].Ident() != items[j].Ident()
  }

  /** A re-listed resource id still names the same logical file. */
  ghost predicate KeepsNames(rows: seq<Row>, items: seq<Item>) {
    forall i, j | 0 <= i < |items| && 0 <= j < |rows| && rows[j].rid == items[i].Rid() ::
      rows[j].Ident() == items[i].Ident()
  }

  ghost predicate ItemsOk(rows: seq<Row>, items: seq<Item>) {
    && DistinctItems(items)
    && (forall i | 0 <= i < |items| :: items[i].ref != "")
    && KeepsNames(rows, items)
  }

  ghost predicate HandlesDerived(rows: seq<Row>) {
    forall j | 0 <= j < |rows| ::
      ':' !in rows[j].group && rows[j].rid == ResourceId(rows[j].group, rows[j].kind, rows[j].ref)
  }

  /** With derived ids and colon-free groups only the name has to be kept. */
  lemma NameIsEnough(rows: seq<Row>, items: seq<Item>)
    requires HandlesDerived(rows)
    requires forall i | 0 <= i < |items| :: ':' !in items[i].group
    requires forall i, j | 0 <= i < |items| && 0 <= j < |rows| && rows[j].rid == items[i].Rid() ::
               rows[j].name == items[i].name
    ensures KeepsNames(rows, items)
  {
    forall i, j | 0 <= i < |items| && 0 <= j < |rows| && rows[j].rid == items[i].Rid()
      ensures rows[j].Ident() == items[i].Ident()
    {
      IdDeterminesParts(rows[j].group, rows[j].kind, rows[j].ref,
                        items[i].group, items[i].kind, items[i].ref);
    }
  }

  // ---------- What the upsert does to each row ----------

  /** Row `i` is where an item landed: an old row rewritten in place, or a new one. */
  ghost predicate Landed(rows0: seq<Row>, it: Item, i: nat, r: Row) {
    if i < |rows0| then
      && r == ConflictBody(rows0[i], it)
      && rows0[i].Ident() == it.Ident()
      && (rows0[i].rid == it.Rid() || (rows0[i].Live() && it.status != Deleted))
    else
      r == NewRow(it)
  }

  ghost predicate RowAccounted(rows0: seq<Row>, items: seq<Item>, k: nat, i: nat, r: Row)
    requires k <= |items|
  {
    || (i < |rows0| && r == rows0[i])
    || exists j :: 0 <= j < k && Landed(rows0, items[j], i, r)
  }

  ghost predicate ItemAccounted(rows0: seq<Row>, it: Item, rows: seq<Row>) {
    exists i :: 0 <= i < |rows| && Landed(rows0, it, i, rows[i])
  }

  /** Each row is untouched or is where exactly one of the first `k` items landed. */
  ghost predicate Progress(rows0: seq<Row>, items: seq<Item>, k: nat, rows: seq<Row>)
    requires k <= |items|
  {
    && |rows0| <= |rows| && TableOk(rows) && KeysMatch(rows)
    && (forall i | 0 <= i < |rows| :: RowAccounted(rows0, items, k, i, rows[i]))
    && (forall j | 0 <= j < k :: ItemAccounted(rows0, items[j], rows))
  }

  lemma UntouchedBefore(rows0: seq<Row>, items: seq<Item>, k: nat, rows: seq<Row>, i: nat)
    requires k < |items| && DistinctItems(items) && Progress(rows0, items, k, rows)
    requires i < |rows|
    requires rows[i].rid == items[k].Rid() || rows[i].Ident() == items[k].Ident()
    ensures i < |rows0| && rows[i] == rows0[i]
  {
    assert RowAccounted(rows0, items, k, i, rows[i]);
    forall j | 0 <= j < k ensures !Landed(rows0, items[j], i, rows[i]) {
      assert items[j].Rid() != items[k].Rid() && items[j].Ident() != items[k].Ident();
    }
  }

  lemma ConflictIsTheSameFile(rows0: seq<Row>, items: seq<Item>, k: nat, rows: seq<Row>, i: nat)
    requires k < |items| && ItemsOk(rows0, items) && Progress(rows0, items, k, rows)
    requires ConflictRow(rows, items[k]) == Some(i)
    ensures i < |rows0| && rows[i] == rows0[i] && rows0[i].Ident() == items[k].Ident()
    ensures rows0[i].rid == items[k].Rid() || (rows0[i].Live() && items[k].status != Deleted)
  {
    var it := items[k];
    if FindRid(rows, it.Rid()).None? {
      assert InSlot(rows[i], it.group, it.kind, it.Key());
      assert KeyMatches(rows[i]);
      KeyDeterminesName(it.group, it.kind, rows[i].name, it.name);
    }
    UntouchedBefore(rows0, items, k, rows, i);
  }

  lemma DistinctPair(rows0: seq<Row>, items: seq<Item>, j: nat, k: nat)
    requires ItemsOk(rows0, items) && j < k < |items|
    ensures items[j].Rid() != items[k].Rid() && items[j].Ident() != items[k].Ident()
  {
  }

  lemma OneUpsertKeepsIndex(rows: seq<Row>, it: Item)
    requires TableOk(rows) && KeysMatch(rows) && UpsertRow(rows, it).Committed?
    requires FindRid(rows, it.Rid()).Some? ==> rows[FindRid(rows, it.Rid()).value].name == it.name
    ensures TableOk(UpsertRow(rows, it).value) && KeysMatch(UpsertRow(rows, it).value)
  {
    UpsertRowKeepsTableOk(rows, it);
    OneUpsertKeepsKeysIff(rows, it);
  }

  lemma ProgressStep(rows0: seq<Row>, items: seq<Item>, k: nat, rows: seq<Row>)
    requires k < |items| && ItemsOk(rows0, items) && Progress(rows0, items, k, rows)
    requires UpsertRow(rows, items[k]).Committed?
    ensures Progress(rows0, items, k + 1, UpsertRow(rows, items[k]).value)
  {
    hide TableOk, KeysMatch, ItemsOk, Fits;
    var it := items[k];
    var after := UpsertRow(rows, it).value;
    var landedAt: nat;
    match ConflictRow(rows, it) {
      case Some(i) =>
        landedAt := i;
        ConflictIsTheSameFile(rows0, items, k, rows, i);
        assert after == rows[i := ConflictBody(rows0[i], it)];
      case None =>
        landedAt := |rows|;
    }
    OneUpsertKeepsIndex(rows, it);
    assert Landed(rows0, it, landedAt, after[landedAt]);
    forall i | 0 <= i < |after| ensures RowAccounted(rows0, items, k + 1, i, after[i]) {
      if i != landedAt {
        assert after[i] == rows[i] && RowAccounted(rows0, items, k, i, rows[i]);
      }
    }
    forall j | 0 <= j < k + 1 ensures ItemAccounted(rows0, items[j], after) {
      if j < k {
        var i :| 0 <= i < |rows| && Landed(rows0, items[j], i, rows[i]);
        DistinctPair(rows0, items, j, k);
        assert rows[i].rid == items[j].Rid() && rows[i].Ident() == items[j].Ident();
        assert Landed(rows0, items[j], i, after[i]);
      }
    }
  }

  lemma ProgressStart(rows0: seq<Row>, items: seq<Item>)
    requires TableOk(rows0) && KeysMatch(rows0)
    ensures Progress(rows0, items, 0, rows0)
  {
  }

  lemma {:induction false} UpsertProgress(rows0: seq<Row>, items: seq<Item>, k: nat)
    requires k <= |items| && TableOk(rows0) && KeysMatch(rows0) && ItemsOk(rows0, items)
    requires UpsertPrefix(rows0, items, k).Committed?
    ensures Progress(rows0, items, k, UpsertPrefix(rows0, items, k).value)
  {
    hide UpsertRow, Progress, ItemsOk, TableOk, KeysMatch;
    if k == 0 {
      ProgressStart(rows0, items);
    } else {
      UpsertProgress(rows0, items, k - 1);
      ProgressStep(rows0, items, k - 1, UpsertPrefix(rows0, items, k - 1).value);
    }
  }

  /** The constraints hold after any committed upsert, hypotheses or not. */
  lemma {:induction false} UpsertKeepsTableOk(rows0: seq<Row>, items: seq<Item>, k: nat)
    requires k <= |items| && TableOk(rows0)
    requires UpsertPrefix(rows0, items, k).Committed?
    ensures TableOk(UpsertPrefix(rows0, items, k).value)
  {
    hide UpsertRow, TableOk;
    if k > 0 {
      UpsertKeepsTableOk(rows0, items, k - 1);
      UpsertRowKeepsTableOk(UpsertPrefix(rows0, items, k - 1).value, items[k - 1]);
    }
  }

  // ---------- What inheritance does to the rows ----------

  /** Only meta may change, or a status to deleted. */
  ghost predicate SameButRetired(r: Row, r': Row) {
    || r' == r.(meta := r'.meta)
    || r' == r.(meta := r'.meta, status := Deleted)
  }

  /** A row inheritance retired: a file whose handle vanished but whose name is still listed. */
  ghost predicate Vanished(items: seq<Item>, r: Row) {
    r.kind == File && !Listed(items, r.ref)
    && exists s :: s in items && Chaseable(s) && s.Rid() != r.rid && s.Ident() == r.Ident()
  }

  ghost predicate InheritShape(items: seq<Item>, rows: seq<Row>, rows': seq<Row>) {
    && |rows'| == |rows|
    && (forall i | 0 <= i < |rows| :: SameButRetired(rows[i], rows'[i]))
    && (forall i | 0 <= i < |rows| && rows'[i].status != rows[i].status :: Vanished(items, rows[i]))
  }

  lemma InheritOneRows(rows0: seq<Row>, db: Db, items: seq<Item>, pred: Row)
    requires UniqueRids(rows0) && pred in rows0 && pred.kind == File
    requires InheritShape(items, rows0, db.rows) && InheritOne(db, items, pred).Committed?
    ensures InheritShape(items, rows0, InheritOne(db, items, pred).value.rows)
  {
    if Heir(items, pred).Some? {
      var s := Heir(items, pred).value;
      assert s.Ident() == pred.Ident();
      assert Vanished(items, pred);
      var marked := WithMeta(db.rows, s.Rid(), pred.meta);
      var after := Tombstoned(marked, pred.rid);
      forall i | 0 <= i < |rows0|
        ensures SameButRetired(rows0[i], after[i])
        ensures after[i].status != rows0[i].status ==> Vanished(items, rows0[i])
      {
        assert SameButRetired(rows0[i], db.rows[i]);
        assert SameButRetired(rows0[i], marked[i]);
        assert rows0[i].rid == pred.rid ==> rows0[i] == pred;
      }
    }
  }

  lemma InheritNothing(items: seq<Item>, rows: seq<Row>)
    ensures InheritShape(items, rows, rows)
  {
  }

  lemma {:induction false} InheritRows(db: Db, items: seq<Item>, preds: seq<Row>, k: nat)
    requires k <= |preds| && UniqueRids(db.rows)
    requires forall p | p in preds :: p in db.rows && p.kind == File
    requires InheritPrefix(db, items, preds, k).Committed?
    ensures InheritShape(items, db.rows, InheritPrefix(db, items, preds, k).value.rows)
  {
    hide InheritOne, InheritShape;
    if k == 0 {
      InheritNothing(items, db.rows);
    } else {
      InheritRows(db, items, preds, k - 1);
      assert preds[k - 1] in preds;
      InheritOneRows(db.rows, InheritPrefix(db, items, preds, k - 1).value, items, preds[k - 1]);
    }
  }

  lemma InheritShapeKeepsTableOk(items: seq<Item>, rows: seq<Row>, rows': seq<Row>)
    requires TableOk(rows) && InheritShape(items, rows, rows')
    ensures TableOk(rows')
    ensures KeysMatch(rows) ==> KeysMatch(rows')
  {
    forall a, b | 0 <= a < |rows'| && 0 <= b < |rows'|
      ensures rows'[a].rid == rows'[b].rid ==> a == b
      ensures SameSlot(rows'[a], rows'[b]) ==> a == b
    {
      assert SameButRetired(rows[a], rows'[a]) && SameButRetired(rows[b], rows'[b]);
      assert SameSlot(rows'[a], rows'[b]) ==> SameSlot(rows[a], rows[b]);
    }
    if KeysMatch(rows) {
      forall i | 0 <= i < |rows'| ensures KeyMatches(rows'[i]) {
        assert KeyMatches(rows[i]) && SameButRetired(rows[i], rows'[i]);
      }
    }
  }

  /** The intermediate table of a committed batch, and how it relates to both ends. */
  lemma BatchStages(db: Db, items: seq<Item>) returns (rows1: seq<Row>)
    requires TableOk(db.rows) && Batch(db, items).Committed?
    ensures UpsertAll(db.rows, items) == Committed(rows1) && TableOk(rows1)
    ensures InheritShape(items, rows1, Batch(db, items).value.rows)
    ensures TableOk(Batch(db, items).value.rows)
    ensures KeysMatch(db.rows) && ItemsOk(db.rows, items) ==>
              Progress(db.rows, items, |items|, rows1) && KeysMatch(Batch(db, items).value.rows)
  {
    rows1 := UpsertAll(db.rows, items).value;
    UpsertKeepsTableOk(db.rows, items, |items|);
    var mid := Db(rows1, db.vols);
    if AnyChaseable(items) {
      InheritRows(mid, items, ParentsOf(rows1), |ParentsOf(rows1)|);
    }
    var rows2 := Batch(db, items).value.rows;
    assert InheritShape(items, rows1, rows2);
    InheritShapeKeepsTableOk(items, rows1, rows2);
    if KeysMatch(db.rows) && ItemsOk(db.rows, items) {
      UpsertProgress(db.rows, items, |items|);
    }
  }

  // ---------- Theorem 1: both constraints and the keys, batch after batch ----------

  ghost predicate ExactlyOneRow(rows: seq<Row>, rid: string) {
    exists i :: 0 <= i < |rows| && rows[i].rid == rid
             && forall j | 0 <= j < |rows| && rows[j].rid == rid :: j == i
  }

  ghost predicate Carries(r: Row, it: Item) {
    r.rid == it.Rid() && r.Ident() == it.Ident() && r.ref == it.ref
  }

  /** The batch as its callers may rely on it. */
  ghost predicate Indexed(db: Db, items: seq<Item>, db': Db) {
    && TableOk(db'.rows) && KeysMatch(db'.rows) && |db.rows| <= |db'.rows|
    && (forall i | 0 <= i < |db.rows| :: db'.rows[i].Ident() == db.rows[i].Ident())
    && (forall j | 0 <= j < |items| :: ExactlyOneRow(db'.rows, items[j].Rid()))
    && (forall j, i | 0 <= j < |items| && 0 <= i < |db'.rows| && db'.rows[i].rid == items[j].Rid() ::
          Carries(db'.rows[i], items[j]))
  }

  lemma LandedCarries(rows0: seq<Row>, it: Item, i: nat, r: Row, r': Row)
    requires Landed(rows0, it, i, r) && SameButRetired(r, r')
    ensures Carries(r', it)
  {
  }

  lemma AccountedKeepsIdent(rows0: seq<Row>, items: seq<Item>, i: nat, r: Row, r': Row)
    requires i < |rows0| && RowAccounted(rows0, items, |items|, i, r) && SameButRetired(r, r')
    ensures r'.Ident() == rows0[i].Ident()
  {
  }

  /**
   A committed batch keeps both constraints and every key, and leaves exactly one row for
   each item's resource id, carrying the item's logical file and handle.
   */
  lemma CommittedBatch(db: Db, items: seq<Item>)
    requires TableOk(db.rows) && KeysMatch(db.rows) && ItemsOk(db.rows, items)
    requires Batch(db, items).Committed?
    ensures Indexed(db, items, Batch(db, items).value)
  {
    var rows1 := BatchStages(db, items);
    CommittedRows(db.rows, items, rows1, Batch(db, items).value.rows);
  }

  lemma CommittedRows(rows0: seq<Row>, items: seq<Item>, rows1: seq<Row>, rows2: seq<Row>)
    requires Progress(rows0, items, |items|, rows1) && InheritShape(items, rows1, rows2)
    requires TableOk(rows2) && KeysMatch(rows2)
    ensures Indexed(Db(rows0, []), items, Db(rows2, []))
  {
    forall i | 0 <= i < |rows0| ensures rows2[i].Ident() == rows0[i].Ident() {
      AccountedKeepsIdent(rows0, items, i, rows1[i], rows2[i]);
    }
    forall j | 0 <= j < |items|
      ensures ExactlyOneRow(rows2, items[j].Rid())
      ensures forall i | 0 <= i < |rows2| && rows2[i].rid == items[j].Rid() :: Carries(rows2[i], items[j])
    {
      assert ItemAccounted(rows0, items[j], rows1);
      var i :| 0 <= i < |rows1| && Landed(rows0, items[j], i, rows1[i]);
      LandedCarries(rows0, items[j], i, rows1[i], rows2[i]);
    }
  }

  /** What the caller sees: an aborted batch is rolled back. */
  ghost function AfterBatch(db: Db, items: seq<Item>): Db {
    if Batch(db, items).Committed? then Batch(db, items).value else db
  }

  // ---------- Theorem 2: parts stay attached to their file ----------

  ghost predicate HasRow(rows: seq<Row>, rid: string, id: Ident) {
    exists i :: 0 <= i < |rows| && rows[i].rid == rid && rows[i].Ident() == id
  }

  /** The parent is in the table, or one of the remaining moves will take the part to it. */
  ghost predicate Reachable(rows0: seq<Row>, rows1: seq<Row>, moves: seq<Move>, k: nat,
                            parent: string, id: Ident)
    requires k <= |moves|
  {
    || HasRow(rows1, parent, id)
    || (HasRow(rows0, parent, id) && exists n :: k <= n < |moves| && moves[n].from == parent)
  }

  /** A resource id that was known keeps its logical file, even if another item took it over. */
  lemma RidKeepsIdent(rows0: seq<Row>, items: seq<Item>, rows1: seq<Row>, i: nat, i1: nat)
    requires TableOk(rows0) && ItemsOk(rows0, items)
    requires Progress(rows0, items, |items|, rows1)
    requires i < |rows0| && i1 < |rows1| && rows1[i1].rid == rows0[i].rid
    ensures rows1[i1].Ident() == rows0[i].Ident()
  {
    assert RowAccounted(rows0, items, |items|, i1, rows1[i1]);
  }

  lemma CollapsedIsPlanned(rows0: seq<Row>, items: seq<Item>, rows1: seq<Row>, i: nat)
    requires TableOk(rows0) && KeysMatch(rows0) && ItemsOk(rows0, items)
    requires Progress(rows0, items, |items|, rows1)
    requires i < |rows0| && rows0[i].kind == File
    ensures Reachable(rows0, rows1, Plan(rows0, items), 0, rows0[i].rid, rows0[i].Ident())
  {
    assert RowAccounted(rows0, items, |items|, i, rows1[i]);
    if rows1[i].rid != rows0[i].rid {
      var j :| 0 <= j < |items| && Landed(rows0, items[j], i, rows1[i]);
      var it := items[j];
      assert LiveNamed(rows0[i], it);
      var found := FindLiveNamed(rows0, it).value;
      assert KeyMatches(rows0[i]) && KeyMatches(rows0[found]);
      assert SameSlot(rows0[i], rows0[found]);
      assert MoveFor(rows0, it) == Some(Move(rows0[i].rid, it.Rid()));
      PlanHas(rows0, items, |items|, j);
      var moves := Plan(rows0, items);
      var n :| 0 <= n < |moves| && moves[n] == Move(rows0[i].rid, it.Rid());
      assert HasRow(rows0, rows0[i].rid, rows0[i].Ident());
    } else {
      assert rows1[i].Ident() == rows0[i].Ident();
      assert HasRow(rows1, rows0[i].rid, rows0[i].Ident());
    }
  }

  lemma ListedHasRow(rows0: seq<Row>, items: seq<Item>, rows1: seq<Row>, it: Item)
    requires Progress(rows0, items, |items|, rows1) && it in items
    ensures HasRow(rows1, it.Rid(), it.Ident())
  {
    var j :| 0 <= j < |items| && items[j] == it;
    assert ItemAccounted(rows0, items[j], rows1);
    var i :| 0 <= i < |rows1| && Landed(rows0, it, i, rows1[i]);
    assert rows1[i].rid == it.Rid() && rows1[i].Ident() == it.Ident();
  }

  lemma SameRidSameIdent(rows0: seq<Row>, items: seq<Item>, rows1: seq<Row>, parent: string,
                         id: Ident, other: Ident)
    requires TableOk(rows0) && ItemsOk(rows0, items) && Progress(rows0, items, |items|, rows1)
    requires HasRow(rows0, parent, id) || HasRow(rows1, parent, id)
    requires HasRow(rows0, parent, other) || HasRow(rows1, parent, other)
    ensures id == other
  {
    forall i, i1 | 0 <= i < |rows0| && 0 <= i1 < |rows1| && rows1[i1].rid == rows0[i].rid
      ensures rows1[i1].Ident() == rows0[i].Ident()
    {
      RidKeepsIdent(rows0, items, rows1, i, i1);
    }
  }

  /** The part at `m` after one repointing statement. */
  lemma RepointAt(vols: seq<Vol>, from: string, to: string, m: nat)
    requires m < |vols| && Repoint(vols, from, to).Committed?
    ensures var after := Repoint(vols, from, to).value;
            |after| == |vols|
            && after[m] == vols[m].(parent := if vols[m].parent == from then to else vols[m].parent)
  {
  }

  /** The part at `m` after one parent had its chance to hand over. */
  lemma InheritOneAt(db: Db, items: seq<Item>, pred: Row, m: nat)
    requires m < |db.vols| && InheritOne(db, items, pred).Committed?
    ensures var after := InheritOne(db, items, pred).value.vols;
            |after| == |db.vols|
            && (after[m] == db.vols[m]
                || (db.vols[m].parent == pred.rid && Heir(items, pred).Some?
                    && after[m] == db.vols[m].(parent := Heir(items, pred).value.Rid())))
  {
    if Heir(items, pred).Some? {
      RepointAt(db.vols, pred.rid, Heir(items, pred).value.Rid(), m);
    }
  }

  lemma HeirHasRow(rows0: seq<Row>, items: seq<Item>, rows1: seq<Row>, pred: Row, id: Ident)
    requires TableOk(rows0) && ItemsOk(rows0, items) && Progress(rows0, items, |items|, rows1)
    requires pred in rows1 && pred.kind == File && Heir(items, pred).Some?
    requires HasRow(rows0, pred.rid, id) || HasRow(rows1, pred.rid, id)
    ensures HasRow(rows1, Heir(items, pred).value.Rid(), id)
  {
    var i1 :| 0 <= i1 < |rows1| && rows1[i1] == pred;
    assert HasRow(rows1, pred.rid, pred.Ident());
    SameRidSameIdent(rows0, items, rows1, pred.rid, id, pred.Ident());
    ListedHasRow(rows0, items, rows1, Heir(items, pred).value);
  }

  lemma InheritOneReachable(rows0: seq<Row>, rows1: seq<Row>, db: Db, items: seq<Item>, pred: Row,
                            moves: seq<Move>, m: nat, id: Ident)
    requires TableOk(rows0) && ItemsOk(rows0, items) && Progress(rows0, items, |items|, rows1)
    requires pred in rows1 && pred.kind == File && m < |db.vols|
    requires InheritOne(db, items, pred).Committed?
    requires Reachable(rows0, rows1, moves, 0, db.vols[m].parent, id)
    ensures var vols := InheritOne(db, items, pred).value.vols;
            && |vols| == |db.vols| && vols[m] == db.vols[m].(parent := vols[m].parent)
            && Reachable(rows0, rows1, moves, 0, vols[m].parent, id)
  {
    InheritOneAt(db, items, pred, m);
    if Heir(items, pred).Some? && db.vols[m].parent == pred.rid {
      HeirHasRow(rows0, items, rows1, pred, id);
    }
  }

  /** Handing a vanished parent's parts to its successor keeps each part with its file. */
  lemma {:induction false} InheritKeepsReachable(rows0: seq<Row>, rows1: seq<Row>, db: Db,
                                                 items: seq<Item>, preds: seq<Row>, k: nat,
                                                 moves: seq<Move>, m: nat, id: Ident)
    requires TableOk(rows0) && ItemsOk(rows0, items) && Progress(rows0, items, |items|, rows1)
    requires forall p | p in preds :: p in rows1 && p.kind == File
    requires k <= |preds| && m < |db.vols|
    requires InheritPrefix(db, items, preds, k).Committed?
    requires Reachable(rows0, rows1, moves, 0, db.vols[m].parent, id)
    ensures var vols := InheritPrefix(db, items, preds, k).value.vols;
            && |vols| == |db.vols| && vols[m] == db.vols[m].(parent := vols[m].parent)
            && Reachable(rows0, rows1, moves, 0, vols[m].parent, id)
  {
    hide InheritOne, Reachable, Progress, ItemsOk, TableOk;
    if k > 0 {
      InheritKeepsReachable(rows0, rows1, db, items, preds, k - 1, moves, m, id);
      assert preds[k - 1] in preds;
      InheritOneReachable(rows0, rows1, InheritPrefix(db, items, preds, k - 1).value, items,
                          preds[k - 1], moves, m, id);
    }
  }

  lemma MoveTargetHasRow(rows0: seq<Row>, items: seq<Item>, rows1: seq<Row>, move: Move, id: Ident)
    requires TableOk(rows0) && ItemsOk(rows0, items) && Progress(rows0, items, |items|, rows1)
    requires move in Plan(rows0, items)
    requires HasRow(rows0, move.from, id) || HasRow(rows1, move.from, id)
    ensures HasRow(rows1, move.to, id)
  {
    var j := PlanOnly(rows0, items, |items|, move);
    var i := FindLiveNamed(rows0, items[j]).value;
    assert rows0[i].rid == move.from && rows0[i].Ident() == items[j].Ident();
    SameRidSameIdent(rows0, items, rows1, move.from, id, items[j].Ident());
    ListedHasRow(rows0, items, rows1, items[j]);
  }

  /** Each move of the plan takes parts to a present row of the same file. */
  lemma {:induction false} ChaseKeepsReachable(rows0: seq<Row>, items: seq<Item>, rows1: seq<Row>,
                                               vols: seq<Vol>, k: nat, m: nat, id: Ident)
    requires TableOk(rows0) && ItemsOk(rows0, items)
    requires Progress(rows0, items, |items|, rows1)
    requires k <= |Plan(rows0, items)| && m < |vols|
    requires ChasePrefix(vols, Plan(rows0, items), k).Committed?
    requires Reachable(rows0, rows1, Plan(rows0, items), 0, vols[m].parent, id)
    ensures var after := ChasePrefix(vols, Plan(rows0, items), k).value;
            && |after| == |vols| && after[m] == vols[m].(parent := after[m].parent)
            && Reachable(rows0, rows1, Plan(rows0, items), k, after[m].parent, id)
  {
    hide Progress, ItemsOk, TableOk, HasRow, PlanPrefix, Repoint;
    if k > 0 {
      ChaseKeepsReachable(rows0, items, rows1, vols, k - 1, m, id);
      var moves := Plan(rows0, items);
      var before := ChasePrefix(vols, moves, k - 1).value;
      var move := moves[k - 1];
      RepointAt(before, move.from, move.to, m);
      if before[m].parent == move.from {
        MoveTargetHasRow(rows0, items, rows1, move, id);
      }
    }
  }

  lemma NothingPending(rows0: seq<Row>, rows1: seq<Row>, moves: seq<Move>, parent: string, id: Ident)
    requires Reachable(rows0, rows1, moves, |moves|, parent, id)
    ensures HasRow(rows1, parent, id)
  {
  }

  /**
   Every part of a known file still belongs to a row of the table after a committed batch,
   and that row is the same logical file: through key collapse, inheritance and the chase.
   */
  lemma PartsStayAttached(db: Db, items: seq<Item>, m: nat, i: nat)
    requires TableOk(db.rows) && KeysMatch(db.rows) && ItemsOk(db.rows, items)
    requires Batch(db, items).Committed?
    requires m < |db.vols| && i < |db.rows| && db.rows[i].kind == File
    requires db.vols[m].parent == db.rows[i].rid
    ensures var db' := Batch(db, items).value;
            && |db'.vols| == |db.vols|
            && db'.vols[m] == db.vols[m].(parent := db'.vols[m].parent)
            && HasRow(db'.rows, db'.vols[m].parent, db.rows[i].Ident())
  {
    hide Progress, ItemsOk, TableOk, Reachable, KeysMatch, InheritPrefix, ChasePrefix;
    var rows1 := BatchStages(db, items);
    var db' := Batch(db, items).value;
    var id := db.rows[i].Ident();
    CollapsedIsPlanned(db.rows, items, rows1, i);
    var mid := Db(rows1, db.vols);
    var inherited := Inherit(mid, items).value;
    if AnyChaseable(items) {
      InheritKeepsReachable(db.rows, rows1, mid, items, ParentsOf(rows1), |ParentsOf(rows1)|,
                            Plan(db.rows, items), m, id);
    }
    ChaseKeepsReachable(db.rows, items, rows1, inherited.vols, |Plan(db.rows, items)|, m, id);
    NothingPending(db.rows, rows1, Plan(db.rows, items), db'.vols[m].parent, id);
    var i1 :| 0 <= i1 < |rows1| && rows1[i1].rid == db'.vols[m].parent && rows1[i1].Ident() == id;
    assert SameButRetired(rows1[i1], db'.rows[i1]);
  }

  // ---------- Where the chase does not reach ----------

  lemma OnlyRowIsRewritten(r: Row, it: Item)
    requires it.Rid() == r.rid || (it.status != Deleted && InSlot(r, it.group, it.kind, it.Key()))
    ensures UpsertRow([r], it) == Committed([ConflictBody(r, it)])
  {
    assert [r][0] == r;
    assert ConflictRow([r], it) == Some(0);
    assert [r][0 := ConflictBody(r, it)] == [ConflictBody(r, it)];
  }

  /**
   Two items of one name in a batch: the row takes the second id, the parts go to the first,
   and no row carries that id.
   */
  lemma SameNameTwiceOrphansParts(v: Vol)
    requires v.parent == "1:file:o"
    ensures var r := Row("1:file:o", "1", File, "a", "o", Active, Null, "1:file:a");
            var a := Item("1", File, "a", "p", Active, Object(None, None));
            var b := Item("1", File, "a", "q", Active, Object(None, None));
            && Batch(Db([r], [v]), [a, b])
               == Committed(Db([ConflictBody(ConflictBody(r, a), b)], [v.(parent := a.Rid())]))
            && a.Rid() != b.Rid() && ConflictBody(ConflictBody(r, a), b).rid == b.Rid()
  {
    var r := Row("1:file:o", "1", File, "a", "o", Active, Null, "1:file:a");
    var a := Item("1", File, "a", "p", Active, Object(None, None));
    var b := Item("1", File, "a", "q", Active, Object(None, None));
    var rows, items := [r], [a, b];
    assert LogicalKey("1", File, "a") == "1:file:a";
    assert a.Rid() == "1:file:p" && b.Rid() == "1:file:q";
    var r1 := ConflictBody(r, a);
    var r2 := ConflictBody(r1, b);
    OnlyRowIsRewritten(r, a);
    OnlyRowIsRewritten(r1, b);
    assert UpsertPrefix(rows, items, 1) == Committed([r1]);
    assert UpsertPrefix(rows, items, 2) == Committed([r2]);
    PlanOfTwo(r, a, b);
    assert Chaseable(items[0]);
    assert [r2][..0] == [] && ParentsOf([r2]) == [];
    assert Inherit(Db([r2], [v]), items) == Committed(Db([r2], [v]));
    ChaseOfTwo(v, a.Rid(), b.Rid());
  }

  lemma PlanOfTwo(r: Row, a: Item, b: Item)
    requires Chaseable(a) && Chaseable(b) && LiveNamed(r, a) && LiveNamed(r, b)
    requires a.Rid() != r.rid && b.Rid() != r.rid
    ensures Plan([r], [a, b]) == [Move(r.rid, a.Rid()), Move(r.rid, b.Rid())]
  {
    assert [r][0] == r && [a, b][0] == a && [a, b][1] == b;
    assert MoveFor([r], a) == Some(Move(r.rid, a.Rid())) && MoveFor([r], b) == Some(Move(r.rid, b.Rid()));
    assert PlanPrefix([r], [a, b], 0) == [];
    assert PlanPrefix([r], [a, b], 1) == [Move(r.rid, a.Rid())];
    assert PlanPrefix([r], [a, b], 2) == [Move(r.rid, a.Rid()), Move(r.rid, b.Rid())];
  }

  lemma ChaseOfTwo(v: Vol, to1: string, to2: string)
    requires v.parent != to1 && v.parent != to2
    ensures ChasePrefix([v], [Move(v.parent, to1), Move(v.parent, to2)], 2)
         == Committed([v.(parent := to1)])
  {
    var moves := [Move(v.parent, to1), Move(v.parent, to2)];
    var v1 := v.(parent := to1);
    assert Moved([v], v.parent, to1) == [v1];
    assert Moved([v1], v.parent, to2) == [v1];
    assert ChasePrefix([v], moves, 0) == Committed([v]);
    assert ChasePrefix([v], moves, 1) == Committed([v1]);
  }

  ghost predicate Collapsed(rows0: seq<Row>, rows: seq<Row>, i: nat)
    requires i < |rows0| <= |rows|
  {
    rows[i].rid != rows0[i].rid
  }

  /** The batch lists this live row's file, not as deleted, under another id. */
  predicate Relisted(r: Row, items: seq<Item>) {
    r.Live() && exists j :: 0 <= j < |items| && items[j].Ident() == r.Ident()
                         && items[j].Rid() != r.rid && items[j].status != Deleted
  }

  /** Which rows a batch gives another id can be read off the old table and the batch. */
  lemma CollapsedIffRelisted(rows0: seq<Row>, items: seq<Item>, rows1: seq<Row>, i: nat)
    requires TableOk(rows0) && KeysMatch(rows0) && ItemsOk(rows0, items)
    requires Progress(rows0, items, |items|, rows1) && i < |rows0|
    ensures Collapsed(rows0, rows1, i) <==> Relisted(rows0[i], items)
  {
    assert RowAccounted(rows0, items, |items|, i, rows1[i]);
    if Relisted(rows0[i], items) {
      var j :| 0 <= j < |items| && items[j].Ident() == rows0[i].Ident()
            && items[j].Rid() != rows0[i].rid && items[j].status != Deleted;
      assert ItemAccounted(rows0, items[j], rows1);
      var a :| 0 <= a < |rows1| && Landed(rows0, items[j], a, rows1[a]);
      LandedIsLive(rows0, items, rows1, i, a, j);
    }
  }

  lemma LandedIsLive(rows0: seq<Row>, items: seq<Item>, rows1: seq<Row>, i: nat, a: nat, j: nat)
    requires ItemsOk(rows0, items) && Progress(rows0, items, |items|, rows1)
    requires i < |rows0| && a < |rows1| && j < |items| && Landed(rows0, items[j], a, rows1[a])
    requires rows0[i].Live() && items[j].Ident() == rows0[i].Ident() && items[j].status != Deleted
    ensures rows1[i].rid == items[j].Rid()
  {
    assert RowAccounted(rows0, items, |items|, i, rows1[i]);
    assert rows1[a].Live() && rows1[a].Ident() == items[j].Ident();
    if rows1[i] == rows0[i] {
      assert KeyMatches(rows1[a]) && KeyMatches(rows1[i]);
      assert SameSlot(rows1[a], rows1[i]);
    } else {
      var n :| 0 <= n < |items| && Landed(rows0, items[n], i, rows1[i]);
      assert items[n].Ident() == items[j].Ident();
    }
  }

  /**
   Only files are chased: a part registered under an album or essence row is never moved, so it
   stays attached exactly when the batch does not list that row's file under another id.
   */
  lemma OtherPartsAreNotChased(db: Db, items: seq<Item>, m: nat, i: nat)
    requires TableOk(db.rows) && KeysMatch(db.rows) && ItemsOk(db.rows, items)
    requires Batch(db, items).Committed?
    requires m < |db.vols| && i < |db.rows| && db.rows[i].kind != File
    requires db.vols[m].parent == db.rows[i].rid
    ensures var db' := Batch(db, items).value;
            && |db'.vols| == |db.vols| && db'.vols[m] == db.vols[m]
            && (HasRow(db'.rows, db'.vols[m].parent, db.rows[i].Ident()) <==> !Relisted(db.rows[i], items))
  {
    hide Progress, ItemsOk, TableOk, KeysMatch, InheritPrefix, ChasePrefix, Indexed, Relisted;
    var rows1 := BatchStages(db, items);
    var db' := Batch(db, items).value;
    var mid := Db(rows1, db.vols);
    if AnyChaseable(items) {
      InheritLeavesAlone(db.rows, rows1, mid, items, ParentsOf(rows1), |ParentsOf(rows1)|, m, i);
    }
    var inherited := Inherit(mid, items).value;
    ChaseLeavesAlone(db.rows, items, inherited.vols, |Plan(db.rows, items)|, m, i);
    StillThereIff(db, items, rows1, db'.rows, i);
    CollapsedIffRelisted(db.rows, items, rows1, i);
    assert SameButRetired(rows1[i], db'.rows[i]);
  }

  /**
   Every part whose parent row was there: it stays with a row of the same logical file exactly
   if that is a file or the batch does not list it under another id.
   */
  lemma PartStaysAttachedIff(db: Db, items: seq<Item>, m: nat, i: nat)
    requires TableOk(db.rows) && KeysMatch(db.rows) && ItemsOk(db.rows, items)
    requires Batch(db, items).Committed?
    requires m < |db.vols| && i < |db.rows| && db.vols[m].parent == db.rows[i].rid
    ensures var db' := Batch(db, items).value;
            && |db'.vols| == |db.vols| && db'.vols[m] == db.vols[m].(parent := db'.vols[m].parent)
            && (HasRow(db'.rows, db'.vols[m].parent, db.rows[i].Ident())
                <==> db.rows[i].kind == File || !Relisted(db.rows[i], items))
  {
    hide Batch, ItemsOk, TableOk, KeysMatch, HasRow, Relisted;
    if db.rows[i].kind == File {
      PartsStayAttached(db, items, m, i);
    } else {
      OtherPartsAreNotChased(db, items, m, i);
    }
  }

  lemma StillThereIff(db: Db, items: seq<Item>, rows1: seq<Row>, rows2: seq<Row>, i: nat)
    requires TableOk(db.rows) && ItemsOk(db.rows, items) && Progress(db.rows, items, |items|, rows1)
    requires InheritShape(items, rows1, rows2) && i < |db.rows|
    ensures |db.rows| <= |rows2|
    ensures HasRow(rows2, db.rows[i].rid, db.rows[i].Ident()) <==> !Collapsed(db.rows, rows2, i)
  {
    hide ItemsOk, KeysMatch;
    assert RowAccounted(db.rows, items, |items|, i, rows1[i]);
    assert SameButRetired(rows1[i], rows2[i]);
    assert rows2[i].Ident() == db.rows[i].Ident();
    if HasRow(rows2, db.rows[i].rid, db.rows[i].Ident()) {
      var a :| 0 <= a < |rows2| && rows2[a].rid == db.rows[i].rid && rows2[a].Ident() == db.rows[i].Ident();
      assert SameButRetired(rows1[a], rows2[a]);
      RowsOfOneRid(db.rows, items, rows1, i, a);
    }
  }

  /** A row under a known id is that row itself, or the row that took the id over from it. */
  lemma RowsOfOneRid(rows0: seq<Row>, items: seq<Item>, rows1: seq<Row>, i: nat, a: nat)
    requires TableOk(rows0) && ItemsOk(rows0, items) && Progress(rows0, items, |items|, rows1)
    requires i < |rows0| && a < |rows1| && rows1[a].rid == rows0[i].rid
    ensures a == i
  {
    assert RowAccounted(rows0, items, |items|, a, rows1[a]);
    assert RowAccounted(rows0, items, |items|, i, rows1[i]);
  }

  lemma {:induction false} InheritLeavesAlone(rows0: seq<Row>, rows1: seq<Row>, db: Db, items: seq<Item>,
                                              preds: seq<Row>, k: nat, m: nat, i: nat)
    requires TableOk(rows0) && ItemsOk(rows0, items) && Progress(rows0, items, |items|, rows1)
    requires forall p | p in preds :: p in rows1 && p.kind == File
    requires k <= |preds| && m < |db.vols| && InheritPrefix(db, items, preds, k).Committed?
    requires i < |rows0| && rows0[i].kind != File && db.vols[m].parent == rows0[i].rid
    ensures var vols := InheritPrefix(db, items, preds, k).value.vols;
            |vols| == |db.vols| && vols[m] == db.vols[m]
  {
    hide InheritOne, Progress, ItemsOk, TableOk;
    if k > 0 {
      InheritLeavesAlone(rows0, rows1, db, items, preds, k - 1, m, i);
      var pred := preds[k - 1];
      assert pred in preds;
      var i1 :| 0 <= i1 < |rows1| && rows1[i1] == pred;
      if pred.rid == rows0[i].rid {
        RidKeepsIdent(rows0, items, rows1, i, i1);
      }
      InheritOneAt(InheritPrefix(db, items, preds, k - 1).value, items, pred, m);
    }
  }

  lemma {:induction false} ChaseLeavesAlone(rows0: seq<Row>, items: seq<Item>, vols: seq<Vol>, k: nat,
                                            m: nat, i: nat)
    requires TableOk(rows0) && k <= |Plan(rows0, items)| && m < |vols|
    requires ChasePrefix(vols, Plan(rows0, items), k).Committed?
    requires i < |rows0| && rows0[i].kind != File && vols[m].parent == rows0[i].rid
    ensures var after := ChasePrefix(vols, Plan(rows0, items), k).value;
            |after| == |vols| && after[m] == vols[m]
  {
    hide Repoint, PlanPrefix, TableOk;
    if k > 0 {
      ChaseLeavesAlone(rows0, items, vols, k - 1, m, i);
      var move := Plan(rows0, items)[k - 1];
      MovesAreFiles(rows0, items, move, i);
      RepointAt(ChasePrefix(vols, Plan(rows0, items), k - 1).value, move.from, move.to, m);
    }
  }

  lemma MovesAreFiles(rows0: seq<Row>, items: seq<Item>, move: Move, i: nat)
    requires TableOk(rows0) && move in Plan(rows0, items)
    requires i < |rows0| && rows0[i].kind != File
    ensures move.from != rows0[i].rid
  {
    var j := PlanOnly(rows0, items, |items|, move);
  }
}
