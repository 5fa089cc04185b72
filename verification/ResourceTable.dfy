/**
 The resources table of the metadata index: row identity, the two uniqueness constraints,
 and one row of the upsert (core/domain/resource.py, row_identity.py, resources.py,
 resources_write.py, migrations.py).

 A table is a sequence of rows in rowid order. Neither the upsert nor the sweep ever removes
 a row, so an index names the same row for ever.
 */
module ResourceTable {
  import opened Options
  import StatusPolicy

  datatype Kind = File | Album | Essence

  datatype Status = Active | Archived | Deleted

  function KindText(k: Kind): string {
    match k case File => "file" case Album => "album" case Essence => "essence"
  }

  function StatusText(s: Status): string {
    match s case Active => "active" case Archived => "archived" case Deleted => "deleted"
  }

  /** The flags of the `meta` column the code reads. An absent key is None. */
  datatype Meta =
    | Null
    | Malformed
    | Object(volumes: Option<bool>, composition: Option<string>)

  /** A `Resource` always serialises a dict. */
  type MetaObject = m: Meta | m.Object? witness Object(None, None)

  datatype Row = Row(rid: string, group: string, kind: Kind, name: string, ref: string,
                     status: Status, meta: Meta, key: string)
  {
    predicate Live() { status != Deleted }

    function Ident(): Ident { LogicalFile(group, kind, name) }
  }

  /** A `Resource` handed to the index. */
  datatype Item = Item(group: string, kind: Kind, name: string, ref: string,
                       status: Status, meta: MetaObject)
  {
    function Rid(): string { ResourceId(group, kind, ref) }

    function Key(): string { LogicalKey(group, kind, name) }

    function Ident(): Ident { LogicalFile(group, kind, name) }
  }

  /** The logical file: what stays the same when its session handle changes. */
  datatype Ident = LogicalFile(group: string, kind: Kind, name: string)

  function ResourceId(group: string, kind: Kind, ref: string): string {
    group + ":" + KindText(kind) + ":" + ref
  }

  function LogicalKey(group: string, kind: Kind, name: string): string {
    group + ":" + KindText(kind) + ":" + name
  }

  lemma SamePrefixSameSuffix(p: string, a: string, b: string)
    requires p + a == p + b
    ensures a == b
  {
    assert a == (p + a)[|p|..] == (p + b)[|p|..] == b;
  }

  /** Within one group and type the logical key names the file. */
  lemma KeyDeterminesName(group: string, kind: Kind, name1: string, name2: string)
    ensures LogicalKey(group, kind, name1) == LogicalKey(group, kind, name2) <==> name1 == name2
  {
    if LogicalKey(group, kind, name1) == LogicalKey(group, kind, name2) {
      SamePrefixSameSuffix(group + ":" + KindText(kind) + ":", name1, name2);
    }
  }

  lemma SplitAtFirstColon(a1: string, b1: string, a2: string, b2: string)
    requires ':' !in a1 && ':' !in a2
    requires a1 + ":" + b1 == a2 + ":" + b2
    ensures a1 == a2 && b1 == b2
  {
    var s1, s2 := a1 + ":" + b1, a2 + ":" + b2;
    assert s1[|a1|] == ':' && s2[|a2|] == ':';
    assert forall i | 0 <= i < |a1| :: s1[i] == a1[i];
    assert forall i | 0 <= i < |a2| :: s2[i] == a2[i];
    assert a1 == s1[..|a1|] && a2 == s2[..|a2|];
    SamePrefixSameSuffix(a1 + ":", b1, b2);
  }

  /** With colon-free group ids, a resource id determines group, type and session handle. */
  lemma IdDeterminesParts(g1: string, k1: Kind, ref1: string, g2: string, k2: Kind, ref2: string)
    requires ':' !in g1 && ':' !in g2
    requires ResourceId(g1, k1, ref1) == ResourceId(g2, k2, ref2)
    ensures g1 == g2 && k1 == k2 && ref1 == ref2
  {
    assert ResourceId(g1, k1, ref1) == g1 + ":" + (KindText(k1) + ":" + ref1);
    assert ResourceId(g2, k2, ref2) == g2 + ":" + (KindText(k2) + ":" + ref2);
    SplitAtFirstColon(g1, KindText(k1) + ":" + ref1, g2, KindText(k2) + ":" + ref2);
    SplitAtFirstColon(KindText(k1), ref1, KindText(k2), ref2);
  }

  // ---------- Constraints ----------

  /** `resource_id TEXT UNIQUE`. */
  ghost predicate UniqueRids(rows: seq<Row>) {
    forall i, j | 0 <= i < |rows| && 0 <= j < |rows| && rows[i].rid == rows[j].rid :: i == j
  }

  predicate SameSlot(a: Row, b: Row) {
    a.Live() && b.Live() && a.group == b.group && a.kind == b.kind && a.key == b.key
  }

  /** The partial unique index over (group_id, type, logical_key) of rows that are not deleted. */
  ghost predicate UniqueLive(rows: seq<Row>) {
    forall i, j | 0 <= i < |rows| && 0 <= j < |rows| && SameSlot(rows[i], rows[j]) :: i == j
  }

  ghost predicate TableOk(rows: seq<Row>) { UniqueRids(rows) && UniqueLive(rows) }

  ghost predicate KeyMatches(r: Row) { r.key == LogicalKey(r.group, r.kind, r.name) }

  /** No stale key: every stored key is group:type:name. */
  ghost predicate KeysMatch(rows: seq<Row>) {
    forall i | 0 <= i < |rows| :: KeyMatches(rows[i])
  }

  // ---------- One INSERT ... ON CONFLICT ... ON CONFLICT ----------

  function FindRid(rows: seq<Row>, rid: string): (r: Option<nat>)
    ensures r.Some? ==> r.value < |rows| && rows[r.value].rid == rid
    ensures r.None? ==> forall i | 0 <= i < |rows| :: rows[i].rid != rid
  {
    if rows == [] then None
    else if rows[|rows| - 1].rid == rid then Some(|rows| - 1)
    else FindRid(rows[..|rows| - 1], rid)
  }

  predicate InSlot(r: Row, group: string, kind: Kind, key: string) {
    r.Live() && r.group == group && r.kind == kind && r.key == key
  }

  function FindLive(rows: seq<Row>, group: string, kind: Kind, key: string): (r: Option<nat>)
    ensures r.Some? ==> r.value < |rows| && InSlot(rows[r.value], group, kind, key)
    ensures r.None? ==> forall i | 0 <= i < |rows| :: !InSlot(rows[i], group, kind, key)
  {
    if rows == [] then None
    else if InSlot(rows[|rows| - 1], group, kind, key) then Some(|rows| - 1)
    else FindLive(rows[..|rows| - 1], group, kind, key)
  }

  /** The status `CASE` of the conflict body, on the enum. */
  function MergeStatus(existing: Status, incoming: Status): Status {
    if existing == Archived && incoming == Active then Archived else incoming
  }

  /** The enum form is the rendered SQL, for every pair. */
  lemma MergeStatusIsTheSql(existing: Status, incoming: Status)
    ensures StatusText(MergeStatus(existing, incoming))
         == StatusPolicy.ResourceStatusSql(StatusText(existing), StatusText(incoming))
  {
    StatusPolicy.ResourceStatusValue(StatusText(existing), StatusText(incoming));
  }

  /** json_patch over a composition parent, plain replacement otherwise. */
  function MergeMeta(existing: Meta, incoming: MetaObject): Meta {
    if existing.Object? && (existing.composition.Some? || existing.volumes == Some(true)) then
      Object(if incoming.volumes.Some? then incoming.volumes else existing.volumes,
             if incoming.composition.Some? then incoming.composition else existing.composition)
    else
      incoming
  }

  /** The shared DO UPDATE body. It writes neither group, type nor logical_key. */
  function ConflictBody(r: Row, it: Item): Row {
    r.(rid := it.Rid(), ref := it.ref, name := it.name,
       status := MergeStatus(r.status, it.status), meta := MergeMeta(r.meta, it.meta))
  }

  function NewRow(it: Item): Row {
    Row(it.Rid(), it.group, it.kind, it.name, it.ref, it.status, it.meta, it.Key())
  }

  /** Would storing `r` at `i` satisfy both constraints? */
  predicate Fits(rows: seq<Row>, i: nat, r: Row) {
    forall j | 0 <= j < |rows| && j != i :: rows[j].rid != r.rid && !SameSlot(rows[j], r)
  }

  /** UPDATE of one row: a constraint violation aborts the statement. */
  function UpdateAt(rows: seq<Row>, i: nat, r: Row): Outcome<seq<Row>>
    requires i < |rows|
  {
    if Fits(rows, i, r) then Committed(rows[i := r]) else Aborted
  }

  /** The row a violated constraint names, first clause first; a deleted row is outside the index. */
  function ConflictRow(rows: seq<Row>, it: Item): (r: Option<nat>)
    ensures r.Some? ==> r.value < |rows|
  {
    var byRid := FindRid(rows, it.Rid());
    if byRid.Some? then byRid
    else if it.status != Deleted then FindLive(rows, it.group, it.kind, it.Key())
    else None
  }

  function UpsertRow(rows: seq<Row>, it: Item): Outcome<seq<Row>> {
    match ConflictRow(rows, it)
    case Some(i) => UpdateAt(rows, i, ConflictBody(rows[i], it))
    case None => Committed(rows + [NewRow(it)])
  }

  /** The constraints survive every statement that does not abort, whatever the item. */
  lemma UpsertRowKeepsTableOk(rows: seq<Row>, it: Item)
    requires TableOk(rows) && UpsertRow(rows, it).Committed?
    ensures TableOk(UpsertRow(rows, it).value)
  {
    var after := UpsertRow(rows, it).value;
    match ConflictRow(rows, it)
    case Some(i) =>
      forall a, b | 0 <= a < |after| && 0 <= b < |after|
        ensures after[a].rid == after[b].rid ==> a == b
        ensures SameSlot(after[a], after[b]) ==> a == b
      {
      }
    case None =>
      forall a | 0 <= a < |rows|
        ensures rows[a].rid != it.Rid() && !SameSlot(rows[a], NewRow(it))
      {
        if SameSlot(rows[a], NewRow(it)) {
          assert InSlot(rows[a], it.group, it.kind, it.Key());
        }
      }
  }

  /**
   One upsert keeps every stored key equal to group:type:name exactly when it does not
   re-list a known resource id under another name.
   */
  lemma OneUpsertKeepsKeysIff(rows: seq<Row>, it: Item)
    requires KeysMatch(rows) && UpsertRow(rows, it).Committed?
    ensures KeysMatch(UpsertRow(rows, it).value)
       <==> (FindRid(rows, it.Rid()).Some? ==> rows[FindRid(rows, it.Rid()).value].name == it.name)
  {
    var after := UpsertRow(rows, it).value;
    match ConflictRow(rows, it)
    case Some(i) =>
      assert KeyMatches(rows[i]);
      KeyDeterminesName(rows[i].group, rows[i].kind, rows[i].name, it.name);
      assert KeyMatches(after[i]) <==> rows[i].name == it.name;
    case None =>
      assert KeyMatches(after[|rows|]);
  }

  /** The gap in the conflict body: a handle re-listed under a new name leaves a stale key. */
  lemma RenamedHandleLeavesStaleKey()
    ensures var r := Row("1:file:h", "1", File, "a", "h", Active, Null, "1:file:a");
            var it := Item("1", File, "b", "h", Active, Object(None, None));
            TableOk([r]) && KeysMatch([r]) && UpsertRow([r], it).Committed?
            && !KeysMatch(UpsertRow([r], it).value)
  {
    var r := Row("1:file:h", "1", File, "a", "h", Active, Null, "1:file:a");
    var it := Item("1", File, "b", "h", Active, Object(None, None));
    assert LogicalKey("1", File, "a") == "1:file:a";
    assert it.Rid() == "1:file:h";
    assert FindRid([r], it.Rid()) == Some(0);
    OneUpsertKeepsKeysIff([r], it);
  }

  // ---------- Rename ----------

  predicate NameTaken(rows: seq<Row>, i: nat, name: string)
    requires i < |rows|
  {
    exists j :: 0 <= j < |rows| && j != i && rows[j].group == rows[i].group
             && rows[j].kind == rows[i].kind && rows[j].name == name && rows[j].Live()
  }

  /** update_resource_fields(name=...): the name, then the guarded key refresh. */
  function Rename(rows: seq<Row>, i: nat, name: string): Outcome<seq<Row>>
    requires i < |rows|
  {
    var named := rows[i].(name := name);
    var refreshed := named.(key := LogicalKey(named.group, named.kind, name));
    UpdateAt(rows, i, if NameTaken(rows, i, name) then named else refreshed)
  }

  /**
   On a table without stale keys a rename never violates the index, and it leaves a stale key
   exactly when it takes another live row's name.
   */
  lemma RenameKeepsKeysIff(rows: seq<Row>, i: nat, name: string)
    requires i < |rows| && TableOk(rows) && KeysMatch(rows)
    ensures Rename(rows, i, name).Committed?
    ensures TableOk(Rename(rows, i, name).value)
    ensures KeysMatch(Rename(rows, i, name).value)
       <==> (NameTaken(rows, i, name) ==> name == rows[i].name)
  {
    assert KeyMatches(rows[i]);
    KeyDeterminesName(rows[i].group, rows[i].kind, rows[i].name, name);
    var named := rows[i].(name := name);
    var refreshed := named.(key := LogicalKey(named.group, named.kind, name));
    var r := if NameTaken(rows, i, name) then named else refreshed;
    forall j | 0 <= j < |rows| && j != i ensures rows[j].rid != r.rid && !SameSlot(rows[j], r) {
      assert KeyMatches(rows[j]);
      if SameSlot(rows[j], r) {
        KeyDeterminesName(rows[i].group, rows[i].kind, rows[j].name, name);
      }
    }
    assert rows[i := r][i] == r;
    assert KeyMatches(r) <==> (NameTaken(rows, i, name) ==> name == rows[i].name);
  }
}
