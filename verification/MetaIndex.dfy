/**
 The metadata index as its store runs it: two tables, statements that change them, and
 transactions that commit or roll back (adapters/persistence/sqlite/resources_write.py,
 resources.py, volumes.py). Every method is tied to the batch functions.
 */
module MetaIndex {
  import opened Options
  import opened ResourceTable
  import opened ResourceBatch
  import opened ResourceSync
  import opened RegisteredParts
  import opened StoredRows
  import opened CommitCondition
  import opened PartMoves

  const CHUNK := 500

  // ---------- Counting the moved parts ----------

  /** Parts moved by the first `k` planned moves; an identical pair moves nothing. */
  function MovedCount(vols: seq<Vol>, moves: seq<Move>, k: nat): nat
    requires k <= |moves|
  {
    if k == 0 then 0
    else
      var m := moves[k - 1];
      MovedCount(vols, moves, k - 1)
      + (match ChasePrefix(vols, moves, k - 1)
         case Aborted => 0
         case Committed(v) => if m.from == m.to then 0 else CountParent(v, m.from))
  }

  ghost function PartsUnder(vols: seq<Vol>, parent: string): set<nat> {
    set i: nat | i < |vols| && vols[i].parent == parent
  }

  /** The row count of a repointing statement is the number of parts under the old parent. */
  lemma {:induction false} CountParentCounts(vols: seq<Vol>, parent: string)
    ensures CountParent(vols, parent) == |PartsUnder(vols, parent)|
  {
    if vols != [] {
      var n := |vols| - 1;
      CountParentCounts(vols[..n], parent);
      assert PartsUnder(vols, parent) == PartsUnder(vols[..n], parent) + if vols[n].parent == parent then {n} else {};
    } else {
      assert PartsUnder(vols, parent) == {};
    }
  }

  lemma {:induction false} AbortedStaysAborted(vols: seq<Vol>, moves: seq<Move>, k: nat, n: nat)
    requires k <= n <= |moves| && ChasePrefix(vols, moves, k).Aborted?
    ensures ChasePrefix(vols, moves, n).Aborted?
  {
    if k < n {
      AbortedStaysAborted(vols, moves, k, n - 1);
    }
  }

  lemma {:induction false} UpsertAbortStays(rows: seq<Row>, items: seq<Item>, k: nat, n: nat)
    requires k <= n <= |items| && UpsertPrefix(rows, items, k).Aborted?
    ensures UpsertPrefix(rows, items, n).Aborted?
  {
    hide UpsertRow;
    if k < n {
      UpsertAbortStays(rows, items, k, n - 1);
    }
  }

  lemma {:induction false} InheritAbortStays(db: Db, items: seq<Item>, preds: seq<Row>, k: nat, n: nat)
    requires k <= n <= |preds| && InheritPrefix(db, items, preds, k).Aborted?
    ensures InheritPrefix(db, items, preds, n).Aborted?
  {
    hide InheritOne;
    if k < n {
      InheritAbortStays(db, items, preds, k, n - 1);
    }
  }

  // ---------- Counting and holding ----------

  /** The rows a statement changed. */
  function CountChanged(before: seq<Row>, after: seq<Row>): nat
    requires |before| == |after|
  {
    if before == [] then 0
    else
      var n := |before| - 1;
      CountChanged(before[..n], after[..n]) + (if before[n] != after[n] then 1 else 0)
  }

  ghost function ChangedAt(before: seq<Row>, after: seq<Row>): set<nat>
    requires |before| == |after|
  {
    set i: nat | i < |before| && before[i] != after[i]
  }

  lemma {:induction false} CountChangedCounts(before: seq<Row>, after: seq<Row>)
    requires |before| == |after|
    ensures CountChanged(before, after) == |ChangedAt(before, after)|
  {
    if before != [] {
      var n := |before| - 1;
      CountChangedCounts(before[..n], after[..n]);
      assert ChangedAt(before, after) == ChangedAt(before[..n], after[..n]) + if before[n] != after[n] then {n} else {};
    } else {
      assert ChangedAt(before, after) == {};
    }
  }

  lemma CountOneMore(before: seq<Row>, after: seq<Row>, r: Row, r': Row)
    requires |before| == |after|
    ensures CountChanged(before + [r], after + [r']) == CountChanged(before, after) + (if r != r' then 1 else 0)
  {
    var n := |before|;
    assert (before + [r])[..n] == before && (after + [r'])[..n] == after;
  }

  lemma {:induction false} NothingChanged(rows: seq<Row>)
    ensures CountChanged(rows, rows) == 0
  {
    if rows != [] {
      NothingChanged(rows[..|rows| - 1]);
    }
  }

  predicate HasName(other: Row, r: Row, name: string) {
    other.group == r.group && other.kind == r.kind && other.name == name && other.Live()
  }

  predicate HoldsKey(other: Row, r: Row, key: string) {
    r.Live() && other.Live() && other.group == r.group && other.kind == r.kind && other.key == key
  }

  /** A live row other than `i` holds the key that `name` would give it. */
  predicate KeyHeld(rows: seq<Row>, i: nat, name: string)
    requires i < |rows|
  {
    exists j :: 0 <= j < |rows| && j != i && HoldsKey(rows[j], rows[i], LogicalKey(rows[i].group, rows[i].kind, name))
  }

  /** The two statements amount to the renaming of the specification. */
  lemma RenameIsGuarded(rows: seq<Row>, i: nat, name: string)
    requires i < |rows| && UniqueRids(rows) && UniqueLive(rows)
    ensures Rename(rows, i, name).Committed? <==> !KeyHeld(rows, i, name) || NameTaken(rows, i, name)
    ensures Rename(rows, i, name).Committed? ==>
      var key := if NameTaken(rows, i, name) then rows[i].key else LogicalKey(rows[i].group, rows[i].kind, name);
      Rename(rows, i, name).value == rows[i := rows[i].(name := name, key := key)]
  {
  }

  // ---------- The store ----------

  class MetaIndex {
    var resources: seq<Row>
    var volumes: seq<Vol>

    function Contents(): Db
      reads this
    {
      Db(resources, volumes)
    }

    constructor ()
      ensures Contents() == Db([], [])
    {
      resources, volumes := [], [];
    }

    method PlanReparents(items: seq<Item>) returns (moves: seq<Move>)
      ensures moves == Plan(resources, items)
    {
      moves := [];
      for k := 0 to |items|
        invariant moves == PlanPrefix(resources, items, k)
      {
        var it := items[k];
        if it.kind != File || it.ref == "" {
          continue;
        }
        var row := FindLiveNamed(resources, it);
        if row.Some? && resources[row.value].rid != it.Rid() {
          moves := moves + [Move(resources[row.value].rid, it.Rid())];
        }
      }
    }

    method ReparentVolumes(moves: seq<Move>) returns (ok: bool, moved: nat)
      modifies this`volumes
      ensures ok <==> ChasePrefix(old(volumes), moves, |moves|).Committed?
      ensures ok ==> volumes == ChasePrefix(old(volumes), moves, |moves|).value
      ensures ok ==> moved == MovedCount(old(volumes), moves, |moves|)
    {
      moved := 0;
      for k := 0 to |moves|
        invariant ChasePrefix(old(volumes), moves, k) == Committed(volumes)
        invariant moved == MovedCount(old(volumes), moves, k)
      {
        var m := moves[k];
        if m.from == m.to {
          RepointToItself(volumes, m.from);
          continue;
        }
        var n := CountParent(volumes, m.from);
        match Repoint(volumes, m.from, m.to) {
          case Aborted =>
            AbortedStaysAborted(old(volumes), moves, k + 1, |moves|);
            return false, moved;
          case Committed(v) =>
            volumes := v;
        }
        moved := moved + n;
      }
      ok := true;
    }

    /** The newest listed file per (group, name). */
    method Successors(items: seq<Item>) returns (byName: map<(string, string), Item>)
      ensures forall g, n :: (g, n) in byName <==> Successor(items, g, n).Some?
      ensures forall g, n | (g, n) in byName :: Successor(items, g, n) == Some(byName[(g, n)])
    {
      byName := map[];
      for k := 0 to |items|
        invariant forall g, n :: (g, n) in byName <==> Successor(items[..k], g, n).Some?
        invariant forall g, n | (g, n) in byName :: Successor(items[..k], g, n) == Some(byName[(g, n)])
      {
        assert items[..k + 1][..k] == items[..k];
        if Chaseable(items[k]) {
          byName := byName[(items[k].group, items[k].name) := items[k]];
        }
      }
      assert items[..|items|] == items;
    }

    method InheritCompositionIdentity(items: seq<Item>) returns (ok: bool)
      modifies this
      ensures ok <==> Inherit(old(Contents()), items).Committed?
      ensures ok ==> Contents() == Inherit(old(Contents()), items).value
    {
      if !AnyChaseable(items) {
        return true;
      }
      var preds := ParentsOf(resources);
      if preds == [] {
        return true;
      }
      var successors := Successors(items);
      for k := 0 to |preds|
        invariant InheritPrefix(old(Contents()), items, preds, k) == Committed(Contents())
      {
        var pred := preds[k];
        if (pred.group, pred.name) !in successors {
          continue;
        }
        var succ := successors[(pred.group, pred.name)];
        if succ.Rid() == pred.rid || Listed(items, pred.ref) {
          continue;
        }
        var repointed := Repoint(volumes, pred.rid, succ.Rid());
        if repointed.Aborted? {
          InheritAbortStays(old(Contents()), items, preds, k + 1, |preds|);
          return false;
        }
        resources := WithMeta(resources, succ.Rid(), pred.meta);
        volumes := repointed.value;
        resources := Tombstoned(resources, pred.rid);
      }
      ok := true;
    }

    /** One executemany: row by row, the first violation ends it. */
    method ApplyRowChunk(chunk: seq<Item>) returns (ok: bool, n: nat)
      modifies this`resources
      ensures ok <==> UpsertAll(old(resources), chunk).Committed?
      ensures ok ==> resources == UpsertAll(old(resources), chunk).value && n == |chunk|
    {
      hide UpsertRow;
      n := 0;
      for k := 0 to |chunk|
        invariant UpsertPrefix(old(resources), chunk, k) == Committed(resources) && n == k
      {
        match UpsertRow(resources, chunk[k]) {
          case Aborted =>
            UpsertAbortStays(old(resources), chunk, k + 1, |chunk|);
            return false, n;
          case Committed(rows) =>
            resources := rows;
        }
        n := n + 1;
      }
      ok := true;
    }

    /** The chunk loop: 500 rows a statement, one transaction. */
    method UpsertChunks(items: seq<Item>) returns (ok: bool, n: nat)
      modifies this`resources
      ensures ok <==> UpsertAll(old(resources), items).Committed?
      ensures ok ==> resources == UpsertAll(old(resources), items).value && n == |items|
    {
      hide UpsertRow, UpsertPrefix;
      n := 0;
      var i := 0;
      EmptyPrefix(resources, items);
      while i < |items|
        invariant 0 <= i <= |items| && n == i
        invariant UpsertPrefix(old(resources), items, i) == Committed(resources)
      {
        var hi := if i + CHUNK <= |items| then i + CHUNK else |items|;
        ChunksCompose(old(resources), items, i, hi, hi - i);
        var done, c := ApplyRowChunk(items[i..hi]);
        if !done {
          UpsertAbortStays(old(resources), items, hi, |items|);
          return false, n;
        }
        n := n + c;
        i := hi;
      }
      ok := true;
    }

    static lemma EmptyPrefix(rows: seq<Row>, items: seq<Item>)
      ensures UpsertPrefix(rows, items, 0) == Committed(rows)
    {
    }

    /** Plan, upsert, inherit, chase: in the caller's transaction, nothing committed. */
    method ApplyUpsert(items: seq<Item>) returns (ok: bool, n: nat)
      modifies this
      ensures ok <==> Batch(old(Contents()), items).Committed?
      ensures ok ==> Contents() == Batch(old(Contents()), items).value && n == |items|
    {
      hide UpsertAll, Inherit, ChasePrefix, Plan;
      var moves := PlanReparents(items);
      ok, n := UpsertChunks(items);
      if !ok {
        return;
      }
      ok := InheritCompositionIdentity(items);
      if !ok {
        return;
      }
      var moved;
      ok, moved := ReparentVolumes(moves);
    }

    /** upsert_resources: commit on success, roll back on any violation. */
    method UpsertResources(items: seq<Item>) returns (ok: bool, n: nat)
      modifies this
      ensures ok <==> Batch(old(Contents()), items).Committed?
      ensures Contents() == AfterBatch(old(Contents()), items)
      ensures ok ==> n == |items|
      ensures !ok ==> Contents() == old(Contents())
      ensures ok && old(TableOk(resources) && KeysMatch(resources) && ItemsOk(resources, items)) ==>
                TableOk(resources) && KeysMatch(resources) && BatchStored(old(resources), items, resources)
                && PartsTaken(old(Contents()), items, volumes)
      ensures old(TableOk(resources) && KeysMatch(resources) && ItemsOk(resources, items)) ==>
                (ok <==> NoneRevives(old(resources), items, |items|) && PartsStayApart(old(Contents()), items))
    {
      ghost var before := Contents();
      if TableOk(before.rows) && KeysMatch(before.rows) && ItemsOk(before.rows, items) {
        WhereThePartsGo(before, items);
        if Batch(before, items).Committed? {
          WhatABatchStores(before, items);
          CommittedBatch(before, items);
        }
      }
      hide TableOk, KeysMatch, ItemsOk, BatchStored, PartsTaken, PartsStayApart, NoneRevives;
      if items == [] {
        EmptyBatch(Contents());
        return true, 0;
      }
      var savedRows, savedVolumes := resources, volumes;
      hide Batch;
      ok, n := ApplyUpsert(items);
      if !ok {
        resources, volumes := savedRows, savedVolumes;
      }
    }

    static lemma EmptyBatch(db: Db)
      ensures Batch(db, []) == Committed(db)
    {
    }

    /**
     mark_missing_as_deleted: row by row, exactly the active files of the group that are not
     listed and not known to be volume parents are retired, and counted.
     */
    method MarkMissingAsDeleted(group: string, complete: bool, refs: set<string>) returns (n: nat)
      modifies this`resources
      ensures |resources| == |old(resources)|
      ensures forall i | 0 <= i < |resources| ::
                var r := old(resources)[i];
                var retired := complete && r.group == group && r.kind == File && r.status == Active
                               && r.ref !in refs && !(r.meta.Object? && r.meta.volumes == Some(true));
                resources[i] == if retired then r.(status := Deleted) else r
      ensures n == CountChanged(old(resources), resources)
      ensures old(TableOk(resources)) ==> TableOk(resources)
      ensures resources == Sweep(old(resources), group, complete, refs)
    {
      hide TableOk, CountChanged, Sweep;
      n := 0;
      ghost var before := resources;
      NothingChanged(before[..0]);
      if complete {
        for k := 0 to |resources|
          invariant |resources| == |before|
          invariant forall i | 0 <= i < k :: resources[i] == Swept(before, group, refs)[i]
          invariant forall i | k <= i < |before| :: resources[i] == before[i]
          invariant n == CountChanged(before[..k], resources[..k])
        {
          var r := resources[k];
          ghost var done := resources[..k];
          if r.group == group && r.kind == File && r.status == Active && r.ref !in refs
             && !(r.meta.Object? && r.meta.volumes == Some(true)) {
            resources := resources[k := r.(status := Deleted)];
            n := n + 1;
          }
          CountOneMore(before[..k], done, r, resources[k]);
          assert resources[..k + 1] == done + [resources[k]] && before[..k + 1] == before[..k] + [r];
        }
        assert resources[..|before|] == resources && before[..|before|] == before;
        assert resources == Swept(before, group, refs);
      } else {
        NothingChanged(resources);
      }
      SweepOf(before, group, complete, refs);
      if TableOk(before) {
        SweepKeepsTheIndex(before, group, complete, refs);
      }
    }

    static lemma SweepOf(rows: seq<Row>, group: string, complete: bool, refs: set<string>)
      ensures Sweep(rows, group, complete, refs) == if complete then Swept(rows, group, refs) else rows
    {
    }

    /** A full sync of one group: upsert the listing, then sweep; nothing is swept on failure. */
    method SyncListing(group: string, items: seq<Item>) returns (ok: bool)
      modifies this
      ensures ok <==> Batch(old(Contents()), items).Committed?
      ensures !ok ==> Contents() == old(Contents())
      ensures ok ==>
        Contents() == Batch(old(Contents()), items).value.(rows := resources)
        && resources == Sweep(Batch(old(Contents()), items).value.rows, group, true, Refs(items))
      ensures ok && old(TableOk(resources) && KeysMatch(resources) && ItemsOk(resources, items))
              && FileListing(items, group) ==>
        AgreesWithListing(old(resources), items, group, resources)
    {
      hide TableOk, KeysMatch, ItemsOk, Batch, ListedIsShown;
      var n;
      ok, n := UpsertResources(items);
      if ok {
        if old(TableOk(resources) && KeysMatch(resources) && ItemsOk(resources, items))
           && FileListing(items, group) {
          CompleteSyncAgreesWithTheCloud(old(Contents()), group, items);
        }
        n := MarkMissingAsDeleted(group, true, set it | it in items :: it.ref);
      }
    }

    /**
     update_resource_fields(name=...): sets the name, then refreshes the key unless another
     live row of the group and type has that name. It fails, leaving the table as it was,
     exactly if the new key is held by a live row under another name. An unknown row is no
     error.
     */
    method RenameResource(i: nat, name: string) returns (ok: bool)
      modifies this`resources
      ensures i >= |old(resources)| ==> ok && resources == old(resources)
      ensures i < |old(resources)| ==> (ok <==> !KeyHeld(old(resources), i, name) || NameTaken(old(resources), i, name))
      ensures !ok ==> resources == old(resources)
      ensures ok && i < |old(resources)| ==>
        var r := old(resources)[i];
        var key := if NameTaken(old(resources), i, name) then r.key else LogicalKey(r.group, r.kind, name);
        resources == old(resources)[i := r.(name := name, key := key)]
      ensures i < |old(resources)| && old(TableOk(resources) && KeysMatch(resources)) ==> ok && TableOk(resources)
    {
      if i >= |resources| {
        return true;
      }
      var before := resources;
      if old(TableOk(resources) && KeysMatch(resources)) {
        RenameKeepsKeysIff(before, i, name);
        RenameIsGuarded(before, i, name);
      }
      resources := resources[i := resources[i].(name := name)];
      var taken := false;
      for j := 0 to |resources|
        invariant taken <==> exists n :: 0 <= n < j && n != i && HasName(before[n], before[i], name)
      {
        taken := taken || (j != i && HasName(resources[j], resources[i], name));
      }
      assert taken <==> NameTaken(before, i, name);
      if taken {
        return true;
      }
      var key := LogicalKey(resources[i].group, resources[i].kind, name);
      var held := false;
      for j := 0 to |resources|
        invariant held <==> exists n :: 0 <= n < j && n != i && HoldsKey(before[n], before[i], key)
      {
        held := held || (j != i && HoldsKey(resources[j], resources[i], key));
      }
      assert held <==> KeyHeld(before, i, name);
      if held {
        resources := before;
        return false;
      }
      resources := resources[i := resources[i].(key := key)];
      ok := true;
    }

    /** insert_volumes: part by part, and so what any run of registrations leaves. */
    method InsertVolumes(parts: seq<Vol>)
      modifies this`volumes
      ensures volumes == InsertParts(old(volumes), parts)
      ensures old(UniqueParts(volumes)) ==> AllStored(old(volumes), parts, volumes)
    {
      for k := 0 to |parts|
        invariant volumes == InsertParts(old(volumes), parts[..k])
      {
        assert parts[..k + 1][..k] == parts[..k];
        volumes := InsertPart(volumes, parts[k]);
      }
      assert parts[..|parts|] == parts;
      if old(UniqueParts(volumes)) {
        RegistrationsStore(old(volumes), parts);
      }
    }
  }
}
