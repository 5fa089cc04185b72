/**
 Status convergence tables and the SQL `CASE` rendered from them
 (adapters/persistence/sqlite/status_policy.py).

 A table is a Python dict literal, here the sequence of its entries with distinct keys.
 `Resolve` is the Python view, `EvalCase(Render...(t), ...)` the SQL view.
 */
module StatusPolicy {
  import opened Options

  const ANY := "*"

  datatype Entry = Entry(old_: string, new_: string, keep: string)

  type Table = seq<Entry>

  /** A dict has one entry per key. */
  ghost predicate DistinctKeys(t: Table) {
    forall i, j | 0 <= i < j < |t| :: (t[i].old_, t[i].new_) != (t[j].old_, t[j].new_)
  }

  function Lookup(t: Table, old_: string, new_: string): (r: Option<string>)
    ensures r.Some? ==> Entry(old_, new_, r.value) in t
    ensures r.None? ==> forall e | e in t :: (e.old_, e.new_) != (old_, new_)
  {
    if t == [] then None
    else if t[0].old_ == old_ && t[0].new_ == new_ then Some(t[0].keep)
    else Lookup(t[1..], old_, new_)
  }

  /** The value stored under a key; `*` stands for the incoming status. */
  function Chosen(keep: string, incoming: string): string {
    if keep == ANY then incoming else keep
  }

  /** Exact pair, then wildcard on the existing side, then on the incoming side, then both. */
  function Resolve(t: Table, existing: string, incoming: string): Option<string> {
    var exact := Lookup(t, existing, incoming);
    var anyOld := Lookup(t, ANY, incoming);
    var anyNew := Lookup(t, existing, ANY);
    var anyBoth := Lookup(t, ANY, ANY);
    if exact.Some? then Some(Chosen(exact.value, incoming))
    else if anyOld.Some? then Some(Chosen(anyOld.value, incoming))
    else if anyNew.Some? then Some(Chosen(anyNew.value, incoming))
    else if anyBoth.Some? then Some(Chosen(anyBoth.value, incoming))
    else None
  }

  /** One `WHEN status = 'old' [AND excluded.status = 'new'] THEN status` arm. */
  datatype When = WhenPair(old_: string, new_: string) | WhenOld(old_: string) {
    predicate Holds(existing: string, incoming: string) {
      existing == old_ && (WhenPair? ==> incoming == new_)
    }
  }

  /** `CASE <arms> ELSE excluded.status END`, first matching arm wins. */
  function EvalCase(whens: seq<When>, existing: string, incoming: string): string {
    if whens == [] then incoming
    else if whens[0].Holds(existing, incoming) then existing
    else EvalCase(whens[1..], existing, incoming)
  }

  predicate PairRendered(e: Entry) { e.old_ != ANY && e.new_ != ANY && e.keep == e.old_ }

  predicate OldRendered(e: Entry) { e.old_ != ANY && e.keep == e.old_ }

  /** resource_status_sql: an arm for every concrete pair whose existing status wins. */
  function RenderPairs(t: Table): seq<When> {
    if t == [] then []
    else (if PairRendered(t[0]) then [WhenPair(t[0].old_, t[0].new_)] else []) + RenderPairs(t[1..])
  }

  /** volume_status_sql: an arm for every entry whose existing status wins, whatever comes in. */
  function RenderOlds(t: Table): seq<When> {
    if t == [] then []
    else (if OldRendered(t[0]) then [WhenOld(t[0].old_)] else []) + RenderOlds(t[1..])
  }

  lemma {:induction false} PairCase(t: Table, existing: string, incoming: string)
    ensures EvalCase(RenderPairs(t), existing, incoming)
         == if exists e :: e in t && PairRendered(e) && e.old_ == existing && e.new_ == incoming
            then existing else incoming
  {
    if t != [] {
      PairCase(t[1..], existing, incoming);
      assert forall e :: e in t <==> e == t[0] || e in t[1..];
      if PairRendered(t[0]) {
        assert RenderPairs(t)[1..] == RenderPairs(t[1..]);
      } else {
        assert RenderPairs(t) == RenderPairs(t[1..]);
      }
    }
  }

  lemma {:induction false} OldCase(t: Table, existing: string, incoming: string)
    ensures EvalCase(RenderOlds(t), existing, incoming)
         == if exists e :: e in t && OldRendered(e) && e.old_ == existing then existing else incoming
  {
    if t != [] {
      OldCase(t[1..], existing, incoming);
      assert forall e :: e in t <==> e == t[0] || e in t[1..];
      if OldRendered(t[0]) {
        assert RenderOlds(t)[1..] == RenderOlds(t[1..]);
      } else {
        assert RenderOlds(t) == RenderOlds(t[1..]);
      }
    }
  }

  lemma LookupIs(t: Table, e: Entry)
    requires DistinctKeys(t) && e in t
    ensures Lookup(t, e.old_, e.new_) == Some(e.keep)
  {
    var r := Lookup(t, e.old_, e.new_);
    var i :| 0 <= i < |t| && t[i] == e;
    var j :| 0 <= j < |t| && t[j] == Entry(e.old_, e.new_, r.value);
    assert i == j;
  }

  /** A status longer than every string of the table: no entry mentions it. */
  function Fresh(t: Table): (s: string)
    ensures |s| > 1
    ensures forall e | e in t :: |e.old_| < |s| && |e.new_| < |s| && |e.keep| < |s|
  {
    if t == [] then "xx"
    else
      var s := Fresh(t[1..]) + t[0].old_ + t[0].new_ + t[0].keep + "x";
      assert forall e | e in t :: e == t[0] || e in t[1..];
      s
  }

  // ---------- When do the two views agree? ----------

  ghost predicate PairViewsAgree(t: Table) {
    forall existing, incoming ::
      Resolve(t, existing, incoming).Some? ==>
        Resolve(t, existing, incoming).value == EvalCase(RenderPairs(t), existing, incoming)
  }

  ghost predicate OldViewsAgree(t: Table) {
    forall existing, incoming ::
      Resolve(t, existing, incoming).Some? ==>
        Resolve(t, existing, incoming).value == EvalCase(RenderOlds(t), existing, incoming)
  }

  /** Every entry adopts the incoming status or is a rendered "existing wins" pair. */
  predicate PairTable(t: Table) {
    forall e | e in t :: e.keep == ANY || e.keep == e.new_ || PairRendered(e)
  }

  ghost predicate Sticky(t: Table, s: string) {
    exists e :: e in t && OldRendered(e) && e.old_ == s
  }

  /** A sticky status keeps itself on every pair the table can resolve; all others adopt. */
  ghost predicate OldTable(t: Table) {
    && (forall e | e in t && !Sticky(t, e.old_) :: e.keep == ANY || e.keep == e.new_)
    && (forall e | e in t && Sticky(t, e.old_) :: e.keep == e.old_ || (e.keep == ANY && e.new_ == e.old_))
    && (forall e, s | e in t && e.old_ == ANY && Sticky(t, s) && e.new_ != s ::
          exists f :: f in t && f.old_ == s && f.new_ == e.new_)
  }

  /** The resources `CASE` is the Python table exactly for the tables that fit its arms. */
  lemma PairViewsAgreeIff(t: Table)
    requires DistinctKeys(t)
    ensures PairViewsAgree(t) <==> PairTable(t)
  {
    if PairTable(t) {
      forall existing, incoming | Resolve(t, existing, incoming).Some?
        ensures Resolve(t, existing, incoming).value == EvalCase(RenderPairs(t), existing, incoming)
      {
        PairCase(t, existing, incoming);
        var exact := Lookup(t, existing, incoming);
        if exact.Some? {
          assert Entry(existing, incoming, exact.value) in t;
        }
        forall e | e in t && PairRendered(e) && e.old_ == existing && e.new_ == incoming
          ensures exact == Some(existing)
        {
          LookupIs(t, e);
        }
      }
    }
    if PairViewsAgree(t) {
      forall e | e in t ensures e.keep == ANY || e.keep == e.new_ || PairRendered(e) {
        LookupIs(t, e);
        var f := Fresh(t);
        var existing := if e.old_ == ANY then f else e.old_;
        var incoming := if e.new_ == ANY then f else e.new_;
        PairCase(t, existing, incoming);
        assert Resolve(t, existing, incoming) == Some(Chosen(e.keep, incoming));
      }
    }
  }

  /** The volumes `CASE` is the Python table exactly when its sticky statuses stick everywhere. */
  lemma OldViewsAgreeIff(t: Table)
    requires DistinctKeys(t)
    ensures OldViewsAgree(t) <==> OldTable(t)
  {
    if OldTable(t) {
      forall existing, incoming | Resolve(t, existing, incoming).Some?
        ensures Resolve(t, existing, incoming).value == EvalCase(RenderOlds(t), existing, incoming)
      {
        OldTableResolves(t, existing, incoming);
      }
    }
    if OldViewsAgree(t) {
      OldTableNeeded(t);
    }
  }

  lemma OldTableResolves(t: Table, existing: string, incoming: string)
    requires DistinctKeys(t) && OldTable(t) && Resolve(t, existing, incoming).Some?
    ensures Resolve(t, existing, incoming).value == EvalCase(RenderOlds(t), existing, incoming)
  {
    OldCase(t, existing, incoming);
    var exact := Lookup(t, existing, incoming);
    var anyOld := Lookup(t, ANY, incoming);
    var anyNew := Lookup(t, existing, ANY);
    var anyBoth := Lookup(t, ANY, ANY);
    assert !Sticky(t, ANY);
    assert EvalCase(RenderOlds(t), existing, incoming) == if Sticky(t, existing) then existing else incoming;
    if exact.Some? {
      assert Entry(existing, incoming, exact.value) in t;
    } else if anyOld.Some? {
      assert Entry(ANY, incoming, anyOld.value) in t;
    } else if anyNew.Some? {
      assert Entry(existing, ANY, anyNew.value) in t;
    } else {
      assert Entry(ANY, ANY, anyBoth.value) in t;
    }
  }

  lemma OldTableNeeded(t: Table)
    requires DistinctKeys(t) && OldViewsAgree(t)
    ensures OldTable(t)
  {
    var f := Fresh(t);
    forall e | e in t
      ensures !Sticky(t, e.old_) ==> e.keep == ANY || e.keep == e.new_
      ensures Sticky(t, e.old_) ==> e.keep == e.old_ || (e.keep == ANY && e.new_ == e.old_)
    {
      LookupIs(t, e);
      var existing := if e.old_ == ANY then f else e.old_;
      var incoming := if e.new_ == ANY then f else e.new_;
      OldCase(t, existing, incoming);
      assert Resolve(t, existing, incoming) == Some(Chosen(e.keep, incoming));
    }
    forall e, s | e in t && e.old_ == ANY && Sticky(t, s) && e.new_ != s
      ensures exists g :: g in t && g.old_ == s && g.new_ == e.new_
    {
      LookupIs(t, e);
      var incoming := if e.new_ == ANY then f else e.new_;
      OldCase(t, s, incoming);
      var own := Lookup(t, s, e.new_);
      assert own.None? ==> Resolve(t, s, incoming) != Some(s);
      assert own.Some? ==> Entry(s, e.new_, own.value) in t;
    }
  }

  // ---------- The two shipped tables ----------

  const RESOURCE_UPSERT_TRANSITIONS: Table := [
    Entry("active", "active", "active"),
    Entry("deleted", "active", "active"),
    Entry("archived", "active", "archived"),
    Entry(ANY, "active", "active"),
    Entry(ANY, "archived", "archived"),
    Entry(ANY, "deleted", "deleted")
  ]

  const VOLUME_UPSERT_TRANSITIONS: Table := [
    Entry("uploaded", ANY, "uploaded"),
    Entry(ANY, ANY, ANY)
  ]

  function ResourceStatusSql(existing: string, incoming: string): string {
    EvalCase(RenderPairs(RESOURCE_UPSERT_TRANSITIONS), existing, incoming)
  }

  function VolumeStatusSql(existing: string, incoming: string): string {
    EvalCase(RenderOlds(VOLUME_UPSERT_TRANSITIONS), existing, incoming)
  }

  lemma VolumeTableIsSticky()
    ensures OldTable(VOLUME_UPSERT_TRANSITIONS)
  {
    var t := VOLUME_UPSERT_TRANSITIONS;
    assert forall e :: e in t <==> e == t[0] || e == t[1];
    assert forall s :: Sticky(t, s) <==> s == "uploaded";
  }

  /** Both shipped tables satisfy the exact condition, so `merge_*` and the SQL never differ. */
  lemma ShippedTablesAgree()
    ensures PairViewsAgree(RESOURCE_UPSERT_TRANSITIONS)
    ensures OldViewsAgree(VOLUME_UPSERT_TRANSITIONS)
  {
    hide PairViewsAgree, OldViewsAgree, OldTable;
    assert PairTable(RESOURCE_UPSERT_TRANSITIONS);
    PairViewsAgreeIff(RESOURCE_UPSERT_TRANSITIONS);
    VolumeTableIsSticky();
    OldViewsAgreeIff(VOLUME_UPSERT_TRANSITIONS);
  }

  /** What the resources `CASE` computes, for any pair of stored texts. */
  lemma ResourceStatusValue(existing: string, incoming: string)
    ensures ResourceStatusSql(existing, incoming)
         == if existing == "archived" && incoming == "active" then "archived" else incoming
  {
    var t := RESOURCE_UPSERT_TRANSITIONS;
    PairCase(t, existing, incoming);
    assert t[2] in t && PairRendered(t[2]);
  }

  /** What the volumes `CASE` computes: `uploaded` is terminal, everything else adopts. */
  lemma VolumeStatusValue(existing: string, incoming: string)
    ensures VolumeStatusSql(existing, incoming)
         == if existing == "uploaded" then "uploaded" else incoming
  {
    var t := VOLUME_UPSERT_TRANSITIONS;
    OldCase(t, existing, incoming);
    assert t[0] in t && OldRendered(t[0]);
  }
}
