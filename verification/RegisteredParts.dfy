/**
 The registrations of volume parts (adapters/persistence/sqlite/volumes.py). The pipeline comes
 back with every part it plans, however far it got, so what a run of registrations leaves behind
 is told from the whole run.
 */
module RegisteredParts {
  import opened Options
  import opened ResourceBatch
  import StatusPolicy

  predicate SamePart(a: Vol, b: Vol) { a.parent == b.parent && a.no == b.no }

  /** UNIQUE(parent_resource_id, seq). */
  ghost predicate UniqueParts(vols: seq<Vol>) {
    forall i, j | 0 <= i < |vols| && 0 <= j < |vols| && SamePart(vols[i], vols[j]) :: i == j
  }

  function FindPart(vols: seq<Vol>, v: Vol): (r: Option<nat>)
    ensures r.Some? ==> r.value < |vols| && SamePart(vols[r.value], v)
    ensures r.None? ==> forall i | 0 <= i < |vols| :: !SamePart(vols[i], v)
  {
    if vols == [] then None
    else if SamePart(vols[|vols| - 1], v) then Some(|vols| - 1)
    else FindPart(vols[..|vols| - 1], v)
  }

  /** INSERT ... ON CONFLICT(parent_resource_id, seq): the handle of a known part is kept. */
  function InsertPart(vols: seq<Vol>, v: Vol): seq<Vol> {
    match FindPart(vols, v)
    case None => vols + [v]
    case Some(i) =>
      vols[i := vols[i].(partName := v.partName,
                         status := StatusPolicy.VolumeStatusSql(vols[i].status, v.status))]
  }

  function InsertParts(vols: seq<Vol>, parts: seq<Vol>): seq<Vol> {
    if parts == [] then vols
    else InsertPart(InsertParts(vols, parts[..|parts| - 1]), parts[|parts| - 1])
  }

  /** A registered part keeps its parent, number and handle, and uploaded stays uploaded. */
  lemma {:induction false} PartKeepsPlace(vols: seq<Vol>, parts: seq<Vol>, m: nat)
    requires m < |vols|
    ensures var after := InsertParts(vols, parts);
            && |vols| <= |after| && SamePart(after[m], vols[m]) && after[m].ref == vols[m].ref
            && (vols[m].status == "uploaded" ==> after[m].status == "uploaded")
  {
    if parts != [] {
      var rest, last := parts[..|parts| - 1], parts[|parts| - 1];
      PartKeepsPlace(vols, rest, m);
      var before := InsertParts(vols, rest);
      match FindPart(before, last) {
        case Some(i) => StatusPolicy.VolumeStatusValue(before[i].status, last.status);
        case None =>
      }
    }
  }

  // ---------- What is stored ----------

  ghost predicate Names(parts: seq<Vol>, p: Vol) { exists k :: 0 <= k < |parts| && SamePart(parts[k], p) }

  /** The last registration of the part's place gave it this name and status. */
  ghost predicate LastGave(parts: seq<Vol>, p: Vol, name: string, status: string) {
    exists k :: 0 <= k < |parts| && SamePart(parts[k], p) && parts[k].partName == name && parts[k].status == status
             && forall n | k < n < |parts| :: !SamePart(parts[n], p)
  }

  /** The first registration of the part's place came with this handle. */
  ghost predicate FirstCameWith(parts: seq<Vol>, p: Vol, ref: string) {
    exists k :: 0 <= k < |parts| && SamePart(parts[k], p) && parts[k].ref == ref
             && forall n | 0 <= n < k :: !SamePart(parts[n], p)
  }

  ghost predicate WasUploaded(vols: seq<Vol>, m: nat, parts: seq<Vol>, p: Vol) {
    || (m < |vols| && vols[m].status == "uploaded")
    || exists k :: 0 <= k < |parts| && SamePart(parts[k], p) && parts[k].status == "uploaded"
  }

  /** What the row at `m` holds after the registrations, told from these and the old table. */
  ghost predicate PartStored(vols: seq<Vol>, parts: seq<Vol>, m: nat, p: Vol) {
    && (if m < |vols| then SamePart(p, vols[m]) && p.ref == vols[m].ref else FirstCameWith(parts, p, p.ref))
    && (if !Names(parts, p) then m < |vols| && p == vols[m]
        else if WasUploaded(vols, m, parts, p) then
          p.status == "uploaded" && exists status :: LastGave(parts, p, p.partName, status)
        else LastGave(parts, p, p.partName, p.status))
  }

  // ---------- One more registration ----------

  /** Nothing said about a place changes when another place is registered. */
  lemma LastGaveStill(parts: seq<Vol>, last: Vol, p: Vol, name: string, status: string)
    requires !SamePart(p, last) && LastGave(parts, p, name, status)
    ensures LastGave(parts + [last], p, name, status)
  {
    var more := parts + [last];
    assert more[|parts|] == last && forall k | 0 <= k < |parts| :: more[k] == parts[k];
    var k :| 0 <= k < |parts| && SamePart(parts[k], p) && parts[k].partName == name && parts[k].status == status
          && forall n | k < n < |parts| :: !SamePart(parts[n], p);
    assert SamePart(more[k], p);
  }

  lemma FirstStill(parts: seq<Vol>, last: Vol, p: Vol, ref: string)
    requires FirstCameWith(parts, p, ref)
    ensures FirstCameWith(parts + [last], p, ref)
  {
    var more := parts + [last];
    assert forall k | 0 <= k < |parts| :: more[k] == parts[k];
    var k :| 0 <= k < |parts| && SamePart(parts[k], p) && parts[k].ref == ref
          && forall n | 0 <= n < k :: !SamePart(parts[n], p);
    assert SamePart(more[k], p);
  }

  lemma NamesStill(parts: seq<Vol>, last: Vol, p: Vol)
    ensures Names(parts + [last], p) <==> Names(parts, p) || SamePart(p, last)
  {
    var more := parts + [last];
    assert more[|parts|] == last && forall k | 0 <= k < |parts| :: more[k] == parts[k];
    if Names(parts, p) {
      var k :| 0 <= k < |parts| && SamePart(parts[k], p);
      assert SamePart(more[k], p);
    }
  }

  lemma UploadedStill(vols: seq<Vol>, m: nat, parts: seq<Vol>, last: Vol, p: Vol)
    ensures WasUploaded(vols, m, parts + [last], p)
       <==> WasUploaded(vols, m, parts, p) || (SamePart(last, p) && last.status == "uploaded")
  {
    var more := parts + [last];
    assert more[|parts|] == last && forall k | 0 <= k < |parts| :: more[k] == parts[k];
    if WasUploaded(vols, m, parts, p) && !(m < |vols| && vols[m].status == "uploaded") {
      var k :| 0 <= k < |parts| && SamePart(parts[k], p) && parts[k].status == "uploaded";
      assert SamePart(more[k], p);
    }
  }

  lemma StoredStill(vols: seq<Vol>, parts: seq<Vol>, m: nat, p: Vol, last: Vol)
    requires PartStored(vols, parts, m, p) && !SamePart(p, last)
    ensures PartStored(vols, parts + [last], m, p)
  {
    hide LastGave, FirstCameWith, Names, WasUploaded;
    UploadedStill(vols, m, parts, last, p);
    NamesStill(parts, last, p);
    if m >= |vols| {
      FirstStill(parts, last, p, p.ref);
    }
    if status :| LastGave(parts, p, p.partName, status) {
      LastGaveStill(parts, last, p, p.partName, status);
    }
    if LastGave(parts, p, p.partName, p.status) {
      LastGaveStill(parts, last, p, p.partName, p.status);
    }
  }

  lemma JustGiven(parts: seq<Vol>, last: Vol, p: Vol)
    requires SamePart(p, last)
    ensures LastGave(parts + [last], p, last.partName, last.status) && Names(parts + [last], p)
    ensures !Names(parts, p) ==> FirstCameWith(parts + [last], p, last.ref)
  {
    var more := parts + [last];
    assert more[|parts|] == last && SamePart(more[|parts|], p);
  }

  lemma StoredAgain(vols: seq<Vol>, parts: seq<Vol>, m: nat, p: Vol, last: Vol, status: string)
    requires PartStored(vols, parts, m, p) && SamePart(p, last)
    requires status == if p.status == "uploaded" then "uploaded" else last.status
    ensures PartStored(vols, parts + [last], m, p.(partName := last.partName, status := status))
  {
    var q := p.(partName := last.partName, status := status);
    UploadedStill(vols, m, parts, last, q);
    JustGiven(parts, last, q);
    UploadedIfStored(vols, parts, m, p, q);
    if m >= |vols| {
      FirstForSamePart(parts, p, q);
      FirstStill(parts, last, q, q.ref);
    }
    hide LastGave, FirstCameWith, Names, WasUploaded;
  }

  lemma FirstForSamePart(parts: seq<Vol>, p: Vol, q: Vol)
    requires FirstCameWith(parts, p, p.ref) && SamePart(p, q) && q.ref == p.ref
    ensures FirstCameWith(parts, q, q.ref)
  {
  }

  lemma UploadedIfStored(vols: seq<Vol>, parts: seq<Vol>, m: nat, p: Vol, q: Vol)
    requires PartStored(vols, parts, m, p) && SamePart(p, q)
    ensures p.status == "uploaded" <==> WasUploaded(vols, m, parts, q)
  {
  }

  lemma StoredFirst(vols: seq<Vol>, parts: seq<Vol>, m: nat, last: Vol)
    requires m >= |vols| && !Names(parts, last)
    ensures PartStored(vols, parts + [last], m, last)
  {
    JustGiven(parts, last, last);
    UploadedStill(vols, m, parts, last, last);
    hide LastGave, FirstCameWith;
  }

  ghost predicate AllStored(vols: seq<Vol>, parts: seq<Vol>, after: seq<Vol>) {
    && UniqueParts(after) && |vols| <= |after|
    && (forall m | 0 <= m < |after| :: PartStored(vols, parts, m, after[m]))
    && (forall p | p in parts :: Names(after, p))
  }

  lemma InsertedAt(vols: seq<Vol>, v: Vol) returns (at: nat)
    requires UniqueParts(vols)
    ensures var after := InsertPart(vols, v);
            && UniqueParts(after) && at < |after| && |vols| <= |after|
            && (if at < |vols| then
                  && |after| == |vols| && SamePart(vols[at], v)
                  && after[at] == vols[at].(partName := v.partName,
                       status := if vols[at].status == "uploaded" then "uploaded" else v.status)
                else |after| == |vols| + 1 && after[at] == v && !Names(vols, v))
            && (forall m | 0 <= m < |after| && m != at :: m < |vols| && after[m] == vols[m] && !SamePart(vols[m], v))
  {
    match FindPart(vols, v)
    case None => at := |vols|;
    case Some(i) =>
      at := i;
      StatusPolicy.VolumeStatusValue(vols[i].status, v.status);
  }

  /**
   Everything any run of registrations stores: a row nobody names is as it was; otherwise the
   name is the last one given, the status is uploaded if it ever was and the last one given if
   not, and the handle is the one the part had or came with first.
   */
  lemma {:induction false} RegistrationsStore(vols: seq<Vol>, parts: seq<Vol>)
    requires UniqueParts(vols)
    ensures AllStored(vols, parts, InsertParts(vols, parts))
  {
    hide PartStored, InsertPart, UniqueParts;
    if parts == [] {
      forall m | 0 <= m < |vols| ensures PartStored(vols, parts, m, vols[m]) {
        StoredUnnamed(vols, m);
      }
    } else {
      var rest, last := parts[..|parts| - 1], parts[|parts| - 1];
      assert rest + [last] == parts;
      RegistrationsStore(vols, rest);
      StoresOneMore(vols, rest, InsertParts(vols, rest), last);
    }
  }

  lemma StoresOneMore(vols: seq<Vol>, rest: seq<Vol>, before: seq<Vol>, last: Vol)
    requires UniqueParts(before) && AllStored(vols, rest, before)
    ensures AllStored(vols, rest + [last], InsertPart(before, last))
  {
    hide PartStored, InsertPart, UniqueParts;
    var at := InsertedAt(before, last);
    var after, parts := InsertPart(before, last), rest + [last];
    if at < |before| {
      StoredAgain(vols, rest, at, before[at], last, after[at].status);
    } else {
      NotNamedBefore(rest, before, last);
      StoredFirst(vols, rest, at, last);
    }
    forall m | 0 <= m < |after| ensures PartStored(vols, parts, m, after[m]) {
      if m != at {
        StoredStill(vols, rest, m, before[m], last);
      }
    }
    forall p | p in parts ensures Names(after, p) {
      assert SamePart(after[at], last);
      if p in rest {
        var m :| 0 <= m < |before| && SamePart(before[m], p);
        assert SamePart(after[m], p);
      }
    }
  }

  lemma NotNamedBefore(rest: seq<Vol>, before: seq<Vol>, last: Vol)
    requires !Names(before, last) && forall p | p in rest :: Names(before, p)
    ensures !Names(rest, last)
  {
    forall k | 0 <= k < |rest| ensures !SamePart(rest[k], last) {
      assert Names(before, rest[k]);
    }
  }

  lemma StoredUnnamed(vols: seq<Vol>, m: nat)
    requires m < |vols|
    ensures PartStored(vols, [], m, vols[m])
  {
  }

  /**
   Over any run of registrations, however often the pipeline re-enters and with whatever
   status, parts stay unique and an uploaded part is never demoted nor moved.
   */
  lemma UploadedIsNeverDemoted(vols: seq<Vol>, parts: seq<Vol>)
    requires UniqueParts(vols)
    ensures UniqueParts(InsertParts(vols, parts)) && |vols| <= |InsertParts(vols, parts)|
    ensures forall i | 0 <= i < |vols| ::
              && SamePart(InsertParts(vols, parts)[i], vols[i])
              && InsertParts(vols, parts)[i].ref == vols[i].ref
              && (vols[i].status == "uploaded" ==> InsertParts(vols, parts)[i].status == "uploaded")
    ensures forall p | p in parts :: exists v :: v in InsertParts(vols, parts) && SamePart(v, p)
  {
    hide InsertParts, LastGave, FirstCameWith;
    RegistrationsStore(vols, parts);
    var after := InsertParts(vols, parts);
    forall i | 0 <= i < |vols|
      ensures SamePart(after[i], vols[i]) && after[i].ref == vols[i].ref
      ensures vols[i].status == "uploaded" ==> after[i].status == "uploaded"
    {
      assert PartStored(vols, parts, i, after[i]);
    }
    forall p | p in parts ensures exists v :: v in after && SamePart(v, p) {
      var m :| 0 <= m < |after| && SamePart(after[m], p);
      assert after[m] in after;
    }
  }
}
