/**
 Bounded eviction of the download cache (core/application/download_cache.py).
 Times are exact; an unlink may fail, in which case the file stays and is skipped.
 */
module CacheSweep {

  datatype Entry = Entry(lastUse: real, size: nat, path: string)

  const CACHE_SWEEP_GRACE := 60.0

  function Sum(es: seq<Entry>): nat {
    if es == [] then 0 else Sum(es[..|es| - 1]) + es[|es| - 1].size
  }

  lemma {:induction false} SumConcat(a: seq<Entry>, b: seq<Entry>)
    ensures Sum(a + b) == Sum(a) + Sum(b)
  {
    if b == [] {
      assert a + b == a;
    } else {
      SumConcat(a, b[..|b| - 1]);
      assert (a + b)[..|a + b| - 1] == a + b[..|b| - 1];
    }
  }

  // ---------- cache_entries: least recently used first ----------

  ghost predicate Sorted(es: seq<Entry>) {
    forall i, j | 0 <= i < j < |es| :: es[i].lastUse <= es[j].lastUse
  }

  /** Stable insertion: after every entry that is not newer. */
  function Insert(es: seq<Entry>, e: Entry): seq<Entry> {
    if es != [] && es[|es| - 1].lastUse > e.lastUse then Insert(es[..|es| - 1], e) + [es[|es| - 1]]
    else es + [e]
  }

  function Sort(es: seq<Entry>): seq<Entry> {
    if es == [] then [] else Insert(Sort(es[..|es| - 1]), es[|es| - 1])
  }

  lemma {:induction false} InsertPermutes(es: seq<Entry>, e: Entry)
    ensures multiset(Insert(es, e)) == multiset(es) + multiset{e}
  {
    if es != [] && es[|es| - 1].lastUse > e.lastUse {
      var n := |es| - 1;
      InsertPermutes(es[..n], e);
      assert es == es[..n] + [es[n]];
    }
  }

  lemma InsertMembers(es: seq<Entry>, e: Entry)
    ensures forall x | x in Insert(es, e) :: x in es || x == e
  {
    InsertPermutes(es, e);
    forall x | x in Insert(es, e) ensures x in es || x == e {
      assert x in multiset(Insert(es, e));
    }
  }

  lemma {:induction false} InsertSorts(es: seq<Entry>, e: Entry)
    requires Sorted(es)
    ensures Sorted(Insert(es, e))
  {
    if es != [] && es[|es| - 1].lastUse > e.lastUse {
      var n := |es| - 1;
      var before := Insert(es[..n], e);
      InsertSorts(es[..n], e);
      InsertMembers(es[..n], e);
      forall i | 0 <= i < |before| ensures before[i].lastUse <= es[n].lastUse {
        assert before[i] in before;
      }
    }
  }

  lemma {:induction false} SortSorts(es: seq<Entry>)
    ensures Sorted(Sort(es)) && multiset(Sort(es)) == multiset(es)
  {
    if es != [] {
      var n := |es| - 1;
      SortSorts(es[..n]);
      InsertSorts(Sort(es[..n]), es[n]);
      InsertPermutes(Sort(es[..n]), es[n]);
      assert es == es[..n] + [es[n]];
    }
  }

  // ---------- One sweep over the ordered entries ----------

  predicate InGrace(e: Entry, now: real) { now - e.lastUse < CACHE_SWEEP_GRACE }

  predicate Idle(e: Entry, now: real, ttl: int) { ttl > 0 && now - e.lastUse >= ttl as real }

  predicate Over(total: int, quota: int) { quota > 0 && total > quota }

  datatype Swept = Swept(evicted: seq<Entry>, kept: seq<Entry>)

  /** Oldest first; `total` is what is on disk when the first entry is looked at. */
  function SweepFrom(es: seq<Entry>, now: real, ttl: int, quota: int, unlinks: Entry -> bool, total: int): Swept {
    if es == [] || InGrace(es[0], now) then Swept([], es)
    else
      var e := es[0];
      if (Idle(e, now, ttl) || Over(total, quota)) && unlinks(e) then
        var rest := SweepFrom(es[1..], now, ttl, quota, unlinks, total - e.size);
        rest.(evicted := [e] + rest.evicted)
      else
        var rest := SweepFrom(es[1..], now, ttl, quota, unlinks, total);
        rest.(kept := [e] + rest.kept)
  }

  /** What one sweep may do, whatever unlinks fail. */
  ghost predicate SweepOk(es: seq<Entry>, now: real, ttl: int, quota: int, unlinks: Entry -> bool, total: int,
                          s: Swept)
  {
    && multiset(s.evicted) + multiset(s.kept) == multiset(es)
    && Sum(s.evicted) + Sum(s.kept) == Sum(es)
    && (forall e | e in s.evicted :: now - e.lastUse >= CACHE_SWEEP_GRACE && unlinks(e))
    && (forall e | e in s.kept && now - e.lastUse >= CACHE_SWEEP_GRACE && unlinks(e) ::
          && (ttl > 0 ==> now - e.lastUse < ttl as real)
          && (quota > 0 ==> total - Sum(s.evicted) <= quota))
  }

  lemma SumCons(e: Entry, es: seq<Entry>)
    ensures Sum([e] + es) == e.size + Sum(es)
  {
    SumConcat([e], es);
    assert [e][..0] == [];
  }

  lemma SumNothing()
    ensures Sum([]) == 0
  {
  }

  /** Entries after one inside the grace window, or after one that is not idle, are as fresh. */
  lemma RestIsFresh(es: seq<Entry>, now: real)
    requires Sorted(es) && (es == [] || InGrace(es[0], now))
    ensures forall i | 0 <= i < |es| :: InGrace(es[i], now)
  {
  }

  lemma RestIsNotIdle(es: seq<Entry>, now: real, ttl: int)
    requires Sorted(es) && es != [] && !Idle(es[0], now, ttl)
    ensures forall i | 0 <= i < |es| :: !Idle(es[i], now, ttl)
  {
    assert forall i | 0 <= i < |es| :: es[0].lastUse <= es[i].lastUse;
  }

  predicate Evicts(e: Entry, now: real, ttl: int, quota: int, unlinks: Entry -> bool, total: int) {
    (Idle(e, now, ttl) || Over(total, quota)) && unlinks(e)
  }

  lemma SweepNothing(es: seq<Entry>, now: real, ttl: int, quota: int, unlinks: Entry -> bool, total: int)
    requires es == [] || InGrace(es[0], now)
    ensures SweepFrom(es, now, ttl, quota, unlinks, total) == Swept([], es)
  {
  }

  lemma SweepStep(es: seq<Entry>, now: real, ttl: int, quota: int, unlinks: Entry -> bool, total: int)
    returns (left: int, rest: Swept)
    requires es != [] && !InGrace(es[0], now)
    ensures left == if Evicts(es[0], now, ttl, quota, unlinks, total) then total - es[0].size else total
    ensures rest == SweepFrom(es[1..], now, ttl, quota, unlinks, left)
    ensures SweepFrom(es, now, ttl, quota, unlinks, total)
         == if Evicts(es[0], now, ttl, quota, unlinks, total)
            then Swept([es[0]] + rest.evicted, rest.kept) else Swept(rest.evicted, [es[0]] + rest.kept)
  {
    left := if Evicts(es[0], now, ttl, quota, unlinks, total) then total - es[0].size else total;
    rest := SweepFrom(es[1..], now, ttl, quota, unlinks, left);
  }

  lemma {:induction false} SweepPartitions(es: seq<Entry>, now: real, ttl: int, quota: int,
                                           unlinks: Entry -> bool, total: int)
    ensures var s := SweepFrom(es, now, ttl, quota, unlinks, total);
            && multiset(s.evicted) + multiset(s.kept) == multiset(es)
            && Sum(s.evicted) + Sum(s.kept) == Sum(es)
  {
    hide Sum, InGrace, Evicts, SweepFrom;
    if es == [] || InGrace(es[0], now) {
      SweepNothing(es, now, ttl, quota, unlinks, total);
      SumNothing();
    } else {
      var left, rest := SweepStep(es, now, ttl, quota, unlinks, total);
      SweepPartitions(es[1..], now, ttl, quota, unlinks, left);
      assert es == [es[0]] + es[1..];
      SumCons(es[0], es[1..]);
      SumCons(es[0], rest.evicted);
      SumCons(es[0], rest.kept);
    }
  }

  lemma {:induction false} EvictedMayGo(es: seq<Entry>, now: real, ttl: int, quota: int,
                                        unlinks: Entry -> bool, total: int)
    ensures forall e | e in SweepFrom(es, now, ttl, quota, unlinks, total).evicted ::
              !InGrace(e, now) && unlinks(e)
  {
    hide InGrace, SweepFrom;
    if es == [] || InGrace(es[0], now) {
      SweepNothing(es, now, ttl, quota, unlinks, total);
    } else {
      var left, rest := SweepStep(es, now, ttl, quota, unlinks, total);
      EvictedMayGo(es[1..], now, ttl, quota, unlinks, left);
    }
  }

  lemma {:induction false} KeptMayStay(es: seq<Entry>, now: real, ttl: int, quota: int,
                                       unlinks: Entry -> bool, total: int)
    requires Sorted(es)
    ensures var s := SweepFrom(es, now, ttl, quota, unlinks, total);
            forall e | e in s.kept && !InGrace(e, now) && unlinks(e) ::
              !Idle(e, now, ttl) && !Over(total - Sum(s.evicted), quota)
  {
    hide InGrace, Idle, Sum, SweepFrom;
    if es == [] || InGrace(es[0], now) {
      SweepNothing(es, now, ttl, quota, unlinks, total);
      RestIsFresh(es, now);
    } else {
      var left, rest := SweepStep(es, now, ttl, quota, unlinks, total);
      KeptMayStay(es[1..], now, ttl, quota, unlinks, left);
      SumCons(es[0], rest.evicted);
    }
  }

  /** The grace window, the TTL and the quota, and nothing lost or counted twice. */
  lemma SweepIsOk(es: seq<Entry>, now: real, ttl: int, quota: int, unlinks: Entry -> bool, total: int)
    requires Sorted(es)
    ensures SweepOk(es, now, ttl, quota, unlinks, total, SweepFrom(es, now, ttl, quota, unlinks, total))
  {
    hide SweepFrom, Sum;
    SweepPartitions(es, now, ttl, quota, unlinks, total);
    EvictedMayGo(es, now, ttl, quota, unlinks, total);
    KeptMayStay(es, now, ttl, quota, unlinks, total);
  }

  ghost predicate AllUnlink(es: seq<Entry>, unlinks: Entry -> bool) {
    forall i | 0 <= i < |es| :: unlinks(es[i])
  }

  lemma {:induction false} NothingToEvict(es: seq<Entry>, now: real, ttl: int, quota: int,
                                          unlinks: Entry -> bool, total: int)
    requires !Over(total, quota) && forall i | 0 <= i < |es| :: !Idle(es[i], now, ttl)
    ensures SweepFrom(es, now, ttl, quota, unlinks, total) == Swept([], es)
  {
    if es != [] && !InGrace(es[0], now) {
      NothingToEvict(es[1..], now, ttl, quota, unlinks, total);
      assert es == [es[0]] + es[1..];
    }
  }

  ghost predicate LastWasNeeded(evicted: seq<Entry>, now: real, ttl: int, quota: int, total: int) {
    evicted != [] ==>
      var last := evicted[|evicted| - 1];
      || (ttl > 0 && now - last.lastUse >= ttl as real)
      || (quota > 0 && total - Sum(evicted) + last.size > quota)
  }

  lemma LastOfLonger(e: Entry, rest: seq<Entry>, now: real, ttl: int, quota: int, total: int)
    requires Idle(e, now, ttl) || Over(total, quota)
    requires LastWasNeeded(rest, now, ttl, quota, total - e.size)
    ensures LastWasNeeded([e] + rest, now, ttl, quota, total)
  {
    SumCons(e, rest);
    if rest == [] {
      assert [e] + rest == [e];
    } else {
      assert ([e] + rest)[|rest|] == rest[|rest| - 1];
    }
  }

  /**
   When every unlink succeeds the evicted entries are a prefix of the least-recently-used
   order, and the last of them was idle or still needed for the quota.
   */
  lemma {:induction false} EvictsAPrefix(es: seq<Entry>, now: real, ttl: int, quota: int,
                                         unlinks: Entry -> bool, total: int)
    requires Sorted(es) && AllUnlink(es, unlinks)
    ensures var s := SweepFrom(es, now, ttl, quota, unlinks, total);
            s.evicted + s.kept == es && LastWasNeeded(s.evicted, now, ttl, quota, total)
  {
    hide InGrace, Idle, SweepFrom, LastWasNeeded, Over;
    if es == [] || InGrace(es[0], now) {
      SweepNothing(es, now, ttl, quota, unlinks, total);
      NothingNeeded(now, ttl, quota, total);
    } else {
      var left, rest := SweepStep(es, now, ttl, quota, unlinks, total);
      assert es == [es[0]] + es[1..];
      if Evicts(es[0], now, ttl, quota, unlinks, total) {
        EvictsAPrefix(es[1..], now, ttl, quota, unlinks, left);
        assert [es[0]] + rest.evicted + rest.kept == [es[0]] + es[1..];
        LastOfLonger(es[0], rest.evicted, now, ttl, quota, total);
      } else {
        RestIsNotIdle(es, now, ttl);
        NothingToEvict(es, now, ttl, quota, unlinks, total);
        NothingNeeded(now, ttl, quota, total);
      }
    }
  }

  lemma NothingNeeded(now: real, ttl: int, quota: int, total: int)
    ensures LastWasNeeded([], now, ttl, quota, total)
  {
  }

  // ---------- The cache directory ----------

  /** A directory listing names every file once, in any order. */
  ghost predicate Lists(found: seq<Entry>, files: seq<Entry>) { multiset(found) == multiset(files) }

  lemma SweptFromDisk(found: seq<Entry>, files: seq<Entry>, now: real, ttl: int, quota: int, unlinks: Entry -> bool, total: int)
    requires Lists(found, files)
    ensures var s := SweepFrom(Sort(found), now, ttl, quota, unlinks, total);
            multiset(s.kept) + multiset(s.evicted) == multiset(files)
  {
    SortSorts(found);
    SweepPartitions(Sort(found), now, ttl, quota, unlinks, total);
  }

  lemma SortIsSorted(es: seq<Entry>)
    ensures Sorted(Sort(es))
  {
    SortSorts(es);
  }

  class CacheDir {
    var files: seq<Entry>  // what is on disk; the order means nothing

    constructor (found: seq<Entry>)
      ensures files == found
    {
      files := found;
    }

    /**
     sweep_cache over a directory listing: evicts what the ordered sweep evicts, keeps the
     rest, and reports exactly the bytes removed.
     */
    method SweepCache(found: seq<Entry>, now: real, ttl: int, quota: int, unlinks: Entry -> bool)
      returns (freed: nat)
      requires Lists(found, files)
      modifies this
      ensures ttl <= 0 && quota <= 0 ==> freed == 0 && files == old(files)
      ensures ttl > 0 || quota > 0 ==>
        var s := SweepFrom(Sort(found), now, ttl, quota, unlinks, Sum(Sort(found)));
        && files == s.kept && freed == Sum(s.evicted)
        && multiset(files) + multiset(s.evicted) == multiset(old(files))
        && SweepOk(Sort(found), now, ttl, quota, unlinks, Sum(Sort(found)), s)
    {
      hide Sum, InGrace, Idle, Over, Sorted, Sort, SweepOk, SweepFrom, Lists;
      var entries := Sort(found);
      var total := Total(entries);
      SumNothing();
      freed := 0;
      if ttl <= 0 && quota <= 0 {
        return;
      }
      SortIsSorted(found);
      SweptFromDisk(found, files, now, ttl, quota, unlinks, total);
      SweepIsOk(entries, now, ttl, quota, unlinks, total);
      ghost var goal := SweepFrom(entries, now, ttl, quota, unlinks, total);
      ghost var gone: seq<Entry> := [];
      ghost var ahead := goal;
      var passed, todo := [], entries;
      files := entries;
      while todo != []
        invariant ahead == SweepFrom(todo, now, ttl, quota, unlinks, total)
        invariant Sum(gone) == freed && files == passed + todo
        invariant gone + ahead.evicted == goal.evicted
        invariant passed + ahead.kept == goal.kept
        decreases |todo|
      {
        var e := todo[0];
        if InGrace(e, now) {
          break;
        }
        ghost var left, rest := SweepStep(todo, now, ttl, quota, unlinks, total);
        assert todo == [e] + todo[1..];
        todo := todo[1..];
        ahead := rest;
        if !(Idle(e, now, ttl) || Over(total, quota)) || !unlinks(e) {
          assert passed + ([e] + rest.kept) == passed + [e] + rest.kept;
          passed := passed + [e];
          continue;
        }
        SumSnoc(gone, e);
        assert gone + ([e] + rest.evicted) == gone + [e] + rest.evicted;
        files := passed + todo;
        total := total - e.size;
        freed := freed + e.size;
        gone := gone + [e];
      }
      SweepNothing(todo, now, ttl, quota, unlinks, total);
      assert gone == goal.evicted && passed + todo == goal.kept;
    }
  }

  lemma SumSnoc(es: seq<Entry>, e: Entry)
    ensures Sum(es + [e]) == Sum(es) + e.size
  {
    assert (es + [e])[..|es|] == es;
  }

  method Total(es: seq<Entry>) returns (total: int)
    ensures total == Sum(es)
  {
    total := 0;
    for k := 0 to |es|
      invariant total == Sum(es[..k])
    {
      assert es[..k + 1][..k] == es[..k];
      total := total + es[k].size;
    }
    assert es[..|es|] == es;
  }
}
