/**
 Paged listing of one group's resources: each page is its own query over the filtered rows in
 ORDER BY key, id (adapters/persistence/sqlite/resources_query.py), and the virtual file
 system collects the pages (core/application/download_server_io.py).
 */
module Paging {

  datatype Row = Row(id: int, key: int)

  datatype Page = Page(items: seq<Row>, total: nat)

  /** ORDER BY key ASC|DESC, id: ids are unique, so this is a total order. */
  predicate Before(desc: bool, a: Row, b: Row) {
    (if desc then a.key > b.key else a.key < b.key) || (a.key == b.key && a.id < b.id)
  }

  ghost predicate UniqueIds(rows: set<Row>) {
    forall a, b | a in rows && b in rows && a.id == b.id :: a == b
  }

  lemma BeforeIsTotal(desc: bool, rows: set<Row>, a: Row, b: Row)
    requires UniqueIds(rows) && a in rows && b in rows && a != b
    ensures Before(desc, a, b) || Before(desc, b, a)
  {
  }

  /** A sequence the database may produce for these rows. */
  ghost predicate IsOrder(desc: bool, rows: set<Row>, o: seq<Row>) {
    && (forall r :: r in rows <==> r in o)
    && (forall i, j | 0 <= i < j < |o| :: Before(desc, o[i], o[j]))
  }

  lemma FirstIsLeast(desc: bool, rows: set<Row>, o: seq<Row>, r: Row)
    requires IsOrder(desc, rows, o) && r in rows
    ensures o != [] && (r == o[0] || Before(desc, o[0], r))
  {
    var i :| 0 <= i < |o| && o[i] == r;
  }

  lemma TailIsOrder(desc: bool, rows: set<Row>, o: seq<Row>)
    requires IsOrder(desc, rows, o) && o != []
    ensures IsOrder(desc, rows - {o[0]}, o[1..])
  {
    forall r ensures r in rows - {o[0]} <==> r in o[1..] {
      if r in rows - {o[0]} {
        var i :| 0 <= i < |o| && o[i] == r;
        assert o[1..][i - 1] == r;
      }
      if r in o[1..] {
        var i :| 0 <= i < |o[1..]| && o[1..][i] == r;
        assert Before(desc, o[0], o[i + 1]);
      }
    }
  }

  /** The order is total: two queries over the same rows see the same sequence. */
  lemma {:induction false} OrderIsUnique(desc: bool, rows: set<Row>, o1: seq<Row>, o2: seq<Row>)
    requires IsOrder(desc, rows, o1) && IsOrder(desc, rows, o2)
    ensures o1 == o2
    decreases |o1|
  {
    OrderLength(desc, rows, o1);
    OrderLength(desc, rows, o2);
    if o1 != [] {
      assert o1[0] in rows;
      FirstIsLeast(desc, rows, o2, o1[0]);
      assert o2[0] in rows;
      FirstIsLeast(desc, rows, o1, o2[0]);
      TailIsOrder(desc, rows, o1);
      TailIsOrder(desc, rows, o2);
      OrderIsUnique(desc, rows - {o1[0]}, o1[1..], o2[1..]);
      assert o1 == [o1[0]] + o1[1..] && o2 == [o2[0]] + o2[1..];
    }
  }

  lemma OrderLength(desc: bool, rows: set<Row>, o: seq<Row>)
    requires IsOrder(desc, rows, o)
    ensures |o| == |rows|
    decreases |o|
  {
    if o == [] {
      assert rows == {};
    } else {
      assert o[0] in rows;
      TailIsOrder(desc, rows, o);
      OrderLength(desc, rows - {o[0]}, o[1..]);
    }
  }

  lemma InsertRow(desc: bool, rows: set<Row>, o: seq<Row>, r: Row, k: nat) returns (o': seq<Row>)
    requires UniqueIds(rows + {r}) && r !in rows && IsOrder(desc, rows, o) && k <= |o|
    requires forall i | k <= i < |o| :: Before(desc, r, o[i])
    ensures IsOrder(desc, rows + {r}, o')
    decreases k
  {
    if k > 0 {
      assert o[k - 1] in rows;
      BeforeIsTotal(desc, rows + {r}, r, o[k - 1]);
    }
    if k > 0 && Before(desc, r, o[k - 1]) {
      o' := InsertRow(desc, rows, o, r, k - 1);
    } else {
      o' := o[..k] + [r] + o[k..];
      forall i | 0 <= i < k ensures Before(desc, o[i], r) {
        assert i < k - 1 ==> Before(desc, o[i], o[k - 1]);
      }
      forall x ensures x in rows + {r} <==> x in o' {
        assert x in o' <==> x in o[..k] || x == r || x in o[k..];
        assert o == o[..k] + o[k..];
      }
    }
  }

  /** Rows with unique ids can be ordered, so every query has an answer. */
  lemma OrderExists(desc: bool, rows: set<Row>) returns (o: seq<Row>)
    requires UniqueIds(rows)
    ensures IsOrder(desc, rows, o)
    decreases rows
  {
    if rows == {} {
      o := [];
    } else {
      var r :| r in rows;
      o := OrderExists(desc, rows - {r});
      assert rows == (rows - {r}) + {r};
      o := InsertRow(desc, rows - {r}, o, r, |o|);
    }
  }

  function Min(a: int, b: int): int { if a < b then a else b }

  /** LIMIT size OFFSET (page - 1) * size. */
  function Slice(o: seq<Row>, page: nat, size: nat): seq<Row>
    requires page >= 1
  {
    o[Min((page - 1) * size, |o|)..Min(page * size, |o|)]
  }

  /** What one query over a fixed table may answer, whatever plan it sorts with. */
  ghost predicate Answers(desc: bool, rows: set<Row>, page: nat, size: nat, r: Page) {
    page >= 1 && r.total == |rows| &&
    exists o :: IsOrder(desc, rows, o) && r.items == Slice(o, page, size)
  }

  lemma PageIsSlice(desc: bool, rows: set<Row>, o: seq<Row>, page: nat, size: nat, r: Page)
    requires IsOrder(desc, rows, o) && Answers(desc, rows, page, size, r)
    ensures r.items == Slice(o, page, size) && r.total == |o|
  {
    var o' :| IsOrder(desc, rows, o') && r.items == Slice(o', page, size);
    OrderIsUnique(desc, rows, o, o');
    OrderLength(desc, rows, o);
  }

  lemma SlicesAreDisjoint(desc: bool, rows: set<Row>, o: seq<Row>, a: nat, b: nat, c: nat, d: nat, r: Row)
    requires IsOrder(desc, rows, o) && a <= b <= c <= d <= |o| && r in o[a..b]
    ensures r !in o[c..d]
  {
    var i :| 0 <= i < b - a && o[a..b][i] == r;
    forall j | 0 <= j < d - c ensures o[c..d][j] != r {
      assert Before(desc, o[a + i], o[c + j]);
    }
  }

  lemma PagesOf(desc: bool, rows: set<Row>, o: seq<Row>, a: nat, b: nat, c: nat, d: nat)
    requires IsOrder(desc, rows, o) && a <= b <= c <= d <= |o|
    ensures forall r | r in o[a..b] :: r !in o[c..d]
    ensures b == c ==> o[a..b] + o[c..d] == o[a..d]
  {
    hide IsOrder;
    forall r | r in o[a..b] ensures r !in o[c..d] {
      SlicesAreDisjoint(desc, rows, o, a, b, c, d, r);
    }
  }

  /** Consecutive pages are consecutive slices: no row is skipped and none is seen twice. */
  lemma PagesAreDisjointSlices(desc: bool, rows: set<Row>, o: seq<Row>, p: nat, q: nat, size: nat,
                               rp: Page, rq: Page)
    requires IsOrder(desc, rows, o) && p < q
    requires Answers(desc, rows, p, size, rp) && Answers(desc, rows, q, size, rq)
    ensures forall r | r in rp.items :: r !in rq.items
    ensures q == p + 1 ==> rp.items + rq.items == o[Min((p - 1) * size, |o|)..Min(q * size, |o|)]
  {
    hide IsOrder;
    AnswersAreNumbered(desc, rows, p, size, rp);
    AnswersAreNumbered(desc, rows, q, size, rq);
    hide Answers;
    PageIsSlice(desc, rows, o, p, size, rp);
    PageIsSlice(desc, rows, o, q, size, rq);
    MulMonotone(p - 1, p, size);
    MulMonotone(p, q - 1, size);
    MulMonotone(q - 1, q, size);
    var a, b, c, d := Min((p - 1) * size, |o|), Min(p * size, |o|), Min((q - 1) * size, |o|), Min(q * size, |o|);
    assert a <= b <= c <= d && (q == p + 1 ==> b == c);
    assert rp.items == o[a..b] && rq.items == o[c..d];
    hide Min;
    PagesOf(desc, rows, o, a, b, c, d);
  }

  lemma AnswersAreNumbered(desc: bool, rows: set<Row>, page: nat, size: nat, r: Page)
    requires Answers(desc, rows, page, size, r)
    ensures page >= 1
  {
  }

  lemma MulMonotone(a: nat, b: nat, n: nat)
    requires a <= b
    ensures a * n <= b * n
  {
    assert (b - a) * n >= 0;
  }

  /** The store: some answer to each query, over rows that do not change meanwhile. */
  method CollectResources(desc: bool, ghost rows: set<Row>, query: nat -> Page, pageSize: nat, maxPages: nat)
    returns (items: seq<Row>)
    requires UniqueIds(rows)
    requires forall p: nat | p >= 1 :: Answers(desc, rows, p, pageSize, query(p))
    ensures forall o | IsOrder(desc, rows, o) :: items == o[..Min(|o|, pageSize * maxPages)]
    ensures FirstRows(desc, rows, pageSize * maxPages, items)
  {
    ghost var order := OrderExists(desc, rows);
    hide IsOrder, Answers, UniqueIds, FirstRows, Slice;
    items := [];
    var page := 1;
    while page <= maxPages
      invariant 1 <= page <= maxPages + 1
      invariant items == order[..Min(|order|, (page - 1) * pageSize)]
    {
      var result := query(page);
      PageIsSlice(desc, rows, order, page, pageSize, result);
      NextPage(order, page, pageSize);
      items := items + result.items;
      if result.items == [] || |result.items| < pageSize || |items| >= result.total {
        LastPage(order, page, pageSize);
        MulMonotone(page, maxPages, pageSize);
        break;
      }
      page := page + 1;
    }
    assert maxPages * pageSize == pageSize * maxPages;
    forall o | IsOrder(desc, rows, o) ensures o == order {
      OrderIsUnique(desc, rows, o, order);
    }
    FirstOnes(desc, rows, order, pageSize * maxPages);
  }

  /** Said without the order: the rows are sorted, and no other row belongs before one of them. */
  ghost predicate FirstRows(desc: bool, rows: set<Row>, limit: nat, items: seq<Row>) {
    && |items| <= limit
    && (forall r | r in items :: r in rows)
    && (forall i, j | 0 <= i < j < |items| ::
          if items[i].key == items[j].key then items[i].id < items[j].id
          else if desc then items[i].key > items[j].key else items[i].key < items[j].key)
    && (forall r, x | r in rows && r !in items && x in items ::
          if x.key == r.key then x.id < r.id else if desc then x.key > r.key else x.key < r.key)
    && (|items| < limit ==> forall r | r in rows :: r in items)
  }

  lemma FirstAreSorted(desc: bool, rows: set<Row>, o: seq<Row>, i: nat, j: nat)
    requires IsOrder(desc, rows, o) && i < j < |o|
    ensures if o[i].key == o[j].key then o[i].id < o[j].id
            else if desc then o[i].key > o[j].key else o[i].key < o[j].key
  {
    assert Before(desc, o[i], o[j]);
  }

  lemma OthersComeLater(desc: bool, rows: set<Row>, o: seq<Row>, n: nat, r: Row, x: Row)
    requires IsOrder(desc, rows, o) && n <= |o| && r in rows && r !in o[..n] && x in o[..n]
    ensures if x.key == r.key then x.id < r.id else if desc then x.key > r.key else x.key < r.key
  {
    var items := o[..n];
    var j :| 0 <= j < |o| && o[j] == r;
    var i :| 0 <= i < n && items[i] == x;
    assert forall k | 0 <= k < n :: items[k] == o[k] && items[k] != r;
    FirstAreSorted(desc, rows, o, i, j);
  }

  lemma FirstOnes(desc: bool, rows: set<Row>, o: seq<Row>, limit: nat)
    requires IsOrder(desc, rows, o)
    ensures FirstRows(desc, rows, limit, o[..Min(|o|, limit)])
  {
    var n := Min(|o|, limit);
    var items := o[..n];
    MembersOf(desc, rows, o, n);
    hide IsOrder;
    forall i, j | 0 <= i < j < |items|
      ensures if items[i].key == items[j].key then items[i].id < items[j].id
              else if desc then items[i].key > items[j].key else items[i].key < items[j].key
    {
      FirstAreSorted(desc, rows, o, i, j);
    }
    forall r, x | r in rows && r !in items && x in items
      ensures if x.key == r.key then x.id < r.id else if desc then x.key > r.key else x.key < r.key
    {
      OthersComeLater(desc, rows, o, n, r, x);
    }
  }

  lemma MembersOf(desc: bool, rows: set<Row>, o: seq<Row>, n: nat)
    requires IsOrder(desc, rows, o) && n <= |o|
    ensures forall r | r in o[..n] :: r in rows
    ensures n == |o| ==> forall r | r in rows :: r in o[..n]
  {
    assert n == |o| ==> o[..n] == o;
    forall r | r in o[..n] ensures r in rows {
      assert r in o;
    }
  }

  lemma NextPage(o: seq<Row>, page: nat, size: nat)
    requires page >= 1
    ensures o[..Min(|o|, (page - 1) * size)] + Slice(o, page, size) == o[..Min(|o|, page * size)]
  {
    MulMonotone(page - 1, page, size);
  }

  /** A short, empty or final page means everything has been seen. */
  lemma LastPage(o: seq<Row>, page: nat, size: nat)
    requires page >= 1
    requires Slice(o, page, size) == [] || |Slice(o, page, size)| < size || page * size >= |o|
    ensures page * size >= |o| || size == 0
  {
    assert page * size == (page - 1) * size + size;
  }
}
