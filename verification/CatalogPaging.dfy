/**
 Keyset pagination of `catalog.service.ts`. Timestamps are microseconds, as the database keeps them; a cursor
 carries milliseconds, as `toISOString` prints them. Ids are compared as the 128-bit numbers they are; the text
 of a uuid sorts the same way.
 */
module CatalogPaging {
  import opened Counting
  import opened Sorting
  import opened Wrappers

  datatype Row = Row(id: nat, createdAt: nat)

  datatype Cursor = Cursor(ts: nat, id: nat)

  datatype Direction = ASC | DESC

  const DEFAULT_LIMIT := 20
  const MAX_LIMIT := 100

  datatype Page = Page(data: seq<Row>, nextCursor: Option<Cursor>, hasMore: bool)

  function KeyOf(r: Row): Cursor {
    Cursor(r.createdAt, r.id)
  }

  /** The cursor made from a row: its timestamp loses what is finer than a millisecond. */
  function Cut(r: Row): Cursor {
    Cursor(r.createdAt / 1000 * 1000, r.id)
  }

  predicate Less(a: Cursor, b: Cursor) {
    a.ts < b.ts || (a.ts == b.ts && a.id < b.id)
  }

  predicate Before(dir: Direction, a: Cursor, b: Cursor) {
    if dir.ASC? then Less(a, b) else Less(b, a)
  }

  /** `(c.created_at, c.id) < (:ts, :id)`, or `>`. */
  predicate After(dir: Direction, cursor: Option<Cursor>, r: Row) {
    cursor.Some? ==> Before(dir, cursor.value, KeyOf(r))
  }

  function Order(dir: Direction): (Row, Row) -> bool {
    (a: Row, b: Row) => Before(dir, KeyOf(a), KeyOf(b))
  }

  /** `ORDER BY created_at, id`. */
  function OrderBy(dir: Direction, rows: seq<Row>): seq<Row> {
    SortBy(rows, Order(dir))
  }

  function PastCursor(dir: Direction, cursor: Option<Cursor>): Row -> bool {
    r => After(dir, cursor, r)
  }

  /** The rows the query matches, in order, before LIMIT. */
  function Matching(table: seq<Row>, keep: Row -> bool, dir: Direction, cursor: Option<Cursor>): seq<Row> {
    OrderBy(dir, Filter(Filter(table, keep), PastCursor(dir, cursor)))
  }

  function LimitOf(requested: Option<nat>): nat {
    var limit := if requested.Some? then requested.value else DEFAULT_LIMIT;
    if limit < MAX_LIMIT then limit else MAX_LIMIT
  }

  /** `list`, with an arbitrary row filter; the request is validated to ask for at least one row. */
  method List(table: seq<Row>, keep: Row -> bool, dir: Direction, requested: Option<nat>, cursor: Option<Cursor>)
    returns (page: Page)
    requires requested.Some? ==> requested.value >= 1
    ensures page == PageOf(Matching(table, keep, dir, cursor), LimitOf(requested))
    ensures var matching := Matching(table, keep, dir, cursor);
      && |page.data| <= |matching| && page.data == matching[..|page.data|]
      && (page.hasMore <==> |page.data| < |matching|)
      && match requested
         case None => |page.data| == if |matching| < 20 then |matching| else 20
         case Some(n) =>
           && (n <= 100 ==> |page.data| == if |matching| < n then |matching| else n)
           && (n > 100 ==> |page.data| == if |matching| < 100 then |matching| else 100)
    ensures page.hasMore ==>
              var last := page.data[|page.data| - 1];
              page.nextCursor == Some(Cursor(last.createdAt - last.createdAt % 1000, last.id))
    ensures !page.hasMore ==> page.nextCursor == None
  {
    var limit := LimitOf(requested);
    var matching := Matching(table, keep, dir, cursor);
    var rows := if |matching| > limit + 1 then matching[..limit + 1] else matching;
    var hasMore := |rows| > limit;
    var data := if hasMore then rows[..limit] else rows;
    var nextCursor := if hasMore && |data| > 0 then Some(Cut(data[|data| - 1])) else None;
    page := Page(data, nextCursor, hasMore);
  }

  /** The first `limit` of the matching rows, and the cursor of the last of them if there are more. */
  function PageOf(matching: seq<Row>, limit: nat): Page
    requires limit >= 1
  {
    if |matching| > limit then Page(matching[..limit], Some(Cut(matching[limit - 1])), true)
    else Page(matching, None, false)
  }

  // ---- Sorting and filtering -----------------------------------------------------------------------------

  ghost predicate Sorted(dir: Direction, rows: seq<Row>) {
    forall i, j :: 0 <= i < j < |rows| ==> Before(dir, KeyOf(rows[i]), KeyOf(rows[j]))
  }

  ghost predicate DistinctIds(rows: seq<Row>) {
    forall i, j :: 0 <= i < j < |rows| ==> rows[i].id != rows[j].id
  }

  lemma OrderCompares(dir: Direction, rows: seq<Row>)
    requires DistinctIds(rows)
    ensures Transitive(Order(dir)) && Comparable(rows, Order(dir))
  {
  }

  /** The order is strict, and no row is lost. */
  lemma OrderBySorts(dir: Direction, rows: seq<Row>)
    requires DistinctIds(rows)
    ensures Sorted(dir, OrderBy(dir, rows)) && multiset(OrderBy(dir, rows)) == multiset(rows)
  {
    OrderCompares(dir, rows);
    SortBySorts(rows, Order(dir));
    var sorted := OrderBy(dir, rows);
    forall i, j | 0 <= i < j < |sorted|
      ensures Before(dir, KeyOf(sorted[i]), KeyOf(sorted[j]))
    {
      assert Order(dir)(sorted[i], sorted[j]);
    }
  }

  lemma {:induction false} FilterDistinct(rows: seq<Row>, keep: Row -> bool)
    requires DistinctIds(rows)
    ensures DistinctIds(Filter(rows, keep))
  {
    if rows == [] {
    } else {
      var rest := Filter(rows[1..], keep);
      FilterDistinct(rows[1..], keep);
      FilterKeeps(rows[1..], keep);
      forall j | 0 <= j < |rest|
        ensures rest[j].id != rows[0].id
      {
        assert rest[j] in rows[1..];
      }
    }
  }

  /** In a sorted list the rows past a cursor are the rows from some position on. */
  lemma {:induction false} PastIsSuffix(dir: Direction, rows: seq<Row>, cursor: Option<Cursor>, k: nat)
    requires Sorted(dir, rows) && k <= |rows|
    requires forall i :: 0 <= i < |rows| ==> (After(dir, cursor, rows[i]) <==> k <= i)
    ensures Filter(rows, PastCursor(dir, cursor)) == rows[k..]
  {
    if rows == [] {
    } else {
      PastIsSuffix(dir, rows[1..], cursor, if k == 0 then 0 else k - 1);
      assert k == 0 ==> rows == [rows[0]] + rows[1..];
    }
  }

  /** What a query matches: every wanted row beyond the cursor and no other, each once, in the order asked for. */
  lemma MatchingExactly(table: seq<Row>, keep: Row -> bool, dir: Direction, cursor: Option<Cursor>)
    requires DistinctIds(table)
    ensures var rows := Matching(table, keep, dir, cursor);
      && (forall r :: r in rows <==>
            && r in table && keep(r)
            && match cursor
               case None => true
               case Some(c) =>
                 if dir.ASC? then r.createdAt > c.ts || (r.createdAt == c.ts && r.id > c.id)
                 else r.createdAt < c.ts || (r.createdAt == c.ts && r.id < c.id))
      && (forall i, j :: 0 <= i < j < |rows| ==>
            if dir.ASC?
            then rows[i].createdAt <= rows[j].createdAt
                 && (rows[i].createdAt == rows[j].createdAt ==> rows[i].id < rows[j].id)
            else rows[i].createdAt >= rows[j].createdAt
                 && (rows[i].createdAt == rows[j].createdAt ==> rows[i].id > rows[j].id))
  {
    var wanted := Filter(table, keep);
    var beyond := Filter(wanted, PastCursor(dir, cursor));
    var rows := Matching(table, keep, dir, cursor);
    FilterKeeps(table, keep);
    FilterKeeps(wanted, PastCursor(dir, cursor));
    FilterDistinct(table, keep);
    FilterDistinct(wanted, PastCursor(dir, cursor));
    OrderBySorts(dir, beyond);
    forall r
      ensures r in rows <==> r in beyond
    {
      assert r in rows <==> r in multiset(rows);
      assert r in beyond <==> r in multiset(beyond);
    }
    forall i, j | 0 <= i < j < |rows|
      ensures Before(dir, KeyOf(rows[i]), KeyOf(rows[j]))
    {
    }
  }

  // ---- Where a page begins --------------------------------------------------------------------------------

  /** All the rows of the table that pass the filter, in order. */
  function Full(table: seq<Row>, keep: Row -> bool, dir: Direction): seq<Row> {
    OrderBy(dir, Filter(table, keep))
  }

  ghost predicate Valid(table: seq<Row>, keep: Row -> bool, dir: Direction, full: seq<Row>) {
    DistinctIds(table) && full == Full(table, keep, dir) && Sorted(dir, full)
  }

  lemma FullIsValid(table: seq<Row>, keep: Row -> bool, dir: Direction)
    requires DistinctIds(table)
    ensures Valid(table, keep, dir, Full(table, keep, dir))
    ensures forall r :: r in Full(table, keep, dir) <==> r in table && keep(r)
  {
    FilterKeeps(table, keep);
    FilterDistinct(table, keep);
    OrderBySorts(dir, Filter(table, keep));
    forall r
      ensures r in Full(table, keep, dir) <==> r in table && keep(r)
    {
      assert r in Full(table, keep, dir) <==> r in multiset(Full(table, keep, dir));
      assert r in Filter(table, keep) <==> r in multiset(Filter(table, keep));
    }
  }

  lemma MatchingIsSuffix(
      table: seq<Row>, keep: Row -> bool, dir: Direction, full: seq<Row>, cursor: Option<Cursor>, k: nat)
    requires Valid(table, keep, dir, full) && k <= |full|
    requires forall i :: 0 <= i < |full| ==> (After(dir, cursor, full[i]) <==> k <= i)
    ensures Matching(table, keep, dir, cursor) == full[k..]
  {
    FilterKeeps(table, keep);
    FilterDistinct(table, keep);
    OrderCompares(dir, Filter(table, keep));
    FilterSort(Filter(table, keep), Order(dir), PastCursor(dir, cursor));
    PastIsSuffix(dir, full, cursor, k);
  }

  /** The position at which a page after the cursor begins. */
  function Position(dir: Direction, full: seq<Row>, cursor: Option<Cursor>): nat {
    if full == [] || After(dir, cursor, full[0]) then 0 else 1 + Position(dir, full[1..], cursor)
  }

  lemma {:induction false} PositionSplits(dir: Direction, full: seq<Row>, cursor: Option<Cursor>)
    requires Sorted(dir, full)
    ensures Position(dir, full, cursor) <= |full|
    ensures forall i :: 0 <= i < |full| ==> (After(dir, cursor, full[i]) <==> Position(dir, full, cursor) <= i)
  {
    if full == [] || After(dir, cursor, full[0]) {
    } else {
      PositionSplits(dir, full[1..], cursor);
      forall i | 0 <= i < |full|
        ensures After(dir, cursor, full[i]) <==> Position(dir, full, cursor) <= i
      {
        assert i > 0 ==> full[i] == full[1..][i - 1];
      }
    }
  }

  /** The cursor of row `k - 1` lies between the rows `k - 1` and `k`. */
  predicate CleanCut(dir: Direction, full: seq<Row>, k: nat)
    requires 0 < k < |full|
  {
    After(dir, Some(Cut(full[k - 1])), full[k]) && !After(dir, Some(Cut(full[k - 1])), full[k - 1])
  }

  /** What that means for the timestamps at the end of a page. */
  lemma CleanCutMeans(dir: Direction, full: seq<Row>, k: nat)
    requires Sorted(dir, full) && 0 < k < |full|
    ensures dir.ASC? ==> (CleanCut(dir, full, k) <==> full[k - 1].createdAt % 1000 == 0)
    ensures dir.DESC? ==> (CleanCut(dir, full, k) <==> Less(KeyOf(full[k]), Cut(full[k - 1])))
  {
    assert Before(dir, KeyOf(full[k - 1]), KeyOf(full[k]));
  }

  /** Every page boundary from the one after `at` on is clean. */
  ghost predicate CleanFrom(dir: Direction, full: seq<Row>, limit: nat, at: nat)
    requires limit > 0
    decreases |full| - at
  {
    at + limit < |full| ==> CleanCut(dir, full, at + limit) && CleanFrom(dir, full, limit, at + limit)
  }

  ghost predicate CleanCuts(dir: Direction, full: seq<Row>, limit: nat)
    requires limit > 0
  {
    CleanFrom(dir, full, limit, 0)
  }

  ghost predicate WholeMilliseconds(rows: seq<Row>) {
    forall r :: r in rows ==> r.createdAt % 1000 == 0
  }

  lemma {:induction false} WholeMillisecondsCutCleanly(dir: Direction, full: seq<Row>, limit: nat, at: nat)
    requires Sorted(dir, full) && WholeMilliseconds(full) && limit > 0
    ensures CleanFrom(dir, full, limit, at)
    decreases |full| - at
  {
    var k := at + limit;
    if k >= |full| {
    } else {
      CleanCutMeans(dir, full, k);
      assert Before(dir, KeyOf(full[k - 1]), KeyOf(full[k]));
      assert full[k - 1] in full;
      WholeMillisecondsCutCleanly(dir, full, limit, k);
    }
  }

  /** A table that keeps whole milliseconds is cut cleanly in either direction, for any filter and page size. */
  lemma WholeMillisecondTables(table: seq<Row>, keep: Row -> bool, dir: Direction, limit: nat)
    requires DistinctIds(table) && WholeMilliseconds(table) && limit > 0
    ensures CleanCuts(dir, Full(table, keep, dir), limit)
  {
    FullIsValid(table, keep, dir);
    WholeMillisecondsCutCleanly(dir, Full(table, keep, dir), limit, 0);
  }
}
