/**
 Keyset pagination: a list query fetches `limit + 1` rows strictly after the cursor in compound key
 order, `paginate` keeps `limit` of them and names the last as the next cursor. The table may change
 between the pages of a walk.
 */
module Pagination {
  import opened Wrappers
  import opened Sorting

  /** The compound sort key (timestamp or date, id). */
  datatype Key = Key(at: int, id: int)

  datatype Row = Row(key: Key, payload: int)

  predicate KeyLess(a: Key, b: Key) { a.at < b.at || (a.at == b.at && a.id < b.id) }

  /** Ascending order for lots and requests, descending for orders. */
  predicate Precedes(descending: bool, a: Key, b: Key) { if descending then KeyLess(b, a) else KeyLess(a, b) }

  function RowOrder(descending: bool): (Row, Row) -> bool {
    (a: Row, b: Row) => Precedes(descending, a.key, b.key)
  }

  lemma RowOrderIsWeak(descending: bool)
    ensures WeakOrder(RowOrder(descending))
  {
  }

  ghost predicate UniqueKeys(table: seq<Row>) {
    forall i, j :: 0 <= i < j < |table| ==> table[i].key != table[j].key
  }

  // ---------------------------------------------------------------- one page

  /** A page size that `normalize_limit` lets through is positive. */
  type PageSize = n: nat | n >= 1 witness 1

  predicate After(descending: bool, cursor: Option<Key>, k: Key) {
    cursor.None? || Precedes(descending, cursor.value, k)
  }

  /** `WHERE key > cursor`. */
  function Remaining(table: seq<Row>, descending: bool, cursor: Option<Key>): (r: seq<Row>)
    ensures forall x :: x in r <==> x in table && After(descending, cursor, x.key)
    ensures UniqueKeys(table) ==> UniqueKeys(r)
  {
    if table == [] then []
    else
      var rest := Remaining(table[1..], descending, cursor);
      assert table == [table[0]] + table[1..];
      if After(descending, cursor, table[0].key) then
        assert UniqueKeys(table) ==> forall x :: x in table[1..] ==> x.key != table[0].key;
        [table[0]] + rest
      else rest
  }

  /** The list query: filter, order, `LIMIT limit + 1`. */
  function Fetch(table: seq<Row>, descending: bool, cursor: Option<Key>, limit: PageSize): seq<Row> {
    RowOrderIsWeak(descending);
    var rows := Sort(RowOrder(descending), Remaining(table, descending, cursor));
    if |rows| > limit + 1 then rows[..limit + 1] else rows
  }

  datatype Page = Page(items: seq<Row>, next: Option<Key>)

  /** `paginate`: the extra row decides whether there is a next page. */
  function Paginate(rows: seq<Row>, limit: PageSize): (p: Page)
    ensures p.items <= rows
    ensures p.next.Some? <==> |rows| > limit
    ensures p.next.Some? ==> |p.items| == limit && p.next == Some(p.items[limit - 1].key)
    ensures p.next.None? ==> p.items == rows
  {
    if |rows| > limit then Page(rows[..limit], Some(rows[limit - 1].key)) else Page(rows, None)
  }

  function PageOf(table: seq<Row>, descending: bool, cursor: Option<Key>, limit: PageSize): Page
  {
    Paginate(Fetch(table, descending, cursor, limit), limit)
  }

  ghost predicate StrictlyOrdered(descending: bool, rows: seq<Row>) {
    forall i, j :: 0 <= i < j < |rows| ==> Precedes(descending, rows[i].key, rows[j].key)
  }

  /** Sorting rows with distinct keys orders them strictly. */
  lemma SortIsStrict(descending: bool, rows: seq<Row>)
    requires UniqueKeys(rows) && WeakOrder(RowOrder(descending))
    ensures StrictlyOrdered(descending, Sort(RowOrder(descending), rows))
  {
    var r := Sort(RowOrder(descending), rows);
    UniqueAfterSort(rows, r);
    forall i, j | 0 <= i < j < |r| ensures Precedes(descending, r[i].key, r[j].key) {
      assert !RowOrder(descending)(r[j], r[i]);
      assert r[i].key != r[j].key;
    }
  }

  /** A permutation of rows with distinct keys has distinct keys. */
  lemma UniqueAfterSort(rows: seq<Row>, r: seq<Row>)
    requires UniqueKeys(rows) && multiset(r) == multiset(rows)
    ensures UniqueKeys(r)
  {
    forall i, j | 0 <= i < j < |r| ensures r[i].key != r[j].key {
      if r[i].key == r[j].key { SameKeyTwice(rows, r, i, j); }
    }
  }

  lemma SameKeyTwice(rows: seq<Row>, r: seq<Row>, i: int, j: int)
    requires multiset(r) == multiset(rows)
    requires 0 <= i < j < |r| && r[i].key == r[j].key
    ensures !UniqueKeys(rows)
  {
    assert r[i] in multiset(r) && r[j] in multiset(r);
    assert r[i] in rows && r[j] in rows;
    if r[i] == r[j] {
      assert r == r[..i] + [r[i]] + r[i + 1..j] + [r[j]] + r[j + 1..];
      assert multiset(r)[r[i]] >= 2;
      TwiceMeansTwoIndices(rows, r[i]);
    }
  }

  lemma {:induction false} TwiceMeansTwoIndices(rows: seq<Row>, x: Row)
    requires multiset(rows)[x] >= 2
    ensures exists i, j :: 0 <= i < j < |rows| && rows[i] == x && rows[j] == x
  {
    assert rows == [rows[0]] + rows[1..];
    if rows[0] == x {
      assert x in rows[1..];
      var j :| 0 <= j < |rows[1..]| && rows[1..][j] == x;
      assert rows[0] == x && rows[j + 1] == x;
    } else {
      TwiceMeansTwoIndices(rows[1..], x);
      var i, j :| 0 <= i < j < |rows[1..]| && rows[1..][i] == x && rows[1..][j] == x;
      assert rows[i + 1] == x && rows[j + 1] == x;
    }
  }

  /** What a page must be: rows after the cursor in strict order, and nothing skipped before the next cursor. */
  ghost predicate IsNextPage(p: Page, table: seq<Row>, descending: bool, cursor: Option<Key>) {
    && StrictlyOrdered(descending, p.items)
    && (p.next.Some? ==> p.items != [] && p.next.value == p.items[|p.items| - 1].key)
    && (forall x :: x in p.items ==> x in table && After(descending, cursor, x.key))
    && (forall x :: x in table && After(descending, cursor, x.key) && x !in p.items
          ==> p.next.Some? && Precedes(descending, p.next.value, x.key))
  }

  lemma PageIsNext(table: seq<Row>, descending: bool, cursor: Option<Key>, limit: PageSize)
    requires UniqueKeys(table)
    ensures IsNextPage(PageOf(table, descending, cursor, limit), table, descending, cursor)
    ensures var p := PageOf(table, descending, cursor, limit);
            && |p.items| <= limit && (p.next.Some? ==> |p.items| == limit)
            && (p.next.Some? <==> exists x :: x in table && After(descending, cursor, x.key) && x !in p.items)
  {
    hide IsNextPage, After, Precedes, Paginate, UniqueKeys, StrictlyOrdered;
    RowOrderIsWeak(descending);
    var rest := Remaining(table, descending, cursor);
    var rows := Sort(RowOrder(descending), rest);
    SortIsStrict(descending, rest);
    PrefixIsNext(rows, table, descending, cursor, limit);
    PageSizes(rows, table, descending, cursor, limit);
  }

  /** A page holds `limit` rows when there is a next one, and at most that many otherwise. */
  lemma PageSizes(rows: seq<Row>, table: seq<Row>, descending: bool, cursor: Option<Key>, limit: PageSize)
    requires StrictlyOrdered(descending, rows)
    requires forall x :: x in rows <==> x in table && After(descending, cursor, x.key)
    ensures var p := Paginate(if |rows| > limit + 1 then rows[..limit + 1] else rows, limit);
            && |p.items| <= limit && (p.next.Some? ==> |p.items| == limit)
            && (p.next.Some? <==> exists x :: x in table && After(descending, cursor, x.key) && x !in p.items)
  {
    hide After, Paginate;
    PaginateFetched(rows, limit);
    if |rows| > limit {
      var x := rows[limit];
      assert x in rows;
      forall i | 0 <= i < limit ensures rows[i] != x { assert Precedes(descending, rows[i].key, x.key); }
      assert x !in rows[..limit];
    }
  }

  lemma PrefixIsNext(rows: seq<Row>, table: seq<Row>, descending: bool, cursor: Option<Key>, limit: PageSize)
    requires StrictlyOrdered(descending, rows)
    requires forall x :: x in rows <==> x in table && After(descending, cursor, x.key)
    ensures IsNextPage(Paginate(if |rows| > limit + 1 then rows[..limit + 1] else rows, limit), table, descending, cursor)
  {
    PaginateFetched(rows, limit);
    if |rows| > limit { SplitIsNext(rows, table, descending, cursor, limit); }
  }

  lemma PaginateFetched(rows: seq<Row>, limit: PageSize)
    ensures Paginate(if |rows| > limit + 1 then rows[..limit + 1] else rows, limit)
         == if |rows| > limit then Page(rows[..limit], Some(rows[limit - 1].key)) else Page(rows, None)
  {
    if |rows| > limit + 1 { assert rows[..limit + 1][..limit] == rows[..limit]; }
  }

  lemma SplitIsNext(rows: seq<Row>, table: seq<Row>, descending: bool, cursor: Option<Key>, limit: PageSize)
    requires StrictlyOrdered(descending, rows) && |rows| > limit
    requires forall x :: x in rows <==> x in table && After(descending, cursor, x.key)
    ensures IsNextPage(Page(rows[..limit], Some(rows[limit - 1].key)), table, descending, cursor)
  {
    hide Precedes, After;
    var items := rows[..limit];
    assert rows == items + rows[limit..];
    forall x | x in rows && x !in items ensures Precedes(descending, rows[limit - 1].key, x.key) {
      assert x in rows[limit..];
      var i :| 0 <= i < |rows[limit..]| && rows[limit..][i] == x;
      assert rows[limit + i] == x;
    }
  }

  lemma AfterTransitive(descending: bool, cursor: Option<Key>, k: Key, x: Key)
    requires After(descending, cursor, k) && Precedes(descending, k, x)
    ensures After(descending, cursor, x)
  {
  }

  // ---------------------------------------------------------------- a walk

  /**
   The rows a client collects: page after page from its cursor, the k-th page reading the table as it
   is then (`tables[k]`), until a page has no next cursor or the client stops.
   */
  function Walk(tables: seq<seq<Row>>, limits: seq<PageSize>, descending: bool, cursor: Option<Key>): seq<Row>
    requires |limits| == |tables|
  {
    if tables == [] then []
    else
      var p := PageOf(tables[0], descending, cursor, limits[0]);
      p.items + if p.next.None? then [] else Walk(tables[1..], limits[1..], descending, p.next)
  }

  /** The walk reaches a page without a next cursor. */
  predicate Finishes(tables: seq<seq<Row>>, limits: seq<PageSize>, descending: bool, cursor: Option<Key>)
    requires |limits| == |tables|
  {
    tables != [] &&
    var p := PageOf(tables[0], descending, cursor, limits[0]);
    p.next.None? || Finishes(tables[1..], limits[1..], descending, p.next)
  }

  ghost predicate AllUnique(tables: seq<seq<Row>>) {
    forall i :: 0 <= i < |tables| ==> UniqueKeys(tables[i])
  }

  /**
   Whatever is inserted or leaves the filter between pages, the rows collected are in strict key
   order - so none is returned twice - and each comes from a table the walk has read.
   */
  lemma {:induction false} WalkIsOrdered(tables: seq<seq<Row>>, limits: seq<PageSize>, descending: bool, cursor: Option<Key>)
    requires |limits| == |tables|
    requires AllUnique(tables)
    ensures var w := Walk(tables, limits, descending, cursor);
            && StrictlyOrdered(descending, w)
            && (forall x :: x in w ==> After(descending, cursor, x.key) && exists i :: 0 <= i < |tables| && x in tables[i])
  {
    hide PageOf, Precedes;
    if tables != [] {
      var p := PageOf(tables[0], descending, cursor, limits[0]);
      PageIsNext(tables[0], descending, cursor, limits[0]);
      if p.next.Some? {
        var rest := Walk(tables[1..], limits[1..], descending, p.next);
        WalkIsOrdered(tables[1..], limits[1..], descending, p.next);
        PageThenRest(descending, p, rest);
        forall x | x in rest ensures After(descending, cursor, x.key) && exists i :: 0 <= i < |tables| && x in tables[i] {
          assert p.items[|p.items| - 1] in p.items;
          AfterTransitive(descending, cursor, p.next.value, x.key);
          var i :| 0 <= i < |tables[1..]| && x in tables[1..][i];
          assert x in tables[i + 1];
        }
      }
      assert forall x :: x in p.items ==> x in tables[0];
    }
  }

  lemma PageThenRest(descending: bool, p: Page, rest: seq<Row>)
    requires StrictlyOrdered(descending, p.items) && StrictlyOrdered(descending, rest)
    requires p.next.Some? && p.items != [] && p.next.value == p.items[|p.items| - 1].key
    requires forall x :: x in rest ==> Precedes(descending, p.next.value, x.key)
    ensures StrictlyOrdered(descending, p.items + rest)
    ensures forall x :: x in p.items + rest <==> x in p.items || x in rest
  {
    var w := p.items + rest;
    forall i, j | 0 <= i < j < |w| ensures Precedes(descending, w[i].key, w[j].key) {
      if i < |p.items| <= j { assert w[j] in rest; }
    }
  }

  /** Some row of the table has the key, whatever its other columns. */
  ghost predicate HasKey(table: seq<Row>, k: Key) {
    exists r :: r in table && r.key == k
  }

  /**
   A finished walk returns every row that stays in the result set throughout, also when its other
   columns are updated between the pages: its key is in what the client has collected.
   */
  lemma {:induction false} WalkIsComplete(tables: seq<seq<Row>>, limits: seq<PageSize>, descending: bool, cursor: Option<Key>, k: Key)
    requires |limits| == |tables|
    requires AllUnique(tables) && Finishes(tables, limits, descending, cursor)
    requires After(descending, cursor, k)
    requires forall i :: 0 <= i < |tables| ==> HasKey(tables[i], k)
    ensures HasKey(Walk(tables, limits, descending, cursor), k)
  {
    hide PageOf, Precedes;
    var p := PageOf(tables[0], descending, cursor, limits[0]);
    PageIsNext(tables[0], descending, cursor, limits[0]);
    assert HasKey(tables[0], k);
    var r :| r in tables[0] && r.key == k;
    if r in p.items {
      assert r in Walk(tables, limits, descending, cursor);
    } else {
      WalkIsComplete(tables[1..], limits[1..], descending, p.next, k);
      var x :| x in Walk(tables[1..], limits[1..], descending, p.next) && x.key == k;
      assert x in Walk(tables, limits, descending, cursor);
    }
  }

  /** On a table that does not change, a full walk is the table sorted by key. */
  lemma StaticWalk(table: seq<Row>, tables: seq<seq<Row>>, limits: seq<PageSize>, descending: bool)
    requires |limits| == |tables|
    requires UniqueKeys(table) && forall i :: 0 <= i < |tables| ==> tables[i] == table
    requires Finishes(tables, limits, descending, None)
    ensures var w := Walk(tables, limits, descending, None);
            StrictlyOrdered(descending, w) && forall x :: x in w <==> x in table
  {
    WalkIsOrdered(tables, limits, descending, None);
    forall x | x in table ensures x in Walk(tables, limits, descending, None) {
      forall i | 0 <= i < |tables| ensures HasKey(tables[i], x.key) { assert x in tables[i]; }
      WalkIsComplete(tables, limits, descending, None, x.key);
      var r :| r in Walk(tables, limits, descending, None) && r.key == x.key;
      SameRow(table, r, x);
    }
  }

  lemma SameRow(table: seq<Row>, a: Row, b: Row)
    requires UniqueKeys(table) && a in table && b in table && a.key == b.key
    ensures a == b
  {
  }
}
