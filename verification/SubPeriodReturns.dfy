/**
 Stored sub-period returns: append-only rows per (customer, window), read as of a watermark. The
 newest visible row of a window is its value at that watermark.
 */
module SubPeriodReturns {
  import opened Wrappers
  import opened Sorting

  datatype Watermark = Watermark(cutoff: int, isLive: bool)

  function Live(now: int): Watermark { Watermark(now, true) }

  function AsPublished(recordedAt: int): Watermark { Watermark(recordedAt, false) }

  datatype Window = Window(start: int, end: int)

  datatype Figures = Figures(returnPct: int, valueBegin: int, valueEnd: int, flow: int, provisional: bool)

  datatype Row = Row(customer: nat, window: Window, recordedAt: int, figures: Figures)

  /** The unique constraint on (customer, start, end, recorded_at). */
  ghost predicate UniqueRows(rows: seq<Row>) {
    forall a, b :: a in rows && b in rows && a.customer == b.customer && a.window == b.window && a.recordedAt == b.recordedAt
      ==> a == b
  }

  // ---------------------------------------------------------------- one window

  predicate InWindow(r: Row, customer: nat, w: Window, cutoff: int) {
    r.customer == customer && r.window == w && r.recordedAt <= cutoff
  }

  /** Reference definition: r is a newest row of the window that is visible at the cutoff. */
  ghost predicate IsNewest(r: Row, rows: seq<Row>, customer: nat, w: Window, cutoff: int) {
    && r in rows && InWindow(r, customer, w, cutoff)
    && forall q :: q in rows && InWindow(q, customer, w, cutoff) ==> q.recordedAt <= r.recordedAt
  }

  function Matching(rows: seq<Row>, customer: nat, w: Window, cutoff: int): (m: seq<Row>)
    ensures forall r :: r in m <==> r in rows && InWindow(r, customer, w, cutoff)
  {
    if rows == [] then []
    else
      var rest := Matching(rows[1..], customer, w, cutoff);
      assert rows == [rows[0]] + rows[1..];
      if InWindow(rows[0], customer, w, cutoff) then [rows[0]] + rest else rest
  }

  function NewestFirst(): (Row, Row) -> bool { (a: Row, b: Row) => a.recordedAt > b.recordedAt }

  /** `as_of_for_sub_period`: filter, `ORDER BY recorded_at DESC`, first row. */
  function AsOfForSubPeriod(rows: seq<Row>, customer: nat, w: Window, asOf: Watermark): (r: Option<Row>)
    ensures r.Some? ==> IsNewest(r.value, rows, customer, w, asOf.cutoff)
    ensures r.None? <==> forall q :: q in rows ==> !InWindow(q, customer, w, asOf.cutoff)
  {
    assert WeakOrder(NewestFirst());
    var m := Matching(rows, customer, w, asOf.cutoff);
    var sorted := Sort(NewestFirst(), m);
    if sorted == [] then
      assert forall q :: q in m ==> q in sorted;
      None
    else
      assert sorted[0] in m;
      assert forall q :: q in m ==> q.recordedAt <= sorted[0].recordedAt by {
        forall q | q in m ensures q.recordedAt <= sorted[0].recordedAt {
          assert q in sorted;
          var i :| 0 <= i < |sorted| && sorted[i] == q;
          assert i > 0 ==> !NewestFirst()(sorted[i], sorted[0]);
        }
      }
      Some(sorted[0])
  }

  /** The unique constraint makes the newest visible row well defined. */
  lemma NewestIsUnique(a: Row, b: Row, rows: seq<Row>, customer: nat, w: Window, cutoff: int)
    requires UniqueRows(rows)
    requires IsNewest(a, rows, customer, w, cutoff) && IsNewest(b, rows, customer, w, cutoff)
    ensures a == b
  {
  }

  // ---------------------------------------------------------------- a range of windows

  /** A query: one customer's windows overlapping [start, end] (start may be unbounded), at a cutoff. */
  datatype Query = Query(customer: nat, start: Option<int>, end: int, cutoff: int)

  predicate Selected(q: Query, r: Row) {
    && r.customer == q.customer
    && r.window.start <= q.end
    && r.recordedAt <= q.cutoff
    && (q.start.Some? ==> r.window.end >= q.start.value)
  }

  predicate WindowLess(a: Window, b: Window) { a.start < b.start || (a.start == b.start && a.end < b.end) }

  /** Reference definition of the result: the newest visible row of every selected window, in window order. */
  ghost predicate IsReport(out: seq<Row>, rows: seq<Row>, q: Query) {
    && (forall i, j :: 0 <= i < j < |out| ==> WindowLess(out[i].window, out[j].window))
    && (forall i :: 0 <= i < |out| ==> Selected(q, out[i]) && IsNewest(out[i], rows, q.customer, out[i].window, q.cutoff))
    && (forall r :: r in rows && Selected(q, r) ==> Covered(out, r.window))
  }

  ghost predicate Covered(out: seq<Row>, w: Window) {
    exists i :: 0 <= i < |out| && out[i].window == w
  }

  function SelectRows(rows: seq<Row>, q: Query): (m: seq<Row>)
    ensures forall r :: r in m <==> r in rows && Selected(q, r)
  {
    if rows == [] then []
    else
      var rest := SelectRows(rows[1..], q);
      assert rows == [rows[0]] + rows[1..];
      if Selected(q, rows[0]) then [rows[0]] + rest else rest
  }

  /** `ORDER BY start, end, recorded_at DESC`. */
  function QueryOrder(): (Row, Row) -> bool {
    (a: Row, b: Row) => WindowLess(a.window, b.window) || (a.window == b.window && a.recordedAt > b.recordedAt)
  }

  lemma QueryOrderIsWeak()
    ensures WeakOrder(QueryOrder())
  {
  }

  function ByWindow(): (Row, Row) -> bool { (a: Row, b: Row) => WindowLess(a.window, b.window) }

  lemma ByWindowIsWeak()
    ensures WeakOrder(ByWindow())
  {
  }

  /** What the dictionary holds after the first i rows: for every window seen, its newest row so far. */
  ghost predicate Collected(latest: map<Window, Row>, sorted: seq<Row>, i: nat)
    requires i <= |sorted|
  {
    && (forall w :: w in latest ==> latest[w].window == w && latest[w] in sorted[..i])
    && (forall k :: 0 <= k < i ==> sorted[k].window in latest && sorted[k].recordedAt <= latest[sorted[k].window].recordedAt)
  }

  /** The `setdefault` pass: the first row of each window wins. */
  method FirstPerWindow(sorted: seq<Row>) returns (latest: map<Window, Row>, order: seq<Window>)
    requires Sorted(QueryOrder(), sorted)
    ensures Collected(latest, sorted, |sorted|)
    ensures forall w :: w in latest <==> w in order
    ensures forall i, j :: 0 <= i < j < |order| ==> WindowLess(order[i], order[j])
  {
    latest, order := map[], [];
    for i := 0 to |sorted|
      invariant Collected(latest, sorted, i)
      invariant forall w :: w in latest <==> w in order
      invariant forall x, y :: 0 <= x < y < |order| ==> WindowLess(order[x], order[y])
    {
      var row := sorted[i];
      assert sorted[..i + 1] == sorted[..i] + [row];
      if row.window !in latest {
        NewWindowIsLast(latest, order, sorted, i);
        latest := latest[row.window := row];
        order := order + [row.window];
      } else {
        var k :| 0 <= k < i && sorted[k] == latest[row.window];
        assert !QueryOrder()(row, sorted[k]);
      }
    }
  }

  /** In query order a window not seen before comes after all windows seen. */
  lemma NewWindowIsLast(latest: map<Window, Row>, order: seq<Window>, sorted: seq<Row>, i: nat)
    requires i < |sorted| && Sorted(QueryOrder(), sorted) && Collected(latest, sorted, i)
    requires forall w :: w in latest <==> w in order
    requires sorted[i].window !in latest
    ensures forall x :: 0 <= x < |order| ==> WindowLess(order[x], sorted[i].window)
  {
    forall x | 0 <= x < |order| ensures WindowLess(order[x], sorted[i].window) {
      assert order[x] in latest;
      var k :| 0 <= k < i && sorted[k] == latest[order[x]];
      assert !QueryOrder()(sorted[i], sorted[k]);
    }
  }

  /** The values of the dictionary, in insertion order. */
  function ValuesInOrder(latest: map<Window, Row>, order: seq<Window>): (r: seq<Row>)
    requires forall w :: w in order ==> w in latest
    ensures |r| == |order| && forall i :: 0 <= i < |r| ==> r[i] == latest[order[i]]
  {
    seq(|order|, i requires 0 <= i < |order| => latest[order[i]])
  }

  /** The dictionary values are a report. */
  lemma CollectedIsReport(latest: map<Window, Row>, order: seq<Window>, sorted: seq<Row>, rows: seq<Row>, q: Query)
    requires forall r :: r in sorted <==> r in rows && Selected(q, r)
    requires Collected(latest, sorted, |sorted|)
    requires forall w :: w in latest <==> w in order
    requires forall i, j :: 0 <= i < j < |order| ==> WindowLess(order[i], order[j])
    ensures IsReport(ValuesInOrder(latest, order), rows, q)
  {
    var out := ValuesInOrder(latest, order);
    assert sorted[..|sorted|] == sorted;
    forall i | 0 <= i < |out| ensures Selected(q, out[i]) && IsNewest(out[i], rows, q.customer, out[i].window, q.cutoff) {
      assert order[i] in latest && out[i] in sorted;
      forall r | r in rows && InWindow(r, q.customer, out[i].window, q.cutoff) ensures r.recordedAt <= out[i].recordedAt {
        assert Selected(q, r) && r in sorted;
        var k :| 0 <= k < |sorted| && sorted[k] == r;
      }
    }
    forall r | r in rows && Selected(q, r) ensures Covered(out, r.window) {
      assert r in sorted;
      var k :| 0 <= k < |sorted| && sorted[k] == r;
      assert r.window in order;
      var i :| 0 <= i < |order| && order[i] == r.window;
      assert out[i].window == r.window;
    }
  }

  /** Sorting what is already in strict window order changes nothing. */
  lemma {:induction false} SortedAlready(out: seq<Row>)
    requires forall i, j :: 0 <= i < j < |out| ==> WindowLess(out[i].window, out[j].window)
    requires WeakOrder(ByWindow())
    ensures Sort(ByWindow(), out) == out
  {
    if out != [] {
      SortedAlready(out[1..]);
      assert out == [out[0]] + out[1..];
      if |out| > 1 { assert ByWindow()(out[0], out[1..][0]); }
    }
  }

  /** `list_in_range`: query, `setdefault` pass, final sort. */
  method ListInRange(rows: seq<Row>, customer: nat, start: Option<int>, end: int, asOf: Watermark) returns (out: seq<Row>)
    ensures IsReport(out, rows, Query(customer, start, end, asOf.cutoff))
  {
    var q := Query(customer, start, end, asOf.cutoff);
    QueryOrderIsWeak();
    ByWindowIsWeak();
    var sorted := Sort(QueryOrder(), SelectRows(rows, q));
    var latest, order := FirstPerWindow(sorted);
    CollectedIsReport(latest, order, sorted, rows, q);
    SortedAlready(ValuesInOrder(latest, order));
    out := Sort(ByWindow(), ValuesInOrder(latest, order));
  }

  function RowsOn(rows: seq<Row>, customer: nat, day: int): (m: seq<Row>)
    ensures forall r :: r in m <==> r in rows && r.customer == customer && r.window.start <= day <= r.window.end
  {
    if rows == [] then []
    else
      var rest := RowsOn(rows[1..], customer, day);
      assert rows == [rows[0]] + rows[1..];
      if rows[0].customer == customer && rows[0].window.start <= day <= rows[0].window.end then [rows[0]] + rest else rest
  }

  /**
   `containing`: the same pass without a cutoff. The result is the one-day range report at every
   cutoff that covers all rows.
   */
  method Containing(rows: seq<Row>, customer: nat, day: int) returns (out: seq<Row>)
    ensures forall cutoff :: Covers(cutoff, rows) ==> IsReport(out, rows, Query(customer, Some(day), day, cutoff))
  {
    hide IsReport;
    QueryOrderIsWeak();
    var sorted := Sort(QueryOrder(), RowsOn(rows, customer, day));
    var latest, order := FirstPerWindow(sorted);
    out := ValuesInOrder(latest, order);
    forall cutoff | Covers(cutoff, rows) ensures IsReport(out, rows, Query(customer, Some(day), day, cutoff)) {
      CollectedIsReport(latest, order, sorted, rows, Query(customer, Some(day), day, cutoff));
    }
  }

  ghost predicate Covers(cutoff: int, rows: seq<Row>) {
    forall r :: r in rows ==> r.recordedAt <= cutoff
  }

  /** There is such a cutoff for every table. */
  lemma {:induction false} SomeCutoffCovers(rows: seq<Row>) returns (cutoff: int)
    ensures Covers(cutoff, rows)
  {
    cutoff := 0;
    if rows != [] {
      cutoff := SomeCutoffCovers(rows[1..]);
      assert rows == [rows[0]] + rows[1..];
      if rows[0].recordedAt > cutoff { cutoff := rows[0].recordedAt; }
    }
  }

  // ---------------------------------------------------------------- well defined and stable

  /** Two reports of the same query are the same sequence. */
  lemma ReportIsUnique(a: seq<Row>, b: seq<Row>, rows: seq<Row>, q: Query)
    requires UniqueRows(rows) && IsReport(a, rows, q) && IsReport(b, rows, q)
    ensures a == b
  {
    forall r | r in a ensures r in b { SharedRow(a, b, rows, q, r); }
    forall r | r in b ensures r in a { SharedRow(b, a, rows, q, r); }
    SameElements(a, b);
  }

  lemma SharedRow(a: seq<Row>, b: seq<Row>, rows: seq<Row>, q: Query, r: Row)
    requires UniqueRows(rows) && IsReport(a, rows, q) && IsReport(b, rows, q) && r in a
    ensures r in b
  {
    assert Covered(b, r.window);
    var i :| 0 <= i < |b| && b[i].window == r.window;
    NewestIsUnique(r, b[i], rows, q.customer, r.window, q.cutoff);
  }

  /** Strictly ordered sequences with the same elements are equal. */
  lemma {:induction false} SameElements(a: seq<Row>, b: seq<Row>)
    requires forall i, j :: 0 <= i < j < |a| ==> WindowLess(a[i].window, a[j].window)
    requires forall i, j :: 0 <= i < j < |b| ==> WindowLess(b[i].window, b[j].window)
    requires forall r :: r in a <==> r in b
    ensures a == b
  {
    assert b != [] ==> b[0] in b;
    if a != [] {
      assert a[0] in b && b[0] in a;
      assert a[0] == b[0];
      assert a == [a[0]] + a[1..] && b == [b[0]] + b[1..];
      assert forall r :: r in a[1..] <==> r in a && r != a[0];
      assert forall r :: r in b[1..] <==> r in b && r != b[0];
      SameElements(a[1..], b[1..]);
    }
  }

  /** A run of appends, each recorded after the cutoff, leaves everything visible at the cutoff unchanged. */
  ghost predicate RecordedAfter(rows: seq<Row>, cutoff: int) {
    forall r :: r in rows ==> r.recordedAt > cutoff
  }

  /** As-published values never change: later rows are invisible to `as_of_for_sub_period`. */
  lemma AsOfIsStable(rows: seq<Row>, later: seq<Row>, customer: nat, w: Window, asOf: Watermark)
    requires UniqueRows(rows + later) && RecordedAfter(later, asOf.cutoff)
    ensures AsOfForSubPeriod(rows + later, customer, w, asOf) == AsOfForSubPeriod(rows, customer, w, asOf)
  {
    var before, after := AsOfForSubPeriod(rows, customer, w, asOf), AsOfForSubPeriod(rows + later, customer, w, asOf);
    assert forall r :: r in rows + later && InWindow(r, customer, w, asOf.cutoff) ==> r in rows;
    assert forall r :: r in rows ==> r in rows + later;
    if before.Some? && after.Some? {
      NewestIsUnique(before.value, after.value, rows + later, customer, w, asOf.cutoff);
    }
  }

  /** As-published ranges never change: later rows leave the report of every query at the cutoff identical. */
  lemma ReportIsStable(rows: seq<Row>, later: seq<Row>, q: Query, before: seq<Row>, after: seq<Row>)
    requires UniqueRows(rows + later) && RecordedAfter(later, q.cutoff)
    requires IsReport(before, rows, q) && IsReport(after, rows + later, q)
    ensures before == after
  {
    assert forall r :: r in rows + later && r.recordedAt <= q.cutoff ==> r in rows;
    assert forall r :: r in rows ==> r in rows + later;
    assert IsReport(after, rows, q);
    ReportIsUnique(before, after, rows, q);
  }

  /** A range report and the single-window read agree on every window. */
  lemma ReportMatchesAsOf(out: seq<Row>, rows: seq<Row>, customer: nat, start: Option<int>, end: int, asOf: Watermark, i: nat)
    requires UniqueRows(rows) && IsReport(out, rows, Query(customer, start, end, asOf.cutoff)) && i < |out|
    ensures AsOfForSubPeriod(rows, customer, out[i].window, asOf) == Some(out[i])
  {
    var r := AsOfForSubPeriod(rows, customer, out[i].window, asOf);
    assert r.Some?;
    NewestIsUnique(r.value, out[i], rows, customer, out[i].window, asOf.cutoff);
  }
}
