/**
 Published snapshots: a period's return and balance linked from its stored sub-period returns, pinned
 to a watermark, and the cross-check that derives them again later. The valuation of a window, the
 linking of returns and the clock are parameters.
 */
module Snapshots {
  import opened Wrappers
  import opened Attempts
  import opened SubPeriodReturns

  datatype SnapshotError = DuplicateRow | MissingWindow(window: Window)

  type Outcome<+T> = Attempt<T, SnapshotError>

  // ---------------------------------------------------------------- boundaries

  ghost predicate Ascending(s: seq<int>) {
    forall i, j :: 0 <= i < j < |s| ==> s[i] < s[j]
  }

  /** Adds a date to an ascending list, once. */
  function InsertDate(s: seq<int>, d: int): (r: seq<int>)
    requires Ascending(s)
    ensures Ascending(r)
    ensures forall x :: x in r <==> x in s || x == d
  {
    if s == [] then [d]
    else if d < s[0] then
      assert forall x :: x in [d] + s <==> x == d || x in s;
      [d] + s
    else if d == s[0] then s
    else
      assert s == [s[0]] + s[1..];
      var rest := InsertDate(s[1..], d);
      assert Ascending([s[0]] + rest) by { AscendingCons(s[0], s[1..], d, rest); }
      assert forall x :: x in [s[0]] + rest <==> x == s[0] || x in rest;
      [s[0]] + rest
  }

  lemma AscendingCons(first: int, t: seq<int>, d: int, rest: seq<int>)
    requires Ascending([first] + t) && first < d && Ascending(rest) && forall x :: x in rest <==> x in t || x == d
    ensures Ascending([first] + rest)
  {
    var s := [first] + t;
    forall i | 0 <= i < |rest| ensures first < rest[i] {
      assert rest[i] in rest;
      if rest[i] != d {
        var k :| 0 <= k < |t| && t[k] == rest[i];
        assert s[0] < s[k + 1];
      }
    }
  }

  /** `[start] + flow dates strictly between + [end]`, sorted without duplicates. */
  function Boundaries(flows: seq<int>, start: int, end: int): (b: seq<int>)
    ensures Ascending(b)
    ensures forall x :: x in b <==> x == start || x == end || (x in flows && start < x < end)
  {
    if flows == [] then InsertDate(InsertDate([], start), end)
    else
      var rest := Boundaries(flows[1..], start, end);
      assert flows == [flows[0]] + flows[1..];
      if start < flows[0] < end then InsertDate(rest, flows[0]) else rest
  }

  ghost predicate Contains(a: seq<int>, b: seq<int>) {
    forall i :: 0 <= i < |b| ==> b[i] in a
  }

  lemma {:induction false} AscendingUnique(a: seq<int>, b: seq<int>)
    requires Ascending(a) && Ascending(b) && Contains(a, b) && Contains(b, a)
    ensures a == b
    decreases |a|
  {
    if b != [] { HeadIsLeast(a, b); }
    if a != [] { HeadIsLeast(b, a); }
    if a != [] && b != [] {
      assert a == [a[0]] + a[1..] && b == [b[0]] + b[1..];
      TailContains(a, b);
      TailContains(b, a);
      AscendingUnique(a[1..], b[1..]);
    }
  }

  lemma HeadIsLeast(a: seq<int>, b: seq<int>)
    requires Ascending(a) && Contains(a, b) && b != []
    ensures a != [] && a[0] <= b[0]
  {
    assert b[0] in a;
  }

  lemma TailContains(a: seq<int>, b: seq<int>)
    requires Ascending(b) && Contains(a, b) && a != [] && b != [] && a[0] == b[0]
    ensures Contains(a[1..], b[1..])
  {
    forall i | 0 <= i < |b[1..]| ensures b[1..][i] in a[1..] {
      assert b[1..][i] == b[i + 1] && b[0] < b[i + 1];
      InTail(a, b[i + 1]);
    }
  }

  lemma InTail(a: seq<int>, x: int)
    requires a != [] && x in a && x != a[0]
    ensures x in a[1..]
  {
    assert a == [a[0]] + a[1..];
  }

  /** One more external flow leaves the boundaries alone exactly when it is outside the period or on a boundary already. */
  lemma FlowKeepsBoundariesIff(flows: seq<int>, start: int, end: int, d: int)
    ensures Boundaries([d] + flows, start, end) == Boundaries(flows, start, end)
            <==> !(start < d < end) || d in flows
  {
    var a, b := Boundaries([d] + flows, start, end), Boundaries(flows, start, end);
    if !(start < d < end) || d in flows {
      assert Contains(a, b) && Contains(b, a);
      AscendingUnique(a, b);
    } else {
      assert d in [d] + flows && d in a && d !in b;
    }
  }

  function Windows(b: seq<int>): (w: seq<Window>)
    ensures |w| == if |b| == 0 then 0 else |b| - 1
    ensures forall i :: 0 <= i < |w| ==> w[i] == Window(b[i], b[i + 1])
  {
    if |b| == 0 then [] else seq(|b| - 1, i requires 0 <= i < |b| - 1 => Window(b[i], b[i + 1]))
  }

  // ---------------------------------------------------------------- computing and storing

  function LastRecorded(rows: seq<Row>): (m: int)
    ensures forall r :: r in rows ==> r.recordedAt <= m
  {
    if rows == [] then 0
    else
      var n := |rows| - 1;
      var m := LastRecorded(rows[..n]);
      assert rows == rows[..n] + [rows[n]];
      if rows[n].recordedAt > m then rows[n].recordedAt else m
  }

  /** `latest_for_sub_period`: no cutoff, every row is visible. */
  function LatestForSubPeriod(rows: seq<Row>, customer: nat, w: Window): Option<Row> {
    AsOfForSubPeriod(rows, customer, w, Live(LastRecorded(rows)))
  }

  datatype Stored = Stored(rows: seq<Row>, row: Row)

  predicate HasKey(rows: seq<Row>, customer: nat, w: Window, at: int) {
    exists r :: r in rows && r.customer == customer && r.window == w && r.recordedAt == at
  }

  /** Reuses the newest stored row when its figures are unchanged, appends a new one otherwise. */
  function Recompute(rows: seq<Row>, customer: nat, w: Window, figures: Figures, now: int): Outcome<Stored> {
    var existing := LatestForSubPeriod(rows, customer, w);
    if existing.Some? && existing.value.figures == figures then Done(Stored(rows, existing.value))
    else if HasKey(rows, customer, w, now) then Failed(DuplicateRow)
    else
      var row := Row(customer, w, now, figures);
      Done(Stored(rows + [row], row))
  }

  datatype Computed = Computed(rows: seq<Row>, subPeriods: seq<Row>)

  /** Window by window, each seeing the rows the earlier ones stored. */
  function Compute(rows: seq<Row>, customer: nat, windows: seq<Window>, value: Window -> Figures, now: int): Outcome<Computed>
    decreases |windows|
  {
    if windows == [] then Done(Computed(rows, []))
    else
      var n := |windows| - 1;
      var before :- Compute(rows, customer, windows[..n], value, now);
      var s :- Recompute(before.rows, customer, windows[n], value(windows[n]), now);
      Done(Computed(s.rows, before.subPeriods + [s.row]))
  }

  function Derive(rows: seq<Row>, customer: nat, windows: seq<Window>, asOf: Watermark): Outcome<seq<Row>>
    decreases |windows|
  {
    if windows == [] then Done([])
    else
      var n := |windows| - 1;
      var before :- Derive(rows, customer, windows[..n], asOf);
      var row := AsOfForSubPeriod(rows, customer, windows[n], asOf);
      if row.None? then Failed(MissingWindow(windows[n])) else Done(before + [row.value])
  }

  // ---------------------------------------------------------------- publishing and checking

  datatype Snapshot = Snapshot(customer: nat, start: int, end: int, watermark: int, twr: int, balance: int)

  type Link = seq<Row> -> int

  function Balance(subPeriods: seq<Row>): int {
    if subPeriods == [] then 0 else subPeriods[|subPeriods| - 1].figures.valueEnd
  }

  datatype Published = Published(rows: seq<Row>, snapshot: Snapshot)

  function Publish(rows: seq<Row>, flows: seq<int>, customer: nat, start: int, end: int, value: Window -> Figures, link: Link, now: int): Outcome<Published> {
    var c :- Compute(rows, customer, Windows(Boundaries(flows, start, end)), value, now);
    Done(Published(c.rows, Snapshot(customer, start, end, now, link(c.subPeriods), Balance(c.subPeriods))))
  }

  datatype Check = Reproduced | CrossCheckFailed | DerivationFailed(error: SnapshotError)

  /** Derives the figures again at the snapshot's watermark, over the boundaries as they are now. */
  function CrossCheck(rows: seq<Row>, flows: seq<int>, link: Link, s: Snapshot): Check {
    var d := Derive(rows, s.customer, Windows(Boundaries(flows, s.start, s.end)), AsPublished(s.watermark));
    if d.Failed? then DerivationFailed(d.error)
    else if link(d.value) != s.twr || Balance(d.value) != s.balance then CrossCheckFailed
    else Reproduced
  }

  // ---------------------------------------------------------------- what was stored is what is derived

  lemma AppendUnique(rows: seq<Row>, r: Row)
    requires UniqueRows(rows) && !HasKey(rows, r.customer, r.window, r.recordedAt)
    ensures UniqueRows(rows + [r])
  {
  }

  /** Rows of other windows or customers, or beyond the cutoff, never change a read. */
  lemma OtherRowsDoNotMatter(rows: seq<Row>, more: seq<Row>, customer: nat, w: Window, asOf: Watermark)
    requires UniqueRows(rows + more) && forall r :: r in more ==> !InWindow(r, customer, w, asOf.cutoff)
    ensures AsOfForSubPeriod(rows + more, customer, w, asOf) == AsOfForSubPeriod(rows, customer, w, asOf)
  {
    hide AsOfForSubPeriod;
    var a, b := AsOfForSubPeriod(rows + more, customer, w, asOf), AsOfForSubPeriod(rows, customer, w, asOf);
    assert forall q :: q in rows + more <==> q in rows || q in more;
    if a.Some? && b.Some? { NewestIsUnique(a.value, b.value, rows, customer, w, asOf.cutoff); }
  }

  /** The newest stored row of a window, whenever it was recorded. */
  lemma LatestIs(rows: seq<Row>, customer: nat, w: Window)
    ensures var r := LatestForSubPeriod(rows, customer, w);
            && (r.Some? ==>
                  && r.value in rows && r.value.customer == customer && r.value.window == w
                  && forall q :: q in rows && q.customer == customer && q.window == w ==> q.recordedAt <= r.value.recordedAt)
            && (r.None? <==> forall q :: q in rows ==> !(q.customer == customer && q.window == w))
  {
    hide AsOfForSubPeriod;
    assert forall q :: q in rows && q.customer == customer && q.window == w ==> InWindow(q, customer, w, LastRecorded(rows));
  }

  lemma LatestOfOtherWindow(rows: seq<Row>, r: Row, customer: nat, w: Window)
    requires UniqueRows(rows + [r]) && (r.customer != customer || r.window != w)
    ensures LatestForSubPeriod(rows + [r], customer, w) == LatestForSubPeriod(rows, customer, w)
  {
    hide LatestForSubPeriod;
    LatestIs(rows, customer, w);
    LatestIs(rows + [r], customer, w);
    assert forall q :: q in rows + [r] <==> q in rows || q == r;
  }

  /** The row that would be reused for a window is visible at the publishing transaction's clock. */
  ghost predicate ReusedVisible(rows: seq<Row>, customer: nat, w: Window, figures: Figures, now: int) {
    var e := LatestForSubPeriod(rows, customer, w);
    e.Some? && e.value.figures == figures ==> e.value.recordedAt <= now
  }

  /** What a recomputation stores or reuses is what is read at once, exactly if it is visible. */
  lemma RecomputeIsRead(rows: seq<Row>, customer: nat, w: Window, figures: Figures, now: int)
    requires UniqueRows(rows) && Recompute(rows, customer, w, figures, now).Done?
    ensures var s := Recompute(rows, customer, w, figures, now).value;
            && UniqueRows(s.rows) && s.row.figures == figures
            && (AsOfForSubPeriod(s.rows, customer, w, AsPublished(now)) == Some(s.row) <==> ReusedVisible(rows, customer, w, figures, now))
  {
    hide AsOfForSubPeriod, LatestForSubPeriod;
    LatestIs(rows, customer, w);
    var s := Recompute(rows, customer, w, figures, now).value;
    var read := AsOfForSubPeriod(s.rows, customer, w, AsPublished(now));
    if s.rows == rows && s.row in rows {
      ReusedIsRead(rows, customer, w, s.row, now);
    } else {
      AppendUnique(rows, s.row);
      AppendedIsRead(rows, s.row, now);
    }
  }

  lemma ReusedIsRead(rows: seq<Row>, customer: nat, w: Window, r: Row, now: int)
    requires UniqueRows(rows) && r in rows && r.customer == customer && r.window == w
    requires forall q :: q in rows && q.customer == customer && q.window == w ==> q.recordedAt <= r.recordedAt
    ensures AsOfForSubPeriod(rows, customer, w, AsPublished(now)) == Some(r) <==> r.recordedAt <= now
  {
    hide AsOfForSubPeriod;
    var read := AsOfForSubPeriod(rows, customer, w, AsPublished(now));
    if r.recordedAt <= now {
      assert InWindow(r, customer, w, now);
      NewestIsUnique(read.value, r, rows, customer, w, now);
    }
  }

  lemma AppendedIsRead(rows: seq<Row>, r: Row, now: int)
    requires UniqueRows(rows + [r]) && r.recordedAt == now
    ensures AsOfForSubPeriod(rows + [r], r.customer, r.window, AsPublished(now)) == Some(r)
  {
    hide AsOfForSubPeriod;
    var read := AsOfForSubPeriod(rows + [r], r.customer, r.window, AsPublished(now));
    assert r in rows + [r] && InWindow(r, r.customer, r.window, now);
    NewestIsUnique(read.value, r, rows + [r], r.customer, r.window, now);
  }

  /** Other windows are read, and would be reused, as before. */
  lemma RecomputeKeepsOthers(rows: seq<Row>, customer: nat, w: Window, figures: Figures, now: int, v: Window)
    requires UniqueRows(rows) && Recompute(rows, customer, w, figures, now).Done? && v != w
    ensures var s := Recompute(rows, customer, w, figures, now).value;
            && AsOfForSubPeriod(s.rows, customer, v, AsPublished(now)) == AsOfForSubPeriod(rows, customer, v, AsPublished(now))
            && LatestForSubPeriod(s.rows, customer, v) == LatestForSubPeriod(rows, customer, v)
  {
    hide AsOfForSubPeriod, LatestForSubPeriod;
    var s := Recompute(rows, customer, w, figures, now).value;
    if s.rows != rows {
      AppendUnique(rows, s.row);
      OtherRowsDoNotMatter(rows, [s.row], customer, v, AsPublished(now));
      LatestOfOtherWindow(rows, s.row, customer, v);
    }
  }

  ghost predicate Distinct(windows: seq<Window>) {
    forall i, j :: 0 <= i < j < |windows| ==> windows[i] != windows[j]
  }

  /** Deriving succeeds with exactly the reads of the windows. */
  lemma {:induction false} DeriveIs(rows: seq<Row>, customer: nat, windows: seq<Window>, asOf: Watermark, v: seq<Row>)
    ensures Derive(rows, customer, windows, asOf) == Done(v)
            <==> |v| == |windows| && forall i :: 0 <= i < |v| ==> AsOfForSubPeriod(rows, customer, windows[i], asOf) == Some(v[i])
    decreases |windows|
  {
    hide AsOfForSubPeriod;
    if windows != [] {
      var n := |windows| - 1;
      if |v| == |windows| {
        DeriveIs(rows, customer, windows[..n], asOf, v[..n]);
        assert v == v[..n] + [v[n]];
        forall i | 0 <= i < n ensures windows[..n][i] == windows[i] && v[..n][i] == v[i] {}
      }
      var before := Derive(rows, customer, windows[..n], asOf);
      if before.Done? { DeriveIs(rows, customer, windows[..n], asOf, before.value); }
    }
  }

  /** What computing over the windows stores, and what it leaves alone. */
  lemma {:induction false} ComputeIs(rows: seq<Row>, customer: nat, windows: seq<Window>, value: Window -> Figures, now: int)
    requires UniqueRows(rows) && Distinct(windows) && Compute(rows, customer, windows, value, now).Done?
    ensures var c := Compute(rows, customer, windows, value, now).value;
            && UniqueRows(c.rows) && |c.subPeriods| == |windows|
            && (forall i :: 0 <= i < |windows| ==> StoredAs(rows, c, customer, windows[i], value(windows[i]), now, i))
            && (forall v :: v !in windows ==> Untouched(rows, c.rows, customer, v, now))
    decreases |windows|
  {
    hide Recompute, AsOfForSubPeriod, LatestForSubPeriod, UniqueRows, ReusedVisible;
    if windows != [] {
      var n := |windows| - 1;
      var w := windows[n];
      ComputeIs(rows, customer, windows[..n], value, now);
      var before := Compute(rows, customer, windows[..n], value, now).value;
      var s := Recompute(before.rows, customer, w, value(w), now).value;
      var c := Compute(rows, customer, windows, value, now).value;
      RecomputeIsRead(before.rows, customer, w, value(w), now);
      forall v | v != w ensures Untouched(before.rows, s.rows, customer, v, now) {
        RecomputeKeepsOthers(before.rows, customer, w, value(w), now, v);
      }
      LastIsNew(windows);
      assert Untouched(rows, before.rows, customer, w, now);
      SameReuse(rows, before.rows, customer, w, value(w), now);
      forall i | 0 <= i < n ensures StoredAs(rows, c, customer, windows[i], value(windows[i]), now, i) {
        assert windows[..n][i] == windows[i] && windows[i] != w;
        assert StoredAs(rows, before, customer, windows[i], value(windows[i]), now, i);
        assert Untouched(before.rows, s.rows, customer, windows[i], now);
      }
      forall v | v !in windows ensures Untouched(rows, c.rows, customer, v, now) {
        assert v !in windows[..n] && v != w;
        assert Untouched(rows, before.rows, customer, v, now) && Untouched(before.rows, s.rows, customer, v, now);
      }
    }
  }

  ghost predicate Untouched(a: seq<Row>, b: seq<Row>, customer: nat, w: Window, now: int) {
    && AsOfForSubPeriod(b, customer, w, AsPublished(now)) == AsOfForSubPeriod(a, customer, w, AsPublished(now))
    && LatestForSubPeriod(b, customer, w) == LatestForSubPeriod(a, customer, w)
  }

  /** The i-th sub-period has the computed figures, and is read at once exactly if the row to be reused is visible. */
  ghost predicate StoredAs(rows: seq<Row>, c: Computed, customer: nat, w: Window, figures: Figures, now: int, i: nat)
    requires i < |c.subPeriods|
  {
    && c.subPeriods[i].figures == figures
    && (AsOfForSubPeriod(c.rows, customer, w, AsPublished(now)) == Some(c.subPeriods[i]) <==> ReusedVisible(rows, customer, w, figures, now))
  }

  lemma LastIsNew(windows: seq<Window>)
    requires Distinct(windows) && windows != []
    ensures windows[|windows| - 1] !in windows[..|windows| - 1]
  {
  }

  lemma SameReuse(a: seq<Row>, b: seq<Row>, customer: nat, w: Window, figures: Figures, now: int)
    requires LatestForSubPeriod(b, customer, w) == LatestForSubPeriod(a, customer, w)
    ensures ReusedVisible(b, customer, w, figures, now) <==> ReusedVisible(a, customer, w, figures, now)
  {
    hide LatestForSubPeriod;
  }

  /** Every row that computing the period would reuse is visible at the transaction's clock. */
  ghost predicate AllVisible(rows: seq<Row>, customer: nat, windows: seq<Window>, value: Window -> Figures, now: int) {
    forall i :: 0 <= i < |windows| ==> ReusedVisible(rows, customer, windows[i], value(windows[i]), now)
  }

  /**
   What computing a period reuses or stores is what deriving it at that watermark reads, if and only
   if no reused row was recorded later than the watermark.
   */
  lemma ComputeThenDeriveIff(rows: seq<Row>, customer: nat, windows: seq<Window>, value: Window -> Figures, now: int)
    requires UniqueRows(rows) && Distinct(windows) && Compute(rows, customer, windows, value, now).Done?
    ensures var c := Compute(rows, customer, windows, value, now).value;
            && UniqueRows(c.rows) && |c.subPeriods| == |windows|
            && (forall i :: 0 <= i < |windows| ==> c.subPeriods[i].figures == value(windows[i]))
            && (Derive(c.rows, customer, windows, AsPublished(now)) == Done(c.subPeriods) <==> AllVisible(rows, customer, windows, value, now))
  {
    hide Compute, Derive, UniqueRows, Distinct, ReusedVisible, AsOfForSubPeriod, LatestForSubPeriod;
    ComputeIs(rows, customer, windows, value, now);
    var c := Compute(rows, customer, windows, value, now).value;
    DeriveIs(c.rows, customer, windows, AsPublished(now), c.subPeriods);
    forall i | 0 <= i < |windows| ensures StoredAs(rows, c, customer, windows[i], value(windows[i]), now, i) {}
  }

  /** The windows whose figures differ from the newest stored ones, each as a new row. */
  ghost function Changed(rows: seq<Row>, customer: nat, windows: seq<Window>, value: Window -> Figures, now: int): seq<Row>
    decreases |windows|
  {
    if windows == [] then []
    else
      var n := |windows| - 1;
      var w, e := windows[n], LatestForSubPeriod(rows, customer, windows[n]);
      Changed(rows, customer, windows[..n], value, now)
      + if e.Some? && e.value.figures == value(w) then [] else [Row(customer, w, now, value(w))]
  }

  /** Computing a period appends one row for every window whose figures have changed, in order, and nothing else. */
  lemma {:induction false} ComputeAppends(rows: seq<Row>, customer: nat, windows: seq<Window>, value: Window -> Figures, now: int)
    requires UniqueRows(rows) && Distinct(windows) && Compute(rows, customer, windows, value, now).Done?
    ensures Compute(rows, customer, windows, value, now).value.rows == rows + Changed(rows, customer, windows, value, now)
    decreases |windows|
  {
    hide LatestForSubPeriod, UniqueRows, AsOfForSubPeriod;
    if windows != [] {
      var n := |windows| - 1;
      ComputeAppends(rows, customer, windows[..n], value, now);
      ComputeIs(rows, customer, windows[..n], value, now);
      LastIsNew(windows);
      assert Untouched(rows, Compute(rows, customer, windows[..n], value, now).value.rows, customer, windows[n], now);
    }
  }

  lemma WindowsDistinct(b: seq<int>)
    requires Ascending(b)
    ensures Distinct(Windows(b))
  {
  }

  /** Rows the customer gets later are recorded beyond the watermark; other customers' may be anything. */
  ghost predicate RecordedLater(later: seq<Row>, customer: nat, watermark: int) {
    forall r :: r in later && r.customer == customer ==> r.recordedAt > watermark
  }

  lemma LaterRowsDoNotMatter(rows: seq<Row>, later: seq<Row>, customer: nat, windows: seq<Window>, asOf: Watermark, v: seq<Row>)
    requires UniqueRows(rows + later) && RecordedLater(later, customer, asOf.cutoff)
    ensures Derive(rows + later, customer, windows, asOf) == Done(v) <==> Derive(rows, customer, windows, asOf) == Done(v)
  {
    hide AsOfForSubPeriod, Derive;
    forall i | 0 <= i < |windows|
      ensures AsOfForSubPeriod(rows + later, customer, windows[i], asOf) == AsOfForSubPeriod(rows, customer, windows[i], asOf)
    {
      OtherRowsDoNotMatter(rows, later, customer, windows[i], asOf);
    }
    DeriveIs(rows, customer, windows, asOf, v);
    DeriveIs(rows + later, customer, windows, asOf, v);
  }

  lemma EndsAreBoundaries(flows: seq<int>, start: int, end: int)
    requires start < end
    ensures var b := Boundaries(flows, start, end); |b| >= 2 && b[0] == start && b[|b| - 1] == end
  {
    var b := Boundaries(flows, start, end);
    assert start in b && end in b;
    assert b[0] in b && b[|b| - 1] in b;
  }

  /**
   A snapshot of a period carries the linked return of one stored row for each of its windows, in
   order, with the computed figures, and the value at the end of the period as its balance.
   */
  lemma PublishIs(rows: seq<Row>, flows: seq<int>, customer: nat, start: int, end: int, value: Window -> Figures, link: Link, now: int)
    returns (subPeriods: seq<Row>)
    requires UniqueRows(rows) && start < end && Publish(rows, flows, customer, start, end, value, link, now).Done?
    ensures var p, windows := Publish(rows, flows, customer, start, end, value, link, now).value, Windows(Boundaries(flows, start, end));
            && |subPeriods| == |windows| > 0 && windows[0].start == start && windows[|windows| - 1].end == end
            && (forall i :: 0 <= i < |windows| ==> subPeriods[i].figures == value(windows[i]))
            && p.rows == rows + Changed(rows, customer, windows, value, now)
            && p.snapshot == Snapshot(customer, start, end, now, link(subPeriods), value(windows[|windows| - 1]).valueEnd)
  {
    hide Compute, Derive, Boundaries, UniqueRows, AllVisible, Changed;
    var windows := Windows(Boundaries(flows, start, end));
    EndsAreBoundaries(flows, start, end);
    WindowsDistinct(Boundaries(flows, start, end));
    ComputeThenDeriveIff(rows, customer, windows, value, now);
    ComputeAppends(rows, customer, windows, value, now);
    subPeriods := Compute(rows, customer, windows, value, now).value.subPeriods;
  }

  /**
   A published snapshot whose reused rows were visible is reproduced forever: after any later rows, as
   long as the customer's are recorded beyond the watermark and the external flows leave the period's
   boundaries where they were.
   */
  lemma SnapshotReproduces(rows: seq<Row>, flows: seq<int>, customer: nat, start: int, end: int, value: Window -> Figures, link: Link, now: int,
                           later: seq<Row>, laterFlows: seq<int>)
    requires UniqueRows(rows) && Publish(rows, flows, customer, start, end, value, link, now).Done?
    requires AllVisible(rows, customer, Windows(Boundaries(flows, start, end)), value, now)
    requires UniqueRows(Publish(rows, flows, customer, start, end, value, link, now).value.rows + later) && RecordedLater(later, customer, now)
    requires Boundaries(laterFlows, start, end) == Boundaries(flows, start, end)
    ensures var p := Publish(rows, flows, customer, start, end, value, link, now).value;
            CrossCheck(p.rows + later, laterFlows, link, p.snapshot) == Reproduced
  {
    hide Compute, Derive, Boundaries, AllVisible;
    var windows := Windows(Boundaries(flows, start, end));
    var c := Compute(rows, customer, windows, value, now).value;
    WindowsDistinct(Boundaries(flows, start, end));
    ComputeThenDeriveIff(rows, customer, windows, value, now);
    LaterRowsDoNotMatter(c.rows, later, customer, windows, AsPublished(now), c.subPeriods);
  }

  /** These are the newest rows of the windows at a watermark. */
  ghost predicate ReadAt(rows: seq<Row>, customer: nat, windows: seq<Window>, watermark: int, v: seq<Row>) {
    |v| == |windows| && forall i :: 0 <= i < |v| ==> AsOfForSubPeriod(rows, customer, windows[i], AsPublished(watermark)) == Some(v[i])
  }

  /**
   The cross-check of a period passes if and only if every window has a row at the watermark, these rows
   link to the published return, and the last of them ends with the published balance; a difference in
   either figure is found.
   */
  lemma CrossCheckIff(rows: seq<Row>, flows: seq<int>, link: Link, s: Snapshot)
    requires s.start < s.end
    ensures var windows := Windows(Boundaries(flows, s.start, s.end)); var r := CrossCheck(rows, flows, link, s);
            && (r == Reproduced
                <==> exists v: seq<Row> :: v != [] && ReadAt(rows, s.customer, windows, s.watermark, v)
                                           && link(v) == s.twr && v[|v| - 1].figures.valueEnd == s.balance)
            && (r == CrossCheckFailed
                <==> exists v: seq<Row> :: v != [] && ReadAt(rows, s.customer, windows, s.watermark, v)
                                           && (link(v) != s.twr || v[|v| - 1].figures.valueEnd != s.balance))
  {
    hide Derive, Boundaries, AsOfForSubPeriod;
    var windows := Windows(Boundaries(flows, s.start, s.end));
    EndsAreBoundaries(flows, s.start, s.end);
    forall v ensures Derive(rows, s.customer, windows, AsPublished(s.watermark)) == Done(v) <==> ReadAt(rows, s.customer, windows, s.watermark, v) {
      DeriveIs(rows, s.customer, windows, AsPublished(s.watermark), v);
    }
    var d := Derive(rows, s.customer, windows, AsPublished(s.watermark));
    if d.Done? {
      assert ReadAt(rows, s.customer, windows, s.watermark, d.value);
      forall v | ReadAt(rows, s.customer, windows, s.watermark, v) ensures v == d.value {}
    }
  }
}
