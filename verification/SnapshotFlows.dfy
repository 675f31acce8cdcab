/**
 External flows recorded after a snapshot was published: they move the boundaries that the
 cross-check derives over.
 */
module SnapshotFlows {
  import opened Wrappers
  import opened Attempts
  import opened SubPeriodReturns
  import opened Snapshots

  // ---------------------------------------------------------------- when nothing can be derived

  lemma {:induction false} DeriveFailsIff(rows: seq<Row>, customer: nat, windows: seq<Window>, asOf: Watermark)
    ensures Derive(rows, customer, windows, asOf).Failed?
            <==> exists i :: 0 <= i < |windows| && AsOfForSubPeriod(rows, customer, windows[i], asOf).None?
    decreases |windows|
  {
    hide AsOfForSubPeriod;
    if windows != [] {
      var n := |windows| - 1;
      DeriveFailsIff(rows, customer, windows[..n], asOf);
      forall i | 0 <= i < n ensures windows[..n][i] == windows[i] {}
    }
  }

  /** No row of the window was visible at the snapshot's watermark. */
  ghost predicate NothingStored(rows: seq<Row>, s: Snapshot, w: Window) {
    forall r :: r in rows ==> !InWindow(r, s.customer, w, s.watermark)
  }

  /**
   The check cannot derive anything exactly when a window between today's boundaries had no row at
   the watermark.
   */
  lemma DerivationFailsIff(rows: seq<Row>, flows: seq<int>, link: Link, s: Snapshot)
    ensures CrossCheck(rows, flows, link, s).DerivationFailed?
            <==> exists w :: w in Windows(Boundaries(flows, s.start, s.end)) && NothingStored(rows, s, w)
  {
    hide AsOfForSubPeriod, Boundaries;
    var windows := Windows(Boundaries(flows, s.start, s.end));
    DeriveFailsIff(rows, s.customer, windows, AsPublished(s.watermark));
    if CrossCheck(rows, flows, link, s).DerivationFailed? {
      var i :| 0 <= i < |windows| && AsOfForSubPeriod(rows, s.customer, windows[i], AsPublished(s.watermark)).None?;
      assert NothingStored(rows, s, windows[i]);
    }
    if w :| w in windows && NothingStored(rows, s, w) {
      var i :| 0 <= i < |windows| && windows[i] == w;
      assert AsOfForSubPeriod(rows, s.customer, windows[i], AsPublished(s.watermark)).None?;
    }
  }

  /**
   A deposit recorded later for a date inside a published period breaks its cross-check: the new
   boundary starts a window for which nothing was stored at the watermark.
   */
  lemma LateFlowBreaksCrossCheck(rows: seq<Row>, flows: seq<int>, link: Link, s: Snapshot, d: int)
    requires s.start < d < s.end
    requires forall r :: r in rows && r.customer == s.customer && r.recordedAt <= s.watermark ==> r.window.start != d
    ensures CrossCheck(rows, [d] + flows, link, s).DerivationFailed?
  {
    hide Boundaries, CrossCheck;
    var b := Boundaries([d] + flows, s.start, s.end);
    assert d in [d] + flows && d in b && s.end in b;
    var i :| 0 <= i < |b| && b[i] == d;
    var j :| 0 <= j < |b| && b[j] == s.end;
    assert i < j;
    var w := Windows(b)[i];
    assert w.start == d && w in Windows(b) && NothingStored(rows, s, w);
    DerivationFailsIff(rows, [d] + flows, link, s);
  }

  // ---------------------------------------------------------------- one more flow

  /** The gap between two boundaries that a date falls into. */
  lemma GapOf(b: seq<int>, d: int) returns (i: nat)
    requires Ascending(b) && b != [] && b[0] < d < b[|b| - 1] && d !in b
    ensures i + 1 < |b| && b[i] < d < b[i + 1]
  {
    i := 0;
    while b[i + 1] < d
      invariant i + 1 < |b| && b[i] < d
      decreases |b| - i
    {
      i := i + 1;
      assert i + 1 < |b|;
    }
    assert b[i + 1] in b;
  }

  lemma {:induction false} InsertDateAt(b: seq<int>, d: int, i: nat)
    requires Ascending(b) && i + 1 < |b| && b[i] < d < b[i + 1]
    ensures InsertDate(b, d) == b[..i + 1] + [d] + b[i + 1..]
    decreases i
  {
    if i == 0 {
      assert b == [b[0]] + b[1..];
    } else {
      assert b[0] < b[i];
      InsertDateAt(b[1..], d, i - 1);
      assert b[1..][..i] == b[1..i + 1] && b[1..][i..] == b[i + 1..];
      assert [b[0]] + b[1..i + 1] == b[..i + 1];
    }
  }

  /** The window of the gap is split in two, the others stay. */
  lemma WindowsSplit(b: seq<int>, d: int, i: nat)
    requires i + 1 < |b|
    ensures Windows(b[..i + 1] + [d] + b[i + 1..])
         == Windows(b)[..i] + [Window(b[i], d), Window(d, b[i + 1])] + Windows(b)[i + 1..]
  {
    hide Windows;
    var s, w := b[..i + 1] + [d] + b[i + 1..], Windows(b);
    var left, right := Windows(s), w[..i] + [Window(b[i], d), Window(d, b[i + 1])] + w[i + 1..];
    assert |left| == |right|;
    forall k | 0 <= k < |left| ensures left[k] == right[k] {
      assert left[k] == Window(s[k], s[k + 1]);
      if k < i {
        assert right[k] == w[k];
      } else if k > i + 1 {
        assert right[k] == w[k - 1] == Window(b[k - 1], b[k]);
      }
    }
  }

  lemma OneMoreBoundary(flows: seq<int>, start: int, end: int, d: int) returns (i: nat)
    requires start < d < end && d !in flows
    ensures var b := Boundaries(flows, start, end);
            && i + 1 < |b| && b[i] < d < b[i + 1]
            && Boundaries([d] + flows, start, end) == b[..i + 1] + [d] + b[i + 1..]
  {
    var b := Boundaries(flows, start, end);
    assert ([d] + flows)[1..] == flows;
    assert start in b && end in b && d !in b;
    AscendingEnds(b, start);
    AscendingEnds(b, end);
    i := GapOf(b, d);
    InsertDateAt(b, d, i);
  }

  lemma AscendingEnds(b: seq<int>, x: int)
    requires Ascending(b) && x in b
    ensures b[0] <= x <= b[|b| - 1]
  {
  }

  /** The published sub-periods with one of them replaced by two rows. */
  function Relinked(subPeriods: seq<Row>, i: nat, first: Row, second: Row): seq<Row>
    requires i < |subPeriods|
  {
    subPeriods[..i] + [first, second] + subPeriods[i + 1..]
  }

  /** Deriving over the split windows: the same reads, and one for each half. */
  lemma DeriveSplit(rows: seq<Row>, customer: nat, windows: seq<Window>, asOf: Watermark, subPeriods: seq<Row>, i: nat, u: Window, v: Window)
    requires Derive(rows, customer, windows, asOf) == Done(subPeriods) && i < |windows|
    ensures |subPeriods| == |windows|
    ensures var first, second := AsOfForSubPeriod(rows, customer, u, asOf), AsOfForSubPeriod(rows, customer, v, asOf);
            var d := Derive(rows, customer, windows[..i] + [u, v] + windows[i + 1..], asOf);
            && (d.Done? <==> first.Some? && second.Some?)
            && (d.Done? ==> d.value == Relinked(subPeriods, i, first.value, second.value))
  {
    hide Derive, AsOfForSubPeriod;
    DeriveIs(rows, customer, windows, asOf, subPeriods);
    var split := windows[..i] + [u, v] + windows[i + 1..];
    var first, second := AsOfForSubPeriod(rows, customer, u, asOf), AsOfForSubPeriod(rows, customer, v, asOf);
    if first.Some? && second.Some? {
      DeriveIs(rows, customer, split, asOf, Relinked(subPeriods, i, first.value, second.value));
    } else {
      DeriveFailsIff(rows, customer, split, asOf);
      assert split[i] == u && split[i + 1] == v;
    }
  }

  /** A new boundary changes what is linked, in the i-th sub-period, to the rows of its two halves. */
  ghost predicate HalvesLinkTheSame(p: Published, rows: seq<Row>, subPeriods: seq<Row>, i: nat, first: Window, second: Window, link: Link)
    requires i < |subPeriods|
  {
    var asOf := AsPublished(p.snapshot.watermark);
    var a, b := AsOfForSubPeriod(rows, p.snapshot.customer, first, asOf), AsOfForSubPeriod(rows, p.snapshot.customer, second, asOf);
    && a.Some? && b.Some?
    && link(Relinked(subPeriods, i, a.value, b.value)) == p.snapshot.twr
    && Balance(Relinked(subPeriods, i, a.value, b.value)) == p.snapshot.balance
  }

  /**
   One more flow on any date, after publication: the snapshot still reproduces if and only if the date
   is outside the period, or had a flow before, or both halves of the window it splits were stored by
   the watermark and link to the published return and balance.
   */
  lemma OneMoreFlowIff(rows: seq<Row>, flows: seq<int>, customer: nat, start: int, end: int, value: Window -> Figures, link: Link, now: int,
                       later: seq<Row>, d: int) returns (i: nat)
    requires UniqueRows(rows) && Publish(rows, flows, customer, start, end, value, link, now).Done?
    requires AllVisible(rows, customer, Windows(Boundaries(flows, start, end)), value, now)
    requires UniqueRows(Publish(rows, flows, customer, start, end, value, link, now).value.rows + later) && RecordedLater(later, customer, now)
    ensures start < d < end && d !in flows ==>
              var b, c := Boundaries(flows, start, end), Compute(rows, customer, Windows(Boundaries(flows, start, end)), value, now);
              i + 1 < |b| && b[i] < d < b[i + 1] && c.Done? && i < |c.value.subPeriods|
    ensures var p := Publish(rows, flows, customer, start, end, value, link, now).value;
            var b, c := Boundaries(flows, start, end), Compute(rows, customer, Windows(Boundaries(flows, start, end)), value, now).value;
            CrossCheck(p.rows + later, [d] + flows, link, p.snapshot) == Reproduced
            <==> !(start < d < end) || d in flows
                 || HalvesLinkTheSame(p, p.rows + later, c.subPeriods, i, Window(b[i], d), Window(d, b[i + 1]), link)
  {
    hide Compute, Derive, Boundaries, UniqueRows, AllVisible, AsOfForSubPeriod;
    i := 0;
    FlowKeepsBoundariesIff(flows, start, end, d);
    if !(start < d < end) || d in flows {
      SnapshotReproduces(rows, flows, customer, start, end, value, link, now, later, [d] + flows);
    } else {
      var b := Boundaries(flows, start, end);
      var windows := Windows(b);
      var p := Publish(rows, flows, customer, start, end, value, link, now).value;
      var c := Compute(rows, customer, windows, value, now).value;
      i := OneMoreBoundary(flows, start, end, d);
      WindowsSplit(b, d, i);
      WindowsDistinct(b);
      ComputeThenDeriveIff(rows, customer, windows, value, now);
      LaterRowsDoNotMatter(p.rows, later, customer, windows, AsPublished(now), c.subPeriods);
      DeriveSplit(p.rows + later, customer, windows, AsPublished(now), c.subPeriods, i, Window(b[i], d), Window(d, b[i + 1]));
    }
  }
}
