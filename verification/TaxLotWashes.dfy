/** What accepted fills leave behind in full: the consumed or opened lot, and each disallowed loss carried into one lot. */
module TaxLotWashes {
  import opened Attempts
  import opened FixedPoint
  import opened TaxLots
  import opened TaxLotDraws
  import opened TaxLotBook
  import opened TaxLotBasis

  /** What some adjustments add to the basis of a lot. */
  ghost function AddedTo(more: seq<Adjustment>, i: nat): int {
    if more == [] then 0 else (if more[0].replacement == i then more[0].disallowed else 0) + AddedTo(more[1..], i)
  }

  /** The loss is disallowed up to the original basis of its replacement, and lowered by that. */
  ghost predicate Disallowed(b: Book, c: Book, a: Adjustment) {
    && a.sale < |b.sales| == |c.sales| && a.replacement < |b.lots|
    && !IsAdjusted(b, a.sale)
    && a.disallowed == Min(Abs(b.sales[a.sale].realized), b.lots[a.replacement].original)
    && c.sales[a.sale] == b.sales[a.sale].(realized := b.sales[a.sale].realized + a.disallowed)
  }

  ghost function WashEntries(lots: seq<Lot>, more: seq<Adjustment>): seq<Entry> {
    if more == [] then []
    else
      var date := if more[0].replacement < |lots| then lots[more[0].replacement].acquired else 0;
      [Entry(WashSale, date, 0, more[0].disallowed, 0, -more[0].disallowed)] + WashEntries(lots, more[1..])
  }

  /** From one book to another nothing has changed but for these adjustments, each recorded, posted and applied once. */
  ghost predicate Carries(b: Book, c: Book, more: seq<Adjustment>) {
    && c.adjustments == b.adjustments + more && c.ledger == b.ledger + WashEntries(b.lots, more)
    && |c.lots| == |b.lots| && |c.sales| == |b.sales|
    && (forall i :: 0 <= i < |b.lots| ==> c.lots[i] == b.lots[i].(adjusted := b.lots[i].adjusted + AddedTo(more, i)))
    && (forall j :: 0 <= j < |more| ==> Disallowed(b, c, more[j]))
    && (forall i, j :: 0 <= i < j < |more| ==> more[i].sale != more[j].sale)
    && (forall k :: 0 <= k < |b.sales| && NotAmong(more, k) ==> c.sales[k] == b.sales[k])
  }

  ghost predicate NotAmong(more: seq<Adjustment>, k: nat) {
    forall j :: 0 <= j < |more| ==> more[j].sale != k
  }

  // ---------------------------------------------------------------- one after the other

  lemma NothingCarries(b: Book)
    ensures Carries(b, b, [])
  {
  }

  /** Later adjustments leave a sale alone that is adjusted. */
  lemma LaterAreOthers(b: Book, k: nat, r: nat, d: Book, more: seq<Adjustment>)
    requires k < |b.sales| && r < |b.lots| && Carries(Adjusting(b, k, r), d, more)
    ensures NotAmong(more, k)
  {
    hide IsAdjusted;
    AdjustedAfter(b, k, r, k);
    forall j | 0 <= j < |more| ensures more[j].sale != k { assert Disallowed(Adjusting(b, k, r), d, more[j]); }
  }

  lemma DisallowedThen(b: Book, k: nat, r: nat, d: Book, more: seq<Adjustment>, j: nat)
    requires k < |b.sales| && r < |b.lots| && Carries(Adjusting(b, k, r), d, more) && j < |more| && NotAmong(more, k)
    ensures Disallowed(b, d, more[j])
  {
    hide IsAdjusted;
    assert Disallowed(Adjusting(b, k, r), d, more[j]);
    AdjustedAfter(b, k, r, more[j].sale);
  }

  /** The tables after an adjustment followed by others. */
  lemma TablesThen(b: Book, k: nat, r: nat, d: Book, a: Adjustment, more: seq<Adjustment>, all: seq<Adjustment>)
    requires k < |b.sales| && r < |b.lots| && Carries(Adjusting(b, k, r), d, more)
    requires a == Adjustment(k, r, Min(Abs(b.sales[k].realized), b.lots[r].original)) && all == [a] + more
    ensures d.adjustments == b.adjustments + all && d.ledger == b.ledger + WashEntries(b.lots, all)
    ensures |d.lots| == |b.lots| && |d.sales| == |b.sales|
    ensures forall i :: 0 <= i < |b.lots| ==> d.lots[i] == b.lots[i].(adjusted := b.lots[i].adjusted + AddedTo(all, i))
  {
    hide Disallowed, NotAmong;
    var c := Adjusting(b, k, r);
    assert all[0] == a && all[1..] == more;
    EntriesOfSameLots(b.lots, c.lots, more);
    assert b.ledger + WashEntries(b.lots, all) == c.ledger + WashEntries(c.lots, more);
    assert b.adjustments + all == c.adjustments + more;
  }

  /** An adjustment followed by others. */
  lemma CarriesThen(b: Book, k: nat, r: nat, d: Book, more: seq<Adjustment>)
    requires k < |b.sales| && r < |b.lots| && !IsAdjusted(b, k)
    requires Carries(Adjusting(b, k, r), d, more)
    ensures Carries(b, d, [Adjustment(k, r, Min(Abs(b.sales[k].realized), b.lots[r].original))] + more)
  {
    hide IsAdjusted, WashEntries, AddedTo;
    var c, a := Adjusting(b, k, r), Adjustment(k, r, Min(Abs(b.sales[k].realized), b.lots[r].original));
    var all := [a] + more;
    TablesThen(b, k, r, d, a, more, all);
    LaterAreOthers(b, k, r, d, more);
    assert d.sales[k] == c.sales[k];
    forall j | 0 <= j < |all| ensures Disallowed(b, d, all[j]) {
      if j > 0 { DisallowedThen(b, k, r, d, more, j - 1); }
    }
    forall s | 0 <= s < |b.sales| && NotAmong(all, s) ensures d.sales[s] == b.sales[s] {
      assert all[0].sale != s;
      forall j | 0 <= j < |more| ensures more[j].sale != s { assert all[j + 1] == more[j]; }
      assert NotAmong(more, s);
    }
  }

  lemma {:induction false} EntriesOfSameLots(a: seq<Lot>, b: seq<Lot>, more: seq<Adjustment>)
    requires |a| == |b| && forall i :: 0 <= i < |a| ==> a[i].acquired == b[i].acquired
    ensures WashEntries(a, more) == WashEntries(b, more)
  {
    if more != [] { EntriesOfSameLots(a, b, more[1..]); }
  }

  // ---------------------------------------------------------------- the checks after a sell

  /** The earliest acquired other lot within 30 days of the sale, by id within a day. */
  ghost predicate IsEarliest(b: Book, k: nat, r: nat) {
    Replaces(b, k, r) && forall i: nat :: Replaces(b, k, i) ==> !Earlier()(Row(i, b.lots[i]), Row(r, b.lots[r]))
  }

  lemma EarliestIsChosen(b: Book, k: nat)
    requires k < |b.sales| && Replacements(b.lots, b.sales[k]) != []
    ensures IsEarliest(b, k, Replacements(b.lots, b.sales[k])[0])
  {
    hide Replacements;
    var rs := Replacements(b.lots, b.sales[k]);
    assert rs[0] in rs;
    forall i: nat | Replaces(b, k, i) ensures !Earlier()(Row(i, b.lots[i]), Row(rs[0], b.lots[rs[0]])) {
      ReplacementIsEarliest(b.lots, b.sales[k], i);
    }
  }

  /** Which lot is the earliest is the same after an adjustment. */
  lemma SameEarliest(b: Book, k: nat, r: nat, j: nat, i: nat)
    requires k < |b.sales| && r < |b.lots| && IsEarliest(Adjusting(b, k, r), j, i)
    ensures IsEarliest(b, j, i)
  {
    var c := Adjusting(b, k, r);
    forall x: nat ensures Replaces(b, j, x) <==> Replaces(c, j, x) {}
  }

  /** Each loss of a range of sales is carried into its earliest replacement, if it has one. */
  ghost predicate CarriedToEarliest(b: Book, k: nat, n: nat, a: Adjustment) {
    k <= a.sale < n <= |b.sales| && b.sales[a.sale].realized < 0 && IsEarliest(b, a.sale, a.replacement)
  }

  lemma {:induction false} WashEachIs(b: Book, k: nat, n: nat) returns (more: seq<Adjustment>)
    requires k <= n == |b.sales| && WashEach(b, k, n).Done?
    ensures Carries(b, WashEach(b, k, n).value, more)
    ensures forall j :: 0 <= j < |more| ==> CarriedToEarliest(b, k, n, more[j])
    ensures forall s :: k <= s < n && Pending(b, s) ==> !NotAmong(more, s)
    decreases n - k
  {
    hide ApplyAdjustment, Replacements, IsAdjusted, Carries, IsEarliest, Replaces;
    if k == n {
      more := [];
      NothingCarries(b);
    } else {
      var rs, c := Replacements(b.lots, b.sales[k]), OnLossSale(b, k).value;
      PendingIff(b, k);
      more := WashEachIs(c, k + 1, n);
      if Pending(b, k) {
        var r, after := rs[0], more;
        EarliestIsChosen(b, k);
        assert r in rs;
        ApplyIs(b, k, r);
        CarriesThen(b, k, r, WashEach(b, k, n).value, after);
        more := [Adjustment(k, r, Min(Abs(b.sales[k].realized), b.lots[r].original))] + after;
        forall j | 0 <= j < |more| ensures CarriedToEarliest(b, k, n, more[j]) {
          if j > 0 {
            assert more[j] == after[j - 1] && CarriedToEarliest(c, k + 1, n, after[j - 1]);
            SameEarliest(b, k, r, more[j].sale, more[j].replacement);
          }
        }
        forall s | k <= s < n && Pending(b, s) ensures !NotAmong(more, s) {
          if s == k {
            assert more[0].sale == k;
          } else {
            StillPending(b, k, r, s);
            var j :| 0 <= j < |after| && after[j].sale == s;
            assert more[j + 1].sale == s;
          }
        }
      } else {
        forall j | 0 <= j < |more| ensures CarriedToEarliest(b, k, n, more[j]) { assert CarriedToEarliest(c, k + 1, n, more[j]); }
      }
    }
  }

  lemma PendingIff(b: Book, k: nat)
    requires k < |b.sales|
    ensures Pending(b, k) <==> b.sales[k].realized < 0 && !IsAdjusted(b, k) && Replacements(b.lots, b.sales[k]) != []
  {
    hide IsAdjusted, Replacements;
    var rs := Replacements(b.lots, b.sales[k]);
    if rs != [] { assert rs[0] in rs && Replaces(b, k, rs[0]); }
    if i: nat :| Replaces(b, k, i) { assert i in rs; }
  }

  lemma StillPending(b: Book, k: nat, r: nat, s: nat)
    requires k < |b.sales| && r < |b.lots| && s != k && Pending(b, s)
    ensures Pending(Adjusting(b, k, r), s)
  {
    hide IsAdjusted;
    AdjustedAfter(b, k, r, s);
    var i: nat :| Replaces(b, s, i);
    assert Replaces(Adjusting(b, k, r), s, i);
  }

  /**
   An accepted sell leaves the book with its draws and its posting in closed form, and then exactly one
   adjustment for each of its losses that has another lot within 30 days, into the earliest of them.
   */
  lemma SellLeaves(b: Book, f: Fill, designated: seq<nat>) returns (more: seq<Adjustment>)
    requires BasesFit(b.lots) && Sell(b, f, designated).Done?
    ensures Select(b.lots, designated).Done?
    ensures var c := SoldInFull(b, f, designated);
            && |b.sales| <= |c.sales| && Carries(c, Sell(b, f, designated).value, more)
            && (forall j :: 0 <= j < |more| ==> CarriedToEarliest(c, |b.sales|, |c.sales|, more[j]))
            && (forall s :: |b.sales| <= s < |c.sales| && Pending(c, s) ==> !NotAmong(more, s))
  {
    hide SoldInFull, Sell, WashEach, Carries, Pending, NotAmong, CarriedToEarliest;
    SellConsumes(b, f, designated);
    var c := SoldInFull(b, f, designated);
    more := WashEachIs(c, |b.sales|, |c.sales|);
  }

  // ---------------------------------------------------------------- the losses a buy takes up

  /** A loss of the list, of another lot. */
  ghost predicate CarriedInto(b: Book, candidates: seq<nat>, lot: nat, a: Adjustment) {
    a.replacement == lot && a.sale in candidates && a.sale < |b.sales| && b.sales[a.sale].lot != lot
  }

  lemma {:induction false} CarryIntoIs(b: Book, candidates: seq<nat>, lot: nat) returns (more: seq<Adjustment>)
    requires lot < |b.lots| && (forall k :: k in candidates ==> k < |b.sales|) && CarryInto(b, candidates, lot).Done?
    ensures Carries(b, CarryInto(b, candidates, lot).value, more)
    ensures forall j :: 0 <= j < |more| ==> CarriedInto(b, candidates, lot, more[j])
    ensures forall s :: s in candidates && b.sales[s].lot != lot && !IsAdjusted(b, s) ==> !NotAmong(more, s)
    decreases |candidates|
  {
    hide ApplyAdjustment, IsAdjusted, Carries;
    if candidates == [] {
      more := [];
      NothingCarries(b);
    } else {
      var k := candidates[0];
      assert k in candidates && forall j :: j in candidates <==> j == k || j in candidates[1..];
      if b.sales[k].lot == lot {
        more := CarryIntoIs(b, candidates[1..], lot);
      } else {
        ApplyIs(b, k, lot);
        var after := CarryIntoIs(ApplyAdjustment(b, k, lot).value, candidates[1..], lot);
        more := after;
        if !IsAdjusted(b, k) {
          CarriesThen(b, k, lot, CarryInto(b, candidates, lot).value, after);
          more := [Adjustment(k, lot, Min(Abs(b.sales[k].realized), b.lots[lot].original))] + after;
          CarriedFirst(b, candidates, lot, k, after, more);
        }
      }
    }
  }

  lemma CarriedFirst(b: Book, candidates: seq<nat>, lot: nat, k: nat, after: seq<Adjustment>, more: seq<Adjustment>)
    requires lot < |b.lots| && k < |b.sales| && b.sales[k].lot != lot && candidates != [] && candidates[0] == k
    requires forall s :: s in candidates ==> s < |b.sales|
    requires |more| > 0 && more[0].sale == k && more[0].replacement == lot && more == [more[0]] + after
    requires var c := Adjusting(b, k, lot);
             && (forall j :: 0 <= j < |after| ==> CarriedInto(c, candidates[1..], lot, after[j]))
             && (forall s :: s in candidates[1..] && s < |c.sales| && c.sales[s].lot != lot && !IsAdjusted(c, s) ==> !NotAmong(after, s))
    ensures forall j :: 0 <= j < |more| ==> CarriedInto(b, candidates, lot, more[j])
    ensures forall s :: s in candidates && b.sales[s].lot != lot && !IsAdjusted(b, s) ==> !NotAmong(more, s)
  {
    hide IsAdjusted;
    var c := Adjusting(b, k, lot);
    assert forall j :: j in candidates <==> j == k || j in candidates[1..];
    forall j | 0 <= j < |more| ensures CarriedInto(b, candidates, lot, more[j]) {
      if j > 0 { assert more[j] == after[j - 1] && CarriedInto(c, candidates[1..], lot, after[j - 1]); }
    }
    forall s | s in candidates && b.sales[s].lot != lot && !IsAdjusted(b, s) ensures !NotAmong(more, s) {
      if s == k {
        assert more[0].sale == k;
      } else {
        AdjustedAfter(b, k, lot, s);
        var j :| 0 <= j < |after| && after[j].sale == s;
        assert more[j + 1].sale == s;
      }
    }
  }

  /**
   An accepted buy leaves the book with the new lot at its rounded cost, and then exactly one adjustment
   into it for each loss within 30 days that was not adjusted before.
   */
  lemma BuyLeaves(b: Book, f: Fill, id: nat, w: int) returns (more: seq<Adjustment>)
    requires Sound(b) && Buy(b, f, id, w).Done?
    ensures var c := Opened(b, f, id, w);
            && Carries(c, Buy(b, f, id, w).value, more)
            && (forall j :: 0 <= j < |more| ==>
                  && more[j].replacement == |b.lots| && more[j].sale < |b.sales|
                  && b.sales[more[j].sale].realized < 0 && InWindow(b.sales[more[j].sale].date, f.date))
            && (forall s :: 0 <= s < |b.sales| && b.sales[s].realized < 0 && InWindow(b.sales[s].date, f.date) && !IsAdjusted(b, s) ==>
                  !NotAmong(more, s))
  {
    hide Buy, CarryInto, Carries, IsAdjusted, InWindow, Losses;
    BuyAcceptedIff(b, f, id, w);
    var c := Opened(b, f, id, w);
    assert forall s :: IsAdjusted(c, s) <==> IsAdjusted(b, s) by { SameAdjusted(b, c); }
    more := CarryIntoIs(c, Losses(c, f.date, 0), |b.lots|);
    forall j | 0 <= j < |more|
      ensures more[j].replacement == |b.lots| && more[j].sale < |b.sales|
      ensures b.sales[more[j].sale].realized < 0 && InWindow(b.sales[more[j].sale].date, f.date)
    {
      assert CarriedInto(c, Losses(c, f.date, 0), |b.lots|, more[j]);
    }
  }

  lemma SameAdjusted(b: Book, c: Book)
    requires c.adjustments == b.adjustments
    ensures forall s :: IsAdjusted(c, s) <==> IsAdjusted(b, s)
  {
  }
}
