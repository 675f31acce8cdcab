/**
 Every run of buy fills, sell fills and splits over a position: the journal agrees with the lots and
 the realized gains, every entry balances, and no wash sale is missed or counted twice.
 */
module TaxLotBook {
  import opened Attempts
  import opened Sums
  import opened Rounding
  import opened FixedPoint
  import opened TaxLots
  import opened TaxLotDraws
  import opened TaxLotSales

  // ---------------------------------------------------------------- the journal against the lots

  ghost function UnitLegs(ledger: seq<Entry>): (r: seq<int>)
    ensures |r| == |ledger| && forall i :: 0 <= i < |r| ==> r[i] == ledger[i].units
  {
    seq(|ledger|, i requires 0 <= i < |ledger| => ledger[i].units)
  }

  ghost function CostLegs(ledger: seq<Entry>): (r: seq<int>)
    ensures |r| == |ledger| && forall i :: 0 <= i < |r| ==> r[i] == ledger[i].cost
  {
    seq(|ledger|, i requires 0 <= i < |ledger| => ledger[i].cost)
  }

  ghost function CashLegs(ledger: seq<Entry>): (r: seq<int>)
    ensures |r| == |ledger| && forall i :: 0 <= i < |r| ==> r[i] == ledger[i].cash
  {
    seq(|ledger|, i requires 0 <= i < |ledger| => ledger[i].cash)
  }

  ghost function RealizedLegs(ledger: seq<Entry>): (r: seq<int>)
    ensures |r| == |ledger| && forall i :: 0 <= i < |r| ==> r[i] == ledger[i].realized
  {
    seq(|ledger|, i requires 0 <= i < |ledger| => ledger[i].realized)
  }

  /** The position account against the units left in the lots. */
  ghost function UnitsGap(b: Book): int {
    Sum(UnitLegs(b.ledger)) - Sum(Remaining(b.lots))
  }

  /** The cost account against the adjusted bases of the lots. */
  ghost function CostGap(b: Book): int {
    Sum(CostLegs(b.ledger)) - Sum(Bases(b.lots))
  }

  /** The gain account, a credit balance, against the gains of the consumptions. */
  ghost function GainGap(b: Book): int {
    Sum(RealizedLegs(b.ledger)) + Sum(Gains(b.sales))
  }

  ghost predicate Balanced(ledger: seq<Entry>) {
    forall i :: 0 <= i < |ledger| ==> ledger[i].cost + ledger[i].cash + ledger[i].realized == 0
  }

  lemma LedgerAppend(ledger: seq<Entry>, e: Entry)
    ensures Sum(UnitLegs(ledger + [e])) == Sum(UnitLegs(ledger)) + e.units
    ensures Sum(CostLegs(ledger + [e])) == Sum(CostLegs(ledger)) + e.cost
    ensures Sum(CashLegs(ledger + [e])) == Sum(CashLegs(ledger)) + e.cash
    ensures Sum(RealizedLegs(ledger + [e])) == Sum(RealizedLegs(ledger)) + e.realized
  {
    hide Sum;
    SumAppend(UnitLegs(ledger), e.units);
    SumAppend(CostLegs(ledger), e.cost);
    SumAppend(CashLegs(ledger), e.cash);
    SumAppend(RealizedLegs(ledger), e.realized);
    assert UnitLegs(ledger + [e]) == UnitLegs(ledger) + [e.units];
    assert CostLegs(ledger + [e]) == CostLegs(ledger) + [e.cost];
    assert CashLegs(ledger + [e]) == CashLegs(ledger) + [e.cash];
    assert RealizedLegs(ledger + [e]) == RealizedLegs(ledger) + [e.realized];
  }

  /** Every dollar is accounted for: trading cash is realized gains less the basis still held. */
  lemma {:induction false} CashIsGainsLessBasis(ledger: seq<Entry>)
    requires Balanced(ledger)
    ensures Sum(CashLegs(ledger)) == -Sum(CostLegs(ledger)) - Sum(RealizedLegs(ledger))
    decreases |ledger|
  {
    if ledger != [] {
      var n := |ledger| - 1;
      CashIsGainsLessBasis(ledger[..n]);
      assert ledger == ledger[..n] + [ledger[n]];
      LedgerAppend(ledger[..n], ledger[n]);
    }
  }

  // ---------------------------------------------------------------- wash sales

  ghost predicate Replaces(b: Book, k: nat, i: nat) {
    k < |b.sales| && i < |b.lots| && i != b.sales[k].lot && InWindow(b.lots[i].acquired, b.sales[k].date)
  }

  /** A loss with a replacement within 30 days that has not been disallowed. */
  ghost predicate Pending(b: Book, k: nat) {
    k < |b.sales| && b.sales[k].realized < 0 && !IsAdjusted(b, k) && exists i: nat :: Replaces(b, k, i)
  }

  ghost predicate WashComplete(b: Book) {
    forall k: nat :: !Pending(b, k)
  }

  ghost predicate AdjustedOnce(b: Book) {
    && (forall i :: 0 <= i < |b.adjustments| ==> b.adjustments[i].sale < |b.sales|)
    && forall i, j :: 0 <= i < j < |b.adjustments| ==> b.adjustments[i].sale != b.adjustments[j].sale
  }

  ghost predicate Sound(b: Book) {
    && NonNegative(b.lots)
    && (forall k :: 0 <= k < |b.sales| ==> b.sales[k].lot < |b.lots|)
    && (forall i, j :: 0 <= i < j < |b.lots| ==> b.lots[i].id != b.lots[j].id && b.lots[i].execution != b.lots[j].execution)
  }

  // ---------------------------------------------------------------- one adjustment

  /** Adjusting moves a loss into basis and leaves everything else as it was. */
  ghost predicate Keeps(b: Book, c: Book) {
    && SameLots(b.lots, c.lots) && Remaining(c.lots) == Remaining(b.lots)
    && |c.sales| == |b.sales|
    && (forall k :: 0 <= k < |b.sales| ==> SaleKept(b, c, k))
    && UnitsGap(c) == UnitsGap(b) && CostGap(c) == CostGap(b) && GainGap(c) == GainGap(b)
    && (Balanced(b.ledger) ==> Balanced(c.ledger))
    && (AdjustedOnce(b) ==> AdjustedOnce(c))
  }

  ghost predicate SaleKept(b: Book, c: Book, k: nat)
    requires k < |b.sales| && k < |c.sales|
  {
    && c.sales[k] == b.sales[k].(realized := c.sales[k].realized)
    && (IsAdjusted(b, k) ==> IsAdjusted(c, k))
    && (IsAdjusted(c, k) || c.sales[k] == b.sales[k])
  }

  /** What an adjustment does when it does anything. */
  ghost function Adjusting(b: Book, k: nat, r: nat): Book
    requires k < |b.sales| && r < |b.lots|
  {
    var sale, lot := b.sales[k], b.lots[r];
    var d := Min(Abs(sale.realized), lot.original);
    Book(b.lots[r := lot.(adjusted := lot.adjusted + d)], b.sales[k := sale.(realized := sale.realized + d)],
         b.adjustments + [Adjustment(k, r, d)], b.ledger + [Entry(WashSale, lot.acquired, 0, d, 0, -d)])
  }

  lemma ApplyIs(b: Book, k: nat, r: nat)
    requires k < |b.sales| && r < |b.lots| && ApplyAdjustment(b, k, r).Done?
    ensures ApplyAdjustment(b, k, r).value == if IsAdjusted(b, k) then b else Adjusting(b, k, r)
  {
    hide Add, Post;
    var sale, lot := b.sales[k], b.lots[r];
    var d := Min(Abs(sale.realized), lot.original);
    PostIs(b.ledger, Entry(WashSale, lot.acquired, 0, d, 0, -d));
    AddOk(Money, lot.adjusted, d);
    AddOk(Money, sale.realized, d);
  }

  lemma SaleUpdate(sales: seq<Sale>, k: nat, x: Sale)
    requires k < |sales|
    ensures Sum(Gains(sales[k := x])) == Sum(Gains(sales)) - sales[k].realized + x.realized
  {
    hide Sum;
    SumUpdate(Gains(sales), k, x.realized);
    assert Gains(sales[k := x]) == Gains(sales)[k := x.realized];
  }

  lemma AdjustingGaps(b: Book, k: nat, r: nat)
    requires k < |b.sales| && r < |b.lots|
    ensures var c := Adjusting(b, k, r);
            && UnitsGap(c) == UnitsGap(b) && CostGap(c) == CostGap(b) && GainGap(c) == GainGap(b)
            && Remaining(c.lots) == Remaining(b.lots) && SameLots(b.lots, c.lots)
            && (Balanced(b.ledger) ==> Balanced(c.ledger))
  {
    hide Sum;
    var c := Adjusting(b, k, r);
    LedgerAppend(b.ledger, c.ledger[|b.ledger|]);
    LotUpdate(b.lots, r, c.lots[r]);
    SaleUpdate(b.sales, k, c.sales[k]);
    assert Remaining(c.lots) == Remaining(b.lots);
  }

  lemma AdjustedAfter(b: Book, k: nat, r: nat, j: nat)
    requires k < |b.sales| && r < |b.lots|
    ensures IsAdjusted(Adjusting(b, k, r), j) <==> IsAdjusted(b, j) || j == k
  {
    var c := Adjusting(b, k, r);
    var n := |b.adjustments|;
    assert c.adjustments[n] in c.adjustments && c.adjustments[n].sale == k;
    assert forall a :: a in c.adjustments <==> a in b.adjustments || a == c.adjustments[n];
  }

  lemma ApplyKeeps(b: Book, k: nat, r: nat)
    requires k < |b.sales| && r < |b.lots| && ApplyAdjustment(b, k, r).Done?
    ensures Keeps(b, ApplyAdjustment(b, k, r).value)
    ensures IsAdjusted(ApplyAdjustment(b, k, r).value, k)
  {
    hide ApplyAdjustment, UnitsGap, CostGap, GainGap, Balanced, IsAdjusted;
    ApplyIs(b, k, r);
    if IsAdjusted(b, k) {
      KeepsItself(b);
    } else {
      var c := Adjusting(b, k, r);
      AdjustingGaps(b, k, r);
      forall j | 0 <= j < |b.sales| ensures SaleKept(b, c, j) { AdjustedAfter(b, k, r, j); }
      AdjustedAfter(b, k, r, k);
      NewAdjustment(b, k, r);
    }
  }

  lemma NewAdjustment(b: Book, k: nat, r: nat)
    requires k < |b.sales| && r < |b.lots| && !IsAdjusted(b, k)
    ensures AdjustedOnce(b) ==> AdjustedOnce(Adjusting(b, k, r))
  {
    forall i | 0 <= i < |b.adjustments| ensures b.adjustments[i].sale != k { assert b.adjustments[i] in b.adjustments; }
  }

  lemma KeepsItself(b: Book)
    ensures Keeps(b, b)
  {
  }

  lemma KeepsTwice(b: Book, c: Book, d: Book)
    requires Keeps(b, c) && Keeps(c, d)
    ensures Keeps(b, d)
  {
    hide UnitsGap, CostGap, GainGap, Balanced, AdjustedOnce, IsAdjusted, Remaining, SameLots;
    SameTwice(b.lots, c.lots, d.lots);
    forall k | 0 <= k < |b.sales| ensures SaleKept(b, d, k) { assert SaleKept(b, c, k) && SaleKept(c, d, k); }
  }

  lemma SameTwice(a: seq<Lot>, b: seq<Lot>, c: seq<Lot>)
    requires SameLots(a, b) && SameLots(b, c)
    ensures SameLots(a, c)
  {
  }

  /** Nothing becomes pending by adjusting something. */
  lemma KeepsPending(b: Book, c: Book, k: nat)
    requires Keeps(b, c) && Pending(c, k)
    ensures Pending(b, k)
  {
    hide UnitsGap, CostGap, GainGap, Balanced, AdjustedOnce, IsAdjusted, Remaining;
    assert SaleKept(b, c, k);
    var i: nat :| Replaces(c, k, i);
    assert c.lots[i].acquired == b.lots[i].acquired;
    assert Replaces(b, k, i);
  }

  /**
   The disallowed part equals the basis it adds and never turns a loss into a gain. It leaves the loss
   no larger exactly when the replacement's original basis is not negative, and cancels it exactly
   when that basis covers it.
   */
  lemma LossStaysALoss(b: Book, k: nat, r: nat)
    requires k < |b.sales| && r < |b.lots| && b.sales[k].realized < 0
    ensures var c := Adjusting(b, k, r);
            && c.sales[k].realized <= 0
            && c.lots[r].adjusted - b.lots[r].adjusted == c.sales[k].realized - b.sales[k].realized
            && (c.sales[k].realized >= b.sales[k].realized <==> b.lots[r].original >= 0)
            && (c.sales[k].realized == 0 <==> b.lots[r].original >= -b.sales[k].realized)
  {
  }

  /** The replacement is the earliest acquired other lot in the window, by id within a day. */
  lemma ReplacementIsEarliest(lots: seq<Lot>, sale: Sale, i: nat)
    requires i < |lots| && i != sale.lot && InWindow(lots[i].acquired, sale.date)
    ensures var rs := Replacements(lots, sale);
            rs != [] && rs[0] < |lots| && !Earlier()(Row(i, lots[i]), Row(rs[0], lots[rs[0]]))
  {
    hide InOrder;
    var keep := (i: nat, l: Lot) => i != sale.lot && InWindow(l.acquired, sale.date);
    var rows := InOrder(lots, keep);
    assert Row(i, lots[i]) in rows;
    var a :| 0 <= a < |rows| && rows[a] == Row(i, lots[i]);
    assert rows[0] in rows;
    assert a == 0 || !Earlier()(rows[a], rows[0]);
  }

  /** No sell ever draws on a closed lot, so a loss carried into one is never realized again. */
  lemma {:induction false} ClosedLotIsNeverDrawn(p: Progress, order: seq<nat>, f: Fill, i: nat)
    requires (forall j :: j in order ==> j < |p.lots|) && Draw(p, order, f).Done? && i < |p.lots| && p.lots[i].remaining == 0
    ensures Draw(p, order, f).value.lots[i] == p.lots[i]
    decreases |order|
  {
    hide DrawFrom, HalfEven;
    if order != [] {
      assert order[0] in order && forall j :: j in order[1..] ==> j in order;
      var basis := DrawFromIs(p, order[0], f);
      ClosedLotIsNeverDrawn(DrawFrom(p, order[0], f).value, order[1..], f, i);
    }
  }

  /** The replacement search does not ask whether a lot is still open: a closed one in the window is chosen. */
  lemma ReplacementCanBeClosed(sold: Lot, closed: Lot, sale: Sale)
    requires sale.lot == 0 && closed.remaining == 0 && InWindow(closed.acquired, sale.date)
    ensures var rs := Replacements([sold, closed], sale); rs != [] && rs[0] == 1
  {
    var lots := [sold, closed];
    var rs := Replacements(lots, sale);
    assert lots[1] == closed;
    ReplacementIsEarliest(lots, sale, 1);
    assert rs[0] in rs;
  }

  /** A closed lot that could take the loss, acquired before every open one that could. */
  ghost predicate ClosedFirst(b: Book, k: nat, j: nat) {
    && Replaces(b, k, j) && b.lots[j].remaining <= 0
    && forall i: nat :: Replaces(b, k, i) && b.lots[i].remaining > 0 ==> Earlier()(Row(j, b.lots[j]), Row(i, b.lots[i]))
  }

  /** In every book: the lot chosen for a loss is closed if and only if some closed lot comes before every open one. */
  lemma ReplacementIsClosedIff(b: Book, k: nat)
    requires Sound(b) && k < |b.sales|
    ensures var rs := Replacements(b.lots, b.sales[k]);
            rs != [] && b.lots[rs[0]].remaining <= 0 <==> exists j: nat :: ClosedFirst(b, k, j)
  {
    hide Replacements, InWindow, NonNegative;
    var rs := Replacements(b.lots, b.sales[k]);
    assert rs != [] ==> rs[0] in rs && Replaces(b, k, rs[0]);
    if rs != [] && b.lots[rs[0]].remaining <= 0 {
      var j := rs[0];
      forall i: nat | Replaces(b, k, i) && b.lots[i].remaining > 0 ensures Earlier()(Row(j, b.lots[j]), Row(i, b.lots[i])) {
        ReplacementIsEarliest(b.lots, b.sales[k], i);
        assert i < j || j < i;
      }
      assert ClosedFirst(b, k, j);
    }
    if j: nat :| ClosedFirst(b, k, j) {
      ReplacementIsEarliest(b.lots, b.sales[k], j);
      assert b.lots[rs[0]].remaining <= 0;
    }
  }

  // ---------------------------------------------------------------- the wash-sale checks of a fill

  lemma OnLossSaleKeeps(b: Book, k: nat)
    requires k < |b.sales| && OnLossSale(b, k).Done?
    ensures Keeps(b, OnLossSale(b, k).value)
    ensures !Pending(OnLossSale(b, k).value, k)
  {
    hide ApplyAdjustment, Keeps, Replacements, InWindow, IsAdjusted;
    var rs := Replacements(b.lots, b.sales[k]);
    if b.sales[k].realized >= 0 || IsAdjusted(b, k) || rs == [] {
      KeepsItself(b);
      forall i: nat | i < |b.lots| ensures rs == [] ==> !Replaces(b, k, i) {}
    } else {
      assert rs[0] in rs;
      ApplyKeeps(b, k, rs[0]);
    }
  }

  lemma {:induction false} WashEachKeeps(b: Book, k: nat, n: nat)
    requires k <= n == |b.sales| && WashEach(b, k, n).Done?
    ensures Keeps(b, WashEach(b, k, n).value)
    ensures forall j: nat :: k <= j < n ==> !Pending(WashEach(b, k, n).value, j)
    decreases n - k
  {
    hide OnLossSale, Pending;
    if k == n {
      KeepsItself(b);
    } else {
      var c := OnLossSale(b, k).value;
      OnLossSaleKeeps(b, k);
      WashEachKeeps(c, k + 1, n);
      var d := WashEach(b, k, n).value;
      KeepsTwice(b, c, d);
      if Pending(d, k) { KeepsPending(c, d, k); }
    }
  }

  lemma {:induction false} CarryIntoKeeps(b: Book, candidates: seq<nat>, lot: nat)
    requires lot < |b.lots| && (forall k :: k in candidates ==> k < |b.sales|) && CarryInto(b, candidates, lot).Done?
    ensures Keeps(b, CarryInto(b, candidates, lot).value)
    ensures forall k :: k in candidates && b.sales[k].lot != lot ==> IsAdjusted(CarryInto(b, candidates, lot).value, k)
    decreases |candidates|
  {
    hide ApplyAdjustment, IsAdjusted, UnitsGap, CostGap, GainGap, Balanced, AdjustedOnce, Remaining, SameLots;
    if candidates == [] {
      KeepsItself(b);
    } else {
      var k := candidates[0];
      assert k in candidates && candidates == [k] + candidates[1..];
      assert forall j :: j in candidates[1..] ==> j in candidates;
      if b.sales[k].lot == lot {
        CarryIntoKeeps(b, candidates[1..], lot);
      } else {
        var c := ApplyAdjustment(b, k, lot).value;
        ApplyKeeps(b, k, lot);
        CarryIntoKeeps(c, candidates[1..], lot);
        var d := CarryInto(b, candidates, lot).value;
        KeepsTwice(b, c, d);
        assert SaleKept(c, d, k);
        forall j | j in candidates[1..] && b.sales[j].lot != lot ensures IsAdjusted(d, j) { assert SaleKept(b, c, j); }
      }
    }
  }

  lemma KeepsSound(b: Book, c: Book)
    requires Keeps(b, c) && Sound(b)
    ensures Sound(c)
  {
    hide UnitsGap, CostGap, GainGap, Balanced, AdjustedOnce, IsAdjusted;
    forall k | 0 <= k < |c.sales| ensures c.sales[k].lot < |c.lots| { assert SaleKept(b, c, k); }
    forall i | 0 <= i < |c.lots| ensures c.lots[i].remaining >= 0 { assert Remaining(c.lots)[i] == Remaining(b.lots)[i]; }
    forall i | 0 <= i < |c.lots| ensures c.lots[i].id == b.lots[i].id && c.lots[i].execution == b.lots[i].execution {}
  }

  // ---------------------------------------------------------------- the invariant

  ghost predicate Inv(b: Book) {
    Sound(b) && AdjustedOnce(b) && WashComplete(b) && Balanced(b.ledger) && CostGap(b) == 0 && GainGap(b) == 0
  }

  // ---------------------------------------------------------------- buy fills

  /** The book with a new lot, before its wash-sale check. */
  ghost function Opened(b: Book, f: Fill, id: nat, windowClosesAt: int): Book {
    var cost := HalfEven(f.price * f.quantity, 100_000_000);
    Book(b.lots + [Lot(id, f.execution, f.date, f.quantity, f.quantity, cost, cost, false, windowClosesAt)],
         b.sales, b.adjustments, b.ledger + [Entry(TradeBuy, f.date, f.quantity, cost, -cost, 0)])
  }

  lemma BuyIs(b: Book, f: Fill, id: nat, windowClosesAt: int)
    requires Buy(b, f, id, windowClosesAt).Done?
    ensures f.quantity >= 0 && (forall l :: l in b.lots ==> l.id != id && l.execution != f.execution)
    ensures var c := Opened(b, f, id, windowClosesAt); Buy(b, f, id, windowClosesAt) == CarryInto(c, Losses(c, f.date, 0), |b.lots|)
  {
    hide PriceTimesUnits, Post, HalfEven, CarryInto, Losses;
    ProductOk(f.price, f.quantity);
    var cost := HalfEven(f.price * f.quantity, 100_000_000);
    PostIs(b.ledger, Entry(TradeBuy, f.date, f.quantity, cost, -cost, 0));
  }

  lemma OpenedAgrees(b: Book, f: Fill, id: nat, w: int)
    ensures var c := Opened(b, f, id, w); UnitsGap(c) == UnitsGap(b) && CostGap(c) == CostGap(b) && GainGap(c) == GainGap(b)
    ensures Balanced(b.ledger) ==> Balanced(Opened(b, f, id, w).ledger)
  {
    hide Sum, HalfEven;
    var c := Opened(b, f, id, w);
    var cost := HalfEven(f.price * f.quantity, 100_000_000);
    LedgerAppend(b.ledger, c.ledger[|b.ledger|]);
    SumAppend(Remaining(b.lots), f.quantity);
    SumAppend(Bases(b.lots), cost);
    assert Remaining(c.lots) == Remaining(b.lots) + [f.quantity];
    assert Bases(c.lots) == Bases(b.lots) + [cost];
  }

  lemma OpenedSound(b: Book, f: Fill, id: nat, w: int)
    requires Sound(b) && f.quantity >= 0 && forall l :: l in b.lots ==> l.id != id && l.execution != f.execution
    ensures Sound(Opened(b, f, id, w))
  {
    hide HalfEven;
    forall i | 0 <= i < |b.lots| ensures b.lots[i].id != id && b.lots[i].execution != f.execution { assert b.lots[i] in b.lots; }
  }

  /** Whatever a new lot makes pending is a loss its own scan finds. */
  lemma OpenedPending(b: Book, f: Fill, id: nat, w: int, k: nat)
    requires Sound(b) && WashComplete(b) && Pending(Opened(b, f, id, w), k)
    ensures var c := Opened(b, f, id, w); k in Losses(c, f.date, 0) && c.sales[k].lot != |b.lots|
  {
    hide HalfEven, Losses;
    var c := Opened(b, f, id, w);
    var i: nat :| Replaces(c, k, i);
    assert IsAdjusted(b, k) == IsAdjusted(c, k);
    assert i < |b.lots| ==> Replaces(b, k, i);
    assert !Pending(b, k);
  }

  /** A buy fill keeps the invariant, and the units account follows the lots. */
  lemma BuyKeepsInv(b: Book, f: Fill, id: nat, w: int)
    requires Inv(b) && Buy(b, f, id, w).Done?
    ensures Inv(Buy(b, f, id, w).value) && UnitsGap(Buy(b, f, id, w).value) == UnitsGap(b)
  {
    hide Buy, CarryInto, Losses, Sound, AdjustedOnce, Pending, UnitsGap, CostGap, GainGap, Balanced, HalfEven, IsAdjusted, SameLots, Remaining;
    BuyIs(b, f, id, w);
    var c := Opened(b, f, id, w);
    var candidates := Losses(c, f.date, 0);
    OpenedAgrees(b, f, id, w);
    OpenedSound(b, f, id, w);
    OpenedOnce(b, f, id, w);
    CarryIntoKeeps(c, candidates, |b.lots|);
    var d := CarryInto(c, candidates, |b.lots|).value;
    KeepsSound(c, d);
    forall k: nat | Pending(d, k) ensures false {
      KeepsPending(c, d, k);
      OpenedPending(b, f, id, w, k);
      PendingIsUnadjusted(d, k);
    }
  }

  lemma OpenedOnce(b: Book, f: Fill, id: nat, w: int)
    requires AdjustedOnce(b)
    ensures AdjustedOnce(Opened(b, f, id, w))
  {
  }

  lemma PendingIsUnadjusted(b: Book, k: nat)
    requires Pending(b, k)
    ensures k < |b.sales| && !IsAdjusted(b, k)
  {
  }

  // ---------------------------------------------------------------- sell fills

  lemma {:induction false} DrawSales(p: Progress, order: seq<nat>, f: Fill)
    requires (forall i :: i in order ==> i < |p.lots|) && Draw(p, order, f).Done?
    requires forall k :: 0 <= k < |p.sales| ==> p.sales[k].lot < |p.lots|
    ensures var q := Draw(p, order, f).value; forall k :: 0 <= k < |q.sales| ==> q.sales[k].lot < |q.lots|
    decreases |order|
  {
    hide DrawFrom, HalfEven;
    if order != [] {
      assert order[0] in order && forall i :: i in order[1..] ==> i in order;
      var basis := DrawFromIs(p, order[0], f);
      DrawSales(DrawFrom(p, order[0], f).value, order[1..], f);
    }
  }

  /** The lots a sell fill starts from: the book's, some of them marked. */
  ghost predicate Marked(lots: seq<Lot>, marked: seq<Lot>) {
    SameLots(lots, marked) && Remaining(marked) == Remaining(lots) && Bases(marked) == Bases(lots)
  }

  /** The book once the lots are drawn and the entry is posted, before the wash-sale checks. */
  ghost function Sold(b: Book, p: Progress, f: Fill): Book {
    Book(p.lots, b.sales + p.sales, b.adjustments, b.ledger + [SellEntry(p, f)])
  }

  lemma SellIs(b: Book, f: Fill, designated: seq<nat>) returns (marked: seq<Lot>, order: seq<nat>)
    requires Sell(b, f, designated).Done?
    ensures Marked(b.lots, marked) && forall i :: i in order ==> i < |marked|
    ensures designated == [] ==> marked == b.lots && order == OpenFifo(b.lots)
    ensures Draw(Start(marked, f), order, f).Done?
    ensures var p := Draw(Start(marked, f), order, f).value;
            var e := SellEntry(p, f);
            && p.left <= 0 && e.cost + e.cash + e.realized == 0
            && Sell(b, f, designated) == WashEach(Sold(b, p, f), |b.sales|, |b.sales + p.sales|)
  {
    hide PriceTimesUnits, Post, HalfEven, WashEach, Draw, OpenFifo, Named;
    order := Select(b.lots, designated).value;
    marked := if designated == [] then b.lots else Mark(b.lots, order);
    var p := Draw(Start(marked, f), order, f).value;
    ProductOk(f.price, f.quantity);
    PostIs(b.ledger, SellEntry(p, f));
  }

  lemma SalesConcat(a: seq<Sale>, c: seq<Sale>)
    ensures Sum(Gains(a + c)) == Sum(Gains(a)) + Sum(Gains(c))
  {
    hide Sum;
    SumConcat(Gains(a), Gains(c));
    assert Gains(a + c) == Gains(a) + Gains(c);
  }

  /**
   Drawing and posting keep the cost and the gain accounts in step with the lots and the gains. The
   units account stays in step too, unless the fill quantity is negative.
   */
  lemma SoldAgrees(b: Book, marked: seq<Lot>, order: seq<nat>, f: Fill)
    requires Marked(b.lots, marked) && (forall i :: i in order ==> i < |marked|) && Draw(Start(marked, f), order, f).Done?
    requires Draw(Start(marked, f), order, f).value.left <= 0
    ensures var c := Sold(b, Draw(Start(marked, f), order, f).value, f);
            && CostGap(c) == CostGap(b) && GainGap(c) == GainGap(b)
            && UnitsGap(c) == UnitsGap(b) + (if f.quantity < 0 then -f.quantity else 0)
  {
    hide Sum, HalfEven, Draw;
    var s := Start(marked, f);
    var p := Draw(s, order, f).value;
    DrawConserves(s, order, f);
    DrawLowers(s, order, f);
    LedgerAppend(b.ledger, SellEntry(p, f));
    SalesConcat(b.sales, p.sales);
    NoGains();
  }

  lemma NoGains()
    ensures Sum(Gains([])) == 0
  {
  }

  lemma SoldSound(b: Book, marked: seq<Lot>, order: seq<nat>, f: Fill)
    requires Marked(b.lots, marked) && (forall i :: i in order ==> i < |marked|) && Draw(Start(marked, f), order, f).Done?
    requires Sound(b)
    ensures Sound(Sold(b, Draw(Start(marked, f), order, f).value, f))
  {
    hide Sum, HalfEven, Draw;
    var s := Start(marked, f);
    var p := Draw(s, order, f).value;
    DrawConserves(s, order, f);
    DrawLowers(s, order, f);
    DrawSales(s, order, f);
    SameTwice(b.lots, marked, p.lots);
    forall i | 0 <= i < |p.lots| ensures p.lots[i].remaining >= 0 { assert Remaining(marked)[i] == Remaining(b.lots)[i]; }
    forall i | 0 <= i < |p.lots| ensures p.lots[i].id == b.lots[i].id && p.lots[i].execution == b.lots[i].execution {}
  }

  /** An old sale that is pending now was pending before. */
  lemma SoldPending(b: Book, p: Progress, f: Fill, k: nat)
    requires SameLots(b.lots, p.lots) && k < |b.sales| && Pending(Sold(b, p, f), k)
    ensures Pending(b, k)
  {
    hide HalfEven;
    var c := Sold(b, p, f);
    assert IsAdjusted(c, k) == IsAdjusted(b, k);
    var i: nat :| Replaces(c, k, i);
    assert p.lots[i].acquired == b.lots[i].acquired;
    assert Replaces(b, k, i);
  }

  /** A sell fill keeps the invariant; the units account misses exactly a negative quantity. */
  lemma SellKeepsInv(b: Book, f: Fill, designated: seq<nat>)
    requires Inv(b) && Sell(b, f, designated).Done?
    ensures Inv(Sell(b, f, designated).value)
    ensures UnitsGap(Sell(b, f, designated).value) == UnitsGap(b) + (if f.quantity < 0 then -f.quantity else 0)
  {
    hide Sell, Draw, WashEach, Sound, Pending, UnitsGap, CostGap, GainGap, HalfEven, IsAdjusted, Remaining, Sum, SameLots;
    var marked, order := SellIs(b, f, designated);
    var p := Draw(Start(marked, f), order, f).value;
    var c := Sold(b, p, f);
    SoldAgrees(b, marked, order, f);
    SoldSound(b, marked, order, f);
    DrawConserves(Start(marked, f), order, f);
    SameTwice(b.lots, marked, p.lots);
    WashEachKeeps(c, |b.sales|, |c.sales|);
    var d := WashEach(c, |b.sales|, |c.sales|).value;
    KeepsSound(c, d);
    forall k: nat | Pending(d, k) ensures false {
      PendingIsUnadjusted(d, k);
      KeepsPending(c, d, k);
      if k < |b.sales| { SoldPending(b, p, f, k); }
    }
  }

  /** Selling minus a millionth of a unit at a millionth of a dollar is accepted and posts a unit leg no lot received. */
  lemma NegativeSellCanDrift(b: Book, f: Fill)
    requires f.quantity == -1 && f.price == 1
    ensures Sell(b, f, []).Done? && Sell(b, f, []).value.lots == b.lots
    ensures UnitsGap(Sell(b, f, []).value) == UnitsGap(b) + 1
  {
    hide Draw, Post, PriceTimesUnits, OpenFifo, Sum;
    var p := Start(b.lots, f);
    NothingLeftToDraw(p, OpenFifo(b.lots), f);
    PriceTimesUnitsRoundsOnce(1, -1);
    var e := Entry(TradeSell, f.date, 1, 0, 0, 0);
    PostIs(b.ledger, e);
    LedgerAppend(b.ledger, e);
    assert b.sales + [] == b.sales;
  }

  // ---------------------------------------------------------------- splits

  lemma UnitsTimesWhole(u: int, n: int)
    ensures UnitsTimes(u, Rat(n, 1)) == Fit(Units, u * n)
  {
    WholeIsExact(Units, u * n);
  }

  lemma UnitsTimesRoundsOnce(u: int, d: Rat)
    requires d.den > 0 && -E27(1) < u * d.num < E27(1)
    ensures UnitsTimes(u, d) == Fit(Units, HalfEven(u * d.num, d.den))
  {
    hide HalfEven, Round28Signed;
    var r := DecimalProduct(Decimal(Units, u), d);
    QuantizedOnce(u * d.num, 1_000_000 * d.den, 6, u * d.num, d.den);
    ConstructFits(Units, r);
  }

  lemma ProductNonNegative(u: int, d: Rat)
    requires d.den > 0 && u >= 0 && d.num > 0
    ensures DecimalProduct(Decimal(Units, u), d).num >= 0
  {
    hide Round28;
    assert u * d.num >= 0;
  }

  lemma RoundedNonNegative(x: int, d: int)
    requires d > 0 && x >= 0
    ensures HalfEven(x, d) >= 0
  {
  }

  lemma UnitsTimesNonNegative(u: int, d: Rat)
    requires d.den > 0 && u >= 0 && d.num > 0
    ensures Checked(UnitsTimes(u, d)).Done? ==> Checked(UnitsTimes(u, d)).value >= 0
  {
    hide DecimalProduct, HalfEven, Construct;
    var r := DecimalProduct(Decimal(Units, u), d);
    ProductNonNegative(u, d);
    RoundedNonNegative(r.num * 1_000_000, r.den);
    ConstructFits(Units, r);
  }

  lemma {:induction false} PriorTotalIs(lots: seq<Lot>)
    requires NonNegative(lots) && PriorTotal(lots).Done?
    ensures PriorTotal(lots).value == Sum(Remaining(lots))
    decreases |lots|
  {
    hide Add, Sum;
    if lots == [] {
      NothingRemains(lots);
    } else {
      var n := |lots| - 1;
      PriorTotalIs(lots[..n]);
      AddOk(Units, PriorTotal(lots[..n]).value, lots[n].remaining);
      LastRemaining(lots);
    }
  }

  lemma NothingRemains(lots: seq<Lot>)
    requires lots == []
    ensures Sum(Remaining(lots)) == 0
  {
  }

  lemma LastRemaining(lots: seq<Lot>)
    requires lots != []
    ensures Sum(Remaining(lots)) == Sum(Remaining(lots[..|lots| - 1])) + lots[|lots| - 1].remaining
  {
    hide Sum;
    RemainingAppend(lots[..|lots| - 1], lots[|lots| - 1]);
    assert lots[..|lots| - 1] + [lots[|lots| - 1]] == lots;
  }

  /** A split changes only quantities. */
  ghost predicate SameButQuantity(a: seq<Lot>, b: seq<Lot>) {
    && |a| == |b|
    && forall i :: 0 <= i < |a| ==> b[i] == a[i].(opening := b[i].opening, remaining := b[i].remaining)
  }

  lemma {:induction false} SplitLotsIs(lots: seq<Lot>, d: Rat)
    requires d.den > 0 && d.num > 0 && NonNegative(lots) && SplitLots(lots, d).Done?
    ensures SameButQuantity(lots, SplitLots(lots, d).value) && NonNegative(SplitLots(lots, d).value)
    decreases |lots|
  {
    hide UnitsTimes;
    if lots != [] {
      var n := |lots| - 1;
      SplitLotsIs(lots[..n], d);
      UnitsTimesNonNegative(lots[n].remaining, d);
    }
  }

  lemma SplitLotWhole(l: Lot, n: int)
    requires l.remaining >= 0
    ensures SplitLot(l, Rat(n, 1)).Done? <==> l.remaining == 0 || (InRange(Units, l.opening * n) && InRange(Units, l.remaining * n))
    ensures SplitLot(l, Rat(n, 1)).Failed? ==> SplitLot(l, Rat(n, 1)).error.Arithmetic?
    ensures SplitLot(l, Rat(n, 1)).Done? ==>
              && SplitLot(l, Rat(n, 1)).value == (if l.remaining == 0 then l else l.(opening := l.opening * n, remaining := l.remaining * n))
              && SplitLot(l, Rat(n, 1)).value.remaining == l.remaining * n
  {
    hide UnitsTimes;
    UnitsTimesWhole(l.opening, n);
    UnitsTimesWhole(l.remaining, n);
  }

  /** An integer ratio multiplies the total. */
  lemma {:induction false} SplitLotsWhole(lots: seq<Lot>, n: int)
    requires NonNegative(lots) && SplitLots(lots, Rat(n, 1)).Done?
    ensures Sum(Remaining(SplitLots(lots, Rat(n, 1)).value)) == Sum(Remaining(lots)) * n
    decreases |lots|
  {
    hide SplitLot;
    var d := Rat(n, 1);
    if lots == [] {
      assert SplitLots(lots, d).value == [];
    } else {
      var k := |lots| - 1;
      SplitLotsWhole(lots[..k], n);
      SplitLotWhole(lots[k], n);
      RemainingAppend(lots[..k], lots[k]);
      assert lots == lots[..k] + [lots[k]];
      RemainingAppend(SplitLots(lots[..k], d).value, SplitLot(lots[k], d).value);
      Distribute(n, Sum(Remaining(lots[..k])), lots[k].remaining);
    }
  }

  lemma RemainingAppend(lots: seq<Lot>, l: Lot)
    ensures Sum(Remaining(lots + [l])) == Sum(Remaining(lots)) + l.remaining
  {
    assert Remaining(lots + [l]) == Remaining(lots) + [l.remaining];
    SumAppend(Remaining(lots), l.remaining);
  }

  /** What a split that finds open lots does. */
  lemma SplitIs(b: Book, ratio: Ratio, date: int)
    requires Sound(b) && ValidRatio(ratio) && Split(b, ratio, date).Done? && Split(b, ratio, date).value != b
    ensures var c := Split(b, ratio, date).value; var d := AsDecimal(ratio);
            && d.num > d.den && PriorTotal(b.lots) == Done(Sum(Remaining(b.lots)))
            && SplitLots(b.lots, d) == Done(c.lots) && c.sales == b.sales && c.adjustments == b.adjustments
            && Checked(UnitsTimes(Sum(Remaining(b.lots)), LessOne(ratio))).Done?
            && c.ledger == b.ledger + [Entry(SplitEntry, date, Checked(UnitsTimes(Sum(Remaining(b.lots)), LessOne(ratio))).value, 0, 0, 0)]
  {
    hide UnitsTimes, Post, SplitLots, PriorTotal, LessOne;
    PriorTotalIs(b.lots);
    var added := Checked(UnitsTimes(Sum(Remaining(b.lots)), LessOne(ratio)));
    if added.Done? { PostIs(b.ledger, Entry(SplitEntry, date, added.value, 0, 0, 0)); }
  }

  lemma SplitGaps(b: Book, c: Book, date: int, added: int)
    requires SameButQuantity(b.lots, c.lots) && c.sales == b.sales && c.ledger == b.ledger + [Entry(SplitEntry, date, added, 0, 0, 0)]
    ensures CostGap(c) == CostGap(b) && GainGap(c) == GainGap(b) && (Balanced(b.ledger) ==> Balanced(c.ledger))
    ensures UnitsGap(c) == UnitsGap(b) + added - (Sum(Remaining(c.lots)) - Sum(Remaining(b.lots)))
  {
    hide Sum;
    LedgerAppend(b.ledger, Entry(SplitEntry, date, added, 0, 0, 0));
    assert Bases(c.lots) == Bases(b.lots);
  }

  lemma SplitPending(b: Book, c: Book, k: nat)
    requires SameButQuantity(b.lots, c.lots) && c.sales == b.sales && c.adjustments == b.adjustments && Pending(c, k)
    ensures Pending(b, k)
  {
    var i: nat :| Replaces(c, k, i);
    assert c.lots[i].acquired == b.lots[i].acquired;
    assert Replaces(b, k, i);
  }

  lemma SplitSound(b: Book, c: Book)
    requires Sound(b) && SameButQuantity(b.lots, c.lots) && c.sales == b.sales && NonNegative(c.lots)
    ensures Sound(c)
  {
    forall i | 0 <= i < |c.lots| ensures c.lots[i].id == b.lots[i].id && c.lots[i].execution == b.lots[i].execution {}
  }

  /** The units a split posts, given that it succeeds. */
  ghost function Added(b: Book, ratio: Ratio): int
    requires ValidRatio(ratio)
  {
    var r := Checked(UnitsTimes(Sum(Remaining(b.lots)), LessOne(ratio)));
    if r.Done? then r.value else 0
  }

  /**
   A split keeps the invariant. The units account drifts from the lots by exactly the posted units
   less what the lots have grown, and an integer ratio has no drift.
   */
  lemma SplitKeepsInv(b: Book, ratio: Ratio, date: int)
    requires Inv(b) && ValidRatio(ratio) && Split(b, ratio, date).Done?
    ensures Inv(Split(b, ratio, date).value)
    ensures var c := Split(b, ratio, date).value;
            c != b ==> UnitsGap(c) == UnitsGap(b) + Added(b, ratio) - (Sum(Remaining(c.lots)) - Sum(Remaining(b.lots)))
    ensures ratio.Whole? ==> UnitsGap(Split(b, ratio, date).value) == UnitsGap(b)
  {
    hide Split, Sum, Pending, UnitsGap, CostGap, GainGap, Balanced, UnitsTimes, SplitLots, PriorTotal;
    var c := Split(b, ratio, date).value;
    if c != b {
      SplitIs(b, ratio, date);
      SplitLotsIs(b.lots, AsDecimal(ratio));
      var added := Checked(UnitsTimes(Sum(Remaining(b.lots)), LessOne(ratio))).value;
      SplitGaps(b, c, date, added);
      SplitSound(b, c);
      forall k: nat | Pending(c, k) ensures false { SplitPending(b, c, k); }
      if ratio.Whole? {
        SplitLotsWhole(b.lots, ratio.n);
        UnitsTimesWhole(Sum(Remaining(b.lots)), ratio.n - 1);
        Distribute(Sum(Remaining(b.lots)), ratio.n, -1);
      }
    }
  }

  // ---------------------------------------------------------------- every run

  datatype Action =
    | BuyFill(f: Fill, id: nat, windowClosesAt: int)
    | SellFill(f: Fill, designated: seq<nat>)
    | SplitBy(ratio: Ratio, date: int)

  predicate ValidAction(a: Action) { a.SplitBy? ==> ValidRatio(a.ratio) }

  /** Neither a sell of a negative quantity nor a split by a decimal ratio. */
  predicate Regular(a: Action) {
    (a.SellFill? ==> a.f.quantity >= 0) && (a.SplitBy? ==> a.ratio.Whole?)
  }

  /** A failed operation leaves the book as it was. */
  function Step(b: Book, a: Action): Book
    requires ValidAction(a)
  {
    var r := if a.BuyFill? then Buy(b, a.f, a.id, a.windowClosesAt)
      else if a.SellFill? then Sell(b, a.f, a.designated)
      else Split(b, a.ratio, a.date);
    if r.Done? then r.value else b
  }

  function Run(actions: seq<Action>): Book
    requires forall i :: 0 <= i < |actions| ==> ValidAction(actions[i])
  {
    if actions == [] then Book([], [], [], [])
    else Step(Run(actions[..|actions| - 1]), actions[|actions| - 1])
  }

  lemma StepKeepsInv(b: Book, a: Action)
    requires ValidAction(a) && Inv(b)
    ensures Inv(Step(b, a)) && (Regular(a) ==> UnitsGap(Step(b, a)) == UnitsGap(b))
  {
    hide Buy, Sell, Split, Inv, UnitsGap;
    if a.BuyFill? {
      if Buy(b, a.f, a.id, a.windowClosesAt).Done? { BuyKeepsInv(b, a.f, a.id, a.windowClosesAt); }
    } else if a.SellFill? {
      if Sell(b, a.f, a.designated).Done? { SellKeepsInv(b, a.f, a.designated); }
    } else if Split(b, a.ratio, a.date).Done? {
      SplitKeepsInv(b, a.ratio, a.date);
    }
  }

  /**
   After any run: every entry balances, the cost account is the sum of the lots' adjusted bases, the
   gain account the sum of the consumptions' gains, trading cash is gains less basis, no lot is
   overdrawn, each loss is disallowed at most once and none within 30 days of a replacement is missed.
   Without negative sells and decimal splits the position account is the sum of the lots' units.
   */
  lemma {:induction false} LotRunSafety(actions: seq<Action>)
    requires forall i :: 0 <= i < |actions| ==> ValidAction(actions[i])
    ensures Inv(Run(actions))
    ensures (forall i :: 0 <= i < |actions| ==> Regular(actions[i])) ==> UnitsGap(Run(actions)) == 0
    ensures var b := Run(actions); Sum(CashLegs(b.ledger)) == Sum(Gains(b.sales)) - Sum(Bases(b.lots))
    decreases |actions|
  {
    hide Step;
    if actions == [] {
      EmptyBook();
    } else {
      var n := |actions| - 1;
      LotRunSafety(actions[..n]);
      StepKeepsInv(Run(actions[..n]), actions[n]);
    }
    CashIsGainsLessBasis(Run(actions).ledger);
  }

  lemma EmptyBook()
    ensures Inv(Book([], [], [], [])) && UnitsGap(Book([], [], [], [])) == 0
  {
  }
}
