/**
 Sell fills in closed form: what each lot gives up in units and basis and what each consumption gains,
 computed from the lots, their order, the quantity and the price; and when the arithmetic fits.
 */
module TaxLotBasis {
  import opened Attempts
  import opened Sums
  import opened Rounding
  import opened FixedPoint
  import opened TaxLots
  import opened TaxLotDraws
  import opened TaxLotSales
  import opened TaxLotBook
  import opened TaxLotBalance

  // ---------------------------------------------------------------- one draw

  /**
   A draw succeeds exactly when nothing is to be taken or every amount it computes fits its kind: the
   basis per unit, the basis, the proceeds, the gain, what is left in the lot and the running totals.
   */
  lemma DrawFromDoneIff(p: Progress, i: nat, f: Fill)
    requires i < |p.lots| && InRange(Money, p.lots[i].adjusted)
    ensures var lot, take := p.lots[i], Take(p, i);
            DrawFrom(p, i, f).Done?
            <==> take == 0
                 || (var basis, proceeds := BasisOf(lot, take), HalfEven(f.price * take, 100_000_000);
                     && InRange(Price, PerUnit(lot)) && InRange(Money, basis) && InRange(Money, proceeds)
                     && InRange(Money, proceeds - basis) && InRange(Money, lot.adjusted - basis) && InRange(Units, lot.remaining - take)
                     && InRange(Money, p.basis + basis) && InRange(Money, p.realized + proceeds - basis) && InRange(Units, p.left - take))
  {
    hide Add, PriceTimesUnits, DrawnBasis, HalfEven, BasisOf, PerUnit;
    var lot, take := p.lots[i], Take(p, i);
    if take > 0 {
      var basis, proceeds := BasisOf(lot, take), HalfEven(f.price * take, 100_000_000);
      DrawnBasisIs(lot, take);
      ProductOk(f.price, take);
      AddOk(Money, proceeds, -basis);
      AddOk(Units, lot.remaining, -take);
      AddOk(Money, lot.adjusted, -basis);
      AddOk(Money, p.basis, basis);
      AddOk(Money, p.realized, proceeds - basis);
      AddOk(Units, p.left, -take);
    }
  }

  // ---------------------------------------------------------------- the whole pass

  ghost predicate BasesFit(lots: seq<Lot>) {
    forall i :: 0 <= i < |lots| ==> InRange(Money, lots[i].adjusted)
  }

  datatype Consumption = Consumption(lots: seq<Lot>, sales: seq<Sale>, left: int)

  /** Lot by lot in order: the units taken, their basis and their gain, each written out. */
  ghost function Consumed(lots: seq<Lot>, order: seq<nat>, f: Fill, left: int): Consumption
    requires forall i :: i in order ==> i < |lots|
    decreases |order|
  {
    if order == [] then Consumption(lots, [], left)
    else
      assert order[0] in order && forall i :: i in order[1..] ==> i in order;
      var i, lot := order[0], lots[order[0]];
      if left <= 0 || lot.remaining <= 0 then Consumed(lots, order[1..], f, left)
      else
        var take := Min(lot.remaining, left);
        var basis := BasisOf(lot, take);
        var rest := Consumed(lots[i := lot.(remaining := lot.remaining - take, adjusted := lot.adjusted - basis)], order[1..], f, left - take);
        Consumption(rest.lots,
                    [Sale(i, take, HalfEven(f.price * take, 100_000_000) - basis, f.at < lot.windowClosesAt, f.date)] + rest.sales,
                    rest.left)
  }

  lemma {:induction false} DrawIsConsumed(p: Progress, order: seq<nat>, f: Fill)
    requires (forall i :: i in order ==> i < |p.lots|) && BasesFit(p.lots) && Draw(p, order, f).Done?
    ensures var q, c := Draw(p, order, f).value, Consumed(p.lots, order, f, p.left);
            q.lots == c.lots && q.sales == p.sales + c.sales && q.left == c.left && BasesFit(q.lots)
    decreases |order|
  {
    hide DrawFrom, HalfEven, BasisOf;
    if order != [] {
      var i := order[0];
      assert i in order && forall j :: j in order[1..] ==> j in order;
      var q := DrawFrom(p, i, f).value;
      var basis := DrawFromIs(p, i, f);
      DrawIsConsumed(q, order[1..], f);
    }
  }

  /** The book after a sell's draws and posting, in closed form. */
  ghost function SoldInFull(b: Book, f: Fill, designated: seq<nat>): Book
    requires Select(b.lots, designated).Done?
  {
    var c := Consumed(SellLots(b, designated), Select(b.lots, designated).value, f, f.quantity);
    Book(c.lots, b.sales + c.sales, b.adjustments,
         b.ledger + [Entry(TradeSell, f.date, -f.quantity, Sum(Bases(c.lots)) - Sum(Bases(b.lots)),
                           HalfEven(f.price * f.quantity, 100_000_000), -Sum(Gains(c.sales)))])
  }

  /**
   An accepted sell takes out of each lot, partially drawn or sold out, exactly the rounded units times
   the rounded basis per unit, books the rounded proceeds less that as the gain, posts the total, and
   then checks for wash sales.
   */
  lemma SellConsumes(b: Book, f: Fill, designated: seq<nat>)
    requires BasesFit(b.lots) && Sell(b, f, designated).Done?
    ensures Select(b.lots, designated).Done?
    ensures var c := SoldInFull(b, f, designated);
            |b.sales| <= |c.sales| && Sell(b, f, designated) == WashEach(c, |b.sales|, |c.sales|)
  {
    hide Draw, WashEach, HalfEven, Sum, OpenFifo, Named, Post, PriceTimesUnits, Consumed;
    var order, s := Select(b.lots, designated).value, Start(SellLots(b, designated), f);
    var p := Draw(s, order, f).value;
    ProductOk(f.price, f.quantity);
    PostIs(b.ledger, SellEntry(p, f));
    assert Sell(b, f, designated) == WashEach(Sold(b, p, f), |b.sales|, |b.sales + p.sales|);
    assert Bases(s.lots) == Bases(b.lots);
    SoldIs(b, s, order, f);
  }

  lemma SoldIs(b: Book, s: Progress, order: seq<nat>, f: Fill)
    requires (forall i :: i in order ==> i < |s.lots|) && Draw(s, order, f).Done? && BasesFit(s.lots)
    requires s == Start(s.lots, f) && Bases(s.lots) == Bases(b.lots)
    ensures var p, c := Draw(s, order, f).value, Consumed(s.lots, order, f, f.quantity);
            && p.lots == c.lots && p.sales == c.sales
            && -p.basis == Sum(Bases(c.lots)) - Sum(Bases(b.lots)) && -p.realized == -Sum(Gains(c.sales))
  {
    hide Draw, Consumed, HalfEven, Sum;
    DrawIsConsumed(s, order, f);
    DrawConserves(s, order, f);
    NothingSums();
    assert Gains(s.sales) == [] && Draw(s, order, f).value.sales == [] + Consumed(s.lots, order, f, f.quantity).sales;
  }

  /** Every other lot keeps its units and its basis until the wash-sale checks: named lots are drawn on and no others. */
  lemma {:induction false} OthersAreNotConsumed(lots: seq<Lot>, order: seq<nat>, f: Fill, left: int, j: nat)
    requires (forall i :: i in order ==> i < |lots|) && j < |lots| && j !in order
    ensures |Consumed(lots, order, f, left).lots| == |lots| && Consumed(lots, order, f, left).lots[j] == lots[j]
    decreases |order|
  {
    hide HalfEven, BasisOf;
    if order != [] {
      assert order[0] in order && forall i :: i in order[1..] ==> i in order;
      var i, lot := order[0], lots[order[0]];
      if left <= 0 || lot.remaining <= 0 {
        OthersAreNotConsumed(lots, order[1..], f, left, j);
      } else {
        var take := Min(lot.remaining, left);
        OthersAreNotConsumed(lots[i := lot.(remaining := lot.remaining - take, adjusted := lot.adjusted - BasisOf(lot, take))], order[1..], f, left - take, j);
      }
    }
  }

  // ---------------------------------------------------------------- which lots, and when they are refused

  /** Named lots are found one by one, in the order given; the first name without a lot is refused. */
  lemma {:induction false} NamedIff(lots: seq<Lot>, ids: seq<nat>)
    ensures Named(lots, ids).Done? <==> forall i :: 0 <= i < |ids| ==> HasLot(lots, ids[i])
    ensures Named(lots, ids).Failed? ==> exists i :: 0 <= i < |ids| && !HasLot(lots, ids[i]) && Named(lots, ids).error == UnknownTaxLot(ids[i])
  {
    if ids != [] {
      var i := IndexOf(lots, ids[0]);
      if i < |lots| {
        assert HasLot(lots, ids[0]);
        NamedIff(lots, ids[1..]);
        assert forall j :: 0 < j < |ids| ==> ids[j] == ids[1..][j - 1];
        assert forall j :: 0 <= j < |ids[1..]| ==> ids[1..][j] == ids[j + 1];
      } else {
        assert !HasLot(lots, ids[0]);
      }
    }
  }

  ghost predicate HasLot(lots: seq<Lot>, id: nat) {
    exists j :: 0 <= j < |lots| && lots[j].id == id
  }

  /**
   Which lots a sell draws on: all open ones, oldest first, when none are named, and exactly the named
   ones in the order given otherwise; refused as unknown exactly when a name has no lot.
   */
  lemma SelectIs(b: Book, f: Fill, designated: seq<nat>)
    ensures designated == [] ==> Select(b.lots, designated) == Done(OpenFifo(b.lots))
    ensures designated != [] ==>
              var r := Select(b.lots, designated);
              && (r.Done? <==> forall i :: 0 <= i < |designated| ==> HasLot(b.lots, designated[i]))
              && (r.Done? ==> |r.value| == |designated| && forall i :: 0 <= i < |designated| ==> r.value[i] < |b.lots| && b.lots[r.value[i]].id == designated[i])
    ensures Sell(b, f, designated).Failed? && Sell(b, f, designated).error.UnknownTaxLot? <==> Select(b.lots, designated).Failed?
  {
    hide Draw, Post, PriceTimesUnits, WashEach, OpenFifo, Named;
    if designated != [] { NamedIff(b.lots, designated); }
    var s := Select(b.lots, designated);
    if s.Done? {
      DrawIsNeverUnknown(Start(SellLots(b, designated), f), s.value, f);
      AllWashIsArithmetic(b, f, designated);
    }
  }

  /** A pass over known lots fails for arithmetic only. */
  lemma {:induction false} DrawIsNeverUnknown(p: Progress, order: seq<nat>, f: Fill)
    requires forall i :: i in order ==> i < |p.lots|
    ensures Draw(p, order, f).Failed? ==> Draw(p, order, f).error.Arithmetic?
    decreases |order|
  {
    hide MoneyOverUnits, PriceTimesUnits, Add;
    if order != [] {
      assert order[0] in order && forall i :: i in order[1..] ==> i in order;
      var q := DrawFrom(p, order[0], f);
      if q.Done? { DrawIsNeverUnknown(q.value, order[1..], f); }
    }
  }

  lemma AllWashIsArithmetic(b: Book, f: Fill, designated: seq<nat>)
    requires Select(b.lots, designated).Done?
    ensures Sell(b, f, designated).Failed? ==> !Sell(b, f, designated).error.UnknownTaxLot?
  {
    hide Draw, Post, PriceTimesUnits, WashEach, OpenFifo, Named;
    var p := Draw(Start(SellLots(b, designated), f), Select(b.lots, designated).value, f);
    DrawIsNeverUnknown(Start(SellLots(b, designated), f), Select(b.lots, designated).value, f);
    if p.Done? && p.value.left <= 0 && Checked(PriceTimesUnits(f.price, f.quantity)).Done? {
      var q := p.value;
      var e := Entry(TradeSell, f.date, -f.quantity, -q.basis, Checked(PriceTimesUnits(f.price, f.quantity)).value, -q.realized);
      PostIs(b.ledger, e);
      if Post(b.ledger, e).Done? {
        WashIsArithmetic(Book(q.lots, b.sales + q.sales, b.adjustments, Post(b.ledger, e).value), |b.sales|, |b.sales + q.sales|);
      }
    }
  }

  /** An adjustment is refused exactly when one of its three amounts does not fit, and for nothing else. */
  lemma ApplyDoneIff(b: Book, k: nat, r: nat)
    requires k < |b.sales| && r < |b.lots|
    ensures var d := Min(Abs(b.sales[k].realized), b.lots[r].original);
            ApplyAdjustment(b, k, r).Done?
            <==> IsAdjusted(b, k) || (InRange(Money, d) && InRange(Money, b.lots[r].adjusted + d) && InRange(Money, b.sales[k].realized + d))
    ensures ApplyAdjustment(b, k, r).Failed? ==> ApplyAdjustment(b, k, r).error.Arithmetic?
  {
    hide Add, Post, IsAdjusted;
    var sale, lot := b.sales[k], b.lots[r];
    var d := Min(Abs(sale.realized), lot.original);
    PostIs(b.ledger, Entry(WashSale, lot.acquired, 0, d, 0, -d));
    PostNeedsCost(b.ledger, Entry(WashSale, lot.acquired, 0, d, 0, -d));
    AddOk(Money, lot.adjusted, d);
    AddOk(Money, sale.realized, d);
  }

  lemma PostNeedsCost(ledger: seq<Entry>, e: Entry)
    ensures Post(ledger, e).Done? ==> InRange(Money, e.cost)
  {
    hide Add;
    AddOk(Money, 0, e.cost);
  }

  lemma {:induction false} WashIsArithmetic(b: Book, k: nat, n: nat)
    requires k <= n == |b.sales|
    ensures WashEach(b, k, n).Failed? ==> WashEach(b, k, n).error.Arithmetic?
    decreases n - k
  {
    hide ApplyAdjustment, Replacements, IsAdjusted;
    if k < n {
      var rs := Replacements(b.lots, b.sales[k]);
      if b.sales[k].realized < 0 && !IsAdjusted(b, k) && rs != [] {
        assert rs[0] in rs;
        ApplyDoneIff(b, k, rs[0]);
      }
      if OnLossSale(b, k).Done? { WashIsArithmetic(OnLossSale(b, k).value, k + 1, n); }
    }
  }

  /** With arithmetic that fits, a sell runs out of lots exactly by what its order cannot supply. */
  lemma SellFallsShortIff(b: Book, f: Fill, designated: seq<nat>)
    requires NonNegative(b.lots) && f.quantity >= 0 && Select(b.lots, designated).Done?
    requires Draw(Start(SellLots(b, designated), f), Select(b.lots, designated).value, f).Done?
    ensures var have := Available(Remaining(b.lots), Select(b.lots, designated).value);
            && (f.quantity > have <==> Sell(b, f, designated).Failed? && Sell(b, f, designated).error.InsufficientLots?)
            && (f.quantity > have ==> Sell(b, f, designated) == Failed(InsufficientLots(f.quantity - have)))
  {
    hide Draw, Post, PriceTimesUnits, WashEach, OpenFifo, Named, Available;
    var order, s := Select(b.lots, designated).value, Start(SellLots(b, designated), f);
    NonNegativeLots(b.lots, s.lots);
    ShortBy(s, order, f);
    var q := Draw(s, order, f).value;
    if q.left <= 0 && Checked(PriceTimesUnits(f.price, f.quantity)).Done? {
      var e := Entry(TradeSell, f.date, -f.quantity, -q.basis, Checked(PriceTimesUnits(f.price, f.quantity)).value, -q.realized);
      PostIs(b.ledger, e);
      if Post(b.ledger, e).Done? {
        WashIsArithmetic(Book(q.lots, b.sales + q.sales, b.adjustments, Post(b.ledger, e).value), |b.sales|, |b.sales + q.sales|);
      }
    }
  }

  lemma NonNegativeLots(a: seq<Lot>, b: seq<Lot>)
    requires NonNegative(a) && Remaining(a) == Remaining(b)
    ensures NonNegative(b)
  {
    forall i | 0 <= i < |b| ensures b[i].remaining >= 0 { assert Remaining(a)[i] == Remaining(b)[i]; }
  }

  // ---------------------------------------------------------------- when a buy is accepted

  /**
   A buy gets past its constraints exactly when its cost fits money, its quantity is not negative and
   neither its id nor its execution has a lot; it is then refused only for an adjustment that does not fit.
   */
  lemma BuyAcceptedIff(b: Book, f: Fill, id: nat, w: int)
    ensures var cost := HalfEven(f.price * f.quantity, 100_000_000); var r := Buy(b, f, id, w);
            && (!InRange(Money, cost) ==> r.Failed? && r.error.Arithmetic?)
            && (InRange(Money, cost) ==>
                  (r == Failed(ConstraintViolation) <==> f.quantity < 0 || exists l :: l in b.lots && (l.id == id || l.execution == f.execution)))
            && (InRange(Money, cost) && r != Failed(ConstraintViolation) ==>
                  var c := Opened(b, f, id, w); r == CarryInto(c, Losses(c, f.date, 0), |b.lots|))
            && (r.Failed? ==> r == Failed(ConstraintViolation) || r.error.Arithmetic?)
  {
    hide PriceTimesUnits, Post, HalfEven, CarryInto, Losses;
    ProductOk(f.price, f.quantity);
    var cost := HalfEven(f.price * f.quantity, 100_000_000);
    PostIs(b.ledger, Entry(TradeBuy, f.date, f.quantity, cost, -cost, 0));
    var c := Opened(b, f, id, w);
    CarryIsArithmetic(c, Losses(c, f.date, 0), |b.lots|);
  }

  lemma {:induction false} CarryIsArithmetic(b: Book, candidates: seq<nat>, lot: nat)
    requires lot < |b.lots| && forall k :: k in candidates ==> k < |b.sales|
    ensures CarryInto(b, candidates, lot).Failed? ==> CarryInto(b, candidates, lot).error.Arithmetic?
    decreases |candidates|
  {
    hide ApplyAdjustment;
    if candidates != [] {
      var k := candidates[0];
      assert k in candidates && forall j :: j in candidates[1..] ==> j in candidates;
      if b.sales[k].lot == lot {
        CarryIsArithmetic(b, candidates[1..], lot);
      } else {
        ApplyDoneIff(b, k, lot);
        if ApplyAdjustment(b, k, lot).Done? { CarryIsArithmetic(ApplyAdjustment(b, k, lot).value, candidates[1..], lot); }
      }
    }
  }

  // ---------------------------------------------------------------- bases stay in range

  lemma ApplyFits(b: Book, k: nat, r: nat)
    requires k < |b.sales| && r < |b.lots| && ApplyAdjustment(b, k, r).Done? && BasesFit(b.lots)
    ensures BasesFit(ApplyAdjustment(b, k, r).value.lots)
  {
    hide ApplyAdjustment, IsAdjusted;
    ApplyDoneIff(b, k, r);
    ApplyIs(b, k, r);
  }

  lemma {:induction false} WashFits(b: Book, k: nat, n: nat)
    requires k <= n == |b.sales| && WashEach(b, k, n).Done? && BasesFit(b.lots)
    ensures BasesFit(WashEach(b, k, n).value.lots)
    decreases n - k
  {
    hide ApplyAdjustment, Replacements, IsAdjusted, BasesFit;
    if k < n {
      var rs := Replacements(b.lots, b.sales[k]);
      if b.sales[k].realized < 0 && !IsAdjusted(b, k) && rs != [] {
        assert rs[0] in rs;
        ApplyFits(b, k, rs[0]);
      }
      WashFits(OnLossSale(b, k).value, k + 1, n);
    }
  }

  lemma {:induction false} CarryFits(b: Book, candidates: seq<nat>, lot: nat)
    requires lot < |b.lots| && (forall k :: k in candidates ==> k < |b.sales|) && CarryInto(b, candidates, lot).Done? && BasesFit(b.lots)
    ensures BasesFit(CarryInto(b, candidates, lot).value.lots)
    decreases |candidates|
  {
    hide ApplyAdjustment, BasesFit;
    if candidates != [] {
      var k := candidates[0];
      assert k in candidates && forall j :: j in candidates[1..] ==> j in candidates;
      if b.sales[k].lot == lot {
        CarryFits(b, candidates[1..], lot);
      } else {
        ApplyFits(b, k, lot);
        CarryFits(ApplyAdjustment(b, k, lot).value, candidates[1..], lot);
      }
    }
  }

  lemma StepFits(b: Book, a: Action)
    requires ValidAction(a) && Sound(b) && BasesFit(b.lots)
    ensures BasesFit(Step(b, a).lots)
  {
    hide Buy, Sell, Split, BasesFit, HalfEven, CarryInto, Losses, Sound;
    if a.BuyFill? {
      BuyAcceptedIff(b, a.f, a.id, a.windowClosesAt);
      if Buy(b, a.f, a.id, a.windowClosesAt).Done? {
        OpenedFits(b, a.f, a.id, a.windowClosesAt);
        var c := Opened(b, a.f, a.id, a.windowClosesAt);
        CarryFits(c, Losses(c, a.f.date, 0), |b.lots|);
      }
    } else if a.SellFill? {
      if Sell(b, a.f, a.designated).Done? { SellFits(b, a.f, a.designated); }
    } else if Split(b, a.ratio, a.date).Done? && Split(b, a.ratio, a.date).value != b {
      SplitFits(b, a.ratio, a.date);
    }
  }

  lemma OpenedFits(b: Book, f: Fill, id: nat, w: int)
    requires BasesFit(b.lots) && InRange(Money, HalfEven(f.price * f.quantity, 100_000_000))
    ensures BasesFit(Opened(b, f, id, w).lots)
  {
    hide HalfEven;
  }

  lemma SellFits(b: Book, f: Fill, designated: seq<nat>)
    requires BasesFit(b.lots) && Sell(b, f, designated).Done?
    ensures BasesFit(Sell(b, f, designated).value.lots)
  {
    hide Sell, Draw, WashEach, HalfEven, Sum, OpenFifo, Named;
    var marked, order := SellIs(b, f, designated);
    forall i | 0 <= i < |marked| ensures InRange(Money, marked[i].adjusted) { assert Bases(marked)[i] == Bases(b.lots)[i]; }
    DrawIsConsumed(Start(marked, f), order, f);
    var c := Sold(b, Draw(Start(marked, f), order, f).value, f);
    WashFits(c, |b.sales|, |c.sales|);
  }

  lemma SplitFits(b: Book, ratio: Ratio, date: int)
    requires Sound(b) && ValidRatio(ratio) && BasesFit(b.lots) && Split(b, ratio, date).Done? && Split(b, ratio, date).value != b
    ensures BasesFit(Split(b, ratio, date).value.lots)
  {
    hide Split, SplitLots, PriorTotal, UnitsTimes;
    SplitIs(b, ratio, date);
    SplitLotsIs(b.lots, AsDecimal(ratio));
  }

  /** After any run every lot's basis fits money, so the closed form applies to every sell. */
  lemma {:induction false} RunFits(actions: seq<Action>)
    requires forall i :: 0 <= i < |actions| ==> ValidAction(actions[i])
    ensures BasesFit(Run(actions).lots)
    decreases |actions|
  {
    hide Step, Inv;
    if actions != [] {
      var n := |actions| - 1;
      RunFits(actions[..n]);
      LotRunSafety(actions[..n]);
      InvSound(Run(actions[..n]));
      StepFits(Run(actions[..n]), actions[n]);
    }
  }

  lemma InvSound(b: Book)
    requires Inv(b)
    ensures Sound(b)
  {
  }
}
