/** What a sell fill's pass over the lots conserves, in what order it draws, and when it suffices. */
module TaxLotDraws {
  import opened Attempts
  import opened Sums
  import opened Rounding
  import opened FixedPoint
  import opened TaxLots

  // ---------------------------------------------------------------- sums

  ghost function Remaining(lots: seq<Lot>): (r: seq<int>)
    ensures |r| == |lots| && forall i :: 0 <= i < |r| ==> r[i] == lots[i].remaining
  {
    seq(|lots|, i requires 0 <= i < |lots| => lots[i].remaining)
  }

  ghost function Bases(lots: seq<Lot>): (r: seq<int>)
    ensures |r| == |lots| && forall i :: 0 <= i < |r| ==> r[i] == lots[i].adjusted
  {
    seq(|lots|, i requires 0 <= i < |lots| => lots[i].adjusted)
  }

  ghost function Gains(sales: seq<Sale>): (r: seq<int>)
    ensures |r| == |sales| && forall i :: 0 <= i < |r| ==> r[i] == sales[i].realized
  {
    seq(|sales|, i requires 0 <= i < |sales| => sales[i].realized)
  }

  ghost function Taken(sales: seq<Sale>): (r: seq<int>)
    ensures |r| == |sales| && forall i :: 0 <= i < |r| ==> r[i] == sales[i].quantity
  {
    seq(|sales|, i requires 0 <= i < |sales| => sales[i].quantity)
  }

  /** What each quantity brings in at a price, rounded on its own. */
  ghost function Proceeds(takes: seq<int>, price: int): (r: seq<int>)
    ensures |r| == |takes| && forall i :: 0 <= i < |r| ==> r[i] == HalfEven(price * takes[i], 100_000_000)
  {
    seq(|takes|, i requires 0 <= i < |takes| => HalfEven(price * takes[i], 100_000_000))
  }

  lemma LotUpdate(lots: seq<Lot>, i: nat, l: Lot)
    requires i < |lots|
    ensures Sum(Remaining(lots[i := l])) == Sum(Remaining(lots)) - lots[i].remaining + l.remaining
    ensures Sum(Bases(lots[i := l])) == Sum(Bases(lots)) - lots[i].adjusted + l.adjusted
  {
    SumUpdate(Remaining(lots), i, l.remaining);
    SumUpdate(Bases(lots), i, l.adjusted);
    assert Remaining(lots[i := l]) == Remaining(lots)[i := l.remaining];
    assert Bases(lots[i := l]) == Bases(lots)[i := l.adjusted];
  }

  lemma SaleAppend(sales: seq<Sale>, x: Sale, price: int)
    ensures Sum(Gains(sales + [x])) == Sum(Gains(sales)) + x.realized
    ensures Sum(Taken(sales + [x])) == Sum(Taken(sales)) + x.quantity
    ensures Sum(Proceeds(Taken(sales + [x]), price)) == Sum(Proceeds(Taken(sales), price)) + HalfEven(price * x.quantity, 100_000_000)
  {
    SumAppend(Gains(sales), x.realized);
    SumAppend(Taken(sales), x.quantity);
    SumAppend(Proceeds(Taken(sales), price), HalfEven(price * x.quantity, 100_000_000));
    assert Gains(sales + [x]) == Gains(sales) + [x.realized];
    assert Taken(sales + [x]) == Taken(sales) + [x.quantity];
    assert Proceeds(Taken(sales + [x]), price) == Proceeds(Taken(sales), price) + [HalfEven(price * x.quantity, 100_000_000)];
  }

  // ---------------------------------------------------------------- arithmetic that succeeds is exact

  lemma AddOk(k: Kind, a: int, b: int)
    ensures Checked(Add(k, a, b)).Done? <==> InRange(k, a + b)
    ensures Checked(Add(k, a, b)).Done? ==> Checked(Add(k, a, b)).value == a + b
  {
    AddIsExact(k, a, b);
  }

  lemma ProductOk(p: int, u: int)
    ensures Checked(PriceTimesUnits(p, u)).Done? <==> InRange(Money, HalfEven(p * u, 100_000_000))
    ensures Checked(PriceTimesUnits(p, u)).Done? ==> Checked(PriceTimesUnits(p, u)).value == HalfEven(p * u, 100_000_000)
  {
    PriceTimesUnitsRoundsOnce(p, u);
  }

  // ---------------------------------------------------------------- one draw

  function Take(p: Progress, i: nat): (t: int)
    requires i < |p.lots|
    ensures t >= 0
  {
    if p.left <= 0 || p.lots[i].remaining <= 0 then 0 else Min(p.lots[i].remaining, p.left)
  }

  /** The rounded basis per unit of a lot. */
  ghost function PerUnit(lot: Lot): int
    requires lot.remaining != 0
  {
    Nearest(100_000_000 * lot.adjusted, lot.remaining)
  }

  /** What taking so many units takes out of the basis: the rounded product with the rounded basis per unit. */
  ghost function BasisOf(lot: Lot, take: int): int
    requires lot.remaining != 0
  {
    HalfEven(take * PerUnit(lot), 100_000_000)
  }

  /** For a partial draw as for a whole one, the basis is that product, and is found exactly when both roundings fit. */
  lemma DrawnBasisIs(lot: Lot, take: int)
    requires lot.remaining != 0 && InRange(Money, lot.adjusted)
    ensures DrawnBasis(lot, take).Done? <==> InRange(Price, PerUnit(lot)) && InRange(Money, BasisOf(lot, take))
    ensures DrawnBasis(lot, take).Done? ==> DrawnBasis(lot, take).value == BasisOf(lot, take)
  {
    hide Nearest, HalfEven, Construct, DecimalQuotient, PriceTimesUnits;
    QuotientRoundsOnce(Price, Units, lot.adjusted, lot.remaining);
    PriceTimesUnitsRoundsOnce(PerUnit(lot), take);
    assert PerUnit(lot) * take == take * PerUnit(lot);
  }

  /** One draw moves `take` units and their basis out of one lot; a basis within the range of money stays there. */
  ghost predicate Drawn(p: Progress, q: Progress, i: nat, f: Fill, basis: int)
    requires i < |p.lots|
  {
    var lot, take := p.lots[i], Take(p, i);
    if take == 0 then q == p
    else
      var realized := HalfEven(f.price * take, 100_000_000) - basis;
      && (InRange(Money, lot.adjusted) ==> basis == BasisOf(lot, take))
      && InRange(Money, lot.adjusted - basis)
      && q == Progress(p.lots[i := lot.(remaining := lot.remaining - take, adjusted := lot.adjusted - basis)],
                       p.sales + [Sale(i, take, realized, f.at < lot.windowClosesAt, f.date)],
                       p.left - take, p.basis + basis, p.realized + realized)
  }

  lemma DrawFromIs(p: Progress, i: nat, f: Fill) returns (basis: int)
    requires i < |p.lots| && DrawFrom(p, i, f).Done?
    ensures Drawn(p, DrawFrom(p, i, f).value, i, f, basis)
  {
    hide Add, PriceTimesUnits, DrawnBasis, HalfEven, BasisOf, PerUnit;
    var lot, take := p.lots[i], Take(p, i);
    basis := 0;
    if take > 0 {
      basis := DrawnBasis(lot, take).value;
      if InRange(Money, lot.adjusted) { DrawnBasisIs(lot, take); }
      var proceeds := Checked(PriceTimesUnits(f.price, take)).value;
      ProductOk(f.price, take);
      AddOk(Money, proceeds, -basis);
      AddOk(Units, lot.remaining, -take);
      AddOk(Money, lot.adjusted, -basis);
      AddOk(Money, p.basis, basis);
      AddOk(Money, p.realized, proceeds - basis);
      AddOk(Units, p.left, -take);
    }
  }

  // ---------------------------------------------------------------- what the pass conserves

  /** Lots differ only in what has been consumed from them and in their designation. */
  ghost predicate SameLots(a: seq<Lot>, b: seq<Lot>) {
    && |a| == |b|
    && forall i :: 0 <= i < |a| ==> a[i] == b[i].(remaining := a[i].remaining, adjusted := a[i].adjusted, specific := a[i].specific)
  }

  ghost predicate SameMarks(a: seq<Lot>, b: seq<Lot>) {
    |a| == |b| && forall i :: 0 <= i < |a| ==> b[i].specific == a[i].specific
  }

  ghost predicate NonNegative(lots: seq<Lot>) {
    forall i :: 0 <= i < |lots| ==> lots[i].remaining >= 0
  }

  /** Units, basis, gains and proceeds are moved, never created. */
  ghost predicate Conserves(p: Progress, q: Progress, price: int) {
    && SameLots(p.lots, q.lots) && SameMarks(p.lots, q.lots)
    && Sum(Remaining(q.lots)) - q.left == Sum(Remaining(p.lots)) - p.left
    && Sum(Bases(q.lots)) + q.basis == Sum(Bases(p.lots)) + p.basis
    && Sum(Gains(q.sales)) - q.realized == Sum(Gains(p.sales)) - p.realized
    && Sum(Taken(q.sales)) + q.left == Sum(Taken(p.sales)) + p.left
    && Sum(Proceeds(Taken(q.sales), price)) - q.basis - q.realized == Sum(Proceeds(Taken(p.sales), price)) - p.basis - p.realized
  }

  lemma DrawFromConserves(p: Progress, i: nat, f: Fill)
    requires i < |p.lots| && DrawFrom(p, i, f).Done?
    ensures Conserves(p, DrawFrom(p, i, f).value, f.price)
  {
    hide DrawFrom, Sum, HalfEven;
    var basis := DrawFromIs(p, i, f);
    var q := DrawFrom(p, i, f).value;
    if Take(p, i) > 0 {
      LotUpdate(p.lots, i, q.lots[i]);
      SaleAppend(p.sales, q.sales[|p.sales|], f.price);
    }
  }

  lemma {:induction false} DrawConserves(p: Progress, order: seq<nat>, f: Fill)
    requires (forall i :: i in order ==> i < |p.lots|) && Draw(p, order, f).Done?
    ensures Conserves(p, Draw(p, order, f).value, f.price)
    decreases |order|
  {
    hide DrawFrom, Sum, Remaining, Bases, Gains, Taken, Proceeds;
    if order != [] {
      assert order[0] in order && forall i :: i in order[1..] ==> i in order;
      DrawFromConserves(p, order[0], f);
      DrawConserves(DrawFrom(p, order[0], f).value, order[1..], f);
    }
  }

  /** Draws only ever lower a lot, never below zero, and never sell more than is left. */
  ghost predicate Lowers(p: Progress, q: Progress) {
    && |p.lots| == |q.lots|
    && (p.left >= 0 ==> q.left >= 0) && q.left <= p.left
    && (p.left <= 0 ==> q == p)
    && forall i :: 0 <= i < |p.lots| ==> q.lots[i].remaining <= p.lots[i].remaining && (p.lots[i].remaining >= 0 ==> q.lots[i].remaining >= 0)
  }

  lemma DrawFromLowers(p: Progress, i: nat, f: Fill)
    requires i < |p.lots| && DrawFrom(p, i, f).Done?
    ensures Lowers(p, DrawFrom(p, i, f).value)
  {
    hide DrawFrom, HalfEven;
    var basis := DrawFromIs(p, i, f);
  }

  lemma {:induction false} DrawLowers(p: Progress, order: seq<nat>, f: Fill)
    requires (forall i :: i in order ==> i < |p.lots|) && Draw(p, order, f).Done?
    ensures Lowers(p, Draw(p, order, f).value)
    decreases |order|
  {
    hide DrawFrom;
    if order != [] {
      assert order[0] in order && forall i :: i in order[1..] ==> i in order;
      DrawFromLowers(p, order[0], f);
      DrawLowers(DrawFrom(p, order[0], f).value, order[1..], f);
    }
  }

  lemma NothingLeftToDraw(p: Progress, order: seq<nat>, f: Fill)
    requires p.left <= 0 && forall i :: i in order ==> i < |p.lots|
    ensures Draw(p, order, f) == Done(p)
    decreases |order|
  {
    if order != [] {
      assert order[0] in order && forall i :: i in order[1..] ==> i in order;
      NothingLeftToDraw(p, order[1..], f);
    }
  }

  // ---------------------------------------------------------------- the order of consumption

  /** Once a lot is drawn on, every other lot before it in the order ends up empty. */
  lemma {:induction false} EarlierIsEmptied(p: Progress, order: seq<nat>, f: Fill, a: nat, b: nat)
    requires (forall i :: i in order ==> i < |p.lots|) && Draw(p, order, f).Done? && NonNegative(p.lots)
    requires a < b < |order| && order[a] != order[b]
    requires forall i :: 0 <= i <= b ==> order[i] == order[b] ==> i == b
    requires order[a] < |p.lots| && order[b] < |p.lots|
    requires Draw(p, order, f).value.lots[order[b]].remaining < p.lots[order[b]].remaining
    ensures Draw(p, order, f).value.lots[order[a]].remaining == 0
    decreases |order|
  {
    hide DrawFrom, HalfEven;
    assert order[0] in order && forall i :: i in order[1..] ==> i in order;
    var q := DrawFrom(p, order[0], f).value;
    var basis := DrawFromIs(p, order[0], f);
    DrawFromLowers(p, order[0], f);
    DrawLowers(q, order[1..], f);
    if a == 0 {
      assert order[0] != order[b];
      assert q.left <= 0 || q.lots[order[0]].remaining == 0;
    } else {
      EarlierIsEmptied(q, order[1..], f, a - 1, b - 1);
    }
  }

  // ---------------------------------------------------------------- when the lots suffice

  /** What an order of lots can supply, each lot once. */
  ghost function Available(rem: seq<int>, order: seq<nat>): int
    requires forall i :: i in order ==> i < |rem|
    decreases |order|
  {
    if order == [] then 0
    else
      assert order[0] in order && forall i :: i in order[1..] ==> i in order;
      rem[order[0]] + Available(rem[order[0] := 0], order[1..])
  }

  lemma {:induction false} AvailableNonNegative(rem: seq<int>, order: seq<nat>)
    requires (forall i :: i in order ==> i < |rem|) && forall i :: 0 <= i < |rem| ==> rem[i] >= 0
    ensures Available(rem, order) >= 0
    decreases |order|
  {
    if order != [] {
      assert order[0] in order && forall i :: i in order[1..] ==> i in order;
      AvailableNonNegative(rem[order[0] := 0], order[1..]);
    }
  }

  /** The pass falls short exactly by what the order cannot supply. */
  lemma {:induction false} ShortBy(p: Progress, order: seq<nat>, f: Fill)
    requires (forall i :: i in order ==> i < |p.lots|) && Draw(p, order, f).Done?
    requires NonNegative(p.lots) && p.left >= 0
    ensures var have := Available(Remaining(p.lots), order);
            Draw(p, order, f).value.left == if p.left <= have then 0 else p.left - have
    decreases |order|
  {
    hide DrawFrom, HalfEven;
    if order != [] {
      var i := order[0];
      assert i in order && forall j :: j in order[1..] ==> j in order;
      var q := DrawFrom(p, i, f).value;
      var basis := DrawFromIs(p, i, f);
      DrawFromLowers(p, i, f);
      ShortBy(q, order[1..], f);
      AvailableNonNegative(Remaining(p.lots)[i := 0], order[1..]);
      AvailableNonNegative(Remaining(q.lots), order[1..]);
      if p.left >= p.lots[i].remaining {
        assert Remaining(q.lots) == Remaining(p.lots)[i := 0];
      }
    }
  }

  /** What is in no order's reach is what emptying every lot of the order leaves. */
  lemma {:induction false} AvailableIsAll(rem: seq<int>, order: seq<nat>)
    requires forall i :: i in order ==> i < |rem|
    requires forall i :: 0 <= i < |rem| && i !in order ==> rem[i] == 0
    ensures Available(rem, order) == Sum(rem)
    decreases |order|
  {
    if order == [] {
      SumZero(rem);
    } else {
      var i := order[0];
      assert i in order && forall j :: j in order[1..] ==> j in order;
      var next := rem[i := 0];
      forall j | 0 <= j < |next| && j !in order[1..] ensures next[j] == 0 {
        if j != i { assert order == [i] + order[1..]; }
      }
      AvailableIsAll(next, order[1..]);
      SumUpdate(rem, i, 0);
    }
  }
}
