/**
 Splits by a decimal ratio: each lot is rounded on its own, the posted units are rounded once, and
 the position account drifts from the lots by the difference.
 */
module TaxLotSplits {
  import opened Attempts
  import opened Sums
  import opened Rounding
  import opened FixedPoint
  import opened TaxLots
  import opened TaxLotDraws
  import opened TaxLotSales
  import opened TaxLotBook

  // ---------------------------------------------------------------- integer ratios

  lemma {:induction false} PriorTotalDoneIff(lots: seq<Lot>)
    requires NonNegative(lots)
    ensures PriorTotal(lots).Done? <==> InRange(Units, Sum(Remaining(lots)))
    ensures PriorTotal(lots).Failed? ==> PriorTotal(lots).error.Arithmetic?
    decreases |lots|
  {
    hide Add, Sum;
    if lots == [] {
      NothingRemains(lots);
    } else {
      var n := |lots| - 1;
      PriorTotalDoneIff(lots[..n]);
      TotalNonNegative(lots[..n]);
      LastRemaining(lots);
      if PriorTotal(lots[..n]).Done? {
        PriorTotalIs(lots[..n]);
        AddOk(Units, PriorTotal(lots[..n]).value, lots[n].remaining);
      }
    }
  }

  /** A lot split n for one; a closed lot stays as it is. */
  ghost function Multiplied(l: Lot, n: int): Lot {
    if l.remaining == 0 then l else l.(opening := l.opening * n, remaining := l.remaining * n)
  }

  ghost predicate MultipleFits(l: Lot, n: int) {
    l.remaining == 0 || (InRange(Units, l.opening * n) && InRange(Units, l.remaining * n))
  }

  lemma {:induction false} MultipliedLots(lots: seq<Lot>, n: int)
    requires NonNegative(lots)
    ensures SplitLots(lots, Rat(n, 1)).Done? <==> forall i :: 0 <= i < |lots| ==> MultipleFits(lots[i], n)
    ensures SplitLots(lots, Rat(n, 1)).Failed? ==> SplitLots(lots, Rat(n, 1)).error.Arithmetic?
    ensures SplitLots(lots, Rat(n, 1)).Done? ==>
              forall i :: 0 <= i < |lots| ==> SplitLots(lots, Rat(n, 1)).value[i] == Multiplied(lots[i], n)
    decreases |lots|
  {
    hide SplitLot;
    if lots != [] {
      var k := |lots| - 1;
      MultipliedLots(lots[..k], n);
      SplitLotWhole(lots[k], n);
      assert forall i :: 0 <= i < k ==> lots[..k][i] == lots[i];
    }
  }

  ghost predicate HasOpen(lots: seq<Lot>) {
    exists i :: 0 <= i < |lots| && lots[i].remaining > 0
  }

  /**
   An n-for-one split is refused as a bad ratio exactly up to one, and for arithmetic exactly when a new
   quantity, the total or the added units do not fit. It multiplies the opening and the remaining
   quantity of each open lot, leaves everything else alone and posts the added units.
   */
  lemma WholeSplitIs(b: Book, n: int, date: int)
    requires NonNegative(b.lots)
    ensures Split(b, Whole(n), date) == Failed(BadRatio) <==> n <= 1
    ensures n > 1 ==>
              (Split(b, Whole(n), date).Done?
               <==> !HasOpen(b.lots)
                    || (&& (forall i :: 0 <= i < |b.lots| ==> MultipleFits(b.lots[i], n))
                        && InRange(Units, Sum(Remaining(b.lots))) && InRange(Units, Sum(Remaining(b.lots)) * (n - 1))))
    ensures Split(b, Whole(n), date).Done? ==>
              var c := Split(b, Whole(n), date).value;
              && |c.lots| == |b.lots| && (forall i :: 0 <= i < |b.lots| ==> c.lots[i] == Multiplied(b.lots[i], n))
              && c.sales == b.sales && c.adjustments == b.adjustments
              && c.ledger == b.ledger + if HasOpen(b.lots) then [Entry(SplitEntry, date, Sum(Remaining(b.lots)) * (n - 1), 0, 0, 0)] else []
  {
    hide UnitsTimes, Post, SplitLots, PriorTotal, MultipleFits, Multiplied, Sum, HasOpen;
    OpenIff(b.lots);
    if n > 1 && HasOpen(b.lots) {
      PriorTotalDoneIff(b.lots);
      MultipliedLots(b.lots, n);
      AddedUnits(b.ledger, Sum(Remaining(b.lots)), n - 1, date);
      if PriorTotal(b.lots).Done? { PriorTotalIs(b.lots); }
    } else if n > 1 {
      NothingIsOpen(b.lots, n);
    }
  }

  lemma AddedUnits(ledger: seq<Entry>, total: int, n: int, date: int)
    ensures Checked(UnitsTimes(total, Rat(n, 1))).Done? <==> InRange(Units, total * n)
    ensures Checked(UnitsTimes(total, Rat(n, 1))).Done? ==> Checked(UnitsTimes(total, Rat(n, 1))).value == total * n
    ensures Post(ledger, Entry(SplitEntry, date, total * n, 0, 0, 0)) == Done(ledger + [Entry(SplitEntry, date, total * n, 0, 0, 0)])
  {
    hide UnitsTimes, Post;
    UnitsTimesWhole(total, n);
    PostIs(ledger, Entry(SplitEntry, date, total * n, 0, 0, 0));
  }

  lemma NothingIsOpen(lots: seq<Lot>, n: int)
    requires NonNegative(lots) && !HasOpen(lots)
    ensures forall i :: 0 <= i < |lots| ==> lots[i] == Multiplied(lots[i], n)
  {
  }

  lemma OpenIff(lots: seq<Lot>)
    ensures HasOpen(lots) <==> !(forall l :: l in lots ==> l.remaining <= 0)
  {
  }

  // ---------------------------------------------------------------- decimal ratios

  /** A decimal number of at most 28 digits after subtracting one: den is a power of ten. */
  ghost predicate DecimalRatio(d: Rat, k: nat) {
    d.den == Pow10(k) && d.den < d.num < d.den + E28(1)
  }

  /** Each quantity times the ratio, rounded on its own. */
  ghost function Scaled(rem: seq<int>, d: Rat): (r: seq<int>)
    requires d.den > 0
    ensures |r| == |rem| && forall i :: 0 <= i < |r| ==> r[i] == HalfEven(rem[i] * d.num, d.den)
  {
    seq(|rem|, i requires 0 <= i < |rem| => HalfEven(rem[i] * d.num, d.den))
  }

  /** The ratio less one is exact. */
  lemma LessOneIsExact(d: Rat, k: nat)
    requires DecimalRatio(d, k)
    ensures var r := LessOne(Fraction(d)); r.num * d.den == (d.num - d.den) * r.den && r.num >= 0 && r.den > 0
  {
    hide Round28;
    Round28Exact(d.num - d.den, d.den, d.num - d.den, k);
  }

  /** Equal decimals scale quantities equally. */
  lemma SameFactor(u: int, r: Rat, q: Rat)
    requires u >= 0 && r.den > 0 && q.den > 0 && r.num >= 0 && q.num >= 0 && r.num * q.den == q.num * r.den
    ensures UnitsTimes(u, r) == UnitsTimes(u, q)
  {
    hide Round28, Construct;
    CrossScaled(u, r, q);
    Round28Cross(u * q.num, 1_000_000 * q.den, u * r.num, 1_000_000 * r.den);
  }

  lemma CrossScaled(u: int, r: Rat, q: Rat)
    requires u >= 0 && r.num >= 0 && q.num >= 0 && r.num * q.den == q.num * r.den
    ensures u * r.num >= 0 && u * q.num >= 0
    ensures (u * r.num) * (1_000_000 * q.den) == (u * q.num) * (1_000_000 * r.den)
  {
    assert (u * r.num) * (1_000_000 * q.den) == 1_000_000 * (u * (r.num * q.den));
    assert (u * q.num) * (1_000_000 * r.den) == 1_000_000 * (u * (q.num * r.den));
  }

  /** Below the bound the posted units are the single rounding of the exact product. */
  lemma AddedIs(b: Book, d: Rat, k: nat)
    requires DecimalRatio(d, k) && Sum(Remaining(b.lots)) >= 0
    requires Sum(Remaining(b.lots)) * d.num < E27(1)
    ensures Checked(UnitsTimes(Sum(Remaining(b.lots)), LessOne(Fraction(d)))).Done? ==>
              Added(b, Fraction(d)) == HalfEven(Sum(Remaining(b.lots)) * (d.num - d.den), d.den)
  {
    hide LessOne, UnitsTimes, HalfEven, Sum;
    var t, m := Sum(Remaining(b.lots)), Rat(d.num - d.den, d.den);
    LessOneIsExact(d, k);
    SameFactor(t, LessOne(Fraction(d)), m);
    SmallerProduct(t, d.num - d.den, d.num);
    UnitsTimesRoundsOnce(t, m);
  }

  lemma SmallerProduct(t: int, x: int, y: int)
    requires t >= 0 && 0 <= x <= y
    ensures 0 <= t * x <= t * y
  {
    assert t * (y - x) >= 0;
  }

  /** Below the bound the quantities of each open lot become the single roundings of their exact products. */
  lemma SplitLotIs(l: Lot, d: Rat)
    requires d.den > 0 && d.num > 0 && l.remaining >= 0 && l.remaining * d.num < E27(1)
    ensures SplitLot(l, d).Done? ==> SplitLot(l, d).value.remaining == HalfEven(l.remaining * d.num, d.den)
    ensures l.remaining > 0 && -E27(1) < l.opening * d.num < E27(1) ==>
              var opening, remaining := HalfEven(l.opening * d.num, d.den), HalfEven(l.remaining * d.num, d.den);
              && (SplitLot(l, d).Done? <==> InRange(Units, opening) && InRange(Units, remaining))
              && (SplitLot(l, d).Done? ==> SplitLot(l, d).value == l.(opening := opening, remaining := remaining))
  {
    hide UnitsTimes, HalfEven;
    if l.remaining > 0 {
      if -E27(1) < l.opening * d.num < E27(1) { UnitsTimesRoundsOnce(l.opening, d); }
      SmallerProduct(d.num, 0, l.remaining);
      UnitsTimesRoundsOnce(l.remaining, d);
    } else {
      NothingScales(d);
    }
  }

  lemma NothingScales(d: Rat)
    requires d.den > 0
    ensures HalfEven(0 * d.num, d.den) == 0
  {
  }

  lemma {:induction false} SplitLotsAre(lots: seq<Lot>, d: Rat)
    requires d.den > 0 && d.num > 0 && NonNegative(lots) && SplitLots(lots, d).Done?
    requires forall i :: 0 <= i < |lots| ==> lots[i].remaining * d.num < E27(1)
    ensures Remaining(SplitLots(lots, d).value) == Scaled(Remaining(lots), d)
    decreases |lots|
  {
    hide SplitLot, HalfEven;
    if lots != [] {
      var n := |lots| - 1;
      SplitLotsAre(lots[..n], d);
      SplitLotIs(lots[n], d);
      var before := SplitLots(lots[..n], d).value;
      forall i | 0 <= i < n ensures before[i].remaining == HalfEven(lots[i].remaining * d.num, d.den) {
        assert before[i].remaining == Remaining(before)[i] == Scaled(Remaining(lots[..n]), d)[i];
      }
    }
  }

  ghost function Drift(rem: seq<int>, d: Rat): int
    requires d.den > 0
  {
    HalfEven(Sum(rem) * (d.num - d.den), d.den) - (Sum(Scaled(rem, d)) - Sum(rem))
  }

  /**
   For a decimal ratio num/den and lots whose total T, times num, is below 10^27: the units account
   moves away from the lots by the rounding of the total T(num - den)/den less the growth of the lots,
   each rounded on its own. So it stays in step if and only if the two are equal.
   */
  lemma DecimalSplitDrift(b: Book, d: Rat, k: nat, date: int)
    requires Inv(b) && DecimalRatio(d, k) && Split(b, Fraction(d), date).Done?
    requires Sum(Remaining(b.lots)) * d.num < E27(1)
    ensures UnitsGap(Split(b, Fraction(d), date).value) - UnitsGap(b) == Drift(Remaining(b.lots), d)
    ensures UnitsGap(Split(b, Fraction(d), date).value) == UnitsGap(b)
            <==> Sum(Scaled(Remaining(b.lots), d)) == Sum(Remaining(b.lots)) + HalfEven(Sum(Remaining(b.lots)) * (d.num - d.den), d.den)
  {
    hide Split, Sum, UnitsTimes, SplitLots, PriorTotal, LessOne, HalfEven, UnitsGap, Inv;
    var c := Split(b, Fraction(d), date).value;
    InvIsSound(b);
    TotalNonNegative(b.lots);
    if c == b {
      SplitKeepsOnlyClosed(b, Fraction(d), date);
      AllClosed(b.lots, d);
      NothingScales(Rat(d.num - d.den, d.den));
    } else {
      SplitKeepsInv(b, Fraction(d), date);
      SplitIs(b, Fraction(d), date);
      AddedIs(b, d, k);
      EachBelow(b.lots, d);
      SplitLotsAre(b.lots, d);
    }
  }

  lemma InvIsSound(b: Book)
    requires Inv(b)
    ensures NonNegative(b.lots) && Sound(b)
  {
  }

  lemma TotalNonNegative(lots: seq<Lot>)
    requires NonNegative(lots)
    ensures Sum(Remaining(lots)) >= 0
  {
    if lots != [] { ElementAtMostSum(Remaining(lots), 0); }
  }

  lemma EachBelow(lots: seq<Lot>, d: Rat)
    requires NonNegative(lots) && d.num > 0 && Sum(Remaining(lots)) * d.num < E27(1)
    ensures forall i :: 0 <= i < |lots| ==> lots[i].remaining * d.num < E27(1)
  {
    hide Sum;
    forall i | 0 <= i < |lots| ensures lots[i].remaining * d.num < E27(1) {
      ElementAtMostSum(Remaining(lots), i);
      SmallerProduct(d.num, lots[i].remaining, Sum(Remaining(lots)));
    }
  }

  /** A split that changes nothing found no open lot: with one, it posts an entry. */
  lemma SplitKeepsOnlyClosed(b: Book, ratio: Ratio, date: int)
    requires ValidRatio(ratio) && Split(b, ratio, date) == Done(b)
    ensures forall l :: l in b.lots ==> l.remaining <= 0
  {
    hide UnitsTimes, Post, SplitLots, PriorTotal, LessOne;
    var added := Checked(UnitsTimes(PriorOf(b.lots), LessOne(ratio)));
    if added.Done? { PostIs(b.ledger, Entry(SplitEntry, date, added.value, 0, 0, 0)); }
  }

  ghost function PriorOf(lots: seq<Lot>): int {
    if PriorTotal(lots).Done? then PriorTotal(lots).value else 0
  }

  lemma AllClosed(lots: seq<Lot>, d: Rat)
    requires d.den > 0 && NonNegative(lots) && forall l :: l in lots ==> l.remaining <= 0
    ensures Sum(Remaining(lots)) == 0 && Sum(Scaled(Remaining(lots), d)) == 0
  {
    hide HalfEven, Sum;
    NothingScales(d);
    forall i | 0 <= i < |lots| ensures lots[i].remaining == 0 { assert lots[i] in lots; }
    SumZero(Remaining(lots));
    SumZero(Scaled(Remaining(lots), d));
  }

  /** A 3-for-2 split of a millionth of a unit makes the lot two millionths and posts no units. */
  lemma FractionSplitCanDrift(lot: Lot)
    requires lot.opening == 1 && lot.remaining == 1
    ensures var b := Book([lot], [], [], []); var r := Split(b, Fraction(Rat(3, 2)), 0);
            r.Done? && UnitsGap(r.value) == UnitsGap(b) - 1
  {
    hide Sum, Split;
    var b, l := Book([lot], [], [], []), lot.(opening := 2, remaining := 2);
    DriftingSplit(lot, l);
    var c := Split(b, Fraction(Rat(3, 2)), 0).value;
    SplitGaps(b, c, 0, 0);
    RemainingAppend([], lot);
    RemainingAppend([], l);
    assert [] + [lot] == [lot] && [] + [l] == [l];
  }

  lemma DriftingSplit(lot: Lot, l: Lot)
    requires lot.opening == 1 && lot.remaining == 1 && l == lot.(opening := 2, remaining := 2)
    ensures Split(Book([lot], [], [], []), Fraction(Rat(3, 2)), 0) == Done(Book([l], [], [], [] + [Entry(SplitEntry, 0, 0, 0, 0, 0)]))
  {
    hide Add, UnitsTimes, LessOne, PriorTotal, SplitLots;
    HalfOfOne();
    AddSmall(Money, 0, 0);
    DriftingLots(lot, l);
    assert lot in [lot];
  }

  lemma DriftingLots(lot: Lot, l: Lot)
    requires lot.opening == 1 && lot.remaining == 1 && l == lot.(opening := 2, remaining := 2)
    ensures PriorTotal([lot]) == Done(1) && SplitLots([lot], Rat(3, 2)) == Done([l])
  {
    hide Add, UnitsTimes;
    ThreeHalves();
    AddSmall(Units, 0, 1);
    assert [lot][..0] == [];
    assert PriorTotal([]) == Done(0) && SplitLots([], Rat(3, 2)) == Done([]);
    assert SplitLot(lot, Rat(3, 2)) == Done(l) && [] + [l] == [l];
  }

  lemma ThreeHalves()
    ensures UnitsTimes(1, Rat(3, 2)) == Ok(2)
  {
    hide UnitsTimes;
    UnitsTimesRoundsOnce(1, Rat(3, 2));
  }

  lemma HalfOfOne()
    ensures UnitsTimes(1, LessOne(Fraction(Rat(3, 2)))) == Ok(0)
  {
    hide Round28, Construct;
    var r := Round28(1, 2);
    TenTimesOne();
    Round28Exact(1, 2, 5, 1);
    SameProduct(r);
    UnitsTimesRoundsOnce(1, Rat(1, 2));
  }

  lemma TenTimesOne()
    ensures Representable(1, 2, 5, 1)
  {
  }

  lemma SameProduct(r: Rat)
    requires r.num >= 0 && r.den > 0 && r.num * 2 == r.den
    ensures UnitsTimes(1, r) == UnitsTimes(1, Rat(1, 2))
  {
    hide Round28, Construct;
    Round28Cross(1, 2_000_000, r.num, 1_000_000 * r.den);
  }
}
