/**
 A sell fill and a buy fill of the same security handled at once, by two outbox workers: each
 transaction sees the committed book, not the other's rows, and both commit. Their writes are to
 different rows, so everything else is kept; a wash sale between the two can be missed.
 */
module TaxLotConcurrency {
  import opened Attempts
  import opened Sums
  import opened Rounding
  import opened FixedPoint
  import opened TaxLots
  import opened TaxLotDraws
  import opened TaxLotSales
  import opened TaxLotBook
  import opened TaxLotBalance
  import opened Sorting

  // ---------------------------------------------------------------- what each transaction writes

  /** New adjustments and entries come after the old ones; the new adjustments are of sales in a range. */
  ghost predicate Adds(b: Book, c: Book, from: nat, to: nat) {
    && b.adjustments <= c.adjustments && b.ledger <= c.ledger
    && forall i :: |b.adjustments| <= i < |c.adjustments| ==> from <= c.adjustments[i].sale < to
  }

  lemma AddsTwice(b: Book, c: Book, d: Book, from: nat, to: nat)
    requires Adds(b, c, from, to) && Adds(c, d, from, to)
    ensures Adds(b, d, from, to)
  {
  }

  lemma AddsWider(b: Book, c: Book, from: nat, to: nat, low: nat, high: nat)
    requires Adds(b, c, from, to) && low <= from && to <= high
    ensures Adds(b, c, low, high)
  {
  }

  lemma ApplyAdds(b: Book, k: nat, r: nat)
    requires k < |b.sales| && r < |b.lots| && ApplyAdjustment(b, k, r).Done?
    ensures var c := ApplyAdjustment(b, k, r).value;
            && Adds(b, c, k, k + 1)
            && (forall j :: 0 <= j < |b.sales| && j != k ==> c.sales[j] == b.sales[j])
            && (forall i :: 0 <= i < |b.lots| && i != r ==> c.lots[i] == b.lots[i])
  {
    hide ApplyAdjustment, IsAdjusted;
    ApplyIs(b, k, r);
  }

  lemma OnLossSaleAdds(b: Book, k: nat)
    requires k < |b.sales| && OnLossSale(b, k).Done?
    ensures var c := OnLossSale(b, k).value;
            Adds(b, c, k, k + 1) && forall j :: 0 <= j < |b.sales| && j != k ==> c.sales[j] == b.sales[j]
  {
    hide ApplyAdjustment, IsAdjusted, Replacements;
    var rs := Replacements(b.lots, b.sales[k]);
    if !(b.sales[k].realized >= 0 || IsAdjusted(b, k) || rs == []) {
      assert rs[0] in rs;
      ApplyAdds(b, k, rs[0]);
    }
  }

  /** The wash-sale checks of new consumptions leave the old ones alone. */
  lemma {:induction false} WashEachAdds(b: Book, k: nat, n: nat)
    requires k <= n == |b.sales| && WashEach(b, k, n).Done?
    ensures var c := WashEach(b, k, n).value;
            Adds(b, c, k, n) && |c.sales| == n && forall j :: 0 <= j < k ==> c.sales[j] == b.sales[j]
    decreases n - k
  {
    hide OnLossSale;
    if k < n {
      var c := OnLossSale(b, k).value;
      OnLossSaleAdds(b, k);
      WashEachAdds(c, k + 1, n);
      var d := WashEach(b, k, n).value;
      AddsWider(b, c, k, k + 1, k, n);
      AddsWider(c, d, k + 1, n, k, n);
      AddsTwice(b, c, d, k, n);
    }
  }

  /** Carrying old losses into a new lot leaves the other lots alone. */
  lemma {:induction false} CarryIntoAdds(b: Book, candidates: seq<nat>, lot: nat)
    requires lot < |b.lots| && (forall k :: k in candidates ==> k < |b.sales|) && CarryInto(b, candidates, lot).Done?
    ensures var c := CarryInto(b, candidates, lot).value;
            && Adds(b, c, 0, |b.sales|) && |c.sales| == |b.sales| && |c.lots| == |b.lots|
            && forall i :: 0 <= i < |b.lots| && i != lot ==> c.lots[i] == b.lots[i]
    decreases |candidates|
  {
    hide ApplyAdjustment;
    if candidates != [] {
      var k := candidates[0];
      assert k in candidates && forall j :: j in candidates[1..] ==> j in candidates;
      if b.sales[k].lot == lot {
        CarryIntoAdds(b, candidates[1..], lot);
      } else {
        var c := ApplyAdjustment(b, k, lot).value;
        ApplyAdds(b, k, lot);
        CarryIntoAdds(c, candidates[1..], lot);
        var d := CarryInto(b, candidates, lot).value;
        AddsWider(b, c, k, k + 1, 0, |b.sales|);
        AddsTwice(b, c, d, 0, |b.sales|);
      }
    }
  }

  /** A sell appends consumptions and amends none of the old ones; it opens no lot. */
  ghost predicate SellWrites(b: Book, s: Book) {
    && Adds(b, s, |b.sales|, |s.sales|) && SameLots(b.lots, s.lots)
    && |b.sales| <= |s.sales| && s.sales[..|b.sales|] == b.sales
  }

  lemma SellIsWrites(b: Book, f: Fill, designated: seq<nat>)
    requires Sell(b, f, designated).Done?
    ensures SellWrites(b, Sell(b, f, designated).value)
  {
    hide Sell, Draw, WashEach, HalfEven, Sum, Named, OpenFifo, SameLots;
    var marked, order := SellIs(b, f, designated);
    var p := Draw(Start(marked, f), order, f).value;
    var c := Sold(b, p, f);
    DrawConserves(Start(marked, f), order, f);
    SameTwice(b.lots, marked, p.lots);
    WashEachAdds(c, |b.sales|, |c.sales|);
    WashEachKeeps(c, |b.sales|, |c.sales|);
    var d := WashEach(c, |b.sales|, |c.sales|).value;
    KeepsSame(c, d);
    SameTwice(b.lots, c.lots, d.lots);
    AddsPrefix(b, c, d, |b.sales|, |c.sales|);
    forall j | 0 <= j < |b.sales| ensures d.sales[j] == b.sales[j] { assert c.sales[j] == b.sales[j]; }
  }

  lemma KeepsSame(b: Book, c: Book)
    requires Keeps(b, c)
    ensures SameLots(b.lots, c.lots)
  {
  }

  lemma AddsPrefix(b: Book, c: Book, d: Book, from: nat, to: nat)
    requires c.adjustments == b.adjustments && b.ledger <= c.ledger && Adds(c, d, from, to)
    ensures Adds(b, d, from, to)
  {
  }

  /** A buy opens one lot, amends old consumptions only and leaves the old lots alone. */
  ghost predicate BuyWrites(b: Book, c: Book, f: Fill) {
    && Adds(b, c, 0, |b.sales|) && |c.sales| == |b.sales| && |c.lots| == |b.lots| + 1
    && c.lots[..|b.lots|] == b.lots && c.lots[|b.lots|].acquired == f.date
    && forall k :: 0 <= k < |b.sales| ==> c.sales[k] == b.sales[k].(realized := c.sales[k].realized)
  }

  lemma BuyIsWrites(b: Book, f: Fill, id: nat, w: int)
    requires Buy(b, f, id, w).Done?
    ensures BuyWrites(b, Buy(b, f, id, w).value, f)
  {
    hide Buy, CarryInto, Losses, HalfEven, UnitsGap, CostGap, GainGap, Balanced, AdjustedOnce, IsAdjusted, Remaining;
    BuyIs(b, f, id, w);
    var c := Opened(b, f, id, w);
    var candidates := Losses(c, f.date, 0);
    CarryIntoAdds(c, candidates, |b.lots|);
    CarryIntoKeeps(c, candidates, |b.lots|);
    var d := CarryInto(c, candidates, |b.lots|).value;
    AddsPrefix(b, c, d, 0, |b.sales|);
    forall i | 0 <= i < |b.lots| ensures d.lots[i] == b.lots[i] { assert c.lots[i] == b.lots[i]; }
    forall k | 0 <= k < |b.sales| ensures d.sales[k] == b.sales[k].(realized := d.sales[k].realized) { assert SaleKept(c, d, k); }
  }

  // ---------------------------------------------------------------- both committed

  /** The tables after both commits: the sell's lots and the new one, the buy's amended consumptions and the new ones. */
  ghost function Both(b: Book, s: Book, c: Book): Book
    requires |b.sales| <= |s.sales| && |b.lots| < |c.lots|
    requires |b.adjustments| <= |c.adjustments| && |b.ledger| <= |c.ledger|
  {
    Book(s.lots + c.lots[|b.lots|..], c.sales + s.sales[|b.sales|..],
         s.adjustments + c.adjustments[|b.adjustments|..], s.ledger + c.ledger[|b.ledger|..])
  }

  lemma BothAdjusted(b: Book, s: Book, c: Book, f: Fill, k: nat)
    requires SellWrites(b, s) && BuyWrites(b, c, f)
    ensures k < |b.sales| ==> (IsAdjusted(Both(b, s, c), k) <==> IsAdjusted(c, k))
    ensures |b.sales| <= k && AdjustedOnce(b) ==> (IsAdjusted(Both(b, s, c), k) <==> IsAdjusted(s, k))
  {
    var m := Both(b, s, c);
    var more := c.adjustments[|b.adjustments|..];
    assert c.adjustments == b.adjustments + more && s.adjustments == b.adjustments + s.adjustments[|b.adjustments|..];
    assert forall a :: a in m.adjustments <==> a in s.adjustments || a in more;
    forall a | a in s.adjustments && a !in b.adjustments ensures |b.sales| <= a.sale {
      var i :| 0 <= i < |s.adjustments| && s.adjustments[i] == a;
      if i < |b.adjustments| { assert s.adjustments[i] == b.adjustments[i]; }
    }
    forall a | a in more ensures a.sale < |b.sales| {
      var i :| 0 <= i < |more| && more[i] == a;
      assert more[i] == c.adjustments[|b.adjustments| + i];
    }
  }

  /** Sums over both tables differ from the start by what each of the two adds. */
  lemma BothGaps(b: Book, s: Book, c: Book, f: Fill)
    requires SellWrites(b, s) && BuyWrites(b, c, f)
    ensures var m := Both(b, s, c);
            && UnitsGap(m) == UnitsGap(s) + UnitsGap(c) - UnitsGap(b)
            && CostGap(m) == CostGap(s) + CostGap(c) - CostGap(b)
            && GainGap(m) == GainGap(s) + GainGap(c) - GainGap(b)
  {
    hide Sum;
    BothLedger(b, s, c);
    BothLots(b, s, c);
    BothSales(b, s, c);
  }

  lemma BothLedger(b: Book, s: Book, c: Book)
    requires b.ledger <= c.ledger
    ensures var l := s.ledger + c.ledger[|b.ledger|..];
            && Sum(UnitLegs(l)) == Sum(UnitLegs(s.ledger)) + Sum(UnitLegs(c.ledger)) - Sum(UnitLegs(b.ledger))
            && Sum(CostLegs(l)) == Sum(CostLegs(s.ledger)) + Sum(CostLegs(c.ledger)) - Sum(CostLegs(b.ledger))
            && Sum(RealizedLegs(l)) == Sum(RealizedLegs(s.ledger)) + Sum(RealizedLegs(c.ledger)) - Sum(RealizedLegs(b.ledger))
  {
    hide Sum;
    var more := c.ledger[|b.ledger|..];
    assert c.ledger == b.ledger + more;
    LegsConcat(b.ledger, more);
    LegsConcat(s.ledger, more);
  }

  lemma LegsConcat(l: seq<Entry>, more: seq<Entry>)
    ensures Sum(UnitLegs(l + more)) == Sum(UnitLegs(l)) + Sum(UnitLegs(more))
    ensures Sum(CostLegs(l + more)) == Sum(CostLegs(l)) + Sum(CostLegs(more))
    ensures Sum(RealizedLegs(l + more)) == Sum(RealizedLegs(l)) + Sum(RealizedLegs(more))
  {
    hide Sum;
    SumConcat(UnitLegs(l), UnitLegs(more));
    SumConcat(CostLegs(l), CostLegs(more));
    SumConcat(RealizedLegs(l), RealizedLegs(more));
    assert UnitLegs(l + more) == UnitLegs(l) + UnitLegs(more);
    assert CostLegs(l + more) == CostLegs(l) + CostLegs(more);
    assert RealizedLegs(l + more) == RealizedLegs(l) + RealizedLegs(more);
  }

  lemma BothLots(b: Book, s: Book, c: Book)
    requires |b.lots| < |c.lots| && c.lots[..|b.lots|] == b.lots
    ensures var l := s.lots + c.lots[|b.lots|..];
            && Sum(Remaining(l)) == Sum(Remaining(s.lots)) + Sum(Remaining(c.lots)) - Sum(Remaining(b.lots))
            && Sum(Bases(l)) == Sum(Bases(s.lots)) + Sum(Bases(c.lots)) - Sum(Bases(b.lots))
  {
    hide Sum;
    var more := c.lots[|b.lots|..];
    assert c.lots == b.lots + more;
    LotsConcat(b.lots, more);
    LotsConcat(s.lots, more);
  }

  lemma LotsConcat(l: seq<Lot>, more: seq<Lot>)
    ensures Sum(Remaining(l + more)) == Sum(Remaining(l)) + Sum(Remaining(more))
    ensures Sum(Bases(l + more)) == Sum(Bases(l)) + Sum(Bases(more))
  {
    hide Sum;
    SumConcat(Remaining(l), Remaining(more));
    SumConcat(Bases(l), Bases(more));
    assert Remaining(l + more) == Remaining(l) + Remaining(more);
    assert Bases(l + more) == Bases(l) + Bases(more);
  }

  lemma BothSales(b: Book, s: Book, c: Book)
    requires |b.sales| <= |s.sales| && s.sales[..|b.sales|] == b.sales
    ensures Sum(Gains(c.sales + s.sales[|b.sales|..])) == Sum(Gains(c.sales)) + Sum(Gains(s.sales)) - Sum(Gains(b.sales))
  {
    hide Sum;
    var more := s.sales[|b.sales|..];
    assert s.sales == b.sales + more;
    SalesConcat(b.sales, more);
    SalesConcat(c.sales, more);
  }

  // ---------------------------------------------------------------- what is kept and what is missed

  /** A new loss, not disallowed by the sell itself, within 30 days of the bought lot. */
  ghost predicate Missed(b: Book, s: Book, f: Fill, k: nat) {
    |b.sales| <= k < |s.sales| && s.sales[k].realized < 0 && !IsAdjusted(s, k) && InWindow(f.date, s.sales[k].date)
  }

  /** What is pending after both commits. */
  lemma BothPending(b: Book, s: Book, c: Book, f: Fill, k: nat)
    requires Inv(b) && Inv(s) && Inv(c) && SellWrites(b, s) && BuyWrites(b, c, f)
    ensures Pending(Both(b, s, c), k) <==> Missed(b, s, f, k)
  {
    hide Inv;
    SoundAndComplete(b); SoundAndComplete(s); SoundAndComplete(c);
    BothAdjusted(b, s, c, f, k);
    if k < |b.sales| {
      OldPending(b, s, c, f, k);
    } else if k < |s.sales| {
      NewPending(b, s, c, f, k);
    }
  }

  lemma SoundAndComplete(b: Book)
    requires Inv(b)
    ensures Sound(b) && WashComplete(b) && AdjustedOnce(b)
  {
  }

  /** An old consumption is pending only if the buy has left it so. */
  lemma OldPending(b: Book, s: Book, c: Book, f: Fill, k: nat)
    requires SellWrites(b, s) && BuyWrites(b, c, f) && k < |b.sales| && WashComplete(c)
    requires IsAdjusted(Both(b, s, c), k) <==> IsAdjusted(c, k)
    ensures !Pending(Both(b, s, c), k)
  {
    hide IsAdjusted;
    var m := Both(b, s, c);
    forall i: nat | Replaces(m, k, i) ensures Replaces(c, k, i) {
      if i < |b.lots| {
        assert m.lots[i] == s.lots[i] && s.lots[i].acquired == b.lots[i].acquired && c.lots[i] == b.lots[i];
      } else {
        assert m.lots[i] == c.lots[i];
      }
    }
    assert !Pending(c, k);
  }

  /** A new consumption is pending exactly when the new lot, which the sell did not see, could take it. */
  lemma NewPending(b: Book, s: Book, c: Book, f: Fill, k: nat)
    requires SellWrites(b, s) && BuyWrites(b, c, f) && |b.sales| <= k < |s.sales| && WashComplete(s) && Sound(s)
    requires IsAdjusted(Both(b, s, c), k) <==> IsAdjusted(s, k)
    ensures Pending(Both(b, s, c), k) <==> Missed(b, s, f, k)
  {
    hide IsAdjusted;
    var m, n := Both(b, s, c), |b.lots|;
    assert m.sales[k] == s.sales[k] && m.lots[n] == c.lots[n] && s.sales[k].lot < n;
    assert !Pending(s, k);
    forall i: nat | Replaces(m, k, i) && i != n ensures Replaces(s, k, i) { assert m.lots[i] == s.lots[i]; }
    assert Replaces(m, k, n) <==> InWindow(f.date, s.sales[k].date);
  }

  /** Everything but the completeness of the wash-sale check is kept. */
  lemma BothKeep(b: Book, s: Book, c: Book, f: Fill)
    requires Inv(b) && Inv(s) && Inv(c) && SellWrites(b, s) && BuyWrites(b, c, f)
    ensures var m := Both(b, s, c);
            && Sound(m) && AdjustedOnce(m) && Balanced(m.ledger)
            && CostGap(m) == 0 && GainGap(m) == 0 && UnitsGap(m) == UnitsGap(s) + UnitsGap(c) - UnitsGap(b)
  {
    hide UnitsGap, CostGap, GainGap;
    BothGaps(b, s, c, f);
    BothSound(b, s, c, f);
    BothOnce(b, s, c, f);
    var m := Both(b, s, c);
    forall i | 0 <= i < |m.ledger| ensures m.ledger[i].cost + m.ledger[i].cash + m.ledger[i].realized == 0 {
      if i >= |s.ledger| { assert m.ledger[i] == c.ledger[i - |s.ledger| + |b.ledger|]; }
    }
  }

  lemma BothSound(b: Book, s: Book, c: Book, f: Fill)
    requires Sound(b) && Sound(s) && Sound(c) && SellWrites(b, s) && BuyWrites(b, c, f)
    ensures Sound(Both(b, s, c))
  {
    var m, n := Both(b, s, c), |b.lots|;
    assert m.lots == s.lots + [c.lots[n]];
    forall i | 0 <= i < n ensures m.lots[i].id != c.lots[n].id && m.lots[i].execution != c.lots[n].execution {
      assert s.lots[i].id == b.lots[i].id && s.lots[i].execution == b.lots[i].execution && c.lots[i] == b.lots[i];
    }
    forall k | 0 <= k < |m.sales| ensures m.sales[k].lot < |m.lots| {
      if k >= |b.sales| { assert m.sales[k] == s.sales[k]; }
    }
  }

  lemma BothOnce(b: Book, s: Book, c: Book, f: Fill)
    requires AdjustedOnce(b) && AdjustedOnce(s) && AdjustedOnce(c) && SellWrites(b, s) && BuyWrites(b, c, f)
    ensures AdjustedOnce(Both(b, s, c))
  {
    var m, n := Both(b, s, c), |b.adjustments|;
    forall i | |s.adjustments| <= i < |m.adjustments| ensures m.adjustments[i] == c.adjustments[i - |s.adjustments| + n] {}
    forall i, j | 0 <= i < |s.adjustments| <= j < |m.adjustments| ensures m.adjustments[i].sale != m.adjustments[j].sale {
      if i < n { assert s.adjustments[i] == b.adjustments[i] == c.adjustments[i]; }
    }
  }

  /**
   A sell and a buy fill of one security, both handled against the same committed book and both
   committed: ids, balance, the agreement of the accounts and single disallowance are kept. No wash
   sale is missed if and only if none of the sell's remaining losses is within 30 days of the buy.
   */
  lemma ConcurrentFillsMissIff(b: Book, sell: Fill, designated: seq<nat>, buy: Fill, id: nat, w: int)
    requires Inv(b) && Sell(b, sell, designated).Done? && Buy(b, buy, id, w).Done?
    ensures var s, c := Sell(b, sell, designated).value, Buy(b, buy, id, w).value;
            && SellWrites(b, s) && BuyWrites(b, c, buy)
            && Sound(Both(b, s, c)) && AdjustedOnce(Both(b, s, c)) && Balanced(Both(b, s, c).ledger)
            && CostGap(Both(b, s, c)) == 0 && GainGap(Both(b, s, c)) == 0
            && UnitsGap(Both(b, s, c)) == UnitsGap(s)
            && (WashComplete(Both(b, s, c)) <==> forall k: nat :: !Missed(b, s, buy, k))
  {
    hide Sell, Buy, Inv, Sound, AdjustedOnce, Balanced, CostGap, GainGap, UnitsGap, Pending, Missed, SellWrites, BuyWrites;
    var s, c := Sell(b, sell, designated).value, Buy(b, buy, id, w).value;
    SellIsWrites(b, sell, designated);
    BuyIsWrites(b, buy, id, w);
    SellKeepsInv(b, sell, designated);
    BuyKeepsInv(b, buy, id, w);
    Fitting(b, s, c, buy);
    BothKeep(b, s, c, buy);
    forall k: nat ensures Pending(Both(b, s, c), k) <==> Missed(b, s, buy, k) { BothPending(b, s, c, buy, k); }
  }

  lemma Fitting(b: Book, s: Book, c: Book, f: Fill)
    requires SellWrites(b, s) && BuyWrites(b, c, f)
    ensures |b.sales| <= |s.sales| && |b.lots| < |c.lots| && |b.adjustments| <= |c.adjustments| && |b.ledger| <= |c.ledger|
  {
  }

  // ---------------------------------------------------------------- a missed wash sale

  /** One unit bought at 10 dollars on day 0. */
  ghost function OneLot(): Book {
    Book([OneUnit(0)], [], [], [Entry(TradeBuy, 0, 1_000_000, 100_000, -100_000, 0)])
  }

  /** It is sold at 9 dollars on day 1, while a unit bought at 9 dollars on day 2 is booked. */
  ghost function SoldAtNine(): Fill { Fill(1, 1_000_000, 9_000_000, 0, 1) }

  ghost function BoughtAtNine(): Fill { Fill(2, 1_000_000, 9_000_000, 0, 2) }

  lemma OneLotIsSound()
    ensures Inv(OneLot())
  {
    var b := OneLot();
    assert Remaining(b.lots) == [1_000_000] && Bases(b.lots) == [100_000] && Gains(b.sales) == [];
    assert CostLegs(b.ledger) == [100_000] && RealizedLegs(b.ledger) == [0];
    assert [100_000][1..] == [] && [0][1..] == [];
  }

  lemma NineNumbers()
    ensures MoneyOverUnits(100_000, 1_000_000) == Ok(10_000_000)
    ensures PriceTimesUnits(10_000_000, 1_000_000) == Ok(100_000)
    ensures PriceTimesUnits(9_000_000, 1_000_000) == Ok(90_000)
  {
    hide PriceTimesUnits, MoneyOverUnits;
    OneUnitNumbers();
    PriceTimesUnitsRoundsOnce(9_000_000, 1_000_000);
  }

  lemma DrawAtNine()
    ensures Draw(Start(OneLot().lots, SoldAtNine()), [0], SoldAtNine())
            == Done(Progress([OneUnit(0).(remaining := 0, adjusted := 0)], [Sale(0, 1_000_000, -10_000, false, 1)], 0, 100_000, -10_000))
  {
    hide Add, PriceTimesUnits, MoneyOverUnits;
    var f := SoldAtNine();
    var p := Start(OneLot().lots, f);
    NineNumbers();
    AddSmall(Money, 90_000, -100_000);
    AddSmall(Units, 1_000_000, -1_000_000);
    AddSmall(Money, 100_000, -100_000);
    AddSmall(Money, 0, 100_000);
    AddSmall(Money, 0, -10_000);
    var q := DrawFrom(p, 0, f);
    assert q.value.lots == [OneUnit(0).(remaining := 0, adjusted := 0)] && q.value.sales == [Sale(0, 1_000_000, -10_000, false, 1)];
    assert [0][1..] == [] && Draw(q.value, [], f) == Done(q.value);
  }

  lemma FifoOfOne(lots: seq<Lot>)
    requires |lots| == 1 && lots[0].remaining > 0
    ensures OpenFifo(lots) == [0]
  {
    var keep := (_, l: Lot) => l.remaining > 0;
    EarlierIsWeak();
    assert Rows(lots, 1, keep) == [];
    assert Rows(lots, 0, keep) == [Row(0, lots[0])];
    assert Sort(Earlier(), [Row(0, lots[0])]) == [Row(0, lots[0])];
  }

  /** The sell books its loss of one dollar and finds no replacement. */
  lemma SellAtNine()
    ensures Sell(OneLot(), SoldAtNine(), []).Done?
    ensures var s := Sell(OneLot(), SoldAtNine(), []).value;
            s.sales == [Sale(0, 1_000_000, -10_000, false, 1)] && s.adjustments == []
  {
    hide Draw, Post, PriceTimesUnits, OpenFifo, Replacements;
    var b, f := OneLot(), SoldAtNine();
    FifoOfOne(b.lots);
    DrawAtNine();
    NineNumbers();
    var p := Draw(Start(b.lots, f), [0], f).value;
    PostIs(b.ledger, SellEntry(p, f));
    EntryAtNine(p);
    var c := Sold(b, p, f);
    NoReplacement(c);
    assert WashEach(c, 1, 1) == Done(c);
  }

  lemma EntryAtNine(p: Progress)
    requires p.basis == 100_000 && p.realized == -10_000
    ensures SellEntry(p, SoldAtNine()) == Entry(TradeSell, 1, -1_000_000, -100_000, 90_000, 10_000)
  {
  }

  lemma NoReplacement(c: Book)
    requires |c.lots| == 1 && |c.sales| == 1 && c.sales[0].lot == 0
    ensures Replacements(c.lots, c.sales[0]) == []
  {
    var sale := c.sales[0];
    var keep := (i: nat, l: Lot) => i != sale.lot && InWindow(l.acquired, sale.date);
    assert Rows(c.lots, 1, keep) == [];
    assert Rows(c.lots, 0, keep) == [];
  }

  lemma BuyAtNine()
    ensures Buy(OneLot(), BoughtAtNine(), 2, 0).Done?
  {
    hide Post, PriceTimesUnits;
    var b, f := OneLot(), BoughtAtNine();
    NineNumbers();
    PostIs(b.ledger, Entry(TradeBuy, 2, 1_000_000, 90_000, -90_000, 0));
  }

  /** Handled at once, the two leave the loss undisallowed with a replacement a day later; one after the other they would not. */
  lemma ConcurrentFillsCanMiss()
    ensures Inv(OneLot()) && Sell(OneLot(), SoldAtNine(), []).Done? && Buy(OneLot(), BoughtAtNine(), 2, 0).Done?
    ensures var s, c := Sell(OneLot(), SoldAtNine(), []).value, Buy(OneLot(), BoughtAtNine(), 2, 0).value;
            SellWrites(OneLot(), s) && BuyWrites(OneLot(), c, BoughtAtNine()) && !WashComplete(Both(OneLot(), s, c))
  {
    hide Sell, Buy, Inv, Both, SellWrites, BuyWrites, WashComplete;
    OneLotIsSound();
    SellAtNine();
    BuyAtNine();
    ConcurrentFillsMissIff(OneLot(), SoldAtNine(), [], BoughtAtNine(), 2, 0);
    assert Missed(OneLot(), Sell(OneLot(), SoldAtNine(), []).value, BoughtAtNine(), 0);
  }
}
