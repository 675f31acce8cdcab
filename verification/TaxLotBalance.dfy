/**
 When the entry of a sell fill balances: its cash leg is rounded once, its gains once per lot. All
 conditions are about the lots, their order, the quantity and the price before the call.
 */
module TaxLotBalance {
  import opened Attempts
  import opened Sums
  import opened Rounding
  import opened FixedPoint
  import opened Sorting
  import opened TaxLots
  import opened TaxLotDraws
  import opened TaxLotSales

  // ---------------------------------------------------------------- the quantities taken

  /** What a fill takes from each lot it draws on, from the lots' quantities and their order alone. */
  ghost function Takes(rem: seq<int>, order: seq<nat>, left: int): seq<int>
    requires forall i :: i in order ==> i < |rem|
    decreases |order|
  {
    if order == [] then []
    else
      assert order[0] in order && forall i :: i in order[1..] ==> i in order;
      var i := order[0];
      var take := if left <= 0 || rem[i] <= 0 then 0 else Min(rem[i], left);
      var rest := Takes(rem[i := rem[i] - take], order[1..], left - take);
      if take == 0 then rest else [take] + rest
  }

  lemma {:induction false} DrawTakes(p: Progress, order: seq<nat>, f: Fill)
    requires (forall i :: i in order ==> i < |p.lots|) && Draw(p, order, f).Done?
    ensures Taken(Draw(p, order, f).value.sales) == Taken(p.sales) + Takes(Remaining(p.lots), order, p.left)
    decreases |order|
  {
    hide DrawFrom, HalfEven;
    if order != [] {
      var i := order[0];
      assert i in order && forall j :: j in order[1..] ==> j in order;
      var q := DrawFrom(p, i, f).value;
      var basis := DrawFromIs(p, i, f);
      DrawTakes(q, order[1..], f);
      assert Remaining(q.lots) == Remaining(p.lots)[i := p.lots[i].remaining - Take(p, i)];
      if Take(p, i) > 0 { assert Taken(q.sales) == Taken(p.sales) + [Take(p, i)]; }
    }
  }

  // ---------------------------------------------------------------- reaching the posting

  /** The lots of a sell call, with named ones marked. */
  ghost function SellLots(b: Book, designated: seq<nat>): (r: seq<Lot>)
    requires Select(b.lots, designated).Done?
    ensures |r| == |b.lots| && Remaining(r) == Remaining(b.lots)
  {
    if designated == [] then b.lots else Mark(b.lots, Select(b.lots, designated).value)
  }

  /** The lots are known and suffice, and no amount leaves its range before the entry is posted. */
  ghost predicate ReachesPosting(b: Book, f: Fill, designated: seq<nat>) {
    && Select(b.lots, designated).Done?
    && Draw(Start(SellLots(b, designated), f), Select(b.lots, designated).value, f).Done?
    && Draw(Start(SellLots(b, designated), f), Select(b.lots, designated).value, f).value.left <= 0
    && Checked(PriceTimesUnits(f.price, f.quantity)).Done?
  }

  /** What the call takes from each lot. */
  ghost function SellTakes(b: Book, f: Fill, designated: seq<nat>): seq<int>
    requires Select(b.lots, designated).Done?
  {
    Takes(Remaining(b.lots), Select(b.lots, designated).value, f.quantity)
  }

  /** Rounded proceeds of the fill less the sum of the rounded proceeds of its draws. */
  ghost function Imbalance(takes: seq<int>, f: Fill): int {
    HalfEven(f.price * f.quantity, 100_000_000) - Sum(Proceeds(takes, f.price))
  }

  /** The basis the call consumes. */
  ghost function SellBasis(b: Book, f: Fill, designated: seq<nat>): int
    requires ReachesPosting(b, f, designated)
  {
    Draw(Start(SellLots(b, designated), f), Select(b.lots, designated).value, f).value.basis
  }

  /** The wash-sale checks never fail for balance: their entries move one amount. */
  lemma {:induction false} WashNeverUnbalanced(b: Book, k: nat, n: nat)
    requires k <= n == |b.sales|
    ensures WashEach(b, k, n).Failed? ==> !WashEach(b, k, n).error.UnbalancedEntry?
    decreases n - k
  {
    hide ApplyAdjustment, Replacements, IsAdjusted;
    if k < n {
      if b.sales[k].realized < 0 && !IsAdjusted(b, k) && Replacements(b.lots, b.sales[k]) != [] {
        assert Replacements(b.lots, b.sales[k])[0] in Replacements(b.lots, b.sales[k]);
        AdjustmentBalances(b, k, Replacements(b.lots, b.sales[k])[0]);
      }
      if OnLossSale(b, k).Done? { WashNeverUnbalanced(OnLossSale(b, k).value, k + 1, n); }
    }
  }

  lemma AdjustmentBalances(b: Book, k: nat, r: nat)
    requires k < |b.sales| && r < |b.lots|
    ensures ApplyAdjustment(b, k, r).Failed? ==> !ApplyAdjustment(b, k, r).error.UnbalancedEntry?
  {
    hide Add, Post;
    var sale, lot := b.sales[k], b.lots[r];
    var d := Min(Abs(sale.realized), lot.original);
    PostIs(b.ledger, Entry(WashSale, lot.acquired, 0, d, 0, -d));
  }

  /** The entry the call posts. */
  lemma SellPosts(b: Book, f: Fill, designated: seq<nat>)
    requires ReachesPosting(b, f, designated)
    ensures var p := Draw(Start(SellLots(b, designated), f), Select(b.lots, designated).value, f).value;
            var e := SellEntry(p, f);
            var posted := Post(b.ledger, e);
            && e.cost + e.cash + e.realized == Imbalance(SellTakes(b, f, designated), f)
            && InRange(Money, e.cost) && (e.cost + e.cash + e.realized == 0 ==> InRange(Money, e.cost + e.cash))
            && Sell(b, f, designated) == if posted.Failed? then Failed(posted.error)
                 else WashEach(Book(p.lots, b.sales + p.sales, b.adjustments, posted.value), |b.sales|, |b.sales + p.sales|)
  {
    hide Draw, Post, PriceTimesUnits, WashEach, HalfEven, Sum, OpenFifo, Named;
    var order, s := Select(b.lots, designated).value, Start(SellLots(b, designated), f);
    var p := Draw(s, order, f).value;
    ProductOk(f.price, f.quantity);
    DrawConserves(s, order, f);
    DrawInRange(s, order, f);
    DrawTakes(s, order, f);
    assert Remaining(s.lots) == Remaining(b.lots);
    assert Taken(s.sales) == [] && Gains(s.sales) == [] && Proceeds([], f.price) == [];
    assert Taken(p.sales) == SellTakes(b, f, designated);
    NothingSums();
  }

  lemma NothingSums()
    ensures Sum([]) == 0
  {
  }

  /**
   A sell whose lots suffice is refused as unbalanced only by the difference between the rounded
   proceeds of the fill and the sum of the rounded proceeds of its draws. Without a difference it
   goes on to the wash-sale checks and cannot be refused for balance. With one it always fails: as
   unbalanced by exactly that amount, if and only if the running total of the legs fits money.
   */
  lemma SellBalancesIff(b: Book, f: Fill, designated: seq<nat>)
    requires ReachesPosting(b, f, designated)
    ensures var gap, r := Imbalance(SellTakes(b, f, designated), f), Sell(b, f, designated);
            && (gap == 0 ==> !(r.Failed? && r.error.UnbalancedEntry?))
            && (gap != 0 ==> r.Failed? && (r.error == UnbalancedEntry(gap) || r.error.Arithmetic?))
            && (r == Failed(UnbalancedEntry(gap)) <==>
                  && gap != 0 && InRange(Money, gap)
                  && InRange(Money, HalfEven(f.price * f.quantity, 100_000_000) - SellBasis(b, f, designated)))
  {
    hide Draw, Post, PriceTimesUnits, WashEach, HalfEven, Sum, Sell, Select, SellLots, SellTakes, Imbalance;
    SellPosts(b, f, designated);
    var p := Draw(Start(SellLots(b, designated), f), Select(b.lots, designated).value, f).value;
    var e := SellEntry(p, f);
    PostIs(b.ledger, e);
    if Post(b.ledger, e).Done? {
      WashNeverUnbalanced(Book(p.lots, b.sales + p.sales, b.adjustments, Post(b.ledger, e).value), |b.sales|, |b.sales + p.sales|);
    }
  }

  // ---------------------------------------------------------------- fills that balance

  /** A fill that suffices takes exactly its quantity, and nothing for a negative one. */
  lemma TakesSum(b: Book, f: Fill, designated: seq<nat>)
    requires ReachesPosting(b, f, designated)
    ensures Sum(SellTakes(b, f, designated)) == if f.quantity < 0 then 0 else f.quantity
    ensures f.quantity < 0 ==> SellTakes(b, f, designated) == []
  {
    hide Draw, HalfEven, Sum, Select, Takes;
    var order, s := Select(b.lots, designated).value, Start(SellLots(b, designated), f);
    DrawConserves(s, order, f);
    DrawLowers(s, order, f);
    DrawTakes(s, order, f);
    assert Taken(s.sales) == [];
    assert Taken(Draw(s, order, f).value.sales) == SellTakes(b, f, designated);
    NothingSums();
  }

  /** What a fill of negative quantity brings in although it draws on nothing. */
  ghost function Unbooked(f: Fill): int {
    if f.quantity < 0 then HalfEven(f.price * f.quantity, 100_000_000) else 0
  }

  /** A fill that draws on at most one lot misses by nothing but a negative fill's own proceeds; without them it is never refused for balance. */
  lemma SingleLotSellBalances(b: Book, f: Fill, designated: seq<nat>)
    requires ReachesPosting(b, f, designated) && |SellTakes(b, f, designated)| <= 1
    ensures Imbalance(SellTakes(b, f, designated), f) == Unbooked(f)
    ensures Unbooked(f) == 0 && Sell(b, f, designated).Failed? ==> !Sell(b, f, designated).error.UnbalancedEntry?
  {
    hide HalfEven, Sell, SellTakes, Draw, Select, PriceTimesUnits, SellLots;
    var takes := SellTakes(b, f, designated);
    TakesSum(b, f, designated);
    SellBalancesIff(b, f, designated);
    assert takes == [] || takes == [takes[0]];
    SmallSums(takes, f.price);
    ZeroProceeds(f.price);
  }

  lemma ZeroProceeds(price: int)
    ensures HalfEven(price * 0, 100_000_000) == 0
  {
  }

  lemma SmallSums(takes: seq<int>, price: int)
    requires |takes| <= 1
    ensures Sum(Proceeds(takes, price)) == HalfEven(price * Sum(takes), 100_000_000)
  {
    if takes == [] {
      assert Proceeds(takes, price) == [];
    } else {
      assert takes[1..] == [] && Proceeds(takes, price)[1..] == [];
    }
  }

  /** The same holds when all draws have exact proceeds. */
  lemma ExactSellBalances(b: Book, f: Fill, designated: seq<nat>)
    requires ReachesPosting(b, f, designated)
    requires var takes := SellTakes(b, f, designated); forall i :: 0 <= i < |takes| ==> f.price * takes[i] % 100_000_000 == 0
    ensures Imbalance(SellTakes(b, f, designated), f) == Unbooked(f)
    ensures Unbooked(f) == 0 && Sell(b, f, designated).Failed? ==> !Sell(b, f, designated).error.UnbalancedEntry?
  {
    hide HalfEven, Sell, SellTakes, Sum, Draw, Select, PriceTimesUnits, SellLots;
    TakesSum(b, f, designated);
    SellBalancesIff(b, f, designated);
    ExactTakesSum(SellTakes(b, f, designated), f.price);
    ZeroProceeds(f.price);
  }

  lemma {:induction false} ExactTakesSum(takes: seq<int>, price: int)
    requires forall i :: 0 <= i < |takes| ==> price * takes[i] % 100_000_000 == 0
    ensures price * Sum(takes) == 100_000_000 * Sum(Proceeds(takes, price))
    ensures Sum(Proceeds(takes, price)) == HalfEven(price * Sum(takes), 100_000_000)
  {
    hide HalfEven;
    if takes != [] {
      ExactTakesSum(takes[1..], price);
      assert Proceeds(takes, price)[1..] == Proceeds(takes[1..], price);
      ExactStep(price, Sum(takes[1..]), Sum(Proceeds(takes[1..], price)), takes[0]);
    }
    ExactRounds(price * Sum(takes));
  }

  lemma ExactStep(price: int, taken: int, proceeds: int, q: int)
    requires price * taken == 100_000_000 * proceeds && price * q % 100_000_000 == 0
    ensures price * (q + taken) == 100_000_000 * (HalfEven(price * q, 100_000_000) + proceeds)
  {
    hide HalfEven;
    ExactRounds(price * q);
    Distribute(price, q, taken);
  }

  lemma ExactRounds(x: int)
    ensures x % 100_000_000 == 0 ==> 100_000_000 * HalfEven(x, 100_000_000) == x
  {
  }

  // ---------------------------------------------------------------- by how much it can miss

  /** Rounding draw by draw misses the whole by at most half a smallest unit per draw. */
  lemma {:induction false} ProceedsError(takes: seq<int>, price: int)
    ensures 2 * Abs(100_000_000 * Sum(Proceeds(takes, price)) - price * Sum(takes)) <= 100_000_000 * |takes|
  {
    hide HalfEven;
    if takes != [] {
      ProceedsError(takes[1..], price);
      assert Proceeds(takes, price)[1..] == Proceeds(takes[1..], price);
      ErrorStep(price, Sum(takes[1..]), Sum(Proceeds(takes[1..], price)), takes[0], |takes| - 1);
    }
  }

  lemma ErrorStep(price: int, taken: int, proceeds: int, q: int, n: nat)
    requires 2 * Abs(100_000_000 * proceeds - price * taken) <= 100_000_000 * n
    ensures 2 * Abs(100_000_000 * (HalfEven(price * q, 100_000_000) + proceeds) - price * (q + taken)) <= 100_000_000 * (n + 1)
  {
    hide HalfEven;
    HalfEvenError(price * q);
    Distribute(price, q, taken);
  }

  /** Beyond a negative fill's own proceeds, a fill over n lots misses by at most (n + 1) / 2 smallest units of money. */
  lemma ImbalanceBound(b: Book, f: Fill, designated: seq<nat>)
    requires ReachesPosting(b, f, designated)
    ensures 2 * Abs(Imbalance(SellTakes(b, f, designated), f) - Unbooked(f)) <= |SellTakes(b, f, designated)| + 1
  {
    hide HalfEven, SellTakes, Draw, Select, PriceTimesUnits, SellLots;
    TakesSum(b, f, designated);
    ProceedsError(SellTakes(b, f, designated), f.price);
    HalfEvenError(f.price * f.quantity);
    if f.quantity < 0 { assert Proceeds([], f.price) == []; }
  }

  // ---------------------------------------------------------------- a fill that cannot be booked

  /** A lot of one unit bought at 10 dollars. */
  ghost function OneUnit(id: nat): Lot {
    Lot(id, id, 0, 1_000_000, 1_000_000, 100_000, 100_000, false, 0)
  }

  /** Drawing one such lot at 10.12345 dollars: proceeds of 10.12345 round to 10.1234. */
  lemma DrawOneUnit(p: Progress, i: nat, f: Fill)
    requires i < |p.lots| && p.lots[i].remaining == 1_000_000 && p.lots[i].adjusted == 100_000
    requires f.price == 10_123_450 && 1_000_000 <= p.left <= 2_000_000
    requires 0 <= p.basis <= 100_000 && 0 <= p.realized <= 1_234
    ensures DrawFrom(p, i, f).Done?
    ensures var q := DrawFrom(p, i, f).value;
            && q.lots == p.lots[i := p.lots[i].(remaining := 0, adjusted := 0)]
            && q.left == p.left - 1_000_000 && q.basis == p.basis + 100_000 && q.realized == p.realized + 1_234
  {
    hide Add, PriceTimesUnits, MoneyOverUnits;
    OneUnitNumbers();
    AddSmall(Money, 101_234, -100_000);
    AddSmall(Units, 1_000_000, -1_000_000);
    AddSmall(Money, 100_000, -100_000);
    AddSmall(Money, p.basis, 100_000);
    AddSmall(Money, p.realized, 1_234);
    AddSmall(Units, p.left, -1_000_000);
  }

  lemma OneUnitNumbers()
    ensures MoneyOverUnits(100_000, 1_000_000) == Ok(10_000_000)
    ensures PriceTimesUnits(10_000_000, 1_000_000) == Ok(100_000)
    ensures PriceTimesUnits(10_123_450, 1_000_000) == Ok(101_234)
  {
    hide PriceTimesUnits, MoneyOverUnits;
    MoneyOverUnitsRoundsOnce(100_000, 1_000_000);
    PriceTimesUnitsRoundsOnce(10_000_000, 1_000_000);
    PriceTimesUnitsRoundsOnce(10_123_450, 1_000_000);
  }

  lemma DrawBothUnits(lots: seq<Lot>, f: Fill)
    requires lots == [OneUnit(0), OneUnit(1)] && f.price == 10_123_450 && f.quantity == 2_000_000
    ensures Draw(Start(lots, f), [0, 1], f).Done?
    ensures var p := Draw(Start(lots, f), [0, 1], f).value; p.left == 0 && p.basis == 200_000 && p.realized == 2_468
  {
    hide DrawFrom;
    var s := Start(lots, f);
    DrawOneUnit(s, 0, f);
    var q := DrawFrom(s, 0, f).value;
    DrawOneUnit(q, 1, f);
    var r := DrawFrom(q, 1, f).value;
    assert [0, 1][1..] == [1] && [1][1..] == [];
    assert Draw(r, [], f) == Done(r);
    assert Draw(q, [1], f) == Done(r);
    assert Draw(s, [0, 1], f) == Done(r);
  }

  /** Two open lots in order of id are consumed in that order. */
  lemma FifoOfTwo(lots: seq<Lot>)
    requires lots == [OneUnit(0), OneUnit(1)]
    ensures OpenFifo(lots) == [0, 1]
  {
    var keep := (_, l: Lot) => l.remaining > 0;
    EarlierIsWeak();
    assert Rows(lots, 2, keep) == [];
    assert Rows(lots, 1, keep) == [Row(1, lots[1])];
    assert Rows(lots, 0, keep) == [Row(0, lots[0]), Row(1, lots[1])];
    assert [Row(0, lots[0]), Row(1, lots[1])][1..] == [Row(1, lots[1])] && [Row(1, lots[1])][1..] == [];
    assert Sort(Earlier(), [Row(1, lots[1])]) == [Row(1, lots[1])];
    assert Sort(Earlier(), Rows(lots, 0, keep)) == [Row(0, lots[0]), Row(1, lots[1])];
  }

  /**
   Two units held as two one-unit lots cannot be sold in one fill at 10.12345 dollars: the draws bring
   10.1234 each, the fill 20.2469, and the call is refused as unbalanced by a ten-thousandth.
   */
  lemma TwoLotSaleCanFail(b: Book, f: Fill)
    requires b.lots == [OneUnit(0), OneUnit(1)] && f.price == 10_123_450 && f.quantity == 2_000_000
    ensures Sell(b, f, []) == Failed(UnbalancedEntry(1))
  {
    hide Draw, Post, PriceTimesUnits, OpenFifo, WashEach;
    FifoOfTwo(b.lots);
    DrawBothUnits(b.lots, f);
    PriceTimesUnitsRoundsOnce(10_123_450, 2_000_000);
    PostIs(b.ledger, SellEntry(Draw(Start(b.lots, f), [0, 1], f).value, f));
  }
}
