/** Sell fills: first in first out, when lots suffice, when the journal entry balances, what a closed lot keeps. */
module TaxLotSales {
  import opened Attempts
  import opened Sums
  import opened Rounding
  import opened FixedPoint
  import opened TaxLots
  import opened TaxLotDraws

  ghost function Start(lots: seq<Lot>, f: Fill): Progress {
    Progress(lots, [], f.quantity, 0, 0)
  }

  // ---------------------------------------------------------------- first in, first out

  lemma {:induction false} FirstAt(order: seq<nat>, x: nat) returns (b: nat)
    requires x in order
    ensures b < |order| && order[b] == x && forall i :: 0 <= i < b ==> order[i] != x
  {
    if order[0] == x {
      b := 0;
    } else {
      assert order == [order[0]] + order[1..];
      var c := FirstAt(order[1..], x);
      b := c + 1;
      forall i | 0 <= i < b ensures order[i] != x {
        if i > 0 { assert order[i] == order[1..][i - 1]; }
      }
    }
  }

  lemma OpenIsListed(lots: seq<Lot>, i: nat)
    requires i < |lots|
    ensures i in OpenFifo(lots) <==> lots[i].remaining > 0
  {
    var rows := InOrder(lots, (_, l: Lot) => l.remaining > 0);
    if lots[i].remaining > 0 {
      assert Row(i, lots[i]) in rows;
      var a :| 0 <= a < |rows| && rows[a] == Row(i, lots[i]);
      assert OpenFifo(lots)[a] == i;
    } else {
      forall a | 0 <= a < |rows| ensures OpenFifo(lots)[a] != i { assert rows[a] in rows; }
    }
  }

  /** Earlier lots come first. */
  lemma FifoOrder(lots: seq<Lot>, a: nat, b: nat)
    requires a < |OpenFifo(lots)| && b < |OpenFifo(lots)|
    requires var order := OpenFifo(lots); Earlier()(Row(order[a], lots[order[a]]), Row(order[b], lots[order[b]]))
    ensures a < b
  {
    hide InOrder;
    var rows := InOrder(lots, (_, l: Lot) => l.remaining > 0);
    assert rows[a] in rows && rows[b] in rows;
  }

  /** A lot is drawn on only if every open lot acquired before it (by id within a day) is used up. */
  lemma FifoConsumesOldestFirst(lots: seq<Lot>, f: Fill, i: nat, j: nat)
    requires NonNegative(lots) && i < |lots| && j < |lots| && Earlier()(Row(i, lots[i]), Row(j, lots[j]))
    requires Draw(Start(lots, f), OpenFifo(lots), f).Done?
    requires Draw(Start(lots, f), OpenFifo(lots), f).value.lots[j].remaining < lots[j].remaining
    ensures Draw(Start(lots, f), OpenFifo(lots), f).value.lots[i].remaining == 0
  {
    hide Draw, InOrder, Indices, OpenFifo;
    var order := OpenFifo(lots);
    DrawLowers(Start(lots, f), order, f);
    OpenIsListed(lots, i);
    OpenIsListed(lots, j);
    if lots[i].remaining > 0 {
      var a := FirstAt(order, i);
      var b := FirstAt(order, j);
      FifoOrder(lots, a, b);
      EarlierIsEmptied(Start(lots, f), order, f, a, b);
    }
  }

  /** A fill of non-negative quantity runs out of lots exactly when it exceeds the sum of all open lots. */
  lemma FifoSufficesIff(lots: seq<Lot>, f: Fill)
    requires NonNegative(lots) && f.quantity >= 0
    requires Draw(Start(lots, f), OpenFifo(lots), f).Done?
    ensures Draw(Start(lots, f), OpenFifo(lots), f).value.left > 0 <==> f.quantity > Sum(Remaining(lots))
  {
    hide Draw, Sum, InOrder, Indices, OpenFifo;
    var order := OpenFifo(lots);
    ShortBy(Start(lots, f), order, f);
    forall i | 0 <= i < |lots| && i !in order ensures Remaining(lots)[i] == 0 { OpenIsListed(lots, i); }
    AvailableIsAll(Remaining(lots), order);
  }

  // ---------------------------------------------------------------- the entry

  lemma PostIs(ledger: seq<Entry>, e: Entry)
    ensures Post(ledger, e).Done? ==> Post(ledger, e).value == ledger + [e] && e.cost + e.cash + e.realized == 0
    ensures InRange(Money, e.cost) && InRange(Money, e.cost + e.cash) && e.cost + e.cash + e.realized == 0 ==> Post(ledger, e).Done?
    ensures var total := e.cost + e.cash + e.realized;
            total != 0 ==> Post(ledger, e) == Failed(UnbalancedEntry(total)) || (Post(ledger, e).Failed? && Post(ledger, e).error.Arithmetic?)
    ensures var total := e.cost + e.cash + e.realized;
            Post(ledger, e) == Failed(UnbalancedEntry(total))
            <==> total != 0 && InRange(Money, e.cost) && InRange(Money, e.cost + e.cash) && InRange(Money, total)
    ensures Post(ledger, e).Failed? ==> Post(ledger, e).error.Arithmetic? || Post(ledger, e).error == UnbalancedEntry(e.cost + e.cash + e.realized)
  {
    hide Add;
    AddIsExact(Money, 0, e.cost);
    AddIsExact(Money, e.cost, e.cash);
    AddIsExact(Money, e.cost + e.cash, e.realized);
  }

  lemma DrawFromInRange(p: Progress, i: nat, f: Fill)
    requires i < |p.lots| && DrawFrom(p, i, f).Done?
    requires InRange(Money, p.basis) && InRange(Money, p.realized)
    ensures var q := DrawFrom(p, i, f).value; InRange(Money, q.basis) && InRange(Money, q.realized)
  {
    hide Add, PriceTimesUnits, DrawnBasis;
    var lot, take := p.lots[i], Take(p, i);
    if take > 0 {
      var basis := DrawnBasis(lot, take).value;
      var proceeds := Checked(PriceTimesUnits(f.price, take)).value;
      AddIsExact(Money, proceeds, -basis);
      AddIsExact(Money, p.basis, basis);
      AddIsExact(Money, p.realized, proceeds - basis);
    }
  }

  lemma {:induction false} DrawInRange(p: Progress, order: seq<nat>, f: Fill)
    requires (forall i :: i in order ==> i < |p.lots|) && Draw(p, order, f).Done?
    requires InRange(Money, p.basis) && InRange(Money, p.realized)
    ensures var q := Draw(p, order, f).value; InRange(Money, q.basis) && InRange(Money, q.realized)
    decreases |order|
  {
    hide DrawFrom;
    if order != [] {
      assert order[0] in order && forall i :: i in order[1..] ==> i in order;
      DrawFromInRange(p, order[0], f);
      DrawInRange(DrawFrom(p, order[0], f).value, order[1..], f);
    }
  }

  /** The entry a sell fill posts once its lots are drawn. */
  ghost function SellEntry(p: Progress, f: Fill): Entry {
    Entry(TradeSell, f.date, -f.quantity, -p.basis, HalfEven(f.price * f.quantity, 100_000_000), -p.realized)
  }

  lemma HalfEvenError(x: int)
    ensures 2 * Abs(100_000_000 * HalfEven(x, 100_000_000) - x) <= 100_000_000
  {
  }

  lemma Distribute(p: int, a: int, b: int)
    ensures p * (a + b) == p * a + p * b
  {
  }

  // ---------------------------------------------------------------- what a closed lot keeps

  /**
   A draw that sells a lot out leaves it without basis if and only if twice the distance of its basis,
   scaled to the quantity, from a multiple of the quantity is below one smallest unit of money, or
   equal to it with an even basis. That always holds up to 100 units. A residue is at most half a
   millionth of a dollar per unit and half a smallest unit of money.
   */
  lemma ClosedLotResidue(p: Progress, i: nat, f: Fill)
    requires i < |p.lots| && DrawFrom(p, i, f).Done? && 0 < p.lots[i].remaining <= p.left
    requires InRange(Units, p.lots[i].remaining) && InRange(Money, p.lots[i].adjusted)
    ensures var lot, closed := p.lots[i], DrawFrom(p, i, f).value.lots[i];
            && closed.remaining == 0
            && (closed.adjusted == 0 <==> Returns(lot.adjusted, lot.remaining))
            && 200_000_000 * Abs(closed.adjusted) <= lot.remaining + 100_000_000
            && (lot.remaining <= 100_000_000 ==> closed.adjusted == 0)
  {
    hide Nearest, Returns, HalfEven, DrawnBasis, PriceTimesUnits, Add;
    var lot := p.lots[i];
    var per := PerUnit(lot);
    DrawnBasisIs(lot, lot.remaining);
    var basis := DrawnBasis(lot, lot.remaining).value;
    AddOk(Money, lot.adjusted, -basis);
    AddOk(Units, lot.remaining, -lot.remaining);
    UnitsError(lot.adjusted, lot.remaining);
    HalfEvenError(lot.remaining * per);
    ReturnsIff(lot.adjusted, lot.remaining);
    if lot.remaining <= 100_000_000 { SmallReturns(lot.adjusted, lot.remaining); }
  }

  /** Beyond 100 units a residue can remain: 150 units with a basis of 0.0001 are sold out and keep a basis of -0.0001. */
  lemma ClosedLotCanKeepResidue(p: Progress, i: nat, f: Fill)
    requires i < |p.lots| && p.lots[i].remaining == 150_000_000 && p.lots[i].adjusted == 1
    requires p.left == 150_000_000 && f.price == 0 && 0 <= p.basis <= 1_000_000 && -1_000_000 <= p.realized <= 1_000_000
    ensures DrawFrom(p, i, f).Done?
    ensures var closed := DrawFrom(p, i, f).value.lots[i]; closed.remaining == 0 && closed.adjusted == -1
  {
    hide Add, PriceTimesUnits, DrawnBasis;
    ResidueNumbers(p.lots[i]);
    AddSmall(Money, 0, -2);
    AddSmall(Units, 150_000_000, -150_000_000);
    AddSmall(Money, 1, -2);
    AddSmall(Money, p.basis, 2);
    AddSmall(Money, p.realized, -2);
  }

  lemma ResidueNumbers(lot: Lot)
    requires lot.remaining == 150_000_000 && lot.adjusted == 1
    ensures DrawnBasis(lot, 150_000_000) == Done(2) && PriceTimesUnits(0, 150_000_000) == Ok(0)
  {
    hide MoneyOverUnits, PriceTimesUnits;
    MoneyOverUnitsRoundsOnce(1, 150_000_000);
    PriceTimesUnitsRoundsOnce(1, 150_000_000);
    PriceTimesUnitsRoundsOnce(0, 150_000_000);
  }

  lemma AddSmall(k: Kind, a: int, b: int)
    requires -1_000_000_000 < a + b < 1_000_000_000
    ensures Add(k, a, b) == Ok(a + b)
  {
    hide Add;
    AddIsExact(k, a, b);
  }
}
