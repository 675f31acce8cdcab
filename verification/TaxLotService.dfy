/** The lot service itself: rows updated in place, one transaction per call, rolled back on failure. */
module TaxLotService {
  import opened Attempts
  import opened Rounding
  import opened FixedPoint
  import opened TaxLots
  import opened TaxLotDraws
  import opened TaxLotSales

  lemma DrawNext(p: Progress, rest: seq<nat>, f: Fill)
    requires rest != [] && forall i :: i in rest ==> i < |p.lots|
    ensures rest[0] < |p.lots| && forall i :: i in rest[1..] ==> i < |p.lots|
    ensures var q := DrawFrom(p, rest[0], f);
            Draw(p, rest, f) == if q.Done? then Draw(q.value, rest[1..], f) else Failed(q.error)
  {
    hide DrawFrom;
    assert rest[0] in rest && forall i :: i in rest[1..] ==> i in rest;
  }

  lemma CarryNext(b: Book, rest: seq<nat>, lot: nat)
    requires rest != [] && lot < |b.lots| && forall k :: k in rest ==> k < |b.sales|
    ensures rest[0] < |b.sales| && forall k :: k in rest[1..] ==> k < |b.sales|
    ensures var c := if b.sales[rest[0]].lot == lot then Done(b) else ApplyAdjustment(b, rest[0], lot);
            CarryInto(b, rest, lot) == if c.Done? then CarryInto(c.value, rest[1..], lot) else Failed(c.error)
  {
    hide ApplyAdjustment;
    assert rest[0] in rest && forall k :: k in rest[1..] ==> k in rest;
  }

  lemma SplitNext(lots: seq<Lot>, i: nat, d: Rat)
    requires i < |lots| && d.den > 0 && SplitLots(lots[..i], d).Done?
    ensures var l := SplitLot(lots[i], d);
            SplitLots(lots[..i + 1], d) == if l.Done? then Done(SplitLots(lots[..i], d).value + [l.value]) else Failed(l.error)
  {
    hide SplitLot;
    assert lots[..i + 1][..i] == lots[..i];
  }

  class LotConsumptionService {
    var lots: seq<Lot>
    var sales: seq<Sale>
    var adjustments: seq<Adjustment>
    var ledger: seq<Entry>

    function Current(): Book
      reads this
    {
      Book(lots, sales, adjustments, ledger)
    }

    constructor ()
      ensures Current() == Book([], [], [], [])
    {
      lots, sales, adjustments, ledger := [], [], [], [];
    }

    method Restore(b: Book)
      modifies this
      ensures Current() == b
    {
      lots, sales, adjustments, ledger := b.lots, b.sales, b.adjustments, b.ledger;
    }

    /** Lot by lot in order until the quantity is covered. */
    method ConsumeLots(order: seq<nat>, f: Fill) returns (r: Outcome<Progress>)
      requires forall i :: i in order ==> i < |lots|
      modifies this`lots
      ensures r == Draw(Start(old(lots), f), order, f)
      ensures r.Done? ==> lots == r.value.lots
    {
      hide DrawFrom;
      var consumptions: seq<Sale> := [];
      var left, basis, realized := f.quantity, 0, 0;
      var k := 0;
      while k < |order|
        invariant k <= |order| && |lots| == |old(lots)|
        invariant forall i :: i in order[k..] ==> i < |lots|
        invariant Draw(Start(old(lots), f), order, f) == Draw(Progress(lots, consumptions, left, basis, realized), order[k..], f)
      {
        var p := Progress(lots, consumptions, left, basis, realized);
        if left <= 0 {
          NothingLeftToDraw(p, order[k..], f);
          return Done(p);
        }
        DrawNext(p, order[k..], f);
        assert order[k..][1..] == order[k + 1..];
        var step := DrawFrom(p, order[k], f);
        if step.Failed? {
          return Failed(step.error);
        }
        lots, consumptions := step.value.lots, step.value.sales;
        left, basis, realized := step.value.left, step.value.basis, step.value.realized;
        k := k + 1;
      }
      r := Done(Progress(lots, consumptions, left, basis, realized));
    }

    /** The wash-sale check of each consumption from a position on. */
    method CheckWashSales(from: nat) returns (r: Outcome<()>)
      requires from <= |sales|
      modifies this
      ensures var w := WashEach(old(Current()), from, |old(sales)|);
              if w.Done? then r == Done(()) && Current() == w.value else r == Failed(w.error)
    {
      hide OnLossSale;
      var k := from;
      while k < |sales|
        invariant from <= k <= |sales| && |sales| == |old(sales)|
        invariant WashEach(old(Current()), from, |old(sales)|) == WashEach(Current(), k, |sales|)
      {
        var c := OnLossSale(Current(), k);
        if c.Failed? {
          return Failed(c.error);
        }
        Restore(c.value);
        k := k + 1;
      }
      r := Done(());
    }

    /** Consumes lots, posts the entry and checks for wash sales; any failure leaves everything as it was. */
    method RecordSellFill(f: Fill, designated: seq<nat>) returns (r: Outcome<seq<Sale>>)
      modifies this
      ensures |old(sales)| <= |sales|
      ensures var s := Sell(old(Current()), f, designated);
              if s.Done? then Current() == s.value && r == Done(sales[|old(sales)|..])
              else Current() == old(Current()) && r == Failed(s.error)
    {
      hide Draw, Post, PriceTimesUnits, WashEach, OpenFifo, Named;
      var before := Current();
      var order := Select(lots, designated);
      if order.Failed? {
        return Failed(order.error);
      }
      if designated != [] {
        lots := Mark(lots, order.value);
      }
      var drawn := ConsumeLots(order.value, f);
      if drawn.Failed? {
        Restore(before);
        return Failed(drawn.error);
      }
      var p := drawn.value;
      if p.left > 0 {
        Restore(before);
        return Failed(InsufficientLots(p.left));
      }
      var proceeds := Checked(PriceTimesUnits(f.price, f.quantity));
      if proceeds.Failed? {
        Restore(before);
        return Failed(proceeds.error);
      }
      var posted := Post(ledger, Entry(TradeSell, f.date, -f.quantity, -p.basis, proceeds.value, -p.realized));
      if posted.Failed? {
        Restore(before);
        return Failed(posted.error);
      }
      sales, ledger := sales + p.sales, posted.value;
      WashKeepsLength(Current(), |before.sales|, |sales|);
      var checked := CheckWashSales(|before.sales|);
      if checked.Failed? {
        Restore(before);
        return Failed(checked.error);
      }
      r := Done(sales[|before.sales|..]);
    }

    /** Opens a lot, posts the entry and carries earlier losses into the lot. */
    method RecordBuyFill(f: Fill, id: nat, windowClosesAt: int) returns (r: Outcome<nat>)
      modifies this
      ensures var s := Buy(old(Current()), f, id, windowClosesAt);
              if s.Done? then Current() == s.value && r == Done(|old(lots)|)
              else Current() == old(Current()) && r == Failed(s.error)
    {
      hide Post, PriceTimesUnits, CarryInto, Losses;
      var before := Current();
      var cost := Checked(PriceTimesUnits(f.price, f.quantity));
      if cost.Failed? {
        return Failed(cost.error);
      }
      var posted := Post(ledger, Entry(TradeBuy, f.date, f.quantity, cost.value, -cost.value, 0));
      if posted.Failed? {
        return Failed(posted.error);
      }
      if f.quantity < 0 || exists l :: l in lots && (l.id == id || l.execution == f.execution) {
        return Failed(ConstraintViolation);
      }
      var n := |lots|;
      lots := lots + [Lot(id, f.execution, f.date, f.quantity, f.quantity, cost.value, cost.value, false, windowClosesAt)];
      ledger := posted.value;
      var carried := CarryLosses(Losses(Current(), f.date, 0), n);
      if carried.Failed? {
        Restore(before);
        return Failed(carried.error);
      }
      r := Done(n);
    }

    /** Each candidate loss, except one of the lot itself, goes into the new lot's basis. */
    method CarryLosses(candidates: seq<nat>, lot: nat) returns (r: Outcome<()>)
      requires lot < |lots| && forall k :: k in candidates ==> k < |sales|
      modifies this
      ensures var w := CarryInto(old(Current()), candidates, lot);
              if w.Done? then r == Done(()) && Current() == w.value else r == Failed(w.error)
    {
      hide ApplyAdjustment;
      var k := 0;
      while k < |candidates|
        invariant k <= |candidates| && |lots| == |old(lots)| && |sales| == |old(sales)|
        invariant forall j :: j in candidates[k..] ==> j < |sales|
        invariant CarryInto(old(Current()), candidates, lot) == CarryInto(Current(), candidates[k..], lot)
      {
        CarryNext(Current(), candidates[k..], lot);
        assert candidates[k..][1..] == candidates[k + 1..];
        if sales[candidates[k]].lot != lot {
          var c := ApplyAdjustment(Current(), candidates[k], lot);
          if c.Failed? {
            return Failed(c.error);
          }
          Restore(c.value);
        }
        k := k + 1;
      }
      r := Done(());
    }

    /** Sums the open lots, multiplies each, and posts the added units. */
    method ApplySplit(ratio: Ratio, date: int) returns (r: Outcome<()>)
      requires ValidRatio(ratio)
      modifies this
      ensures var s := Split(old(Current()), ratio, date);
              if s.Done? then Current() == s.value && r == Done(()) else Current() == old(Current()) && r == Failed(s.error)
    {
      hide Post, UnitsTimes, SplitLot, LessOne, Add;
      var before := Current();
      var d := AsDecimal(ratio);
      if d.num <= d.den {
        return Failed(BadRatio);
      }
      if forall l :: l in lots ==> l.remaining <= 0 {
        return Done(());
      }
      var total := TotalOpen();
      if total.Failed? {
        return Failed(total.error);
      }
      var scaled := ScaleLots(d);
      if scaled.Failed? {
        Restore(before);
        return scaled;
      }
      var added := Checked(UnitsTimes(total.value, LessOne(ratio)));
      if added.Failed? {
        Restore(before);
        return Failed(added.error);
      }
      var posted := Post(ledger, Entry(SplitEntry, date, added.value, 0, 0, 0));
      if posted.Failed? {
        Restore(before);
        return Failed(posted.error);
      }
      ledger := posted.value;
      r := Done(());
    }

    method TotalOpen() returns (r: Outcome<int>)
      ensures r == PriorTotal(lots)
    {
      hide Add;
      var total, i := 0, 0;
      while i < |lots|
        invariant i <= |lots| && PriorTotal(lots[..i]) == Done(total)
      {
        assert lots[..i + 1][..i] == lots[..i];
        if lots[i].remaining > 0 {
          var sum := Checked(Add(Units, total, lots[i].remaining));
          if sum.Failed? {
            TotalFails(lots, i + 1);
            return sum;
          }
          total := sum.value;
        }
        i := i + 1;
      }
      assert lots[..i] == lots;
      r := Done(total);
    }

    method ScaleLots(d: Rat) returns (r: Outcome<()>)
      requires d.den > 0
      modifies this`lots
      ensures var s := SplitLots(old(lots), d);
              if s.Done? then r == Done(()) && lots == s.value else r == Failed(s.error)
    {
      hide SplitLot, SplitLots;
      var i := 0;
      assert old(lots)[..0] == [];
      NoLots(d);
      ghost var done: seq<Lot> := [];
      while i < |lots|
        invariant i <= |lots| == |old(lots)| && |done| == i
        invariant SplitLots(old(lots)[..i], d) == Done(done)
        invariant forall j :: 0 <= j < i ==> lots[j] == done[j]
        invariant forall j :: i <= j < |lots| ==> lots[j] == old(lots)[j]
      {
        SplitNext(old(lots), i, d);
        var l := SplitLot(lots[i], d);
        if l.Failed? {
          SplitFails(old(lots), i + 1, d);
          return Failed(l.error);
        }
        lots := lots[i := l.value];
        done := done + [l.value];
        i := i + 1;
      }
      assert old(lots)[..i] == old(lots) && lots == done;
      r := Done(());
    }
  }

  lemma NoLots(d: Rat)
    requires d.den > 0
    ensures SplitLots([], d) == Done([])
  {
  }

  lemma {:induction false} TotalFails(lots: seq<Lot>, i: nat)
    requires i <= |lots| && PriorTotal(lots[..i]).Failed?
    ensures PriorTotal(lots) == PriorTotal(lots[..i])
    decreases |lots| - i
  {
    hide Add;
    if i == |lots| {
      assert lots[..i] == lots;
    } else {
      assert lots[..i + 1][..i] == lots[..i];
      TotalFails(lots, i + 1);
    }
  }

  lemma {:induction false} SplitFails(lots: seq<Lot>, i: nat, d: Rat)
    requires d.den > 0 && i <= |lots| && SplitLots(lots[..i], d).Failed?
    ensures SplitLots(lots, d) == SplitLots(lots[..i], d)
    decreases |lots| - i
  {
    hide SplitLot;
    if i == |lots| {
      assert lots[..i] == lots;
    } else {
      assert lots[..i + 1][..i] == lots[..i];
      SplitFails(lots, i + 1, d);
    }
  }

  lemma {:induction false} WashKeepsLength(b: Book, k: nat, n: nat)
    requires k <= n == |b.sales|
    ensures WashEach(b, k, n).Done? ==> |WashEach(b, k, n).value.sales| == n
    decreases n - k
  {
    hide OnLossSale;
    if k < n && OnLossSale(b, k).Done? { WashKeepsLength(OnLossSale(b, k).value, k + 1, n); }
  }
}
