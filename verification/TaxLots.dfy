/**
 Tax lots of one customer in one security: a lot per buy fill, consumption by sell fills (first in
 first out, or the lots the investor names), wash-sale adjustments and splits, with the journal
 entry each of them posts. A failed operation rolls its transaction back. Fill dates, the end of the
 designation window and row ids are parameters.
 */
module TaxLots {
  import opened Attempts
  import opened Rounding
  import opened FixedPoint
  import opened Sorting

  datatype LotError =
    | Arithmetic(error: Error)
    | InsufficientLots(short: int)
    | UnknownTaxLot(id: nat)
    | UnbalancedEntry(total: int)
    | ConstraintViolation
    | BadRatio

  type Outcome<+T> = Attempt<T, LotError>

  function Checked(r: Result): Outcome<int> {
    if r.Ok? then Done(r.value) else Failed(Arithmetic(r.error))
  }

  /** Amounts are in smallest units: `opening`, `remaining` in millionths, the bases in ten-thousandths. */
  datatype Lot = Lot(id: nat, execution: nat, acquired: int, opening: int, remaining: int, original: int, adjusted: int, specific: bool, windowClosesAt: int)

  /** A consumption: the position of its lot, what was taken and the gain or loss, as amended since. */
  datatype Sale = Sale(lot: nat, quantity: int, realized: int, provisional: bool, date: int)

  /** A disallowed loss carried from a consumption into a replacement lot. */
  datatype Adjustment = Adjustment(sale: nat, replacement: nat, disallowed: int)

  datatype EntryKind = TradeBuy | TradeSell | WashSale | SplitEntry

  /** A journal entry: its posting to each of the position's four accounts. */
  datatype Entry = Entry(kind: EntryKind, date: int, units: int, cost: int, cash: int, realized: int)

  datatype Book = Book(lots: seq<Lot>, sales: seq<Sale>, adjustments: seq<Adjustment>, ledger: seq<Entry>)

  datatype Fill = Fill(execution: nat, quantity: int, price: int, at: int, date: int)

  function Min(a: int, b: int): int { if b < a then b else a }

  // ---------------------------------------------------------------- posting

  /** Every entry's money legs must sum to zero. */
  function Post(ledger: seq<Entry>, e: Entry): Outcome<seq<Entry>> {
    var afterCost :- Checked(Add(Money, 0, e.cost));
    var afterCash :- Checked(Add(Money, afterCost, e.cash));
    var total :- Checked(Add(Money, afterCash, e.realized));
    if total != 0 then Failed(UnbalancedEntry(total)) else Done(ledger + [e])
  }

  // ---------------------------------------------------------------- choosing lots

  datatype Row = Row(index: nat, lot: Lot)

  /** `ORDER BY acquired_at, id`. */
  function Earlier(): (Row, Row) -> bool {
    (a: Row, b: Row) => a.lot.acquired < b.lot.acquired || (a.lot.acquired == b.lot.acquired && a.lot.id < b.lot.id)
  }

  lemma EarlierIsWeak()
    ensures WeakOrder(Earlier())
  {
  }

  /** The rows a query keeps, from a position on. */
  function Rows(lots: seq<Lot>, from: nat, keep: (nat, Lot) -> bool): (r: seq<Row>)
    requires from <= |lots|
    ensures forall x :: x in r <==> from <= x.index < |lots| && lots[x.index] == x.lot && keep(x.index, x.lot)
    decreases |lots| - from
  {
    if from == |lots| then []
    else
      var rest := Rows(lots, from + 1, keep);
      if keep(from, lots[from]) then [Row(from, lots[from])] + rest else rest
  }

  function InOrder(lots: seq<Lot>, keep: (nat, Lot) -> bool): (r: seq<Row>)
    ensures Sorted(Earlier(), r)
    ensures forall x :: x in r <==> x.index < |lots| && lots[x.index] == x.lot && keep(x.index, x.lot)
  {
    EarlierIsWeak();
    Sort(Earlier(), Rows(lots, 0, keep))
  }

  function Indices(rows: seq<Row>): (r: seq<nat>)
    ensures |r| == |rows| && forall i :: 0 <= i < |r| ==> r[i] == rows[i].index
  {
    seq(|rows|, i requires 0 <= i < |rows| => rows[i].index)
  }

  /** `lock_open_fifo`. */
  function OpenFifo(lots: seq<Lot>): (order: seq<nat>)
    ensures forall i :: i in order ==> i < |lots|
  {
    Indices(InOrder(lots, (_, l: Lot) => l.remaining > 0))
  }

  /** The position of a lot id, or the number of lots when there is none. */
  function IndexOf(lots: seq<Lot>, id: nat): (i: nat)
    ensures i <= |lots|
    ensures i < |lots| ==> lots[i].id == id
    ensures forall j :: 0 <= j < i ==> lots[j].id != id
  {
    if lots == [] || lots[0].id == id then 0 else 1 + IndexOf(lots[1..], id)
  }

  function Named(lots: seq<Lot>, ids: seq<nat>): (r: Outcome<seq<nat>>)
    ensures r.Done? ==> |r.value| == |ids| && forall i :: 0 <= i < |ids| ==> r.value[i] < |lots| && lots[r.value[i]].id == ids[i]
  {
    if ids == [] then Done([])
    else
      var i := IndexOf(lots, ids[0]);
      if i == |lots| then Failed(UnknownTaxLot(ids[0]))
      else
        var rest :- Named(lots, ids[1..]);
        Done([i] + rest)
  }

  /** The lots to consume, in order: all open lots when none are named. */
  function Select(lots: seq<Lot>, designated: seq<nat>): (r: Outcome<seq<nat>>)
    ensures r.Done? ==> forall i :: i in r.value ==> i < |lots|
  {
    if designated == [] then Done(OpenFifo(lots)) else Named(lots, designated)
  }

  /** Naming a lot marks it as specifically designated. */
  function Mark(lots: seq<Lot>, order: seq<nat>): (r: seq<Lot>)
    requires forall i :: i in order ==> i < |lots|
    ensures |r| == |lots|
    ensures forall i :: 0 <= i < |lots| ==> r[i] == lots[i].(specific := lots[i].specific || i in order)
  {
    seq(|lots|, i requires 0 <= i < |lots| => lots[i].(specific := lots[i].specific || i in order))
  }

  // ---------------------------------------------------------------- consuming lots

  /** A sell fill under way. */
  datatype Progress = Progress(lots: seq<Lot>, sales: seq<Sale>, left: int, basis: int, realized: int)

  /** The basis a draw takes out of a lot: the per-unit basis, rounded, times the units, rounded. */
  function DrawnBasis(lot: Lot, take: int): Outcome<int> {
    var perUnit :- Checked(MoneyOverUnits(lot.adjusted, lot.remaining));
    Checked(PriceTimesUnits(perUnit, take))
  }

  /** Take what one lot has, up to what is left to sell. */
  function DrawFrom(p: Progress, i: nat, f: Fill): (r: Outcome<Progress>)
    requires i < |p.lots|
    ensures r.Done? ==> |r.value.lots| == |p.lots|
  {
    var lot := p.lots[i];
    var take := Min(lot.remaining, p.left);
    if p.left <= 0 || take <= 0 then Done(p)
    else
      var basis :- DrawnBasis(lot, take);
      var proceeds :- Checked(PriceTimesUnits(f.price, take));
      var realized :- Checked(Add(Money, proceeds, -basis));
      var remaining :- Checked(Add(Units, lot.remaining, -take));
      var adjusted :- Checked(Add(Money, lot.adjusted, -basis));
      var basisTotal :- Checked(Add(Money, p.basis, basis));
      var realizedTotal :- Checked(Add(Money, p.realized, realized));
      var left :- Checked(Add(Units, p.left, -take));
      Done(Progress(p.lots[i := lot.(remaining := remaining, adjusted := adjusted)],
                    p.sales + [Sale(i, take, realized, f.at < lot.windowClosesAt, f.date)],
                    left, basisTotal, realizedTotal))
  }

  function Draw(p: Progress, order: seq<nat>, f: Fill): (r: Outcome<Progress>)
    requires forall i :: i in order ==> i < |p.lots|
    ensures r.Done? ==> |r.value.lots| == |p.lots|
    decreases |order|
  {
    if order == [] then Done(p)
    else
      assert order[0] in order && forall i :: i in order[1..] ==> i in order;
      var q :- DrawFrom(p, order[0], f);
      Draw(q, order[1..], f)
  }

  function Sell(b: Book, f: Fill, designated: seq<nat>): Outcome<Book> {
    var order :- Select(b.lots, designated);
    var marked := if designated == [] then b.lots else Mark(b.lots, order);
    var p :- Draw(Progress(marked, [], f.quantity, 0, 0), order, f);
    if p.left > 0 then Failed(InsufficientLots(p.left))
    else
      var proceeds :- Checked(PriceTimesUnits(f.price, f.quantity));
      var ledger :- Post(b.ledger, Entry(TradeSell, f.date, -f.quantity, -p.basis, proceeds, -p.realized));
      WashEach(Book(p.lots, b.sales + p.sales, b.adjustments, ledger), |b.sales|, |b.sales + p.sales|)
  }

  // ---------------------------------------------------------------- wash sales

  predicate IsAdjusted(b: Book, k: nat) {
    exists a :: a in b.adjustments && a.sale == k
  }

  /** Within 30 days either way. */
  predicate InWindow(a: int, b: int) {
    b - 30 <= a <= b + 30
  }

  /** The loss is disallowed up to the replacement's original basis and carried into its adjusted basis, once. */
  function ApplyAdjustment(b: Book, k: nat, r: nat): (o: Outcome<Book>)
    requires k < |b.sales| && r < |b.lots|
    ensures o.Done? ==> |o.value.sales| == |b.sales| && |o.value.lots| == |b.lots|
  {
    if IsAdjusted(b, k) then Done(b)
    else
      var sale, lot := b.sales[k], b.lots[r];
      var disallowed := Min(Abs(sale.realized), lot.original);
      var ledger :- Post(b.ledger, Entry(WashSale, lot.acquired, 0, disallowed, 0, -disallowed));
      var adjusted :- Checked(Add(Money, lot.adjusted, disallowed));
      var realized :- Checked(Add(Money, sale.realized, disallowed));
      Done(Book(b.lots[r := lot.(adjusted := adjusted)], b.sales[k := sale.(realized := realized)],
                b.adjustments + [Adjustment(k, r, disallowed)], ledger))
  }

  /** `find_earliest_replacement_in_window`: the earliest other lot acquired in the window, if any. */
  function Replacements(lots: seq<Lot>, sale: Sale): (r: seq<nat>)
    ensures forall i: nat :: i in r <==> i < |lots| && i != sale.lot && InWindow(lots[i].acquired, sale.date)
  {
    var rows := InOrder(lots, (i: nat, l: Lot) => i != sale.lot && InWindow(l.acquired, sale.date));
    var r := Indices(rows);
    assert forall i: nat :: i < |lots| && i != sale.lot && InWindow(lots[i].acquired, sale.date) ==> Row(i, lots[i]) in rows;
    r
  }

  function OnLossSale(b: Book, k: nat): (o: Outcome<Book>)
    requires k < |b.sales|
    ensures o.Done? ==> |o.value.sales| == |b.sales| && |o.value.lots| == |b.lots|
  {
    if b.sales[k].realized >= 0 || IsAdjusted(b, k) then Done(b)
    else
      var rs := Replacements(b.lots, b.sales[k]);
      if rs == [] then Done(b)
      else
        assert rs[0] in rs;
        ApplyAdjustment(b, k, rs[0])
  }

  /** The wash-sale check for each new consumption. */
  function WashEach(b: Book, k: nat, n: nat): (o: Outcome<Book>)
    requires k <= n == |b.sales|
    decreases n - k
  {
    if k == n then Done(b)
    else
      var c :- OnLossSale(b, k);
      WashEach(c, k + 1, n)
  }

  /** `find_unadjusted_losses_in_window` around a new lot. */
  function Losses(b: Book, acquired: int, k: nat): (r: seq<nat>)
    requires k <= |b.sales|
    ensures forall i :: i in r <==> k <= i < |b.sales| && b.sales[i].realized < 0 && InWindow(b.sales[i].date, acquired) && !IsAdjusted(b, i)
    decreases |b.sales| - k
  {
    if k == |b.sales| then []
    else
      var rest := Losses(b, acquired, k + 1);
      if b.sales[k].realized < 0 && InWindow(b.sales[k].date, acquired) && !IsAdjusted(b, k) then [k] + rest else rest
  }

  function CarryInto(b: Book, candidates: seq<nat>, lot: nat): (o: Outcome<Book>)
    requires lot < |b.lots| && forall k :: k in candidates ==> k < |b.sales|
    decreases |candidates|
  {
    if candidates == [] then Done(b)
    else
      var k := candidates[0];
      assert k in candidates && forall j :: j in candidates[1..] ==> j in candidates;
      if b.sales[k].lot == lot then CarryInto(b, candidates[1..], lot)
      else
        var c :- ApplyAdjustment(b, k, lot);
        CarryInto(c, candidates[1..], lot)
  }

  function Buy(b: Book, f: Fill, id: nat, windowClosesAt: int): Outcome<Book> {
    var cost :- Checked(PriceTimesUnits(f.price, f.quantity));
    var ledger :- Post(b.ledger, Entry(TradeBuy, f.date, f.quantity, cost, -cost, 0));
    if f.quantity < 0 || exists l :: l in b.lots && (l.id == id || l.execution == f.execution) then Failed(ConstraintViolation)
    else
      var lot := Lot(id, f.execution, f.date, f.quantity, f.quantity, cost, cost, false, windowClosesAt);
      var c := Book(b.lots + [lot], b.sales, b.adjustments, ledger);
      CarryInto(c, Losses(c, f.date, 0), |b.lots|)
  }

  // ---------------------------------------------------------------- splits

  /** An integer ratio is exact; a decimal one is rounded to 28 digits with every operation. */
  datatype Ratio = Whole(n: int) | Fraction(value: Rat)

  predicate ValidRatio(r: Ratio) { r.Fraction? ==> r.value.den > 0 }

  function AsDecimal(r: Ratio): (d: Rat)
    requires ValidRatio(r)
    ensures d.den > 0
  {
    if r.Whole? then Rat(r.n, 1) else r.value
  }

  /** `ratio - 1`. */
  function LessOne(r: Ratio): (d: Rat)
    requires ValidRatio(r)
    ensures d.den > 0
  {
    if r.Whole? then Rat(r.n - 1, 1) else Round28Signed(r.value.num - r.value.den, r.value.den)
  }

  function UnitsTimes(u: int, d: Rat): Result
    requires d.den > 0
  {
    Construct(Units, DecimalProduct(Decimal(Units, u), d))
  }

  /** The units of all open lots. */
  function PriorTotal(lots: seq<Lot>): Outcome<int> {
    if lots == [] then Done(0)
    else
      var n := |lots| - 1;
      var before :- PriorTotal(lots[..n]);
      if lots[n].remaining > 0 then Checked(Add(Units, before, lots[n].remaining)) else Done(before)
  }

  function SplitLot(l: Lot, d: Rat): Outcome<Lot>
    requires d.den > 0
  {
    if l.remaining <= 0 then Done(l)
    else
      var opening :- Checked(UnitsTimes(l.opening, d));
      var remaining :- Checked(UnitsTimes(l.remaining, d));
      Done(l.(opening := opening, remaining := remaining))
  }

  function SplitLots(lots: seq<Lot>, d: Rat): (r: Outcome<seq<Lot>>)
    requires d.den > 0
    ensures r.Done? ==> |r.value| == |lots|
  {
    if lots == [] then Done([])
    else
      var n := |lots| - 1;
      var before :- SplitLots(lots[..n], d);
      var last :- SplitLot(lots[n], d);
      Done(before + [last])
  }

  /** Multiplies every open lot by the ratio and posts the added units, without money legs. */
  function Split(b: Book, ratio: Ratio, date: int): Outcome<Book>
    requires ValidRatio(ratio)
  {
    var d := AsDecimal(ratio);
    if d.num <= d.den then Failed(BadRatio)
    else if forall l :: l in b.lots ==> l.remaining <= 0 then Done(b)
    else
      var prior :- PriorTotal(b.lots);
      var lots :- SplitLots(b.lots, d);
      var added :- Checked(UnitsTimes(prior, LessOne(ratio)));
      var ledger :- Post(b.ledger, Entry(SplitEntry, date, added, 0, 0, 0));
      Done(b.(lots := lots, ledger := ledger))
  }
}
