/**
 Billing periods of the monthly fee charge: the calendar month before the run's own month, over the
 proleptic Gregorian calendar, and the accruals each run picks up.
 */
module BillingPeriods {
  import opened Wrappers

  // ---------------------------------------------------------------- the calendar

  datatype Date = Date(year: int, month: int, day: int)

  predicate Leap(year: int) {
    year % 4 == 0 && (year % 100 != 0 || year % 400 == 0)
  }

  function DaysInMonth(year: int, month: int): (n: int)
    ensures 28 <= n <= 31
  {
    if month == 2 then (if Leap(year) then 29 else 28)
    else if month in {4, 6, 9, 11} then 30
    else 31
  }

  predicate ValidDate(d: Date) {
    1 <= d.year && 1 <= d.month <= 12 && 1 <= d.day <= DaysInMonth(d.year, d.month)
  }

  /** Months counted from January of year 0. */
  function MonthIndex(d: Date): int {
    12 * d.year + d.month - 1
  }

  function AtMost(a: Date, b: Date): bool {
    a.year < b.year || (a.year == b.year && (a.month < b.month || (a.month == b.month && a.day <= b.day)))
  }

  /** Days before the first of a month, counted month by month from 1 January of year 1. */
  function DaysBefore(year: int, month: int): int
    requires 1 <= year && 1 <= month <= 12
    decreases year, month
  {
    if month > 1 then DaysBefore(year, month - 1) + DaysInMonth(year, month - 1)
    else if year > 1 then DaysBefore(year - 1, 12) + DaysInMonth(year - 1, 12)
    else 0
  }

  /** The day number of a date; 1 January of year 1 is day 1. */
  function Ordinal(d: Date): int
    requires ValidDate(d)
  {
    DaysBefore(d.year, d.month) + d.day
  }

  /** The calendar day before; None before the first representable date. */
  function DayBefore(d: Date): (r: Option<Date>)
    requires ValidDate(d)
    ensures r.Some? ==> ValidDate(r.value) && Ordinal(r.value) == Ordinal(d) - 1
    ensures r.None? <==> Ordinal(d) == 1
  {
    OrdinalPositive(d);
    if d.day > 1 then Some(d.(day := d.day - 1))
    else if d.month > 1 then Some(Date(d.year, d.month - 1, DaysInMonth(d.year, d.month - 1)))
    else if d.year > 1 then Some(Date(d.year - 1, 12, 31))
    else None
  }

  lemma {:induction false} DaysBeforeBound(year: int, month: int)
    requires 1 <= year && 1 <= month <= 12
    ensures DaysBefore(year, month) >= 0
    ensures (year, month) != (1, 1) ==> DaysBefore(year, month) >= 28
    decreases year, month
  {
    if month > 1 { DaysBeforeBound(year, month - 1); } else if year > 1 { DaysBeforeBound(year - 1, 12); }
  }

  lemma OrdinalPositive(d: Date)
    requires ValidDate(d)
    ensures Ordinal(d) >= 1
    ensures Ordinal(d) == 1 <==> d == Date(1, 1, 1)
  {
    DaysBeforeBound(d.year, d.month);
  }

  /** An earlier month ends before a later one starts. */
  lemma {:induction false} MonthsInOrder(y: int, m: int, year: int, month: int)
    requires 1 <= y && 1 <= m <= 12 && 1 <= year && 1 <= month <= 12
    requires 12 * y + m < 12 * year + month
    ensures DaysBefore(y, m) + DaysInMonth(y, m) <= DaysBefore(year, month)
    decreases year, month
  {
    if month > 1 {
      if 12 * y + m < 12 * year + month - 1 { MonthsInOrder(y, m, year, month - 1); }
    } else {
      if 12 * y + m < 12 * (year - 1) + 12 { MonthsInOrder(y, m, year - 1, 12); }
    }
  }

  /** Comparing dates field by field is comparing day numbers, so a day number determines its date. */
  lemma OrdinalOrder(a: Date, b: Date)
    requires ValidDate(a) && ValidDate(b)
    ensures AtMost(a, b) <==> Ordinal(a) <= Ordinal(b)
    ensures Ordinal(a) == Ordinal(b) <==> a == b
  {
    if MonthIndex(a) < MonthIndex(b) { MonthsInOrder(a.year, a.month, b.year, b.month); }
    if MonthIndex(b) < MonthIndex(a) { MonthsInOrder(b.year, b.month, a.year, a.month); }
  }

  // ---------------------------------------------------------------- the period

  datatype Period = Period(start: Date, end: Date)

  /** None is the overflow of going before the first representable date. */
  function PreviousMonthBounds(marketDate: Date): Option<Period>
    requires ValidDate(marketDate)
  {
    var firstOfThisMonth := marketDate.(day := 1);
    match DayBefore(firstOfThisMonth)
    case None => None
    case Some(periodEnd) => Some(Period(periodEnd.(day := 1), periodEnd))
  }

  predicate Within(d: Date, p: Period) {
    AtMost(p.start, d) && AtMost(d, p.end)
  }

  /** A period from the first to the last day of one month. */
  ghost predicate FullMonth(p: Period, index: int) {
    && ValidDate(p.start) && ValidDate(p.end) && p.start.day == 1 && p.end.day == DaysInMonth(p.end.year, p.end.month)
    && MonthIndex(p.start) == index && MonthIndex(p.end) == index
  }

  lemma BoundsAreAFullMonth(marketDate: Date)
    requires ValidDate(marketDate)
    ensures var r := PreviousMonthBounds(marketDate);
            && (r.None? <==> marketDate.year == 1 && marketDate.month == 1)
            && (r.Some? ==> FullMonth(r.value, MonthIndex(marketDate) - 1))
  {
    hide DaysBefore, Leap;
    assert DaysInMonth(marketDate.year - 1, 12) == 31;
  }

  lemma FullMonthHolds(p: Period, index: int, x: Date)
    requires FullMonth(p, index) && ValidDate(x)
    ensures Within(x, p) <==> MonthIndex(x) == index
  {
    hide Leap, DaysInMonth;
  }

  /**
   The period holds exactly the dates of the month before the run's month; it fails exactly in the
   first month there is.
   */
  lemma PeriodIsMonthBefore(marketDate: Date)
    requires ValidDate(marketDate)
    ensures var r := PreviousMonthBounds(marketDate);
            && (r.None? <==> marketDate.year == 1 && marketDate.month == 1)
            && (r.Some? ==> ValidDate(r.value.start) && ValidDate(r.value.end))
            && (r.Some? ==> forall x :: ValidDate(x) ==> (Within(x, r.value) <==> MonthIndex(x) == MonthIndex(marketDate) - 1))
  {
    hide PreviousMonthBounds, Within, MonthIndex;
    BoundsAreAFullMonth(marketDate);
    var r := PreviousMonthBounds(marketDate);
    if r.Some? {
      forall x | ValidDate(x) ensures Within(x, r.value) <==> MonthIndex(x) == MonthIndex(marketDate) - 1 {
        FullMonthHolds(r.value, MonthIndex(marketDate) - 1, x);
      }
    }
  }

  /** Only the month of the argument matters. */
  lemma OnlyTheMonthMatters(a: Date, b: Date)
    requires ValidDate(a) && ValidDate(b) && MonthIndex(a) == MonthIndex(b)
    ensures PreviousMonthBounds(a) == PreviousMonthBounds(b)
  {
    assert a.(day := 1) == b.(day := 1);
  }

  /** Consecutive runs have adjacent periods: the day after one ends is the day the next starts. */
  lemma ConsecutivePeriodsAreAdjacent(a: Date, b: Date)
    requires ValidDate(a) && ValidDate(b) && MonthIndex(b) == MonthIndex(a) + 1
    requires PreviousMonthBounds(a).Some?
    ensures PreviousMonthBounds(b).Some?
    ensures var p, q := PreviousMonthBounds(a).value, PreviousMonthBounds(b).value;
            ValidDate(p.end) && ValidDate(q.start) && Ordinal(q.start) == Ordinal(p.end) + 1 && q.start == a.(day := 1)
  {
    hide DaysBefore, Leap, DaysInMonth, Ordinal;
    BoundsAreAFullMonth(a);
    BoundsAreAFullMonth(b);
    EndIsDayBefore(a);
  }

  lemma EndIsDayBefore(a: Date)
    requires ValidDate(a) && PreviousMonthBounds(a).Some?
    ensures var p := PreviousMonthBounds(a).value;
            ValidDate(p.end) && Ordinal(a.(day := 1)) == Ordinal(p.end) + 1
  {
    hide DaysBefore, Leap, DaysInMonth, DayBefore;
  }

  // ---------------------------------------------------------------- the accruals a run picks up

  datatype Accrual = Accrual(id: nat, customer: nat, date: Date, amount: int)

  /** `list_for_period`: both boundaries included. */
  function ListForPeriod(rows: seq<Accrual>, customer: nat, p: Period): seq<Accrual> {
    if rows == [] then []
    else
      var rest := ListForPeriod(rows[1..], customer, p);
      if rows[0].customer == customer && Within(rows[0].date, p) then [rows[0]] + rest else rest
  }

  /** `list_customers_with_accruals_in_period`: distinct customers with at least one accrual in it. */
  function ListCustomers(rows: seq<Accrual>, p: Period): (cs: seq<nat>)
    ensures forall i, j :: 0 <= i < j < |cs| ==> cs[i] != cs[j]
    ensures forall r :: r in rows && Within(r.date, p) ==> r.customer in cs
    ensures forall c :: c in cs ==> ListForPeriod(rows, c, p) != []
  {
    if rows == [] then []
    else
      var rest := ListCustomers(rows[1..], p);
      if Within(rows[0].date, p) && rows[0].customer !in rest then [rows[0].customer] + rest else rest
  }

  /** The accruals of the charges a run creates, customer by customer. */
  function Picked(rows: seq<Accrual>, customers: seq<nat>, p: Period): seq<Accrual> {
    if customers == [] then []
    else Picked(rows, customers[..|customers| - 1], p) + ListForPeriod(rows, customers[|customers| - 1], p)
  }

  /** The accruals one run bills; a run that overflows bills nothing. */
  function Billed(rows: seq<Accrual>, run: Date): seq<Accrual>
    requires ValidDate(run)
  {
    match PreviousMonthBounds(run)
    case None => []
    case Some(p) => Picked(rows, ListCustomers(rows, p), p)
  }

  lemma {:induction false} ListedOnce(rows: seq<Accrual>, customer: nat, p: Period, x: Accrual)
    ensures multiset(ListForPeriod(rows, customer, p))[x]
            == if x.customer == customer && Within(x.date, p) then multiset(rows)[x] else 0
  {
    if rows != [] {
      ListedOnce(rows[1..], customer, p, x);
      assert rows == [rows[0]] + rows[1..];
    }
  }

  lemma {:induction false} PickedOnce(rows: seq<Accrual>, customers: seq<nat>, p: Period, x: Accrual)
    requires forall i, j :: 0 <= i < j < |customers| ==> customers[i] != customers[j]
    ensures multiset(Picked(rows, customers, p))[x]
            == if x.customer in customers && Within(x.date, p) then multiset(rows)[x] else 0
  {
    hide Within, ListForPeriod;
    if customers != [] {
      var n := |customers| - 1;
      PickedOnce(rows, customers[..n], p, x);
      ListedOnce(rows, customers[n], p, x);
      assert customers == customers[..n] + [customers[n]];
    }
  }

  /** A run bills every accrual of the month before it as often as the table holds it, and no other. */
  lemma RunBillsItsMonth(rows: seq<Accrual>, run: Date, x: Accrual)
    requires ValidDate(run) && ValidDate(x.date)
    ensures multiset(Billed(rows, run))[x]
            == if MonthIndex(x.date) == MonthIndex(run) - 1 then multiset(rows)[x] else 0
  {
    hide PreviousMonthBounds, FullMonth, Within, ValidDate, Picked, ListCustomers, ListForPeriod;
    BoundsAreAFullMonth(run);
    var r := PreviousMonthBounds(run);
    if r.Some? {
      FullMonthHolds(r.value, MonthIndex(run) - 1, x.date);
      PickedOnce(rows, ListCustomers(rows, r.value), r.value, x);
      assert multiset(rows)[x] > 0 <==> x in rows;
    } else {
      NothingBefore(run, x.date);
    }
  }

  lemma NothingBefore(run: Date, d: Date)
    requires run.year == 1 && run.month == 1 && ValidDate(d)
    ensures MonthIndex(d) != MonthIndex(run) - 1
  {
    hide DaysInMonth;
  }

  /** Runs in consecutive months, on any day of each. */
  ghost predicate Consecutive(runs: seq<Date>) {
    && (forall i :: 0 <= i < |runs| ==> ValidDate(runs[i]))
    && (forall i :: 0 <= i < |runs| ==> MonthIndex(runs[i]) == MonthIndex(runs[0]) + i)
  }

  /** Everything a series of runs bills, each from the table as it stands at that run. */
  function BilledOver(tables: seq<seq<Accrual>>, runs: seq<Date>): seq<Accrual>
    requires |tables| == |runs| && forall i :: 0 <= i < |runs| ==> ValidDate(runs[i])
  {
    if runs == [] then []
    else
      var n := |runs| - 1;
      BilledOver(tables[..n], runs[..n]) + Billed(tables[n], runs[n])
  }

  /**
   Over any series of consecutive runs an accrual is billed as often as it stood in the table at the
   one run for its month, and not at all outside the span.
   */
  lemma {:induction false} BilledByItsRunOnly(tables: seq<seq<Accrual>>, runs: seq<Date>, x: Accrual)
    requires |tables| == |runs| > 0 && Consecutive(runs) && ValidDate(x.date)
    ensures var i := MonthIndex(x.date) + 1 - MonthIndex(runs[0]);
            multiset(BilledOver(tables, runs))[x] == if 0 <= i < |runs| then multiset(tables[i])[x] else 0
    decreases |runs|
  {
    hide Billed, ValidDate, MonthIndex;
    var n := |runs| - 1;
    RunBillsItsMonth(tables[n], runs[n], x);
    if n > 0 { BilledByItsRunOnly(tables[..n], runs[..n], x); }
    assert multiset(BilledOver(tables, runs))[x]
        == multiset(BilledOver(tables[..n], runs[..n]))[x] + multiset(Billed(tables[n], runs[n]))[x];
  }

  lemma NotTheFirstMonth(a: Date, b: Date)
    requires ValidDate(a) && ValidDate(b) && MonthIndex(a) <= MonthIndex(b) && !(a.year == 1 && a.month == 1)
    ensures !(b.year == 1 && b.month == 1)
  {
  }

  lemma SpanOfMonths(p: Period, q: Period, i: int, j: int, x: Date)
    requires FullMonth(p, i) && FullMonth(q, j) && ValidDate(x)
    ensures Within(x, Period(p.start, q.end)) <==> i <= MonthIndex(x) <= j
  {
    hide Leap, DaysInMonth;
  }

  /**
   With every accrual of the span in place, consecutive runs bill exactly the accruals dated from the
   first period's start to the last period's end, each once.
   */
  lemma SpanIsBilledExactlyOnce(rows: seq<Accrual>, runs: seq<Date>, x: Accrual)
    requires |runs| > 0 && Consecutive(runs) && ValidDate(x.date) && PreviousMonthBounds(runs[0]).Some?
    ensures var last := PreviousMonthBounds(runs[|runs| - 1]);
            && last.Some?
            && multiset(BilledOver(seq(|runs|, _ => rows), runs))[x]
               == if Within(x.date, Period(PreviousMonthBounds(runs[0]).value.start, last.value.end)) then multiset(rows)[x] else 0
  {
    hide BilledOver, PreviousMonthBounds, FullMonth, Within, ValidDate, MonthIndex;
    var n := |runs| - 1;
    BoundsAreAFullMonth(runs[0]);
    BoundsAreAFullMonth(runs[n]);
    NotTheFirstMonth(runs[0], runs[n]);
    BilledByItsRunOnly(seq(|runs|, _ => rows), runs, x);
    SpanOfMonths(PreviousMonthBounds(runs[0]).value, PreviousMonthBounds(runs[n]).value, MonthIndex(runs[0]) - 1, MonthIndex(runs[n]) - 1, x.date);
  }
}
