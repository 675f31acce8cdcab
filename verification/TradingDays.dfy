/**
 Trading-day arithmetic over an injected calendar. Dates are day ordinals; the search for a
 neighbouring trading day gives up after 14 days.
 */
module TradingDays {
  import opened Wrappers
  import opened Collections

  type Calendar = int -> bool

  const MAX_SEARCH_DAYS := 14

  /** The in-memory calendar: Monday to Friday, except holidays (ordinal 1 is a Monday). */
  function InMemoryCalendar(holidays: set<int>): Calendar {
    (d: int) => Weekday(d) && d !in holidays
  }

  /** The date j days after d, or before it. */
  function Shift(d: int, forward: bool, j: int): int { if forward then d + j else d - j }

  // ---------------------------------------------------------------- one step

  /** How far the first trading day strictly beyond d is, or 0 if none of the next n days is one. */
  function Gap(cal: Calendar, d: int, forward: bool, n: nat): (k: nat)
    ensures k <= n
    ensures k > 0 ==> cal(Shift(d, forward, k)) && forall j :: 1 <= j < k ==> !cal(Shift(d, forward, j))
    ensures k == 0 ==> forall j :: 1 <= j <= n ==> !cal(Shift(d, forward, j))
  {
    if n == 0 then 0
    else
      var k := Gap(cal, d, forward, n - 1);
      if k > 0 then k else if cal(Shift(d, forward, n)) then n else 0
  }

  function Step(cal: Calendar, d: int, forward: bool): Option<int> {
    var k := Gap(cal, d, forward, MAX_SEARCH_DAYS);
    if k == 0 then None else Some(Shift(d, forward, k))
  }

  /** `next_trading_day` and `previous_trading_day`: a bounded scan. */
  method Neighbour(cal: Calendar, d: int, forward: bool) returns (r: Option<int>)
    ensures r == Step(cal, d, forward)
  {
    var candidate := d;
    for i := 0 to MAX_SEARCH_DAYS
      invariant candidate == Shift(d, forward, i)
      invariant forall j :: 1 <= j <= i ==> !cal(Shift(d, forward, j))
    {
      candidate := Shift(candidate, forward, 1);
      if cal(candidate) {
        assert candidate == Shift(d, forward, i + 1);
        FirstGap(cal, d, forward, i + 1);
        return Some(candidate);
      }
    }
    r := None;
  }

  lemma FirstGap(cal: Calendar, d: int, forward: bool, k: nat)
    requires 1 <= k <= MAX_SEARCH_DAYS && cal(Shift(d, forward, k))
    requires forall j :: 1 <= j < k ==> !cal(Shift(d, forward, j))
    ensures Gap(cal, d, forward, MAX_SEARCH_DAYS) == k
  {
    var g := Gap(cal, d, forward, MAX_SEARCH_DAYS);
    assert g > 0;
  }

  // ---------------------------------------------------------------- n steps

  /** n steps in one direction, or none if some step finds no trading day. */
  function Steps(cal: Calendar, d: int, forward: bool, n: nat): Option<int>
    decreases n
  {
    if n == 0 then Some(d)
    else
      var e := Step(cal, d, forward);
      if e.None? then None else Steps(cal, e.value, forward, n - 1)
  }

  function AddTradingDays(cal: Calendar, d: int, n: int): Option<int> {
    if n >= 0 then Steps(cal, d, true, n) else Steps(cal, d, false, -n)
  }

  /** `add_trading_days`: the loop over `step`, which raises when the calendar is exhausted. */
  method Add(cal: Calendar, d: int, n: int) returns (r: Option<int>)
    ensures r == AddTradingDays(cal, d, n)
  {
    var forward, count := n >= 0, if n >= 0 then n else -n;
    var current := d;
    for i := 0 to count
      invariant Steps(cal, d, forward, count) == Steps(cal, current, forward, count - i)
    {
      var next := Neighbour(cal, current, forward);
      if next.None? { return None; }
      current := next.value;
    }
    r := Some(current);
  }

  // ---------------------------------------------------------------- counting

  /** The number of trading days in (a, b]. */
  function Count(cal: Calendar, a: int, b: int): nat
    decreases b - a
  {
    if b <= a then 0 else (if cal(b) then 1 else 0) + Count(cal, a, b - 1)
  }

  lemma {:induction false} CountSplit(cal: Calendar, a: int, m: int, b: int)
    requires a <= m <= b
    ensures Count(cal, a, b) == Count(cal, a, m) + Count(cal, m, b)
    decreases b - m
  {
    if m < b { CountSplit(cal, a, m, b - 1); }
  }

  lemma {:induction false} CountNone(cal: Calendar, a: int, b: int)
    requires forall x :: a < x <= b ==> !cal(x)
    ensures Count(cal, a, b) == 0
    decreases b - a
  {
    if a < b { CountNone(cal, a, b - 1); }
  }

  /** One step forward passes exactly one trading day. */
  lemma StepCounts(cal: Calendar, d: int)
    requires Step(cal, d, true).Some?
    ensures var e := Step(cal, d, true).value; d < e <= d + 14 && cal(e) && Count(cal, d, e) == 1
  {
    var k := Gap(cal, d, true, MAX_SEARCH_DAYS);
    var e := d + k;
    assert forall x :: d < x <= e - 1 ==> !cal(x) by {
      forall x | d < x <= e - 1 ensures !cal(x) { assert !cal(Shift(d, true, x - d)); }
    }
    CountNone(cal, d, e - 1);
  }

  /** n steps forward end on a trading day with exactly n trading days in (d, result]. */
  lemma {:induction false} ForwardCounts(cal: Calendar, d: int, n: nat)
    requires n > 0 && AddTradingDays(cal, d, n).Some?
    ensures var r := AddTradingDays(cal, d, n).value; d < r && cal(r) && Count(cal, d, r) == n
    decreases n
  {
    var e := Step(cal, d, true).value;
    StepCounts(cal, d);
    if n > 1 {
      ForwardCounts(cal, e, n - 1);
      CountSplit(cal, d, e, AddTradingDays(cal, d, n).value);
    }
  }

  /** One step backward: the days strictly between are closed. */
  lemma StepBackCounts(cal: Calendar, d: int)
    requires Step(cal, d, false).Some?
    ensures var e := Step(cal, d, false).value; d - 14 <= e < d && cal(e) && Count(cal, e - 1, d - 1) == 1
  {
    var k := Gap(cal, d, false, MAX_SEARCH_DAYS);
    var e := d - k;
    assert forall x :: e < x <= d - 1 ==> !cal(x) by {
      forall x | e < x <= d - 1 ensures !cal(x) { assert !cal(Shift(d, false, d - x)); }
    }
    CountNone(cal, e, d - 1);
    CountSplit(cal, e - 1, e, d - 1);
  }

  /** n steps backward end on a trading day with exactly n trading days in [result, d). */
  lemma {:induction false} BackwardCounts(cal: Calendar, d: int, n: nat)
    requires n > 0 && AddTradingDays(cal, d, 0 - n).Some?
    ensures var r := AddTradingDays(cal, d, 0 - n).value; r < d && cal(r) && Count(cal, r - 1, d - 1) == n
    decreases n
  {
    var e := Step(cal, d, false).value;
    StepBackCounts(cal, d);
    assert Steps(cal, d, false, n) == Steps(cal, e, false, n - 1);
    if n > 1 {
      BackwardCounts(cal, e, n - 1);
      CountSplit(cal, AddTradingDays(cal, d, 0 - n).value - 1, e - 1, d - 1);
    }
  }

  /** The count identifies the day: no other trading day after d has the same number of trading days before it. */
  lemma CountIsInjective(cal: Calendar, d: int, a: int, b: int)
    requires d < a < b && cal(b)
    ensures Count(cal, d, a) < Count(cal, d, b)
  {
    CountSplit(cal, d, a, b);
  }

  /** So a successful result is the only trading day after d with n trading days up to it. */
  lemma ResultIsTheNth(cal: Calendar, d: int, n: nat, x: int)
    requires n > 0 && AddTradingDays(cal, d, n).Some?
    ensures AddTradingDays(cal, d, n) == Some(x) <==> d < x && cal(x) && Count(cal, d, x) == n
  {
    var r := AddTradingDays(cal, d, n).value;
    ForwardCounts(cal, d, n);
    if d < x && cal(x) && Count(cal, d, x) == n {
      if x < r { CountIsInjective(cal, d, x, r); }
      if r < x { CountIsInjective(cal, d, r, x); }
    }
  }

  // ---------------------------------------------------------------- composing and undoing

  /** Steps in one direction compose additively, failures included. */
  lemma {:induction false} StepsCompose(cal: Calendar, d: int, forward: bool, m: nat, n: nat)
    ensures var e := Steps(cal, d, forward, m);
            Steps(cal, d, forward, m + n) == if e.None? then None else Steps(cal, e.value, forward, n)
    decreases m
  {
    if m > 0 {
      var e := Step(cal, d, forward);
      if e.Some? { StepsCompose(cal, e.value, forward, m - 1, n); }
    }
  }

  /** Adding trading days of the same sign composes additively. */
  lemma AddComposes(cal: Calendar, d: int, m: int, n: int)
    requires (m >= 0 && n >= 0) || (m <= 0 && n <= 0)
    ensures var e := AddTradingDays(cal, d, m);
            AddTradingDays(cal, d, m + n) == if e.None? then None else AddTradingDays(cal, e.value, n)
  {
    if m + n >= 0 {
      StepsCompose(cal, d, true, m, n);
    } else {
      StepsCompose(cal, d, false, 0 - m, 0 - n);
    }
  }

  /** From a trading day, one step there and one step back returns to it. */
  lemma StepInverts(cal: Calendar, d: int, forward: bool)
    requires cal(d) && Step(cal, d, forward).Some?
    ensures Step(cal, Step(cal, d, forward).value, !forward) == Some(d)
  {
    var k := Gap(cal, d, forward, MAX_SEARCH_DAYS);
    var e, back := Shift(d, forward, k), !forward;
    forall j | 1 <= j < k ensures !cal(Shift(e, back, j)) {
      assert Shift(e, back, j) == Shift(d, forward, k - j);
    }
    FirstGap(cal, e, back, k);
  }

  /** From a trading day, going n days one way and n days back returns to it, without exhausting the calendar. */
  lemma {:induction false} StepsInvert(cal: Calendar, d: int, forward: bool, n: nat)
    requires cal(d) && Steps(cal, d, forward, n).Some?
    ensures Steps(cal, Steps(cal, d, forward, n).value, !forward, n) == Some(d)
    decreases n
  {
    if n > 0 {
      var e := Step(cal, d, forward).value;
      var r := Steps(cal, d, forward, n).value;
      StepIsTrading(cal, d, forward);
      StepsInvert(cal, e, forward, n - 1);
      StepInverts(cal, d, forward);
      StepsCompose(cal, r, !forward, n - 1, 1);
      assert Steps(cal, e, !forward, 1) == Some(d);
    }
  }

  lemma StepIsTrading(cal: Calendar, d: int, forward: bool)
    requires Step(cal, d, forward).Some?
    ensures cal(Step(cal, d, forward).value)
  {
  }

  lemma AddInverts(cal: Calendar, d: int, n: int)
    requires cal(d) && AddTradingDays(cal, d, n).Some?
    ensures AddTradingDays(cal, AddTradingDays(cal, d, n).value, -n) == Some(d)
  {
    StepsInvert(cal, d, n >= 0, if n >= 0 then n else -n);
  }

  // ---------------------------------------------------------------- exhaustion

  /** No trading day in the 14 days beyond d. */
  ghost predicate Closed(cal: Calendar, d: int, forward: bool) {
    forall j :: 1 <= j <= MAX_SEARCH_DAYS ==> !cal(Shift(d, forward, j))
  }

  /** The date after k successful steps has nothing but closed days beyond it. */
  ghost predicate StuckAfter(cal: Calendar, d: int, forward: bool, k: nat) {
    Steps(cal, d, forward, k).Some? && Closed(cal, Steps(cal, d, forward, k).value, forward)
  }

  /** The calendar error is raised exactly when some step along the way faces 14 closed days. */
  lemma {:induction false} ExhaustedIff(cal: Calendar, d: int, forward: bool, n: nat)
    ensures Steps(cal, d, forward, n).None? <==> exists k: nat :: k < n && StuckAfter(cal, d, forward, k)
    decreases n
  {
    if n > 0 {
      var m := n - 1;
      ExhaustedIff(cal, d, forward, m);
      StepsCompose(cal, d, forward, m, 1);
      var e := Steps(cal, d, forward, m);
      if e.Some? {
        assert Steps(cal, e.value, forward, 1).None? <==> Step(cal, e.value, forward).None?;
        assert Step(cal, e.value, forward).None? <==> Closed(cal, e.value, forward) by { GapIsClosed(cal, e.value, forward); }
        if Closed(cal, e.value, forward) { assert StuckAfter(cal, d, forward, m); }
      }
      forall k: nat | k < m && StuckAfter(cal, d, forward, k) ensures Steps(cal, d, forward, m).None? {}
    }
  }

  lemma GapIsClosed(cal: Calendar, d: int, forward: bool)
    ensures Gap(cal, d, forward, MAX_SEARCH_DAYS) == 0 <==> Closed(cal, d, forward)
  {
  }

  // ---------------------------------------------------------------- the in-memory calendar

  predicate Weekday(d: int) { (d + 6) % 7 < 5 }

  /** Weekdays up to and including d, from a fixed Sunday on. */
  function WeekdaysTo(d: int): int {
    var y := d + 7;
    5 * (y / 7) + if y % 7 < 5 then y % 7 else 5
  }

  lemma {:induction false} CountWeekdays(a: int, b: int)
    requires a <= b
    ensures Count(Weekday, a, b) == WeekdaysTo(b) - WeekdaysTo(a)
    decreases b - a
  {
    if a < b { CountWeekdays(a, b - 1); }
  }

  /** The trading days in (a, b]. */
  ghost function OpenDays(cal: Calendar, a: int, b: int): set<int> {
    set x | a < x <= b && cal(x)
  }

  lemma {:induction false} CountIsSize(cal: Calendar, a: int, b: int)
    ensures Count(cal, a, b) == |OpenDays(cal, a, b)|
    decreases b - a
  {
    if a < b {
      CountIsSize(cal, a, b - 1);
      var rest := OpenDays(cal, a, b - 1);
      assert OpenDays(cal, a, b) == if cal(b) then rest + {b} else rest;
    } else {
      assert OpenDays(cal, a, b) == {};
    }
  }

  /** Holidays among the fourteen days after a. */
  ghost function HolidaysIn(holidays: set<int>, a: int): set<int> {
    set x | x in holidays && a < x <= a + 14
  }

  /** Any fourteen days have ten weekdays, so nine holidays leave one of them open. */
  lemma SomeDayIsOpen(holidays: set<int>, a: int) returns (x: int)
    requires |HolidaysIn(holidays, a)| < 10
    ensures a < x <= a + 14 && InMemoryCalendar(holidays)(x)
  {
    CountWeekdays(a, a + 14);
    CountIsSize(Weekday, a, a + 14);
    x := LargerHasMore(OpenDays(Weekday, a, a + 14), HolidaysIn(holidays, a));
  }

  /** With fewer than ten holidays in any fourteen days the in-memory calendar is never exhausted, in either direction. */
  lemma InMemoryNeverExhausts(holidays: set<int>, d: int, forward: bool, n: nat)
    requires forall a :: |HolidaysIn(holidays, a)| < 10
    ensures Steps(InMemoryCalendar(holidays), d, forward, n).Some?
  {
    hide InMemoryCalendar;
    var cal := InMemoryCalendar(holidays);
    ExhaustedIff(cal, d, forward, n);
    forall k: nat | k < n && Steps(cal, d, forward, k).Some? ensures !StuckAfter(cal, d, forward, k) {
      var e := Steps(cal, d, forward, k).value;
      var x := SomeDayIsOpen(holidays, if forward then e else e - 15);
      assert x == Shift(e, forward, if forward then x - e else e - x);
    }
  }
}
