/**
 The cached state of an order: a fold of its append-only events by sequence number, rebuilt in full
 with every new event.
 */
module OrderProjection {
  import opened Wrappers
  import opened Attempts
  import opened Rounding
  import opened FixedPoint
  import opened Sorting

  datatype Status = Approved | Submitted | Accepted | PartiallyFilled | Filled | Rejected | Canceled | Expired

  datatype Kind = IsSubmitted | IsAccepted | IsFill(quantity: int, price: int) | IsRejected | IsCanceled | IsExpired

  datatype Event = Event(sequence: int, kind: Kind)

  datatype State = State(status: Status, filled: int, averagePrice: Option<int>)

  datatype Running = Running(status: Status, filled: int, notional: int)

  type Outcome<+T> = Attempt<T, Error>

  function Attempted(r: Result): Outcome<int> {
    if r.Ok? then Done(r.value) else Failed(r.error)
  }

  function BySequence(): (Event, Event) -> bool {
    (a: Event, b: Event) => a.sequence < b.sequence
  }

  function Apply(s: Running, e: Event, requested: int): Outcome<Running> {
    match e.kind
    case IsSubmitted => Done(s.(status := Submitted))
    case IsAccepted => Done(s.(status := Accepted))
    case IsRejected => Done(s.(status := Rejected))
    case IsCanceled => Done(s.(status := Canceled))
    case IsExpired => Done(s.(status := Expired))
    case IsFill(quantity, price) =>
      var filled :- Attempted(Add(Units, s.filled, quantity));
      var amount :- Attempted(PriceTimesUnits(price, quantity));
      var notional :- Attempted(Add(Money, s.notional, amount));
      Done(Running(if filled >= requested then Filled else PartiallyFilled, filled, notional))
  }

  function ApplyAll(events: seq<Event>, requested: int): Outcome<Running> {
    if events == [] then Done(Running(Approved, 0, 0))
    else
      var n := |events| - 1;
      var s :- ApplyAll(events[..n], requested);
      Apply(s, events[n], requested)
  }

  function Ordered(events: seq<Event>): seq<Event> {
    assert WeakOrder(BySequence());
    Sort(BySequence(), events)
  }

  function Finish(s: Running): Outcome<State> {
    if s.filled > 0 then
      var average :- Attempted(MoneyOverUnits(s.notional, s.filled));
      Done(State(s.status, s.filled, Some(average)))
    else Done(State(s.status, s.filled, None))
  }

  ghost function Projection(events: seq<Event>, requested: int): Outcome<State> {
    var s :- ApplyAll(Ordered(events), requested);
    Finish(s)
  }

  /** Sorts by sequence number and applies event after event. */
  method Fold(events: seq<Event>, requested: int) returns (r: Outcome<State>)
    ensures r == Projection(events, requested)
  {
    hide Apply;
    var sorted := Ordered(events);
    var s := Running(Approved, 0, 0);
    var i := 0;
    while i < |sorted|
      invariant i <= |sorted| && ApplyAll(sorted[..i], requested) == Done(s)
    {
      assert sorted[..i + 1][..i] == sorted[..i];
      var next := Apply(s, sorted[i], requested);
      if next.Failed? {
        FailureStays(sorted, i + 1, requested);
        return Failed(next.error);
      }
      s := next.value;
      i := i + 1;
    }
    assert sorted[..i] == sorted;
    r := Finish(s);
  }

  lemma {:induction false} FailureStays(events: seq<Event>, i: nat, requested: int)
    requires i <= |events| && ApplyAll(events[..i], requested).Failed?
    ensures ApplyAll(events, requested) == ApplyAll(events[..i], requested)
    decreases |events| - i
  {
    hide Apply;
    if i == |events| {
      assert events[..i] == events;
    } else {
      assert events[..i + 1][..i] == events[..i];
      FailureStays(events, i + 1, requested);
    }
  }

  // ---------------------------------------------------------------- arrival order

  /** The unique constraint on (order, sequence number). */
  ghost predicate UniqueSequence(events: seq<Event>) {
    forall i, j :: 0 <= i < j < |events| ==> events[i].sequence != events[j].sequence
  }

  ghost predicate Increasing(events: seq<Event>) {
    forall i, j :: 0 <= i < j < |events| ==> events[i].sequence < events[j].sequence
  }

  /** Equal sequence numbers mean the same event, and no event occurs twice. */
  ghost predicate Distinct(m: multiset<Event>) {
    && (forall a, b :: a in m && b in m && a.sequence == b.sequence ==> a == b)
    && forall a :: a in m ==> m[a] == 1
  }

  lemma {:induction false} UniqueIsDistinct(events: seq<Event>)
    requires UniqueSequence(events)
    ensures Distinct(multiset(events))
    decreases |events|
  {
    if events != [] {
      var n := |events| - 1;
      UniqueIsDistinct(events[..n]);
      assert events == events[..n] + [events[n]];
      assert forall e :: e in events[..n] ==> e.sequence != events[n].sequence;
    }
  }

  lemma {:induction false} SortedIsIncreasing(events: seq<Event>)
    requires Sorted(BySequence(), events) && Distinct(multiset(events))
    ensures Increasing(events)
  {
    forall i, j | 0 <= i < j < |events| ensures events[i].sequence < events[j].sequence {
      assert !BySequence()(events[j], events[i]);
      if events[i].sequence == events[j].sequence { SameTwice(events, i, j); }
    }
  }

  /** Two positions with the same event count it twice. */
  lemma SameTwice(events: seq<Event>, i: nat, j: nat)
    requires i < j < |events|
    ensures events[i] == events[j] ==> multiset(events)[events[i]] >= 2
  {
    var a, b := events[..j], events[j..];
    assert events == a + b && a[i] == events[i] && b[0] == events[j];
    assert multiset(events) == multiset(a) + multiset(b);
    assert events[i] in multiset(a) && events[j] in multiset(b);
  }

  lemma {:induction false} IncreasingUnique(a: seq<Event>, b: seq<Event>)
    requires Increasing(a) && Increasing(b) && multiset(a) == multiset(b)
    ensures a == b
    decreases |a|
  {
    SameLength(a, b);
    if a != [] {
      var n := |a| - 1;
      PeelLast(a, b);
      IncreasingUnique(a[..n], b[..n]);
      assert a == a[..n] + [a[n]] && b == b[..n] + [b[n]];
    }
  }

  lemma PeelLast(a: seq<Event>, b: seq<Event>)
    requires Increasing(a) && Increasing(b) && |a| == |b| > 0 && multiset(a) == multiset(b)
    ensures var n := |a| - 1; a[n] == b[n] && multiset(a[..n]) == multiset(b[..n]) && Increasing(a[..n]) && Increasing(b[..n])
  {
    LastIsGreatest(a, b);
    LastIsGreatest(b, a);
    SameLast(a, b);
    DropLast(a);
    DropLast(b);
  }

  lemma SameLength(a: seq<Event>, b: seq<Event>)
    requires multiset(a) == multiset(b)
    ensures |a| == |b|
  {
    assert |multiset(a)| == |a| && |multiset(b)| == |b|;
  }

  lemma DropLast(a: seq<Event>)
    requires a != []
    ensures multiset(a[..|a| - 1]) == multiset(a) - multiset{a[|a| - 1]}
  {
    assert a == a[..|a| - 1] + [a[|a| - 1]];
  }

  lemma BeforeLast(a: seq<Event>, i: nat)
    requires Increasing(a) && i < |a|
    ensures i < |a| - 1 ==> a[i].sequence < a[|a| - 1].sequence
  {
  }

  lemma LastIsGreatest(a: seq<Event>, b: seq<Event>)
    requires Increasing(a) && |a| == |b| > 0 && multiset(a) == multiset(b)
    ensures b[|b| - 1].sequence <= a[|a| - 1].sequence
  {
    assert b[|b| - 1] in multiset(b) && b[|b| - 1] in a;
  }

  lemma SameLast(a: seq<Event>, b: seq<Event>)
    requires Increasing(a) && Increasing(b) && |a| == |b| > 0 && multiset(a) == multiset(b)
    requires a[|a| - 1].sequence == b[|b| - 1].sequence
    ensures a[|a| - 1] == b[|b| - 1]
  {
    assert a[|a| - 1] in multiset(a) && a[|a| - 1] in b;
    var i :| 0 <= i < |b| && b[i] == a[|a| - 1];
    BeforeLast(b, i);
  }

  /** The projection depends on which events are on file, never on the order in which they arrived. */
  lemma ArrivalOrderDoesNotMatter(a: seq<Event>, b: seq<Event>, requested: int)
    requires UniqueSequence(a) && multiset(a) == multiset(b)
    ensures Projection(a, requested) == Projection(b, requested)
  {
    hide ApplyAll, Finish;
    assert WeakOrder(BySequence());
    UniqueIsDistinct(a);
    SortedIsIncreasing(Ordered(a));
    SortedIsIncreasing(Ordered(b));
    IncreasingUnique(Ordered(a), Ordered(b));
  }

  // ---------------------------------------------------------------- what the projection says

  ghost function FilledBy(events: seq<Event>): int {
    if events == [] then 0
    else
      var e := events[|events| - 1];
      FilledBy(events[..|events| - 1]) + (if e.kind.IsFill? then e.kind.quantity else 0)
  }

  ghost function NotionalOf(events: seq<Event>): int {
    if events == [] then 0
    else
      var e := events[|events| - 1];
      NotionalOf(events[..|events| - 1]) + (if e.kind.IsFill? then HalfEven(e.kind.price * e.kind.quantity, 100_000_000) else 0)
  }

  function StatusAfter(e: Event, filled: int, requested: int): Status {
    match e.kind
    case IsSubmitted => Submitted
    case IsAccepted => Accepted
    case IsRejected => Rejected
    case IsCanceled => Canceled
    case IsExpired => Expired
    case IsFill(_, _) => if filled >= requested then Filled else PartiallyFilled
  }

  lemma {:induction false} ApplyAllIs(events: seq<Event>, requested: int)
    requires ApplyAll(events, requested).Done?
    ensures ApplyAll(events, requested).value
            == Running(if events == [] then Approved else StatusAfter(events[|events| - 1], FilledBy(events), requested), FilledBy(events), NotionalOf(events))
    ensures InRange(Units, FilledBy(events)) && InRange(Money, NotionalOf(events))
    decreases |events|
  {
    hide Add, PriceTimesUnits, HalfEven;
    if events != [] {
      var n := |events| - 1;
      ApplyAllIs(events[..n], requested);
      var s, e := ApplyAll(events[..n], requested).value, events[n];
      if e.kind.IsFill? {
        AddIsExact(Units, s.filled, e.kind.quantity);
        PriceTimesUnitsRoundsOnce(e.kind.price, e.kind.quantity);
        AddIsExact(Money, s.notional, HalfEven(e.kind.price * e.kind.quantity, 100_000_000));
      }
    }
  }

  /**
   Only the event with the highest sequence number decides the status, the fills on file decide the
   quantity, and the average price is the single half-even rounding of notional over quantity.
   */
  lemma ProjectionIs(events: seq<Event>, requested: int)
    requires Projection(events, requested).Done?
    ensures var s, sorted := Projection(events, requested).value, Ordered(events);
            && s.filled == FilledBy(sorted)
            && (events != [] ==> |sorted| == |events| && s.status == StatusAfter(sorted[|sorted| - 1], s.filled, requested))
            && (s.averagePrice.Some? <==> s.filled > 0)
            && (s.averagePrice.Some? ==>
                  Ok(s.averagePrice.value) == Fit(Price, Nearest(100_000_000 * NotionalOf(sorted), s.filled)))
  {
    hide ApplyAll, MoneyOverUnits, Nearest, HalfEven;
    assert WeakOrder(BySequence());
    var sorted := Ordered(events);
    ApplyAllIs(sorted, requested);
    var filled, notional := FilledBy(sorted), NotionalOf(sorted);
    if filled > 0 { MoneyOverUnitsRoundsOnce(notional, filled); }
  }

  /** Each fill, and the totals after it, are within range. */
  ghost predicate FillsFit(events: seq<Event>) {
    events == [] ||
    var e := events[|events| - 1];
    && FillsFit(events[..|events| - 1])
    && (e.kind.IsFill? ==>
          && InRange(Units, FilledBy(events)) && InRange(Money, NotionalOf(events))
          && InRange(Money, HalfEven(e.kind.price * e.kind.quantity, 100_000_000)))
  }

  lemma {:induction false} ApplyAllDoneIff(events: seq<Event>, requested: int)
    ensures ApplyAll(events, requested).Done? <==> FillsFit(events)
    decreases |events|
  {
    hide Add, PriceTimesUnits, HalfEven;
    if events != [] {
      var n := |events| - 1;
      ApplyAllDoneIff(events[..n], requested);
      if ApplyAll(events[..n], requested).Done? {
        ApplyAllIs(events[..n], requested);
        var s, e := ApplyAll(events[..n], requested).value, events[n];
        if e.kind.IsFill? {
          AddIsExact(Units, s.filled, e.kind.quantity);
          PriceTimesUnitsRoundsOnce(e.kind.price, e.kind.quantity);
          AddIsExact(Money, s.notional, HalfEven(e.kind.price * e.kind.quantity, 100_000_000));
        }
      }
    }
  }

  /**
   The projection is refused exactly when the amount of a fill, a running total or the average price
   leaves its range, and for no kind of event or order of events otherwise.
   */
  lemma ProjectsIff(events: seq<Event>, requested: int)
    ensures var sorted := Ordered(events);
            Projection(events, requested).Done?
            <==> FillsFit(sorted) && (FilledBy(sorted) > 0 ==> InRange(Price, Nearest(100_000_000 * NotionalOf(sorted), FilledBy(sorted))))
    ensures events == [] ==> Projection(events, requested) == Done(State(Approved, 0, None))
  {
    hide ApplyAll, MoneyOverUnits, Nearest, HalfEven, FillsFit, FilledBy, NotionalOf;
    var sorted := Ordered(events);
    ApplyAllDoneIff(sorted, requested);
    if ApplyAll(sorted, requested).Done? {
      ApplyAllIs(sorted, requested);
      if FilledBy(sorted) > 0 { MoneyOverUnitsRoundsOnce(NotionalOf(sorted), FilledBy(sorted)); }
    }
    if events == [] { NothingIsProjected(requested); }
  }

  lemma NothingIsProjected(requested: int)
    ensures Projection([], requested) == Done(State(Approved, 0, None))
  {
    assert WeakOrder(BySequence());
  }

  /**
   Appending an event with the highest sequence number makes the status what that event says, whatever
   it was before: no status is final.
   */
  lemma NoStatusIsFinal(events: seq<Event>, e: Event, requested: int)
    requires UniqueSequence(events + [e]) && forall x :: x in events ==> x.sequence < e.sequence
    requires Projection(events + [e], requested).Done?
    ensures var s := Projection(events + [e], requested).value;
            s.status == StatusAfter(e, s.filled, requested)
  {
    hide Projection, Sorted, UniqueSequence, Increasing, Ordered, Distinct;
    var all := events + [e];
    ProjectionIs(all, requested);
    UniqueIsDistinct(all);
    OrderedKeeps(all);
    SortedIsIncreasing(Ordered(all));
    LastOfAll(events, e);
    HighestIsLast(Ordered(all), e);
  }

  lemma LastOfAll(events: seq<Event>, e: Event)
    requires forall x :: x in events ==> x.sequence < e.sequence
    ensures e in events + [e] && forall x :: x in events + [e] ==> x == e || x.sequence < e.sequence
  {
    assert (events + [e])[|events|] == e;
  }

  lemma OrderedKeeps(events: seq<Event>)
    ensures Sorted(BySequence(), Ordered(events)) && multiset(Ordered(events)) == multiset(events)
    ensures forall x :: x in Ordered(events) <==> x in events
  {
    assert WeakOrder(BySequence());
  }

  lemma HighestIsLast(s: seq<Event>, e: Event)
    requires Increasing(s) && e in s && forall x :: x in s ==> x == e || x.sequence < e.sequence
    ensures s[|s| - 1] == e
  {
    var i :| 0 <= i < |s| && s[i] == e;
    BeforeLast(s, i);
    assert s[|s| - 1] in s;
  }

  /** In particular a canceled order is filled by a fill with a later sequence number: one unit at 100 dollars. */
  lemma CanceledCanStillFill()
    ensures var canceled, fill := Event(1, IsCanceled), Event(2, IsFill(1_000_000, 100_000_000));
            && Projection([canceled], 1_000_000) == Done(State(Canceled, 0, None))
            && Projection([canceled, fill], 1_000_000) == Done(State(Filled, 1_000_000, Some(100_000_000)))
  {
    hide Add, PriceTimesUnits, MoneyOverUnits, Ordered;
    var canceled, fill := Event(1, IsCanceled), Event(2, IsFill(1_000_000, 100_000_000));
    var events := [canceled, fill];
    SortedPair(canceled, fill);
    FillNumbers();
    assert events[..1] == [canceled] && [canceled][..0] == [];
    assert ApplyAll([canceled], 1_000_000) == Done(Running(Canceled, 0, 0));
    assert ApplyAll(events, 1_000_000) == Done(Running(Filled, 1_000_000, 1_000_000));
  }

  lemma FillNumbers()
    ensures Add(Units, 0, 1_000_000) == Ok(1_000_000)
    ensures PriceTimesUnits(100_000_000, 1_000_000) == Ok(1_000_000)
    ensures Add(Money, 0, 1_000_000) == Ok(1_000_000)
    ensures MoneyOverUnits(1_000_000, 1_000_000) == Ok(100_000_000)
  {
    hide Add, PriceTimesUnits, MoneyOverUnits;
    AddIsExact(Units, 0, 1_000_000);
    AddIsExact(Money, 0, 1_000_000);
    PriceTimesUnitsRoundsOnce(100_000_000, 1_000_000);
    MoneyOverUnitsRoundsOnce(1_000_000, 1_000_000);
  }

  lemma SortedPair(a: Event, b: Event)
    requires a.sequence < b.sequence
    ensures Ordered([a, b]) == [a, b] && Ordered([a]) == [a]
  {
    assert WeakOrder(BySequence());
    assert [a, b][1..] == [b] && [b][1..] == [] && [a][1..] == [];
    assert Sort(BySequence(), [b]) == [b];
  }
}
