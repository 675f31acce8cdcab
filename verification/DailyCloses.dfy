/**
 Daily closing prices: append-only, a correction is a new row for the same (security, date). The
 batched reads pick the latest close and the close of the trading day before it.
 */
module DailyCloses {
  import opened Wrappers
  import opened Sorting

  datatype Close = Close(security: nat, date: int, recordedAt: int, price: int)

  /** The unique constraint on (security, market date, recorded_at). */
  ghost predicate UniqueCloses(rows: seq<Close>) {
    forall a, b :: a in rows && b in rows && a.security == b.security && a.date == b.date && a.recordedAt == b.recordedAt
      ==> a == b
  }

  // ---------------------------------------------------------------- the queries

  function OfSecurity(rows: seq<Close>, security: nat): (m: seq<Close>)
    ensures forall r :: r in m <==> r in rows && r.security == security
  {
    if rows == [] then []
    else
      var rest := OfSecurity(rows[1..], security);
      assert rows == [rows[0]] + rows[1..];
      if rows[0].security == security then [rows[0]] + rest else rest
  }

  /** `ORDER BY market_date DESC, recorded_at DESC` within a security. */
  function LatestFirst(): (Close, Close) -> bool {
    (a: Close, b: Close) => a.date > b.date || (a.date == b.date && a.recordedAt > b.recordedAt)
  }

  lemma LatestFirstIsWeak()
    ensures WeakOrder(LatestFirst())
  {
  }

  function Ordered(rows: seq<Close>, security: nat): (s: seq<Close>)
    ensures Sorted(LatestFirst(), s)
    ensures forall r :: r in s <==> r in rows && r.security == security
  {
    LatestFirstIsWeak();
    Sort(LatestFirst(), OfSecurity(rows, security))
  }

  /** `DISTINCT ON (security_id)`: the first row of the security's group. */
  function LatestClose(rows: seq<Close>, security: nat): Option<Close> {
    var s := Ordered(rows, security);
    if s == [] then None else Some(s[0])
  }

  /** `DISTINCT ON (security_id, market_date)`: the first row of each day's group. */
  function FirstOfEachDay(s: seq<Close>): (r: seq<Close>)
    ensures |r| <= |s|
    decreases |s|
  {
    if |s| <= 1 then s
    else if s[0].date == s[1].date then FirstOfEachDay([s[0]] + s[2..])
    else [s[0]] + FirstOfEachDay(s[1..])
  }

  /** One row per stored day, the newest correction of each, latest day first. */
  function PerDay(rows: seq<Close>, security: nat): seq<Close> {
    FirstOfEachDay(Ordered(rows, security))
  }

  /** The row ranked second by day, if there is one. */
  function PreviousClose(rows: seq<Close>, security: nat): Option<Close> {
    var days := PerDay(rows, security);
    if |days| < 2 then None else Some(days[1])
  }

  function LatestForSecurities(rows: seq<Close>, ids: seq<nat>): map<nat, Close> {
    map id | id in ids && LatestClose(rows, id).Some? :: LatestClose(rows, id).value
  }

  function PreviousCloseForSecurities(rows: seq<Close>, ids: seq<nat>): map<nat, Close> {
    map id | id in ids && PreviousClose(rows, id).Some? :: PreviousClose(rows, id).value
  }

  // ---------------------------------------------------------------- reference definitions

  /** The newest correction of its own day. */
  ghost predicate NewestOfDay(r: Close, rows: seq<Close>) {
    && r in rows
    && forall q :: q in rows && q.security == r.security && q.date == r.date ==> q.recordedAt <= r.recordedAt
  }

  ghost predicate IsLatest(r: Close, rows: seq<Close>, security: nat) {
    && r.security == security && NewestOfDay(r, rows)
    && forall q :: q in rows && q.security == security ==> q.date <= r.date
  }

  /** The newest correction of the day before the latest: no stored day lies strictly between. */
  ghost predicate IsPrevious(r: Close, rows: seq<Close>, security: nat, latestDate: int) {
    && r.security == security && NewestOfDay(r, rows) && r.date < latestDate
    && forall q :: q in rows && q.security == security && q.date < latestDate ==> q.date <= r.date
  }

  // ---------------------------------------------------------------- the queries meet them

  /** What one row per day means for an ordered group. */
  ghost predicate DaysOf(days: seq<Close>, s: seq<Close>) {
    && (forall i, j :: 0 <= i < j < |days| ==> days[i].date > days[j].date)
    && (forall i :: 0 <= i < |days| ==> NewestIn(days[i], s))
    && (forall q :: q in s ==> DayListed(days, q.date))
    && (s != [] ==> days != [] && days[0] == s[0])
  }

  ghost predicate NewestIn(r: Close, s: seq<Close>) {
    r in s && forall q :: q in s && q.date == r.date ==> q.recordedAt <= r.recordedAt
  }

  ghost predicate DayListed(days: seq<Close>, date: int) {
    exists i :: 0 <= i < |days| && days[i].date == date
  }

  lemma {:induction false} FirstOfEachDayIsNewest(s: seq<Close>)
    requires Sorted(LatestFirst(), s)
    ensures DaysOf(FirstOfEachDay(s), s)
    decreases |s|
  {
    if |s| <= 1 {
      if |s| == 1 { assert FirstOfEachDay(s)[0].date == s[0].date; }
    } else if s[0].date == s[1].date {
      var t := [s[0]] + s[2..];
      assert forall i :: 0 < i < |t| ==> t[i] == s[i + 1];
      FirstOfEachDayIsNewest(t);
      MergedDay(s, t, FirstOfEachDay(t));
    } else {
      assert forall i :: 0 <= i < |s[1..]| ==> s[1..][i] == s[i + 1];
      FirstOfEachDayIsNewest(s[1..]);
      NewDay(s, FirstOfEachDay(s[1..]));
    }
  }

  /** Dropping the second row of a day keeps the newest one. */
  lemma MergedDay(s: seq<Close>, t: seq<Close>, days: seq<Close>)
    requires |s| > 1 && Sorted(LatestFirst(), s) && s[0].date == s[1].date
    requires t == [s[0]] + s[2..] && DaysOf(days, t)
    ensures DaysOf(days, s)
  {
    assert s == [s[0], s[1]] + s[2..];
    assert forall q :: q in s <==> q in t || q == s[1];
    assert !LatestFirst()(s[1], s[0]);
    assert t[0] in t;
  }

  /** Every row after the first of its day belongs to an earlier day. */
  lemma LaterDays(s: seq<Close>, q: Close)
    requires |s| > 1 && Sorted(LatestFirst(), s) && s[0].date != s[1].date && q in s[1..]
    ensures q.date < s[0].date
  {
    var i :| 0 <= i < |s[1..]| && s[1..][i] == q;
    assert s[i + 1] == q;
    assert !LatestFirst()(s[1], s[0]);
    assert i == 0 || !LatestFirst()(s[i + 1], s[1]);
  }

  /** A day's first row followed by the later days. */
  lemma NewDay(s: seq<Close>, rest: seq<Close>)
    requires |s| > 1 && Sorted(LatestFirst(), s) && s[0].date != s[1].date
    requires DaysOf(rest, s[1..])
    ensures DaysOf([s[0]] + rest, s)
  {
    hide Sorted;
    forall q | q in s[1..] ensures q.date < s[0].date { LaterDays(s, q); }
    ConsDay(s, s[1..], rest);
  }

  lemma ConsDay(s: seq<Close>, t: seq<Close>, rest: seq<Close>)
    requires |s| > 0 && s == [s[0]] + t && DaysOf(rest, t) && forall q :: q in t ==> q.date < s[0].date
    ensures DaysOf([s[0]] + rest, s)
  {
    hide NewestIn, DayListed;
    var days := [s[0]] + rest;
    NewestWithEarlierDays(s[0], t, s);
    forall i | 0 <= i < |rest| ensures NewestIn(rest[i], s) && rest[i].date < s[0].date {
      NewestWithLaterDay(s[0], t, s, rest[i]);
    }
    forall q | q in s ensures DayListed(days, q.date) { ListedWithNewDay(s[0], t, s, rest, q); }
  }

  lemma NewestWithEarlierDays(first: Close, t: seq<Close>, s: seq<Close>)
    requires s == [first] + t && forall q :: q in t ==> q.date < first.date
    ensures NewestIn(first, s)
  {
  }

  lemma NewestWithLaterDay(first: Close, t: seq<Close>, s: seq<Close>, r: Close)
    requires s == [first] + t && (forall q :: q in t ==> q.date < first.date) && NewestIn(r, t)
    ensures NewestIn(r, s) && r.date < first.date
  {
  }

  lemma ListedWithNewDay(first: Close, t: seq<Close>, s: seq<Close>, rest: seq<Close>, q: Close)
    requires s == [first] + t && (forall p :: p in t ==> DayListed(rest, p.date)) && q in s
    ensures DayListed([first] + rest, q.date)
  {
    var days := [first] + rest;
    if q == first {
      assert days[0].date == q.date;
    } else {
      assert DayListed(rest, q.date);
      var i :| 0 <= i < |rest| && rest[i].date == q.date;
      assert days[i + 1].date == q.date;
    }
  }

  lemma PerDayIsNewest(rows: seq<Close>, security: nat)
    ensures DaysOf(PerDay(rows, security), Ordered(rows, security))
  {
    FirstOfEachDayIsNewest(Ordered(rows, security));
  }

  /** `latest_for_securities`: the newest correction of the latest stored day, absent exactly without rows. */
  lemma LatestIsLatest(rows: seq<Close>, security: nat)
    ensures var r := LatestClose(rows, security);
            && (r.Some? ==> IsLatest(r.value, rows, security))
            && (r.None? <==> forall q :: q in rows ==> q.security != security)
  {
    hide Ordered;
    var s := Ordered(rows, security);
    PerDayIsNewest(rows, security);
    if s != [] {
      forall q | q in rows && q.security == security ensures q.date <= s[0].date {
        assert q in s;
        var i :| 0 <= i < |s| && s[i] == q;
        assert i > 0 ==> !LatestFirst()(s[i], s[0]);
      }
    } else {
      assert forall q :: q in rows && q.security == security ==> q in s;
    }
  }

  /**
   `previous_close_for_securities`: the newest correction of the second-latest distinct day, with no
   stored day between it and the latest; absent exactly with fewer than two distinct days.
   */
  lemma PreviousIsPrevious(rows: seq<Close>, security: nat)
    ensures var r, l := PreviousClose(rows, security), LatestClose(rows, security);
            && (r.Some? ==> l.Some? && IsPrevious(r.value, rows, security, l.value.date))
            && (r.None? <==> forall p, q :: p in rows && q in rows && p.security == security && q.security == security ==> p.date == q.date)
  {
    hide Ordered, FirstOfEachDay;
    var s, days := Ordered(rows, security), PerDay(rows, security);
    PerDayIsNewest(rows, security);
    LatestIsLatest(rows, security);
    if |days| >= 2 {
      assert days[1] in rows && days[0] in rows && days[0].date > days[1].date;
      forall q | q in rows && q.security == security && q.date < days[0].date ensures q.date <= days[1].date {
        assert q in s && DayListed(days, q.date);
        var i :| 0 <= i < |days| && days[i].date == q.date;
      }
    } else {
      forall p, q | p in rows && q in rows && p.security == security && q.security == security ensures p.date == q.date {
        assert p in s && q in s && DayListed(days, p.date) && DayListed(days, q.date);
      }
    }
  }

  /** Closes on at least two distinct days. */
  ghost predicate TwoDays(rows: seq<Close>, security: nat) {
    exists p, q :: p in rows && q in rows && p.security == security && q.security == security && p.date != q.date
  }

  /** The batched reads, security by security: exactly which have an entry, and what it is. */
  lemma BatchedReads(rows: seq<Close>, ids: seq<nat>)
    ensures var l, p := LatestForSecurities(rows, ids), PreviousCloseForSecurities(rows, ids);
            && (forall id :: id in l <==> id in ids && exists r :: r in rows && r.security == id)
            && (forall id :: id in l ==> IsLatest(l[id], rows, id))
            && (forall id :: id in p <==> id in ids && TwoDays(rows, id))
            && (forall id :: id in p ==> id in l && IsPrevious(p[id], rows, id, l[id].date))
  {
    hide LatestClose, PreviousClose, IsLatest, IsPrevious;
    forall id: nat
      ensures var r := LatestClose(rows, id);
              && (r.Some? ==> IsLatest(r.value, rows, id))
              && (r.None? <==> forall q :: q in rows ==> q.security != id)
      ensures var r, l := PreviousClose(rows, id), LatestClose(rows, id);
              && (r.Some? ==> l.Some? && IsPrevious(r.value, rows, id, l.value.date))
              && (r.Some? <==> TwoDays(rows, id))
    {
      LatestIsLatest(rows, id);
      PreviousIsPrevious(rows, id);
    }
  }

  // ---------------------------------------------------------------- corrections

  lemma LatestIsUnique(a: Close, b: Close, rows: seq<Close>, security: nat)
    requires UniqueCloses(rows) && IsLatest(a, rows, security) && IsLatest(b, rows, security)
    ensures a == b
  {
  }

  /** A late correction to an older date never changes the latest close. */
  lemma LateCorrectionKeepsLatest(rows: seq<Close>, c: Close)
    requires UniqueCloses(rows + [c]) && LatestClose(rows, c.security).Some?
    requires c.date < LatestClose(rows, c.security).value.date
    ensures LatestClose(rows + [c], c.security) == LatestClose(rows, c.security)
  {
    hide LatestClose;
    var l, m := LatestClose(rows, c.security), LatestClose(rows + [c], c.security);
    LatestIsLatest(rows, c.security);
    LatestIsLatest(rows + [c], c.security);
    assert forall q :: q in rows + [c] <==> q in rows || q == c;
    assert IsLatest(l.value, rows + [c], c.security);
    LatestIsUnique(l.value, m.value, rows + [c], c.security);
  }

  /** A correction to a day already stored never shifts which day counts as latest or as previous. */
  lemma SameDayCorrectionKeepsDays(rows: seq<Close>, c: Close, first: Close)
    requires first in rows && first.security == c.security && first.date == c.date
    ensures var l, m := LatestClose(rows, c.security), LatestClose(rows + [c], c.security);
            l.Some? && m.Some? && l.value.date == m.value.date
    ensures var p, q := PreviousClose(rows, c.security), PreviousClose(rows + [c], c.security);
            (p.Some? <==> q.Some?) && (p.Some? ==> p.value.date == q.value.date)
  {
    hide LatestClose, PreviousClose;
    LatestIsLatest(rows, c.security);
    LatestIsLatest(rows + [c], c.security);
    PreviousIsPrevious(rows, c.security);
    PreviousIsPrevious(rows + [c], c.security);
    assert forall q :: q in rows + [c] <==> q in rows || q == c;
  }

  lemma PreviousIsUnique(a: Close, b: Close, rows: seq<Close>, security: nat, latestDate: int)
    requires UniqueCloses(rows) && IsPrevious(a, rows, security, latestDate) && IsPrevious(b, rows, security, latestDate)
    ensures a == b
  {
  }

  lemma OtherSecuritiesKeepLatest(rows: seq<Close>, c: Close, security: nat)
    requires c.security != security && UniqueCloses(rows + [c])
    ensures LatestClose(rows + [c], security) == LatestClose(rows, security)
  {
    hide LatestClose;
    LatestIsLatest(rows, security);
    LatestIsLatest(rows + [c], security);
    assert forall q :: q in rows + [c] <==> q in rows || q == c;
    var l, m := LatestClose(rows, security), LatestClose(rows + [c], security);
    if l.Some? && m.Some? { LatestIsUnique(l.value, m.value, rows, security); }
  }

  /** Rows of other securities never matter, to the latest close or to the previous one. */
  lemma OtherSecuritiesDoNotMatter(rows: seq<Close>, c: Close, security: nat)
    requires c.security != security && UniqueCloses(rows + [c])
    ensures LatestClose(rows + [c], security) == LatestClose(rows, security)
    ensures PreviousClose(rows + [c], security) == PreviousClose(rows, security)
  {
    hide LatestClose, PreviousClose;
    OtherSecuritiesKeepLatest(rows, c, security);
    PreviousIsPrevious(rows, security);
    PreviousIsPrevious(rows + [c], security);
    assert forall q :: q in rows + [c] <==> q in rows || q == c;
    var p, q := PreviousClose(rows, security), PreviousClose(rows + [c], security);
    if p.Some? && q.Some? { PreviousIsUnique(p.value, q.value, rows, security, LatestClose(rows, security).value.date); }
  }
}
