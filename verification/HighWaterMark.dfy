/**
 The performance-fee accrual of one customer: the high-water mark ratchets up, each day accrues at
 most once, and a duplicate day rolls its savepoint back. The shadow value of a day is a parameter.
 */
module HighWaterMark {
  import opened Wrappers
  import opened Rounding
  import opened FixedPoint

  datatype Accrual = Accrual(date: int, gain: int, fee: int)

  datatype Account = Account(peak: Option<int>, accruals: seq<Accrual>)

  datatype Outcome = Accrued(account: Account) | Skipped | Failed(error: Error)

  /** `max(0, shadow - peak)`; an error when the difference does not fit. */
  function GainOver(peak: int, shadow: int): Result {
    var gain := Add(Money, shadow, -peak);
    if gain.Err? then gain else if gain.value <= 0 then Ok(0) else gain
  }

  /** `Money * Decimal -> Money`. */
  function MoneyTimes(m: int, d: Rat): Result
    requires d.den > 0
  {
    Construct(Money, DecimalProduct(Decimal(Money, m), d))
  }

  ghost predicate HasDate(accruals: seq<Accrual>, date: int) {
    exists i :: 0 <= i < |accruals| && accruals[i].date == date
  }

  /** What one call is specified to do; an unfunded customer or a day already accrued changes nothing. */
  ghost function Accrue(a: Account, date: int, shadow: Option<int>, rate: Rat): Outcome
    requires rate.den > 0
  {
    if shadow.None? then Skipped
    else
      var peak := if a.peak.Some? then a.peak.value else shadow.value;
      var gain := GainOver(peak, shadow.value);
      if gain.Err? then Failed(gain.error)
      else
        var fee := MoneyTimes(gain.value, rate);
        if fee.Err? then Failed(fee.error)
        else if HasDate(a.accruals, date) then Skipped
        else Accrued(Account(Some(if gain.value > 0 then shadow.value else peak), a.accruals + [Accrual(date, gain.value, fee.value)]))
  }

  // ---------------------------------------------------------------- when a call accrues, and what

  /** `max(0, shadow - peak)`. */
  ghost function Rise(peak: int, shadow: int): int {
    if shadow > peak then shadow - peak else 0
  }

  /** The gain times the rate, kept to 28 digits and then to smallest units. */
  ghost function FeeOn(gain: int, rate: Rat): int
    requires rate.den > 0
  {
    var r := Round28Signed(gain * rate.num, 10_000 * rate.den);
    HalfEven(r.num * 10_000, r.den)
  }

  /** Before the first accrual the shadow value is its own peak. */
  ghost function PeakFor(peak: Option<int>, shadow: int): int {
    if peak.Some? then peak.value else shadow
  }

  /** The difference from the peak and the fee are within the range of money. */
  ghost predicate Chargeable(peak: Option<int>, shadow: int, rate: Rat)
    requires rate.den > 0
  {
    InRange(Money, shadow - PeakFor(peak, shadow)) && InRange(Money, FeeOn(Rise(PeakFor(peak, shadow), shadow), rate))
  }

  ghost function ChargeFor(peak: Option<int>, date: int, shadow: int, rate: Rat): Accrual
    requires rate.den > 0
  {
    var gain := Rise(PeakFor(peak, shadow), shadow);
    Accrual(date, gain, FeeOn(gain, rate))
  }

  lemma GainIs(peak: int, shadow: int)
    ensures GainOver(peak, shadow).Ok? <==> InRange(Money, shadow - peak)
    ensures GainOver(peak, shadow).Ok? ==> GainOver(peak, shadow).value == Rise(peak, shadow)
    ensures GainOver(peak, shadow).Err? ==> GainOver(peak, shadow) == Fit(Money, shadow - peak)
  {
    hide Add;
    AddIsExact(Money, shadow, -peak);
  }

  lemma FeeIs(gain: int, rate: Rat)
    requires rate.den > 0
    ensures MoneyTimes(gain, rate) == Fit(Money, FeeOn(gain, rate))
    ensures MoneyTimes(gain, rate).Ok? <==> InRange(Money, FeeOn(gain, rate))
    ensures MoneyTimes(gain, rate).Ok? ==> MoneyTimes(gain, rate).value == FeeOn(gain, rate)
  {
    hide Construct, HalfEven, Round28Signed;
    ConstructFits(Money, DecimalProduct(Decimal(Money, gain), rate));
  }

  /**
   A call accrues if and only if there is a shadow value, its date is not accrued yet and the amounts
   fit; it then charges the rise over the peak, which is the shadow value itself on the first call, and
   the mark becomes the higher of the two. It fails if and only if there is a shadow value whose amounts
   do not fit, with the error of the first of them.
   */
  lemma AccruesIff(a: Account, date: int, shadow: Option<int>, rate: Rat)
    requires rate.den > 0
    ensures var r := Accrue(a, date, shadow, rate);
            && (r.Accrued? <==> shadow.Some? && !HasDate(a.accruals, date) && Chargeable(a.peak, shadow.value, rate))
            && (r.Accrued? ==>
                  var x := ChargeFor(a.peak, date, shadow.value, rate);
                  && r.account.accruals == a.accruals + [x]
                  && r.account.peak == Some(if shadow.value > PeakFor(a.peak, shadow.value) then shadow.value else PeakFor(a.peak, shadow.value)))
            && (r.Failed? <==> shadow.Some? && !Chargeable(a.peak, shadow.value, rate))
            && (r.Failed? ==>
                  var d := shadow.value - PeakFor(a.peak, shadow.value);
                  Err(r.error) == if InRange(Money, d) then Fit(Money, FeeOn(Rise(PeakFor(a.peak, shadow.value), shadow.value), rate)) else Fit(Money, d))
  {
    hide GainOver, MoneyTimes, FeeOn, HasDate;
    if shadow.Some? {
      GainIs(PeakFor(a.peak, shadow.value), shadow.value);
      FeeIs(Rise(PeakFor(a.peak, shadow.value), shadow.value), rate);
    }
  }

  class FeeAccrualService {
    var peak: Option<int>
    var accruals: seq<Accrual>
    const dailyRate: Rat

    ghost predicate Valid()
      reads this
    {
      dailyRate.den > 0
    }

    ghost function Current(): Account
      reads this
    {
      Account(peak, accruals)
    }

    constructor (dailyRate: Rat)
      requires dailyRate.den > 0
      ensures Valid() && Current() == Account(None, []) && this.dailyRate == dailyRate
    {
      this.dailyRate := dailyRate;
      peak, accruals := None, [];
    }

    method DateTaken(date: int) returns (taken: bool)
      ensures taken == HasDate(accruals, date)
    {
      var i := 0;
      while i < |accruals|
        invariant i <= |accruals| && forall j :: 0 <= j < i ==> accruals[j].date != date
      {
        if accruals[i].date == date {
          return true;
        }
        i := i + 1;
      }
      taken := false;
    }

    /** Inside one savepoint: create the mark, ratchet it, insert the accrual; the unique day undoes all of it. */
    method AccrueForCustomer(date: int, shadow: Option<int>) returns (r: Outcome)
      requires Valid()
      modifies this
      ensures Valid() && r == Accrue(old(Current()), date, shadow, dailyRate)
      ensures r.Accrued? <==> shadow.Some? && !HasDate(old(accruals), date) && Chargeable(old(peak), shadow.value, dailyRate)
      ensures r.Accrued? ==> accruals == old(accruals) + [ChargeFor(old(peak), date, shadow.value, dailyRate)]
      ensures r.Failed? <==> shadow.Some? && !Chargeable(old(peak), shadow.value, dailyRate)
      ensures Current() == if r.Accrued? then r.account else old(Current())
    {
      hide GainOver, MoneyTimes, FeeOn, HasDate;
      AccruesIff(Current(), date, shadow, dailyRate);
      if shadow.None? {
        return Skipped;
      }
      var savepoint := peak;
      if peak.None? {
        peak := shadow;
      }
      var gain := GainOver(peak.value, shadow.value);
      if gain.Err? {
        peak := savepoint;
        return Failed(gain.error);
      }
      if gain.value > 0 {
        peak := shadow;
      }
      var fee := MoneyTimes(gain.value, dailyRate);
      if fee.Err? {
        peak := savepoint;
        return Failed(fee.error);
      }
      var taken := DateTaken(date);
      if taken {
        peak := savepoint;
        return Skipped;
      }
      accruals := accruals + [Accrual(date, gain.value, fee.value)];
      r := Accrued(Account(peak, accruals));
    }
  }

  // ---------------------------------------------------------------- every run

  datatype Call = Call(date: int, shadow: Option<int>)

  ghost function Run(calls: seq<Call>, rate: Rat): Account
    requires rate.den > 0
  {
    if calls == [] then Account(None, [])
    else
      var a := Run(calls[..|calls| - 1], rate);
      var r := Accrue(a, calls[|calls| - 1].date, calls[|calls| - 1].shadow, rate);
      if r.Accrued? then r.account else a
  }

  ghost function TotalGain(accruals: seq<Accrual>): int {
    if accruals == [] then 0 else TotalGain(accruals[..|accruals| - 1]) + accruals[|accruals| - 1].gain
  }

  /** The highest shadow value of some calls. */
  ghost function Peak(calls: seq<Call>): Option<int> {
    if calls == [] then None
    else
      var before, last := Peak(calls[..|calls| - 1]), calls[|calls| - 1].shadow;
      if last.None? || (before.Some? && before.value >= last.value) then before else last
  }

  /** A call counts when it has a shadow value, no counted call before it has its date, and the amounts fit. */
  ghost predicate Counts(before: seq<Call>, c: Call, rate: Rat)
    requires rate.den > 0
  {
    && c.shadow.Some?
    && (forall i :: 0 <= i < |before| ==> before[i].date != c.date)
    && Chargeable(Peak(before), c.shadow.value, rate)
  }

  /** The calls that count, found from the calls alone. */
  ghost function Counted(calls: seq<Call>, rate: Rat): seq<Call>
    requires rate.den > 0
  {
    if calls == [] then []
    else
      var before, c := Counted(calls[..|calls| - 1], rate), calls[|calls| - 1];
      if Counts(before, c, rate) then before + [c] else before
  }

  /** One charge for each counted call, over the peak of those before it. */
  ghost predicate Charged(a: Account, counted: seq<Call>, rate: Rat)
    requires rate.den > 0
  {
    && a.peak == Peak(counted)
    && |a.accruals| == |counted|
    && forall i :: 0 <= i < |counted| ==>
         counted[i].shadow.Some? && a.accruals[i] == ChargeFor(Peak(counted[..i]), counted[i].date, counted[i].shadow.value, rate)
  }

  lemma StepIsCharged(a: Account, counted: seq<Call>, c: Call, rate: Rat)
    requires rate.den > 0 && Charged(a, counted, rate)
    ensures var r := Accrue(a, c.date, c.shadow, rate);
            && (r.Accrued? <==> Counts(counted, c, rate))
            && Charged(if r.Accrued? then r.account else a, if r.Accrued? then counted + [c] else counted, rate)
  {
    hide Accrue, Chargeable, ChargeFor, Charged, HasDate;
    AccruesIff(a, c.date, c.shadow, rate);
    DatesMatch(a, counted, c.date, rate);
    ChargedPeak(a, counted, rate);
    var r := Accrue(a, c.date, c.shadow, rate);
    if r.Accrued? { OneMoreIsCharged(a, counted, c, rate, r.account); }
  }

  lemma ChargedPeak(a: Account, counted: seq<Call>, rate: Rat)
    requires rate.den > 0 && Charged(a, counted, rate)
    ensures a.peak == Peak(counted)
  {
  }

  lemma DatesMatch(a: Account, counted: seq<Call>, date: int, rate: Rat)
    requires rate.den > 0 && Charged(a, counted, rate)
    ensures HasDate(a.accruals, date) <==> exists i :: 0 <= i < |counted| && counted[i].date == date
  {
    if i :| 0 <= i < |counted| && counted[i].date == date { assert a.accruals[i].date == date; }
  }

  lemma OneMoreIsCharged(a: Account, counted: seq<Call>, c: Call, rate: Rat, b: Account)
    requires rate.den > 0 && Charged(a, counted, rate) && c.shadow.Some?
    requires b.accruals == a.accruals + [ChargeFor(a.peak, c.date, c.shadow.value, rate)]
    requires b.peak == Some(if c.shadow.value > PeakFor(a.peak, c.shadow.value) then c.shadow.value else PeakFor(a.peak, c.shadow.value))
    ensures Charged(b, counted + [c], rate)
  {
    hide ChargeFor;
    var all := counted + [c];
    assert all[..|counted|] == counted;
    assert forall i :: 0 <= i < |counted| ==> all[..i] == counted[..i];
  }

  /** After any run there is one accrual for each counted call, of its date, gain and fee, and no other. */
  lemma {:induction false} CountedIsCharged(calls: seq<Call>, rate: Rat)
    requires rate.den > 0
    ensures Charged(Run(calls, rate), Counted(calls, rate), rate)
    decreases |calls|
  {
    hide Accrue, Counts, Charged, ChargeFor, Chargeable;
    if calls == [] {
      NothingIsCharged(rate);
    } else {
      var n := |calls| - 1;
      CountedIsCharged(calls[..n], rate);
      StepIsCharged(Run(calls[..n], rate), Counted(calls[..n], rate), calls[n], rate);
    }
  }

  lemma NothingIsCharged(rate: Rat)
    requires rate.den > 0
    ensures Charged(Account(None, []), [], rate)
  {
  }

  /** The account against the calls that counted. */
  ghost predicate Explains(a: Account, counted: seq<Call>) {
    && |a.accruals| == |counted|
    && (forall i :: 0 <= i < |counted| ==> counted[i].shadow.Some? && a.accruals[i].date == counted[i].date && a.accruals[i].gain >= 0)
    && (forall i, j :: 0 <= i < j < |counted| ==> counted[i].date != counted[j].date)
    && (a.peak.Some? <==> counted != [])
    && (counted != [] ==>
          && TotalGain(a.accruals) == a.peak.value - counted[0].shadow.value
          && (forall i :: 0 <= i < |counted| ==> counted[i].shadow.value <= a.peak.value)
          && exists i :: 0 <= i < |counted| && counted[i].shadow.Some? && counted[i].shadow.value == a.peak.value)
  }

  lemma AccrueExplains(a: Account, counted: seq<Call>, c: Call, rate: Rat)
    requires rate.den > 0 && Explains(a, counted) && Accrue(a, c.date, c.shadow, rate).Accrued?
    ensures Explains(Accrue(a, c.date, c.shadow, rate).account, counted + [c])
  {
    hide GainOver, MoneyTimes, TotalGain;
    var peak := if a.peak.Some? then a.peak.value else c.shadow.value;
    GainIs(peak, c.shadow.value);
    var b, all := Accrue(a, c.date, c.shadow, rate).account, counted + [c];
    GainAppend(a.accruals, b.accruals[|a.accruals|]);
    NoGain();
    forall i | 0 <= i < |counted| ensures counted[i].date != c.date { assert a.accruals[i].date == counted[i].date; }
    assert all[|counted|] == c;
    PeakIsReached(a, counted, c, b.peak.value);
  }

  /** The new peak is the old one, reached before, or the new shadow value. */
  lemma PeakIsReached(a: Account, counted: seq<Call>, c: Call, peak: int)
    requires Explains(a, counted) && c.shadow.Some?
    requires peak == c.shadow.value || (a.peak.Some? && peak == a.peak.value)
    ensures exists i :: 0 <= i < |counted + [c]| && (counted + [c])[i].shadow.Some? && (counted + [c])[i].shadow.value == peak
  {
    hide TotalGain;
    var all := counted + [c];
    assert all[|counted|] == c;
    if peak != c.shadow.value {
      var i :| 0 <= i < |counted| && counted[i].shadow.value == peak;
      assert all[i].shadow.value == peak;
    }
  }

  lemma GainAppend(accruals: seq<Accrual>, x: Accrual)
    ensures TotalGain(accruals + [x]) == TotalGain(accruals) + x.gain
  {
    assert (accruals + [x])[..|accruals|] == accruals;
  }

  lemma NoGain()
    ensures TotalGain([]) == 0
  {
  }

  /**
   After any run the mark is the highest shadow value accrued, the gains charged add up to exactly its
   rise since the first accrual, none is negative and no day is charged twice.
   */
  lemma {:induction false} GainsAreChargedOnce(calls: seq<Call>, rate: Rat)
    requires rate.den > 0
    ensures Explains(Run(calls, rate), Counted(calls, rate))
    decreases |calls|
  {
    hide Accrue, Explains, Charged, Counts;
    if calls == [] {
      assert Explains(Account(None, []), []) by { Unfunded(); }
    } else {
      var n := |calls| - 1;
      GainsAreChargedOnce(calls[..n], rate);
      CountedIsCharged(calls[..n], rate);
      StepIsCharged(Run(calls[..n], rate), Counted(calls[..n], rate), calls[n], rate);
      if Accrue(Run(calls[..n], rate), calls[n].date, calls[n].shadow, rate).Accrued? {
        AccrueExplains(Run(calls[..n], rate), Counted(calls[..n], rate), calls[n], rate);
      }
    }
  }

  lemma Unfunded()
    ensures Explains(Account(None, []), [])
  {
  }

  // ---------------------------------------------------------------- the fees against the gains

  ghost function TotalFee(accruals: seq<Accrual>): int {
    if accruals == [] then 0 else TotalFee(accruals[..|accruals| - 1]) + accruals[|accruals| - 1].fee
  }

  /** Twice 10^27 times the distance of fee from gain * rate is at most 10^27 and the product itself. */
  ghost predicate CloseTo(fee: int, gain: int, rate: Rat, days: nat) {
    E27(2 * Abs(fee * rate.den - gain * rate.num)) <= E27(rate.den * days) + gain * rate.num
  }

  /** One fee: half a smallest unit for the quantizing, and the 28-digit error. */
  lemma FeeIsClose(gain: int, rate: Rat)
    requires rate.den > 0 && gain >= 0 && rate.num >= 0 && MoneyTimes(gain, rate).Ok?
    ensures CloseTo(MoneyTimes(gain, rate).value, gain, rate, 1)
  {
    hide HalfEven, Round28, Construct;
    assert gain * rate.num >= 0;
    var r := Round28(gain * rate.num, 10_000 * rate.den);
    ConstructFits(Money, r);
    Round28Error(gain * rate.num, 10_000 * rate.den);
    var fee := HalfEven(r.num * 10_000, r.den);
    HalfEvenDistance(r.num * 10_000, r.den);
    TwoErrors(r.num, r.den, gain * rate.num, rate.den, fee);
  }

  lemma HalfEvenDistance(n: int, d: int)
    requires d > 0
    ensures 2 * Abs(n - HalfEven(n, d) * d) <= d
  {
  }

  /** A quotient n/(10^4 d) within the 28-digit error of x/y, and fee within half of 10^4 x/y. */
  lemma TwoErrors(x: int, y: int, n: int, d: int, fee: int)
    requires y > 0 && d > 0 && n >= 0
    requires 2 * Abs(x * 10_000 - fee * y) <= y
    requires Within(n, 10_000 * d, Rat(x, y))
    ensures E27(2 * Abs(fee * d - n)) <= E27(d) + n
  {
    var e, g := x * 10_000 - fee * y, x * d * 10_000 - n * y;
    assert x * (10_000 * d) == x * d * 10_000;
    // d times the first error and the second one, both against y
    assert d * e == x * d * 10_000 - (fee * d) * y by { Regrouped(x, y, d, fee); }
    var k := fee * d - n;
    assert k * y == g - d * e by { assert (fee * d - n) * y == (fee * d) * y - n * y; }
    ScaledError(d, e, y);
    Divided(k, y, g, d, n);
  }

  lemma Regrouped(x: int, y: int, d: int, fee: int)
    ensures d * (x * 10_000 - fee * y) == x * d * 10_000 - (fee * d) * y
  {
  }

  lemma ScaledError(d: int, e: int, y: int)
    requires d > 0 && 2 * Abs(e) <= y
    ensures 2 * Abs(d * e) <= d * y
  {
    assert d * (y - 2 * e) >= 0 && d * (y + 2 * e) >= 0;
  }

  lemma Divided(k: int, y: int, g: int, d: int, n: int)
    requires y > 0 && 2 * Abs(k * y - g) <= d * y && E27(2 * Abs(g)) <= n * y
    ensures E27(2 * Abs(k)) <= E27(d) + n
  {
    assert E27(2 * Abs(k * y)) <= E27(d * y) + n * y;
    assert Abs(k * y) == Abs(k) * y by { if k < 0 { assert (-k) * y == -(k * y); } }
    assert (E27(2 * Abs(k)) - E27(d) - n) * y == E27(2 * (Abs(k) * y)) - E27(d * y) - n * y;
    MulLt(0, E27(2 * Abs(k)) - E27(d) - n, y);
  }

  lemma CloseAdds(fee: int, gain: int, more: int, rise: int, rate: Rat, days: nat)
    requires rate.num >= 0 && CloseTo(fee, gain, rate, days) && CloseTo(more, rise, rate, 1)
    ensures CloseTo(fee + more, gain + rise, rate, days + 1)
  {
    var a, b := fee * rate.den - gain * rate.num, more * rate.den - rise * rate.num;
    assert (fee + more) * rate.den - (gain + rise) * rate.num == a + b;
    assert rate.den * (days + 1) == rate.den * days + rate.den;
    assert (gain + rise) * rate.num == gain * rate.num + rise * rate.num;
  }

  /**
   After any run over n accruals the summed fees are within n halves of a smallest unit of money, and
   one part in 2 * 10^27, of the rate times the summed gains.
   */
  lemma {:induction false} FeesFollowGains(calls: seq<Call>, rate: Rat)
    requires rate.den > 0 && rate.num >= 0
    ensures var a := Run(calls, rate).accruals; CloseTo(TotalFee(a), TotalGain(a), rate, |a|)
    decreases |calls|
  {
    hide CloseTo, MoneyTimes, GainOver;
    if calls == [] {
      NothingIsClose(rate);
    } else {
      var n := |calls| - 1;
      FeesFollowGains(calls[..n], rate);
      var a, c := Run(calls[..n], rate), calls[n];
      var r := Accrue(a, c.date, c.shadow, rate);
      if r.Accrued? {
        var x := r.account.accruals[|a.accruals|];
        var peak := if a.peak.Some? then a.peak.value else c.shadow.value;
        GainIs(peak, c.shadow.value);
        FeeIsClose(x.gain, rate);
        GainAppend(a.accruals, x);
        FeeAppend(a.accruals, x);
        CloseAdds(TotalFee(a.accruals), TotalGain(a.accruals), x.fee, x.gain, rate, |a.accruals|);
      }
    }
  }

  lemma FeeAppend(accruals: seq<Accrual>, x: Accrual)
    ensures TotalFee(accruals + [x]) == TotalFee(accruals) + x.fee
  {
    assert (accruals + [x])[..|accruals|] == accruals;
  }

  lemma NothingIsClose(rate: Rat)
    ensures CloseTo(TotalFee([]), TotalGain([]), rate, 0)
  {
  }
}
