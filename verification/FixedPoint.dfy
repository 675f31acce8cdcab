/**
 The `Money`, `Units` and `Price` value types. A value is the integer number of its smallest units
 (a ten-thousandth of a dollar, a millionth of a unit, a millionth of a dollar); every operation
 goes through a 28-digit decimal and is then quantized, as the code does it.
 */
module FixedPoint {
  import opened Rounding

  datatype Kind = Money | Units | Price

  datatype Error =
    | InvalidOperation   // `quantize` needs more than 28 digits
    | OutOfPrecision     // the NUMERIC(precision, scale) check fails
    | ZeroDivision

  datatype Result = Ok(value: int) | Err(error: Error)

  function Scale(k: Kind): nat { if k.Money? then 4 else 6 }

  function Precision(k: Kind): nat { if k.Units? then 28 else 18 }

  /** Smallest units per whole: 10^scale. */
  function PerWhole(k: Kind): (u: int)
    ensures u == Pow10(Scale(k))
  {
    assert Pow10(4) == 10_000 && Pow10(6) == 1_000_000;
    if k.Money? then 10_000 else 1_000_000
  }

  /** 10^precision: the first magnitude, in smallest units, that does not fit. */
  function Limit(k: Kind): int {
    if k.Units? then E28(1) else 1_000_000_000_000_000_000
  }

  predicate InRange(k: Kind, v: int) { -Limit(k) < v < Limit(k) }

  function Abs(x: int): int { if x < 0 then -x else x }

  // ---------------------------------------------------------------- construction

  /** The length of the decimal representation of a natural number. */
  function Digits(x: nat): (n: nat)
    ensures n >= 1
  {
    if x < 10 then 1 else 1 + Digits(x / 10)
  }

  /** `_validate_precision`: digits of the integer part plus the scale against the precision. */
  predicate FitsPrecision(k: Kind, v: int) {
    Digits(Abs(v) / PerWhole(k)) + Scale(k) <= Precision(k)
  }

  /** Quantize a decimal to the kind's places, half to even, and check the precision. */
  function Construct(k: Kind, r: Rat): Result
    requires r.den > 0
  {
    var h := HalfEven(r.num * PerWhole(k), r.den);
    if Abs(h) >= E28(1) then Err(InvalidOperation)
    else if !FitsPrecision(k, h) then Err(OutOfPrecision)
    else Ok(h)
  }

  /** What an exact result of h smallest units must become: itself, or the reason it is refused. */
  function Fit(k: Kind, h: int): Result {
    if Abs(h) < Limit(k) then Ok(h)
    else if Abs(h) < E28(1) then Err(OutOfPrecision)
    else Err(InvalidOperation)
  }

  lemma {:induction false} DigitsBound(x: nat, k: nat)
    requires k >= 1
    ensures Digits(x) <= k <==> x < Pow10(k)
    decreases k
  {
    assert Pow10(k) == 10 * Pow10(k - 1);
    if x < 10 {
    } else if k == 1 {
    } else {
      DigitsBound(x / 10, k - 1);
    }
  }

  /** The digit count of the precision check is exactly the range check against 10^precision. */
  lemma PrecisionIsRange(k: Kind, v: int)
    ensures FitsPrecision(k, v) <==> InRange(k, v)
  {
    DigitsBound(Abs(v) / PerWhole(k), Precision(k) - Scale(k));
    assert Pow10(14) == 100_000_000_000_000;
    assert Pow10(12) == 1_000_000_000_000;
    assert Pow10(22) == 10_000_000_000_000_000_000_000;
  }

  /** Construction is the range check applied to the half-even rounding of the decimal. */
  lemma ConstructFits(k: Kind, r: Rat)
    requires r.den > 0
    ensures Construct(k, r) == Fit(k, HalfEven(r.num * PerWhole(k), r.den))
  {
    PrecisionIsRange(k, HalfEven(r.num * PerWhole(k), r.den));
  }

  /** Constructing a value from an equal value of its own kind returns it. */
  lemma ConstructIdempotent(k: Kind, v: int)
    requires InRange(k, v)
    ensures Construct(k, Rat(v, PerWhole(k))) == Ok(v)
  {
    HalfEvenBounds(v * PerWhole(k), PerWhole(k), v);
    ConstructFits(k, Rat(v, PerWhole(k)));
  }

  // ---------------------------------------------------------------- operations

  /** The decimal that a value of v smallest units denotes. */
  function Decimal(k: Kind, v: int): Rat { Rat(v, PerWhole(k)) }

  function DecimalSum(a: Rat, b: Rat): (r: Rat)
    requires a.den > 0 && a.den == b.den
    ensures r.den > 0
  {
    Round28Signed(a.num + b.num, a.den)
  }

  function DecimalProduct(a: Rat, b: Rat): (r: Rat)
    requires a.den > 0 && b.den > 0
    ensures r.den > 0
  {
    Round28Signed(a.num * b.num, a.den * b.den)
  }

  function DecimalQuotient(a: Rat, b: Rat): (r: Rat)
    requires a.den > 0 && b.den > 0 && b.num != 0
    ensures r.den > 0
  {
    var n := a.num * b.den;
    Round28Signed(if b.num < 0 then -n else n, a.den * Abs(b.num))
  }

  function Add(k: Kind, a: int, b: int): Result {
    Construct(k, DecimalSum(Decimal(k, a), Decimal(k, b)))
  }

  /** `Money / Price -> Units`. */
  function MoneyOverPrice(m: int, p: int): Result {
    if p == 0 then Err(ZeroDivision)
    else Construct(Units, DecimalQuotient(Decimal(Money, m), Decimal(Price, p)))
  }

  /** `Money / Units -> Price`. */
  function MoneyOverUnits(m: int, u: int): Result {
    if u == 0 then Err(ZeroDivision)
    else Construct(Price, DecimalQuotient(Decimal(Money, m), Decimal(Units, u)))
  }

  /** `Money / int -> Money`, and the same for the other two kinds. */
  function OverInt(k: Kind, v: int, i: int): Result {
    if i == 0 then Err(ZeroDivision)
    else Construct(k, DecimalQuotient(Decimal(k, v), Rat(i, 1)))
  }

  /** `Price * Units -> Money`. */
  function PriceTimesUnits(p: int, u: int): Result {
    Construct(Money, DecimalProduct(Decimal(Price, p), Decimal(Units, u)))
  }

  /** `Units * Price -> Money`. */
  function UnitsTimesPrice(u: int, p: int): Result {
    Construct(Money, DecimalProduct(Decimal(Units, u), Decimal(Price, p)))
  }

  // ---------------------------------------------------------------- one rounding is enough

  /** n/d rounded half-even after its sign was moved to the numerator. */
  function Nearest(n: int, d: int): int
    requires d != 0
  {
    if d > 0 then HalfEven(n, d) else HalfEven(-n, -d)
  }

  /**
   Rounding n/d to 28 digits and quantizing to k places, against the half-even rounding of
   n * 10^k / d taken in lower terms m/e.
   */
  lemma QuantizedMagnitude(n: int, d: int, k: nat, m: int, e: int)
    requires n >= 0 && d > 0 && e > 0 && 0 <= m < E27(1)
    requires m * d == (n * Pow10(k)) * e
    ensures var r := Round28(n, d); HalfEven(r.num * Pow10(k), r.den) == HalfEven(m, e)
  {
    hide Round28, HalfEven;
    QuantizedTwice(n, d, k, m, e);
    DoubleRounding(m, e);
  }

  /** Without any bound, quantizing rounds the 28-digit rounding of m/e. */
  lemma QuantizedTwice(n: int, d: int, k: nat, m: int, e: int)
    requires n >= 0 && d > 0 && e > 0 && m >= 0
    requires m * d == (n * Pow10(k)) * e
    ensures var r, s := Round28(n, d), Round28(m, e); HalfEven(r.num * Pow10(k), r.den) == HalfEven(s.num, s.den)
  {
    hide Round28, HalfEven;
    var r, s := Round28(n, d), Round28(n * Pow10(k), d);
    Round28ShiftBy(n, d, k);
    HalfEvenCross(s.num, s.den, r.num * Pow10(k), r.den);
    Round28Cross(n * Pow10(k), d, m, e);
  }

  /** The same for signed numerators. */
  lemma QuantizedOnce(n: int, d: int, k: nat, m: int, e: int)
    requires d > 0 && e > 0 && -E27(1) < m < E27(1)
    requires m * d == (n * Pow10(k)) * e
    requires n >= 0 <==> m >= 0
    ensures var r := Round28Signed(n, d); HalfEven(r.num * Pow10(k), r.den) == HalfEven(m, e)
  {
    hide Round28, HalfEven;
    if n >= 0 {
      QuantizedMagnitude(n, d, k, m, e);
    } else {
      var r := Round28(-n, d);
      assert (-m) * d == ((-n) * Pow10(k)) * e by { Negations(m, d, n, Pow10(k), e); }
      QuantizedMagnitude(-n, d, k, -m, e);
      HalfEvenNeg(m, e);
      assert (-r.num) * Pow10(k) == -(r.num * Pow10(k));
      HalfEvenNeg(r.num * Pow10(k), r.den);
    }
  }

  lemma Negations(m: int, d: int, n: int, p: int, e: int)
    ensures (-m) * d == -(m * d)
    ensures ((-n) * p) * e == -((n * p) * e)
  {
    assert (-n) * p == -(n * p);
  }

  /**
   `Money / Price` is the half-even rounding of the exact quotient for every amount and every
   non-zero price, and it is never refused.
   */
  lemma MoneyOverPriceRoundsOnce(m: int, p: int)
    requires InRange(Money, m) && InRange(Price, p) && p != 0
    ensures MoneyOverPrice(m, p) == Ok(Nearest(100_000_000 * m, p))
  {
    QuotientRoundsOnce(Units, Price, m, p);
    NearestShrinks(100_000_000 * m, p);
  }

  /**
   `Money / Units` is the half-even rounding of the exact quotient for every amount and every
   non-zero quantity, unless that rounding does not fit a price.
   */
  lemma MoneyOverUnitsRoundsOnce(m: int, u: int)
    requires InRange(Money, m) && InRange(Units, u) && u != 0
    ensures MoneyOverUnits(m, u) == Fit(Price, Nearest(100_000_000 * m, u))
  {
    QuotientRoundsOnce(Price, Units, m, u);
  }

  lemma QuotientRoundsOnce(result: Kind, divisor: Kind, m: int, v: int)
    requires !result.Money? && !divisor.Money?
    requires InRange(Money, m) && v != 0
    ensures Construct(result, DecimalQuotient(Decimal(Money, m), Decimal(divisor, v)))
         == Fit(result, Nearest(100_000_000 * m, v))
  {
    var s, a := if v < 0 then -m else m, Abs(v);
    var r := DecimalQuotient(Decimal(Money, m), Decimal(divisor, v));
    assert r == Round28Signed(1_000_000 * s, 10_000 * a);
    assert Pow10(6) == 1_000_000;
    assert (100_000_000 * s) * (10_000 * a) == ((1_000_000 * s) * Pow10(6)) * a by { Factor(s, a); }
    QuantizedOnce(1_000_000 * s, 10_000 * a, 6, 100_000_000 * s, a);
    ConstructFits(result, r);
  }

  lemma Factor(s: int, a: int)
    ensures (100_000_000 * s) * (10_000 * a) == ((1_000_000 * s) * 1_000_000) * a
  {
  }

  /** A quotient is no larger in magnitude than its integer numerator. */
  lemma NearestShrinks(n: int, d: int)
    requires d != 0
    ensures Abs(Nearest(n, d)) <= Abs(n)
  {
    hide HalfEven;
    var m, e := if d < 0 then -n else n, Abs(d);
    Grows(Abs(n), e);
    NegTimes(Abs(n), e);
    HalfEvenBounds(m, e, Abs(n));
    HalfEvenBounds(m, e, -Abs(n));
  }

  /**
   Division by an integer can round twice. A units value of 11(10^26 + 1) + 5 smallest units divided by
   11 is 10^26 + 1 and five elevenths; the 28-digit quotient ends in exactly one half, and
   quantizing it moves away from the nearest integer.
   */
  lemma UnitsOverIntCanRoundTwice()
    ensures var u := 1_100_000_000_000_000_000_000_000_016;
            InRange(Units, u) && OverInt(Units, u, 11) == Ok(Nearest(u, 11) + 1)
  {
    var u := 1_100_000_000_000_000_000_000_000_016;
    assert Nearest(u, 11) == 100_000_000_000_000_000_000_000_001;
    var r := DecimalQuotient(Decimal(Units, u), Rat(11, 1));
    Round28ShiftBy(u, 11_000_000, 6);
    Round28Cross(u, 11, u * 1_000_000, 11_000_000);
    assert Pow10(6) == 1_000_000;
    var s := Round28(u, 11);
    assert s == Rat(1_000_000_000_000_000_000_000_000_015, 10);
    HalfEvenCross(s.num, s.den, r.num * 1_000_000, r.den);
    ConstructFits(Units, r);
  }

  // ---------------------------------------------------------------- sums and products

  /** A whole number of smallest units is stored exactly or refused, never rounded. */
  lemma WholeIsExact(k: Kind, x: int)
    ensures Construct(k, Round28Signed(x, PerWhole(k))) == Fit(k, x)
  {
    hide Round28, HalfEven;
    var w := PerWhole(k);
    var r := Round28Signed(x, w);
    ConstructFits(k, r);
    if Abs(x) < E28(1) {
      assert Representable(Abs(x), w, Abs(x), Scale(k));
      Round28Exact(Abs(x), w, Abs(x), Scale(k));
      SignedExact(x, w);
      HalfEvenBounds(r.num * w, r.den, x);
    } else {
      MagnitudeKept(x, w, Scale(k), E28(1));
    }
  }

  /** So addition and subtraction are exact or refused. */
  lemma AddIsExact(k: Kind, a: int, b: int)
    ensures Add(k, a, b) == Fit(k, a + b)
  {
    WholeIsExact(k, a + b);
  }

  lemma Negate(a: int, b: int)
    ensures (-a) * b == -(a * b) == a * (-b)
  {
  }

  lemma SignedExact(x: int, w: int)
    requires w > 0
    requires var r := Round28(Abs(x), w); r.num * w == Abs(x) * r.den
    ensures var r := Round28Signed(x, w); r.num * w == x * r.den
  {
    var r := Round28(Abs(x), w);
    if x < 0 { Negate(r.num, w); Negate(-x, r.den); }
  }

  /** A quantized magnitude of at least b (b <= 10^28) stays at least b under the code's rounding. */
  lemma MagnitudeKept(x: int, d: int, k: nat, b: int)
    requires d > 0 && 0 <= b <= E28(1)
    requires Abs(x) * Pow10(k) >= b * d
    ensures var r := Round28Signed(x, d); Abs(HalfEven(r.num * Pow10(k), r.den)) >= b
  {
    hide Round28, HalfEven;
    var a := Abs(x);
    var r, s := Round28(a, d), Round28(a * Pow10(k), d);
    Round28ShiftBy(a, d, k);
    Round28AtLeast(a * Pow10(k), d, b);
    HalfEvenBounds(s.num, s.den, b);
    HalfEvenCross(s.num, s.den, r.num * Pow10(k), r.den);
    HalfEvenNeg(r.num * Pow10(k), r.den);
    assert (-r.num) * Pow10(k) == -(r.num * Pow10(k));
  }

  /**
   `Price * Units` is the half-even rounding of the exact product, refused exactly when that
   rounding does not fit, and with the same error: a product that fits has fewer than 28 digits,
   so the first rounding changes nothing.
   */
  lemma PriceTimesUnitsRoundsOnce(p: int, u: int)
    ensures PriceTimesUnits(p, u) == Fit(Money, HalfEven(p * u, 100_000_000))
    ensures UnitsTimesPrice(u, p) == PriceTimesUnits(p, u)
  {
    var x := p * u;
    assert u * p == x;
    var r := Round28Signed(x, 1_000_000_000_000);
    ConstructFits(Money, r);
    ProductRounding(x);
  }

  ghost function ProductCode(x: int): int {
    var r := Round28Signed(x, 1_000_000_000_000);
    HalfEven(r.num * 10_000, r.den)
  }

  lemma ProductRounding(x: int)
    ensures Fit(Money, ProductCode(x)) == Fit(Money, HalfEven(x, 100_000_000))
  {
    hide Round28, HalfEven;
    var a := Abs(x);
    var r := Round28(a, 1_000_000_000_000);
    HalfEvenNeg(r.num * 10_000, r.den);
    assert (-r.num) * 10_000 == -(r.num * 10_000);
    HalfEvenNeg(a, 100_000_000);
    ProductMagnitude(a);
  }

  lemma ProductMagnitude(a: int)
    requires a >= 0
    ensures Fit(Money, ProductCode(a)) == Fit(Money, HalfEven(a, 100_000_000))
  {
    if a < E28(1) {
      SmallProduct(a);
    } else if a < E27(100_000_000) {
      MiddleProduct(a);
    } else if a < E28(100_000_000) {
      LargeProduct(a);
    } else {
      assert Pow10(4) == 10_000;
      MagnitudeKept(a, 1_000_000_000_000, 4, E28(1));
      HalfEvenBounds(a, 100_000_000, E28(1));
    }
  }

  /** A product of at most 28 digits is stored exactly. */
  lemma SmallProduct(a: int)
    requires 0 <= a < E28(1)
    ensures ProductCode(a) == HalfEven(a, 100_000_000)
  {
    var r := Round28(a, 1_000_000_000_000);
    assert Pow10(12) == 1_000_000_000_000 by { assert Pow10(8) == 100_000_000; }
    Round28Exact(a, 1_000_000_000_000, a, 12);
    HalfEvenCross(a, 100_000_000, r.num * 10_000, r.den);
  }

  /** From 10^27 to 10^28 smallest units, rounding to 28 digits is rounding to an integer. */
  lemma LargeProduct(a: int)
    requires E27(100_000_000) <= a < E28(100_000_000)
    ensures ProductCode(a) == HalfEven(a, 100_000_000)
  {
    var d := 1_000_000_000_000;
    var r := Round28(a, d);
    assert Pow10(4) == 10_000;
    Round28ShiftBy(a, d, 4);
    Round28Cross(a, 100_000_000, a * 10_000, d);
    var s := Round28(a, 100_000_000);
    assert s == Rat(HalfEven(a, 100_000_000), 1);
    HalfEvenCross(s.num, s.den, r.num * 10_000, r.den);
    HalfEvenBounds(s.num, 1, s.num);
  }

  /** In between, both roundings are too large for money and short of 10^28. */
  lemma MiddleProduct(a: int)
    requires E28(1) <= a < E27(100_000_000)
    ensures Limit(Money) <= ProductCode(a) < E28(1)
    ensures Limit(Money) <= HalfEven(a, 100_000_000) < E28(1)
  {
    var d := 1_000_000_000_000;
    var r := Round28(a, d);
    assert Pow10(4) == 10_000;
    MagnitudeKept(a, d, 4, Limit(Money));
    HalfEvenBounds(r.num * 10_000, r.den, 0);
    HalfEvenBounds(a, 100_000_000, Limit(Money));
    HalfEvenBounds(a, 100_000_000, E27(1));
    Round28Error(a, d);
    MulLt(a, E27(100_000_000), r.den);
    HalfEvenBounds(r.num * 10_000, r.den, E27(2));
  }

  // ---------------------------------------------------------------- round trip

  /** `(m / p) * p`, where both operations succeed. */
  function ThereAndBack(m: int, p: int): Result {
    var u := MoneyOverPrice(m, p);
    if u.Ok? then PriceTimesUnits(p, u.value) else u
  }

  /**
   Buying with m at price p and valuing the units at p again misses m by at most
   |p| * 0.5e-6 + 0.5e-4 dollars whenever the product is accepted.
   */
  lemma RoundTripBound(m: int, p: int)
    requires InRange(Money, m) && InRange(Price, p) && p != 0
    ensures var back := ThereAndBack(m, p);
            back.Ok? ==> 200_000_000 * Abs(back.value - m) <= Abs(p) + 100_000_000
  {
    var u := Nearest(100_000_000 * m, p);
    MoneyOverPriceRoundsOnce(m, p);
    PriceTimesUnitsRoundsOnce(p, u);
    UnitsError(m, p);
  }

  /** The units bought, valued exactly, are within half a price quantum of the money spent. */
  lemma UnitsError(m: int, p: int)
    requires p != 0
    ensures 2 * Abs(p * Nearest(100_000_000 * m, p) - 100_000_000 * m) <= Abs(p)
  {
    var u := Nearest(100_000_000 * m, p);
    assert u * (-p) == -(p * u);
  }

  /** How far n is from the nearest multiple of d. */
  function ToMultiple(n: int, d: int): (x: int)
    requires d != 0
    ensures 0 <= 2 * x <= Abs(d)
  {
    var r := n % Abs(d);
    if 2 * r <= Abs(d) then r else Abs(d) - r
  }

  lemma NearestDistance(n: int, d: int)
    requires d != 0
    ensures Abs(d * Nearest(n, d) - n) == ToMultiple(n, d)
  {
    hide HalfEven, ToMultiple;
    if d > 0 {
      MagnitudeDistance(n, d);
    } else {
      MagnitudeDistance(-n, -d);
      OppositeRemainder(n, -d);
      SameMultiples(n, d);
      NegTimes(d, HalfEven(-n, -d));
    }
  }

  lemma SameMultiples(n: int, d: int)
    requires d != 0
    ensures ToMultiple(n, -d) == ToMultiple(n, d)
  {
  }

  lemma MagnitudeDistance(m: int, e: int)
    requires e > 0
    ensures Abs(e * HalfEven(m, e) - m) == ToMultiple(m, e)
  {
    DivMod(m, e);
    NextMultiple(m / e, e);
  }

  lemma NextMultiple(q: int, e: int)
    ensures e * q == q * e && e * (q + 1) == q * e + e
  {
  }

  lemma OppositeRemainder(n: int, e: int)
    requires e > 0
    ensures ToMultiple(-n, e) == ToMultiple(n, e)
  {
    var q, r := n / e, n % e;
    DivMod(n, e);
    if r == 0 {
      NegTimes(q, e);
      RemainderIs(-n, e, -q, 0);
    } else {
      assert (-q - 1) * e == -(q * e) - e;
      RemainderIs(-n, e, -q - 1, e - r);
    }
  }

  lemma RemainderIs(n: int, e: int, q: int, r: int)
    requires e > 0 && n == q * e + r && 0 <= r < e
    ensures n % e == r
  {
    QuotientUnique(n, e, q);
    DivMod(n, e);
  }

  /** A product x rounds to m exactly when it is less than half a smallest unit away, or half a unit with m even. */
  lemma RoundsTo(x: int, m: int)
    ensures HalfEven(x, 100_000_000) == m
            <==> var y := 2 * Abs(x - 100_000_000 * m); y < 100_000_000 || (y == 100_000_000 && m % 2 == 0)
  {
    if IsHalfEven(m, x, 100_000_000) { HalfEvenUnique(m, HalfEven(x, 100_000_000), x, 100_000_000); }
  }

  /**
   Twice the distance of m, scaled to the divisor's quantum, from a multiple of the divisor is less
   than one smallest unit of money, or equal to it with m even.
   */
  predicate Returns(m: int, d: int)
    requires d != 0
  {
    var x := 2 * ToMultiple(100_000_000 * m, d);
    x < 100_000_000 || (x == 100_000_000 && m % 2 == 0)
  }

  lemma ReturnsIff(m: int, d: int)
    requires d != 0
    ensures HalfEven(d * Nearest(100_000_000 * m, d), 100_000_000) == m <==> Returns(m, d)
  {
    hide HalfEven, Nearest, ToMultiple;
    NearestDistance(100_000_000 * m, d);
    RoundsTo(d * Nearest(100_000_000 * m, d), m);
  }

  /** The round trip gives the amount back if and only if that condition holds. */
  lemma RoundTripExactIff(m: int, p: int)
    requires InRange(Money, m) && InRange(Price, p) && p != 0
    ensures ThereAndBack(m, p) == Ok(m) <==> Returns(m, p)
  {
    hide HalfEven, Nearest, Returns, MoneyOverPrice, PriceTimesUnits;
    var u := Nearest(100_000_000 * m, p);
    MoneyOverPriceRoundsOnce(m, p);
    PriceTimesUnitsRoundsOnce(p, u);
    ReturnsIff(m, p);
  }

  /** The condition holds for every divisor of magnitude at most 100. */
  lemma SmallReturns(m: int, d: int)
    requires d != 0 && Abs(d) <= 100_000_000
    ensures Returns(m, d)
  {
    if Abs(d) == 100_000_000 { RemainderIs(100_000_000 * m, 100_000_000, m, 0); }
  }

  /** Beyond 100 some amount fails it. */
  lemma LargeFails(d: int) returns (m: int)
    requires Abs(d) > 100_000_000
    ensures 0 < m <= 50_000_001 && !Returns(m, d)
  {
    var a := Abs(d);
    var e := a - 100_000_000;
    if e >= 50_000_000 {
      m := 1;
      RemainderIs(100_000_000, a, 0, 100_000_000);
    } else {
      m := FirstMultiple(e);
      // 10^8 * m is e * m short of m times a
      assert 100_000_000 * m == (m - 1) * a + (a - e * m);
      RemainderIs(100_000_000 * m, a, m - 1, a - e * m);
    }
  }

  /** A multiple of e in [5 * 10^7, 5 * 10^7 + e], strictly inside unless its factor is odd. */
  lemma FirstMultiple(e: int) returns (m: int)
    requires 0 < e < 50_000_000
    ensures 0 < m <= 50_000_001 && 50_000_000 <= e * m <= 50_000_000 + e
    ensures e * m == 50_000_000 || e * m == 50_000_000 + e ==> m % 2 == 1
  {
    DivMod(50_000_000, e);
    m := MultipleFrom(50_000_000 / e, 50_000_000 % e, e);
  }

  lemma MultipleFrom(q: int, r: int, e: int) returns (m: int)
    requires 0 < e < 50_000_000 && q * e + r == 50_000_000 && 0 <= r < e
    ensures 0 < m <= 50_000_001 && 50_000_000 <= e * m <= 50_000_000 + e
    ensures e * m == 50_000_000 || e * m == 50_000_000 + e ==> m % 2 == 1
  {
    AtMostProduct(q, e);
    assert e * q == 50_000_000 - r && e * (q + 1) == 50_000_000 - r + e by { NextMultiple(q, e); }
    m := OddFactor(q, r, e, e * q, e * (q + 1));
  }

  /** Of two neighbouring multiples at the ends of the interval, the one with the odd factor. */
  lemma OddFactor(q: int, r: int, e: int, low: int, high: int) returns (m: int)
    requires 0 <= r < e && low == 50_000_000 - r && high == low + e
    ensures (m == q && low == 50_000_000 && m % 2 == 1) || (m == q + 1 && 50_000_000 < high <= 50_000_000 + e)
    ensures m == q + 1 && high == 50_000_000 + e ==> m % 2 == 1
  {
    m := if r == 0 && q % 2 == 1 then q else q + 1;
  }

  lemma AtMostProduct(q: int, e: int)
    requires 0 < e < 50_000_000 && 0 <= q * e <= 50_000_000 && q * e + e > 50_000_000
    ensures 0 < q <= 50_000_000
  {
    MulLt(0, q, e);
    if q > 0 { Grows(q, e); }
  }

  lemma Grows(x: int, a: int)
    requires x >= 0 && a > 0
    ensures 0 <= x <= x * a
  {
  }

  /** So the round trip returns every amount exactly when the price is at most 100 dollars. */
  lemma AlwaysExactIff(p: int)
    requires InRange(Price, p) && p != 0
    ensures (forall m :: InRange(Money, m) ==> ThereAndBack(m, p) == Ok(m)) <==> Abs(p) <= 100_000_000
  {
    hide ThereAndBack, Returns;
    if Abs(p) <= 100_000_000 {
      forall m | InRange(Money, m) ensures ThereAndBack(m, p) == Ok(m) {
        RoundTripExactIff(m, p);
        SmallReturns(m, p);
      }
    } else {
      var m := LargeFails(p);
      RoundTripExactIff(m, p);
      assert InRange(Money, m);
    }
  }

  /** Above 100 dollars it need not be: 0.0001 at a price of 150 comes back as 0.0002. */
  lemma RoundTripInexact()
    ensures ThereAndBack(1, 150_000_000) == Ok(2)
  {
    MoneyOverPriceRoundsOnce(1, 150_000_000);
    PriceTimesUnitsRoundsOnce(150_000_000, 1);
  }
}
