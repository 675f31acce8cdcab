/**
 Decimal rounding as Python's `decimal` module performs it under its default context: every
 arithmetic result is rounded to 28 significant digits, half to even, and `quantize` then rounds
 once more to a fixed number of places. Values are exact rationals, so both roundings can be
 compared with the one rounding that exact arithmetic would need.
 */
module Rounding {

  /** 10^27 * x and 10^28 * x. */
  function E27(x: int): int { 1_000_000_000_000_000_000_000_000_000 * x }
  function E28(x: int): int { 10_000_000_000_000_000_000_000_000_000 * x }

  /** A rational number; `den` is positive wherever one is produced. */
  datatype Rat = Rat(num: int, den: int)

  // ---------------------------------------------------------------- products and order

  lemma MulLt(a: int, b: int, k: int)
    requires k > 0
    ensures a < b <==> a * k < b * k
    ensures a == b <==> a * k == b * k
  {
    if a < b { assert (b - a) * k > 0; }
    if a > b { assert (a - b) * k > 0; }
  }

  /** Integers whose products with d lie less than d apart are equal. */
  lemma MulGap(a: int, b: int, d: int)
    requires d > 0
    ensures a * d > b * d - d ==> a >= b
    ensures a * d < b * d + d ==> a <= b
  {
    if a < b { LessByOne(a, b, d); }
    if a > b { LessByOne(b, a, d); }
  }

  /** x < d leaves a gap of at least e between the products. */
  lemma LessByOne(x: int, d: int, e: int)
    requires x < d && e > 0
    ensures x * e <= d * e - e
  {
    assert (d - 1 - x) * e >= 0;
    assert (d - 1 - x) * e == (d - 1) * e - x * e;
  }

  lemma Tens(a: int, b: int)
    ensures (10 * a) * b == 10 * (a * b) == a * (10 * b)
  {
  }

  lemma Regroup(f: int, d: int, e: int)
    ensures (f * d + d) * e == (f * e + e) * d
  {
  }

  lemma DivMod(n: int, d: int)
    requires d > 0
    ensures n - (n / d) * d == n % d
    ensures (n / d) * d <= n < (n / d) * d + d
  {
  }

  lemma QuotientUnique(n: int, d: int, q: int)
    requires d > 0 && q * d <= n < q * d + d
    ensures n / d == q
  {
    DivMod(n, d);
    MulGap(n / d, q, d);
  }

  // ---------------------------------------------------------------- half-even rounding

  /** The integer nearest to n/d, an exact tie going to the even neighbour. */
  function HalfEven(n: int, d: int): (h: int)
    requires d > 0
    ensures IsHalfEven(h, n, d)
  {
    var q, r := n / d, n % d;
    assert n - q * d == r && n - (q + 1) * d == r - d by { DivMod(n, d); assert (q + 1) * d == q * d + d; }
    if 2 * r < d || (2 * r == d && q % 2 == 0) then q else q + 1
  }

  /** Reference definition of half-even rounding: nearest, and even on an exact tie. */
  ghost predicate IsHalfEven(h: int, n: int, d: int)
  {
    && -d <= 2 * (n - h * d) <= d
    && (2 * (n - h * d) == d || 2 * (n - h * d) == -d ==> h % 2 == 0)
  }

  /** Half-even rounding is unique: two integers that both satisfy the reference definition agree. */
  lemma HalfEvenUnique(a: int, b: int, n: int, d: int)
    requires d > 0
    requires IsHalfEven(a, n, d) && IsHalfEven(b, n, d)
    ensures a == b
  {
    NextProduct(a, d);
    NextProduct(b, d);
    MulLt(b + 1, a, d);
    MulLt(a + 1, b, d);
  }

  lemma NextProduct(a: int, d: int)
    ensures (a + 1) * d == a * d + d
  {
  }

  lemma NegTimes(h: int, d: int)
    ensures (-h) * d == -(h * d)
  {
  }

  lemma NegIsHalfEven(h: int, n: int, d: int)
    requires IsHalfEven(h, n, d)
    ensures IsHalfEven(-h, -n, d)
  {
    NegTimes(h, d);
  }

  /** Half-even rounding is odd, so a sign can be pulled out of it. */
  lemma HalfEvenNeg(n: int, d: int)
    requires d > 0
    ensures HalfEven(-n, d) == -HalfEven(n, d)
  {
    hide HalfEven, IsHalfEven;
    NegIsHalfEven(HalfEven(n, d), n, d);
    HalfEvenUnique(-HalfEven(n, d), HalfEven(-n, d), -n, d);
  }

  /** Half-even rounding never crosses an integer bound. */
  lemma HalfEvenBounds(n: int, d: int, b: int)
    requires d > 0
    ensures n >= b * d ==> HalfEven(n, d) >= b
    ensures n <= b * d ==> HalfEven(n, d) <= b
    ensures n == b * d ==> HalfEven(n, d) == b
  {
    MulGap(HalfEven(n, d), b, d);
  }

  /** y/e == x/d compares with 1 and with -1 as x/d does. */
  lemma SameSide(x: int, d: int, y: int, e: int)
    requires d > 0 && e > 0 && y * d == x * e
    ensures x <= d <==> y <= e
    ensures x >= -d <==> y >= -e
    ensures x == d <==> y == e
    ensures x == -d <==> y == -e
  {
    MulLt(x, d, e); MulLt(y, e, d);
    MulLt(x, -d, e); MulLt(y, -e, d);
    MulLt(d, x, e); MulLt(e, y, d);
    MulLt(-d, x, e); MulLt(-e, y, d);
    assert d * e == e * d && (-d) * e == (-e) * d;
  }

  /** The distance of h from m/e, scaled to that from n/d, with the difference of the two made explicit. */
  lemma Rescale(n: int, d: int, m: int, e: int, h: int)
    ensures (2 * (m - h * e)) * d == 2 * (m * d - n * e) + (2 * (n - h * d)) * e
  {
    assert (h * e) * d == (h * d) * e;
    assert (2 * (m - h * e)) * d == 2 * (m * d) - 2 * ((h * e) * d);
    assert (2 * (n - h * d)) * e == 2 * (n * e) - 2 * ((h * d) * e);
  }

  /** Rounding an equal rational gives an equal integer. */
  lemma HalfEvenCross(n: int, d: int, m: int, e: int)
    requires d > 0 && e > 0
    requires m * d == n * e
    ensures HalfEven(m, e) == HalfEven(n, d)
  {
    var h := HalfEven(n, d);
    Rescale(n, d, m, e, h);
    SameSide(2 * (n - h * d), d, 2 * (m - h * e), e);
    HalfEvenUnique(h, HalfEven(m, e), m, e);
  }

  // ---------------------------------------------------------------- 28 significant digits

  /** How far n/d is from [10^27, 10^28); it falls with every scaling step of `Round28`. */
  function Distance(n: int, d: int): (k: int)
    requires n > 0 && d > 0
    ensures k >= 0
  {
    if n < E27(d) then E27(d) - n else if n >= E28(d) then n - d else 0
  }

  /**
   n/d rounded to 28 significant digits, half to even: n/d is scaled by powers of ten into
   [10^27, 10^28), rounded there to an integer, and scaled back.
   */
  function Round28(n: int, d: int): (r: Rat)
    requires n >= 0 && d > 0
    ensures r.num >= 0 && r.den > 0
    decreases if n == 0 then 0 else Distance(n, d)
  {
    if n == 0 then
      Rat(0, 1)
    else if n < E27(d) then
      var r := Round28(10 * n, d);
      Rat(r.num, 10 * r.den)
    else if n >= E28(d) then
      var r := Round28(n, 10 * d);
      Rat(10 * r.num, r.den)
    else
      assert HalfEven(n, d) >= 0 by { HalfEvenBounds(n, d, 0); }
      Rat(HalfEven(n, d), 1)
  }

  /** The rounding of a signed quotient: sign and magnitude, as decimals are stored. */
  function Round28Signed(n: int, d: int): (r: Rat)
    requires d > 0
    ensures r.den > 0
  {
    if n >= 0 then Round28(n, d) else var r := Round28(-n, d); Rat(-r.num, r.den)
  }

  /** r is within a relative error of 1/(2 * 10^27) of n/d. */
  ghost predicate Within(n: int, d: int, r: Rat)
  {
    -(n * r.den) <= E27(2 * (r.num * d - n * r.den)) <= n * r.den
  }

  /** The relative error of 28-digit rounding. */
  lemma {:induction false} Round28Error(n: int, d: int)
    requires n >= 0 && d > 0
    ensures Within(n, d, Round28(n, d))
    decreases if n == 0 then 0 else Distance(n, d)
  {
    if n == 0 {
    } else if n < E27(d) {
      Round28Error(10 * n, d);
      WithinScaled(n, d, Round28(10 * n, d));
    } else if n >= E28(d) {
      Round28Error(n, 10 * d);
      WithinScaled(n, d, Round28(n, 10 * d));
    } else {
      assert Round28(n, d) == Rat(HalfEven(n, d), 1);
    }
  }

  /** The error bound is relative, so it survives scaling back by ten in either direction. */
  lemma WithinScaled(n: int, d: int, s: Rat)
    ensures Within(10 * n, d, s) ==> Within(n, d, Rat(s.num, 10 * s.den))
    ensures Within(n, 10 * d, s) ==> Within(n, d, Rat(10 * s.num, s.den))
  {
    assert (10 * n) * s.den == n * (10 * s.den) == 10 * (n * s.den);
    assert s.num * (10 * d) == (10 * s.num) * d == 10 * (s.num * d);
  }

  /** 28-digit rounding never falls below an integer of at most 10^28 that n/d reaches. */
  lemma {:induction false} Round28AtLeast(n: int, d: int, b: int)
    requires n >= 0 && d > 0 && 0 <= b <= E28(1)
    requires n >= b * d
    ensures var r := Round28(n, d); r.num >= b * r.den
    decreases if n == 0 then 0 else Distance(n, d)
  {
    hide HalfEven;
    if n == 0 {
      MulLt(0, b, d);
    } else if n < E27(d) {
      MulLt(b, E27(1), d);
      Tens(b, d);
      Round28AtLeast(10 * n, d, 10 * b);
      Tens(b, Round28(10 * n, d).den);
    } else if n >= E28(d) {
      var s := Round28(n, 10 * d);
      if n >= E28(10 * d) {
        Round28AtLeast(n, 10 * d, E28(1));
      } else {
        HalfEvenBounds(n, 10 * d, E27(1));
      }
      MulLt(b, E28(1), s.den);
    } else {
      HalfEvenBounds(n, d, b);
    }
  }

  ghost function Pow10(k: nat): (p: nat)
    ensures p >= 1
    ensures k >= 1 ==> p >= 10
  {
    if k == 0 then 1 else 10 * Pow10(k - 1)
  }

  /** n/d is c/10^k with at most 28 digits in c. */
  ghost predicate Representable(n: int, d: int, c: int, k: nat)
  {
    0 <= c < E28(1) && n * Pow10(k) == c * d
  }

  /** A value of at most 28 digits is left exactly as it is. */
  lemma {:induction false} Round28Exact(n: int, d: int, c: int, k: nat)
    requires n >= 0 && d > 0
    requires Representable(n, d, c, k)
    ensures var r := Round28(n, d); r.num * d == n * r.den
    decreases if n == 0 then 0 else Distance(n, d)
  {
    hide HalfEven;
    if n == 0 {
    } else if n < E27(d) {
      var c', k' := RepresentableUp(n, d, c, k);
      Round28Exact(10 * n, d, c', k');
      Tens(n, Round28(10 * n, d).den);
    } else {
      RepresentableWhole(n, d, c, k);
      HalfEvenBounds(n, d, c);
    }
  }

  /** Below 10^27, ten times a representable value is representable. */
  lemma RepresentableUp(n: int, d: int, c: int, k: nat) returns (c': int, k': nat)
    requires d > 0 && n < E27(d)
    requires Representable(n, d, c, k)
    ensures Representable(10 * n, d, c', k')
  {
    if k == 0 {
      MulLt(c, E27(1), d);
      c', k' := 10 * c, 0;
      assert (10 * c) * d == 10 * (c * d);
    } else {
      c', k' := c, k - 1;
      assert (10 * n) * Pow10(k - 1) == n * (10 * Pow10(k - 1));
    }
  }

  lemma Pow10Grows(n: int, k: nat)
    requires n >= 0
    ensures k > 0 ==> n * Pow10(k) >= 10 * n
    ensures k == 0 ==> n * Pow10(k) == n
  {
    if k > 0 { assert n * (Pow10(k) - 10) >= 0; }
  }

  /** From 10^27 on, only an integer below 10^28 is representable. */
  lemma RepresentableWhole(n: int, d: int, c: int, k: nat)
    requires d > 0 && n >= E27(d)
    requires Representable(n, d, c, k)
    ensures k == 0 && n == c * d && n < E28(d)
  {
    MulLt(c, E28(1), d);
    Pow10Grows(n, k);
  }

  /** What a 28-digit result looks like: an integer, or at most 28 digits over a power of ten. */
  lemma {:induction false} Round28Shape(n: int, d: int) returns (k: nat)
    requires n >= 0 && d > 0
    ensures var r := Round28(n, d); r.den == Pow10(k) && (k == 0 || r.num <= E28(1))
    ensures n < E28(d) ==> Round28(n, d).num <= E28(1)
    decreases if n == 0 then 0 else Distance(n, d)
  {
    k := 0;
    if n == 0 {
    } else if n < E27(d) {
      k := Round28Shape(10 * n, d);
      k := k + 1;
    } else if n >= E28(d) {
      var j := Round28Shape(n, 10 * d);
      Round28Integer(n, 10 * d);
    } else {
      HalfEvenBounds(n, d, E28(1));
    }
  }

  lemma {:induction false} Round28Integer(n: int, d: int)
    requires d > 0 && n >= E27(d)
    ensures Round28(n, d).den == 1
    decreases Distance(n, d)
  {
    if n >= E28(d) { Round28Integer(n, 10 * d); }
  }

  // ---------------------------------------------------------------- invariance

  /** 28-digit rounding depends on the value of a fraction, not on how it is written. */
  lemma {:induction false} Round28Cross(n: int, d: int, m: int, e: int)
    requires n >= 0 && m >= 0 && d > 0 && e > 0
    requires m * d == n * e
    ensures Round28(m, e) == Round28(n, d)
    decreases if n == 0 then 0 else Distance(n, d)
  {
    SameMagnitude(n, d, m, e);
    if n == 0 {
    } else if n < E27(d) {
      assert (10 * m) * d == (10 * n) * e;
      Round28Cross(10 * n, d, 10 * m, e);
    } else if n >= E28(d) {
      assert m * (10 * d) == n * (10 * e);
      Round28Cross(n, 10 * d, m, 10 * e);
    } else {
      HalfEvenCross(n, d, m, e);
    }
  }

  lemma SameMagnitude(n: int, d: int, m: int, e: int)
    requires d > 0 && e > 0 && m * d == n * e
    ensures n < E27(d) <==> m < E27(e)
    ensures n < E28(d) <==> m < E28(e)
    ensures n == 0 <==> m == 0
  {
    MulLt(n, E27(d), e); MulLt(m, E27(e), d);
    MulLt(n, E28(d), e); MulLt(m, E28(e), d);
    MulLt(n, 0, e); MulLt(m, 0, d);
    assert d * e == e * d;
    assert E27(d) * e == E27(d * e) && E27(e) * d == E27(e * d);
    assert E28(d) * e == E28(d * e) && E28(e) * d == E28(e * d);
  }

  /** Moving the decimal point commutes with 28-digit rounding. */
  lemma Round28Shift(n: int, d: int)
    requires n >= 0 && d > 0
    ensures var r, s := Round28(n, d), Round28(10 * n, d);
            s.num * r.den == 10 * (r.num * s.den)
  {
    var r, s := Round28(n, d), Round28(10 * n, d);
    if n >= E27(d) {
      assert s == Rat(10 * r.num, r.den) by {
        assert 10 * n >= E28(d);
        Tens(n, d);
        Round28Cross(n, d, 10 * n, 10 * d);
      }
      Tens(r.num, r.den);
    } else if n > 0 {
      Tens(s.num, s.den);
    }
  }

  /** Moving the decimal point by k places commutes with 28-digit rounding. */
  lemma {:induction false} Round28ShiftBy(n: int, d: int, k: nat)
    requires n >= 0 && d > 0
    ensures n * Pow10(k) >= 0
    ensures var r, s := Round28(n, d), Round28(n * Pow10(k), d);
            s.num * r.den == (r.num * Pow10(k)) * s.den
  {
    hide Round28, HalfEven;
    if k == 0 {
      assert n * Pow10(k) == n;
    } else {
      var p := Pow10(k - 1);
      Round28ShiftBy(n, d, k - 1);
      Tens(n, p);
      Round28Shift(n * p, d);
      ShiftChain(Round28(n, d), Round28(n * p, d), Round28(10 * (n * p), d), p);
    }
  }

  lemma ShiftChain(r: Rat, q: Rat, s: Rat, p: int)
    requires r.den > 0 && q.den > 0 && s.den > 0
    requires q.num * r.den == (r.num * p) * q.den
    requires s.num * q.den == 10 * (q.num * s.den)
    ensures s.num * r.den == (r.num * (10 * p)) * s.den
  {
    calc {
      (s.num * r.den) * q.den;
      (s.num * q.den) * r.den;
      10 * ((q.num * s.den) * r.den);
      10 * ((q.num * r.den) * s.den);
      10 * (((r.num * p) * q.den) * s.den);
      ((r.num * (10 * p)) * s.den) * q.den;
    }
    MulLt(s.num * r.den, (r.num * (10 * p)) * s.den, q.den);
  }

  // ---------------------------------------------------------------- double rounding

  /**
   The two roundings agree with one. For every numerator below 10^27 (in the smallest units of the
   result), rounding n/d first to 28 significant digits and then half-even to an integer gives the
   half-even rounding of n/d itself: an exact tie survives the first rounding unchanged, and
   anything else stays strictly on its own side of the nearest tie.
   */
  lemma DoubleRounding(n: int, d: int)
    requires d > 0 && 0 <= n < E27(1)
    ensures var r := Round28(n, d); HalfEven(r.num, r.den) == HalfEven(n, d)
  {
    hide Round28, HalfEven;
    var r := Round28(n, d);
    var h := HalfEven(n, d);
    var x := 2 * (n - h * d);
    if x == d || x == -d {
      TieIsExact(n, d, h);
      HalfEvenCross(n, d, r.num, r.den);
    } else {
      Round28Error(n, d);
      NearSide(n, d, r, h);
      HalfEvenUnique(h, HalfEven(r.num, r.den), r.num, r.den);
    }
  }

  /** An exact tie below 10^27 has at most 28 digits. */
  lemma TieIsExact(n: int, d: int, h: int)
    requires d > 0 && 0 <= n < E27(1)
    requires 2 * (n - h * d) == d || 2 * (n - h * d) == -d
    ensures var r := Round28(n, d); r.num * d == n * r.den
  {
    hide Round28;
    var twice := if 2 * (n - h * d) == d then 2 * h + 1 else 2 * h - 1;
    assert twice * d == 2 * n;
    var c := 5 * twice;
    assert c * d == 10 * n;
    MulLt(c, 0, d);
    MulLt(c, E28(1), d);
    assert Pow10(1) == 10 * Pow10(0);
    Round28Exact(n, d, c, 1);
  }

  /** Below 10^27 the relative error bound is an absolute one: less than 1/(2d). */
  lemma AbsoluteError(n: int, d: int, r: Rat)
    requires d > 0 && r.den > 0 && 0 <= n < E27(1)
    requires Within(n, d, r)
    ensures -r.den < 2 * (r.num * d - n * r.den) < r.den
  {
    MulLt(n, E27(1), r.den);
  }

  /** A 28-digit approximation of n/d stays strictly within one half of the integer n/d rounds to. */
  lemma NearSide(n: int, d: int, r: Rat, h: int)
    requires d > 0 && r.den > 0 && 0 <= n < E27(1)
    requires Within(n, d, r)
    requires -d < 2 * (n - h * d) < d
    ensures -r.den < 2 * (r.num - h * r.den) < r.den
  {
    AbsoluteError(n, d, r);
    Rescale(n, d, r.num, r.den, h);
    StrictSum(2 * (n - h * d), d, 2 * (r.num * d - n * r.den), 2 * (r.num - h * r.den), r.den);
  }

  lemma StrictSum(x: int, d: int, err: int, y: int, e: int)
    requires d > 0 && e > 0
    requires -d < x < d && -e < err < e
    requires y * d == err + x * e
    ensures -e < y < e
  {
    StrictSumUpper(x, d, err, y, e);
    assert (-y) * d == -(y * d) && (-x) * e == -(x * e);
    StrictSumUpper(-x, d, -err, -y, e);
  }

  lemma StrictSumUpper(x: int, d: int, err: int, y: int, e: int)
    requires d > 0 && e > 0
    requires x < d && err < e
    requires y * d == err + x * e
    ensures y < e
  {
    LessByOne(x, d, e);
    MulLt(y, e, d);
  }

  /** Below 10^27 the integer part survives 28-digit rounding. */
  lemma FloorSurvives(n: int, d: int)
    requires d > 0 && 0 <= n < E27(1)
    ensures var r := Round28(n, d); r.num / r.den == n / d
  {
    hide Round28;
    var r, f := Round28(n, d), n / d;
    DivMod(n, d);
    MulGap(f, 0, d);
    MulLt(f, E28(1), d);
    Round28AtLeast(n, d, f);
    Round28Error(n, d);
    AbsoluteError(n, d, r);
    BelowNext(n, d, r, f);
    QuotientUnique(r.num, r.den, f);
  }

  lemma BelowNext(n: int, d: int, r: Rat, f: int)
    requires d > 0 && r.den > 0
    requires n < f * d + d
    requires 2 * (r.num * d - n * r.den) < r.den
    ensures r.num < f * r.den + r.den
  {
    var e := r.den;
    LessByOne(n, f * d + d, e);
    Regroup(f, d, e);
    MulLt(r.num, f * e + e, d);
  }
}
