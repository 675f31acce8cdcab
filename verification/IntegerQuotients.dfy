/**
 Division by an integer over the whole range of every kind: exactly when the second rounding, to the
 kind's places, moves a 28-digit quotient away from the nearest value.
 */
module IntegerQuotients {
  import opened Rounding
  import opened FixedPoint

  // ---------------------------------------------------------------- the decimal shift

  /** How many places n/d is scaled up to have its 28 digits before the point. */
  function Shifts(n: int, d: int): (k: nat)
    requires n > 0 && d > 0
    decreases if n < E27(d) then E27(d) - n else 0
  {
    if n >= E27(d) then 0 else 1 + Shifts(10 * n, d)
  }

  /** It is the least shift that reaches 28 digits. */
  lemma {:induction false} ShiftsIsLeast(n: int, d: int)
    requires 0 < n < E28(d)
    ensures var k := Shifts(n, d); E27(d) <= n * Pow10(k) < E28(d)
    ensures forall j: nat :: n * Pow10(j) >= E27(d) ==> j >= Shifts(n, d)
    decreases if n < E27(d) then E27(d) - n else 0
  {
    if n < E27(d) {
      ShiftsIsLeast(10 * n, d);
      var k := Shifts(10 * n, d);
      TenTimes(n, k);
      forall j: nat | n * Pow10(j) >= E27(d) ensures j >= k + 1 {
        if j > 0 { TenTimes(n, j - 1); }
      }
    }
  }

  lemma TenTimes(n: int, k: nat)
    ensures n * Pow10(k + 1) == (10 * n) * Pow10(k)
  {
  }

  /** The 28-digit rounding, written with the shift. */
  lemma {:induction false} Round28Is(n: int, d: int)
    requires 0 < n < E28(d) && d > 0
    ensures var k := Shifts(n, d); Round28(n, d) == Rat(HalfEven(n * Pow10(k), d), Pow10(k))
    decreases if n < E27(d) then E27(d) - n else 0
  {
    hide HalfEven;
    if n < E27(d) {
      Round28Is(10 * n, d);
      TenTimes(n, Shifts(10 * n, d));
    }
  }

  // ---------------------------------------------------------------- when two roundings differ from one

  /**
   The quotient n/a lies so close to the midpoint of two integers that its 28 digits end exactly on
   it, without being the midpoint, and the even neighbour is the farther one. With x twice the
   distance from the midpoint (in units of 1/a) and k the decimal shift, that is when |x| * 10^k is
   less than a, or equal with the midpoint's last digit even.
   */
  ghost predicate RoundsTwice(n: int, a: int)
    requires n >= 0 && a > 0
  {
    n > 0 &&
    var k, f, x := Shifts(n, a), n / a, 2 * (n % a) - a;
    && k > 0 && x != 0
    && (Abs(x) * Pow10(k) < a || (Abs(x) * Pow10(k) == a && k >= 2))
    && (if x < 0 then f % 2 == 1 else f % 2 == 0)
  }

  /** The quotient against its midpoint, both scaled by p. */
  lemma Midpoint(n: int, a: int, half: int)
    requires a > 0
    ensures var f, x := n / a, 2 * (n % a) - a;
            2 * (n * (2 * half) - ((2 * f + 1) * half) * a) == (2 * half) * x
  {
    var f, r := n / a, n % a;
    DivMod(n, a);
    assert n == f * a + r;
    assert (f * a + r) * (2 * half) == 2 * ((f * a) * half) + 2 * (r * half);
    assert ((2 * f + 1) * half) * a == 2 * ((f * a) * half) + half * a;
    assert (2 * half) * (2 * r - a) == 4 * (r * half) - 2 * (half * a);
  }

  /** The scaled quotient rounds to the midpoint exactly when it is within half of it, ties to even. */
  lemma HitsMidpoint(m: int, a: int, t: int)
    requires a > 0
    ensures var y := 2 * (m - t * a);
            HalfEven(m, a) == t <==> Abs(y) < a || (Abs(y) == a && t % 2 == 0)
  {
    var h := HalfEven(m, a);
    if IsHalfEven(t, m, a) { HalfEvenUnique(t, h, m, a); }
  }

  lemma MidpointProducts(f: int, half: int)
    ensures f * (2 * half) == 2 * (f * half)
    ensures (2 * f + 1) * half == 2 * (f * half) + half
    ensures (f + 1) * (2 * half) == 2 * (f * half) + 2 * half
  {
  }

  /** Rounding the midpoint itself goes to the even neighbour. */
  lemma MidpointToEven(f: int, half: int)
    requires half > 0
    ensures HalfEven((2 * f + 1) * half, 2 * half) == if f % 2 == 0 then f else f + 1
  {
    hide HalfEven;
    var h := if f % 2 == 0 then f else f + 1;
    assert IsHalfEven(h, (2 * f + 1) * half, 2 * half) by { MidpointProducts(f, half); }
    HalfEvenUnique(h, HalfEven((2 * f + 1) * half, 2 * half), (2 * f + 1) * half, 2 * half);
  }

  /** Strictly on one side of the midpoint, rounding goes to that side's neighbour. */
  lemma SideOfMidpoint(h: int, f: int, half: int)
    requires half > 0
    ensures f * (2 * half) <= h < (2 * f + 1) * half ==> HalfEven(h, 2 * half) == f
    ensures (2 * f + 1) * half < h <= (f + 1) * (2 * half) ==> HalfEven(h, 2 * half) == f + 1
  {
    hide HalfEven;
    var e := 2 * half;
    MidpointProducts(f, half);
    if f * e <= h < (2 * f + 1) * half { HalfEvenUnique(f, HalfEven(h, e), h, e); }
    if (2 * f + 1) * half < h <= (f + 1) * e { HalfEvenUnique(f + 1, HalfEven(h, e), h, e); }
  }

  /** One rounding of n/a: the neighbour on its side of the midpoint, the even one on a tie. */
  lemma OneRounding(n: int, a: int)
    requires a > 0
    ensures var f, x := n / a, 2 * (n % a) - a;
            HalfEven(n, a) == if x < 0 then f else if x > 0 then f + 1 else if f % 2 == 0 then f else f + 1
  {
  }

  /** The scaled quotient lies between its scaled neighbours, so its rounding does. */
  lemma Between(n: int, a: int, p: int)
    requires a > 0 && p > 0
    ensures var f, h := n / a, HalfEven(n * p, a); f * p <= h <= (f + 1) * p
  {
    hide HalfEven;
    var f := n / a;
    DivMod(n, a);
    ScaledBetween(f, n % a, a, p);
    HalfEvenBounds(n * p, a, f * p);
    HalfEvenBounds(n * p, a, (f + 1) * p);
  }

  lemma ScaledBetween(f: int, r: int, a: int, p: int)
    requires 0 <= r < a && p > 0
    ensures (f * p) * a <= (f * a + r) * p <= ((f + 1) * p) * a
  {
    var g := (f * a) * p;
    assert (f * p) * a == g;
    assert (f * a + r) * p == g + r * p;
    assert ((f + 1) * p) * a == g + a * p;
    MulLt(r, a, p);
    MulLt(-1, r, p);
  }

  /** Which side of the midpoint the scaled rounding is on. */
  lemma SideKept(m: int, a: int, t: int)
    requires a > 0
    ensures m <= t * a ==> HalfEven(m, a) <= t
    ensures m >= t * a ==> HalfEven(m, a) >= t
  {
    hide HalfEven;
    HalfEvenBounds(m, a, t);
  }

  lemma ScaledSign(x: int, p: int)
    requires p > 0
    ensures x < 0 <==> p * x < 0
    ensures x > 0 <==> p * x > 0
    ensures Abs(p * x) == Abs(x) * p
  {
    MulLt(x, 0, p);
    MulLt(0, x, p);
    if x < 0 { assert p * x == -((-x) * p); }
  }

  lemma OddIs(x: int, c: int)
    requires x == 2 * c + 1
    ensures x % 2 == 1
  {
  }

  lemma EvenIs(x: int, c: int)
    requires x == 2 * c
    ensures x % 2 == 0
  {
  }

  lemma OddMidpoint(f: int)
    ensures ((2 * f + 1) * 5) % 2 == 1
  {
    OddIs((2 * f + 1) * 5, 5 * f + 2);
  }

  lemma EvenMidpoint(g: int, w: int)
    ensures (g * (5 * (10 * w))) % 2 == 0
  {
    assert g * (5 * (10 * w)) == 50 * (g * w);
    EvenIs(g * (5 * (10 * w)), 25 * (g * w));
  }

  /** The last digit of the midpoint: five with one shift, zero with more. */
  lemma MidpointParity(f: int, k: nat)
    requires k > 0
    ensures Pow10(k) == 2 * (5 * Pow10(k - 1))
    ensures ((2 * f + 1) * (5 * Pow10(k - 1))) % 2 == 0 <==> k >= 2
  {
    if k >= 2 {
      EvenMidpoint(2 * f + 1, Pow10(k - 2));
    } else {
      OddMidpoint(f);
    }
  }

  /** Rounding to 28 digits and then to an integer differs from rounding once exactly under that condition. */
  lemma RoundsTwiceIff(n: int, a: int)
    requires 0 <= n < E28(1) && a > 0
    ensures var s := Round28(n, a); HalfEven(s.num, s.den) == HalfEven(n, a) <==> !RoundsTwice(n, a)
  {
    hide HalfEven, Round28;
    if n > 0 {
      Below(n, a);
      Round28Is(n, a);
      var k := Shifts(n, a);
      if k > 0 {
        ShiftedIff(n, a, k);
      } else {
        HalfEvenBounds(HalfEven(n, a), 1, HalfEven(n, a));
      }
    } else {
      ZeroRounds(a);
    }
  }

  lemma ZeroRounds(a: int)
    requires a > 0
    ensures Round28(0, a) == Rat(0, 1) && HalfEven(0, 1) == 0 && HalfEven(0, a) == 0
  {
  }

  lemma ShiftedIff(n: int, a: int, k: nat)
    requires n >= 0 && a > 0 && k > 0
    ensures var f, x, p := n / a, 2 * (n % a) - a, Pow10(k);
            HalfEven(HalfEven(n * p, a), p) != HalfEven(n, a)
            <==> x != 0 && (Abs(x) * p < a || (Abs(x) * p == a && k >= 2)) && (if x < 0 then f % 2 == 1 else f % 2 == 0)
  {
    hide HalfEven;
    var f, x, p, half := n / a, 2 * (n % a) - a, Pow10(k), 5 * Pow10(k - 1);
    var h, t := HalfEven(n * p, a), (2 * f + 1) * half;
    MidpointParity(f, k);
    Midpoint(n, a, half);
    ScaledSign(x, p);
    HitsMidpoint(n * p, a, t);
    OneRounding(n, a);
    if h == t {
      MidpointToEven(f, half);
    } else {
      Between(n, a, p);
      SideKept(n * p, a, t);
      SideOfMidpoint(h, f, half);
    }
  }

  // ---------------------------------------------------------------- the operation

  /** The quotient of magnitudes after both roundings, with the sign put back; never refused. */
  lemma OverIntIs(k: Kind, v: int, i: int)
    requires InRange(k, v) && i != 0
    ensures var s := Round28(Abs(v), Abs(i)); var q := HalfEven(s.num, s.den);
            0 <= q <= Abs(v) && OverInt(k, v, i) == Ok(if (v < 0) == (i < 0) then q else -q)
  {
    hide Round28, HalfEven, Construct;
    var n, a, w := Abs(v), Abs(i), PerWhole(k);
    var s := if i < 0 then -v else v;
    var r := DecimalQuotient(Decimal(k, v), Rat(i, 1));
    assert r == Round28Signed(s, w * a);
    assert n * (w * a) == (n * w) * a;
    QuantizedTwice(n, w * a, Scale(k), n, a);
    QuotientShrinks(n, a);
    QuantizedSign(s, w * a, w);
    ConstructFits(k, r);
  }

  lemma QuantizedSign(s: int, d: int, w: int)
    requires d > 0
    ensures var r, u := Round28Signed(s, d), Round28(Abs(s), d);
            HalfEven(r.num * w, r.den) == if s < 0 then -HalfEven(u.num * w, u.den) else HalfEven(u.num * w, u.den)
  {
    hide Round28, HalfEven;
    var u := Round28(Abs(s), d);
    NegTimes(u.num, w);
    HalfEvenNeg(u.num * w, u.den);
  }

  lemma Below(n: int, a: int)
    requires 0 <= n < E28(1) && a > 0
    ensures n < E28(a)
  {
    Grows(n, a);
    MulLt(n, E28(1), a);
  }

  lemma QuotientShrinks(n: int, a: int)
    requires 0 <= n < E28(1) && a > 0
    ensures var s := Round28(n, a); 0 <= HalfEven(s.num, s.den) <= n
  {
    hide HalfEven, Round28;
    if n > 0 {
      Below(n, a);
      Round28Is(n, a);
      var p := Pow10(Shifts(n, a));
      var h := HalfEven(n * p, a);
      Grows(n, p);
      Grows(n * p, a);
      HalfEvenBounds(n * p, a, n * p);
      HalfEvenBounds(n * p, a, 0);
      HalfEvenBounds(h, p, n);
      HalfEvenBounds(h, p, 0);
    } else {
      ZeroRounds(a);
    }
  }

  lemma NearestOfMagnitudes(v: int, i: int)
    requires i != 0
    ensures Nearest(v, i) == if (v < 0) == (i < 0) then HalfEven(Abs(v), Abs(i)) else -HalfEven(Abs(v), Abs(i))
  {
    hide HalfEven;
    HalfEvenNeg(Abs(v), Abs(i));
    ZeroRounds(Abs(i));
  }

  /**
   Over the whole range of every kind and every non-zero integer, the quotient is never refused, and
   it is the single half-even rounding of the exact quotient if and only if the magnitudes do not
   meet the condition.
   */
  lemma OverIntRoundsOnceIff(k: Kind, v: int, i: int)
    requires InRange(k, v) && i != 0
    ensures OverInt(k, v, i).Ok?
    ensures OverInt(k, v, i) == Ok(Nearest(v, i)) <==> !RoundsTwice(Abs(v), Abs(i))
  {
    hide HalfEven, Round28, OverInt, Nearest, RoundsTwice;
    OverIntIs(k, v, i);
    NearestOfMagnitudes(v, i);
    RoundsTwiceIff(Abs(v), Abs(i));
  }

  /** Money and prices never meet it. */
  lemma SmallNeverRoundsTwice(n: int, a: int)
    requires 0 <= n < E27(1) && a > 0
    ensures !RoundsTwice(n, a)
  {
    hide HalfEven, Round28, RoundsTwice;
    DoubleRounding(n, a);
    RoundsTwiceIff(n, a);
  }
}
