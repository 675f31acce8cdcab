/**
 What `allocate` guarantees: while ten times the magnitude times the total weight stays below 10^28
 the decimal computation is indistinguishable from exact proportional shares.
 */
module AllocationProofs {
  import opened Sums
  import opened Collections
  import opened Rounding
  import opened Allocation
  import FixedPoint

  /** The bound under which no intermediate decimal misleads the algorithm. */
  ghost predicate FewDigits(t: int, ws: seq<int>) {
    t >= 0 && Weights(ws) && 10 * (t * Sum(ws)) < E28(1)
  }

  /** Exact integer part and exact remainder (over the total weight) of a proportional share. */
  ghost function Floor(t: int, ws: seq<int>, i: int): int
    requires Weights(ws) && 0 <= i < |ws|
  {
    (t * ws[i]) / Sum(ws)
  }

  ghost function Rest(t: int, ws: seq<int>, i: int): (r: int)
    requires Weights(ws) && 0 <= i < |ws|
    ensures 0 <= r < Sum(ws)
  {
    (t * ws[i]) % Sum(ws)
  }

  // ---------------------------------------------------------------- one share

  lemma ProductBound(t: int, w: int, total: int)
    requires t >= 0 && 0 <= w <= total
    ensures 0 <= t * w <= t * total
  {
    assert t * (total - w) >= 0;
  }

  /** With an exact product, the share is the 28-digit quotient. */
  lemma ShareIsQuotient(t: int, w: int, total: int)
    requires t >= 0 && w >= 0 && total > 0 && t * w < E28(1)
    ensures t * w >= 0 && RawShare(t, w, total) == Round28(t * w, total)
  {
    var a := t * w;
    assert a >= 0;
    var product := Round28(a, 1);
    assert Representable(a, 1, a, 0);
    Round28Exact(a, 1, a, 0);
    ScaleBoth(product.num, a, product.den, total);
    Round28Cross(a, total, product.num, product.den * total);
  }

  lemma ScaleBoth(x: int, a: int, y: int, z: int)
    requires x == a * y
    ensures x * z == a * (y * z)
  {
  }

  /** The 28-digit context leaves r as it is. */
  ghost predicate Stored(r: Rat)
    requires r.num >= 0 && r.den > 0
  {
    var s := Round28(r.num, r.den);
    s.num * r.den == r.num * s.den
  }

  /** Subtracting the integer part from a share is exact: the context stores the remainder unrounded. */
  lemma RemainderIsStored(t: int, w: int, total: int)
    requires t >= 0 && w >= 0 && total > 0
    ensures var r := Remainder(t, w, total);
            r.num >= 0 && Stored(r)
  {
    hide Round28;
    var raw, f := RawShare(t, w, total), Base(t, w, total);
    var k := ShareShape(t, w, total);
    DivMod(raw.num, raw.den);
    MulGap(f, 0, raw.den);
    MulLt(f, 0, raw.den);
    FractionIsStored(raw.num - f * raw.den, raw, k);
  }

  lemma ShareShape(t: int, w: int, total: int) returns (k: nat)
    requires t >= 0 && w >= 0 && total > 0
    ensures var raw := RawShare(t, w, total); raw.den == Pow10(k) && (k == 0 || raw.num <= E28(1))
  {
    assert t * w >= 0;
    var product := Round28(t * w, 1);
    k := Round28Shape(product.num, product.den * total);
  }

  lemma FractionIsStored(x: int, raw: Rat, k: nat)
    requires raw.den == Pow10(k) && (k == 0 || raw.num <= E28(1))
    requires 0 <= x < raw.den && x <= raw.num
    ensures Stored(Rat(x, raw.den))
  {
    hide Round28;
    if x < E28(1) {
      Round28Exact(x, raw.den, x, k);
    } else {
      assert Pow10(k) == 10 * Pow10(k - 1);
      Round28Exact(x, raw.den, E27(1), k - 1);
    }
  }

  /** The decimal share is a 28-digit approximation of the exact one, with the same integer part. */
  lemma ShareApproximates(t: int, w: int, total: int)
    requires t >= 0 && w >= 0 && total > 0 && t * w < E27(1)
    ensures var raw := RawShare(t, w, total);
            -raw.den < 2 * (raw.num * total - (t * w) * raw.den) < raw.den
    ensures Base(t, w, total) == (t * w) / total
  {
    var a := t * w;
    ShareIsQuotient(t, w, total);
    Round28Error(a, total);
    AbsoluteError(a, total, Round28(a, total));
    FloorSurvives(a, total);
  }

  /** Under the bound every share has its exact integer part. */
  lemma BasesAreFloors(t: int, ws: seq<int>, i: int)
    requires FewDigits(t, ws) && 0 <= i < |ws|
    ensures 0 <= t * ws[i] < E27(1)
    ensures Bases(t, ws, Sum(ws))[i] == Floor(t, ws, i)
  {
    ElementAtMostSum(ws, i);
    ProductBound(t, ws[i], Sum(ws));
    ShareApproximates(t, ws[i], Sum(ws));
  }

  /** A strictly larger exact remainder stays strictly larger as a decimal. */
  lemma RemaindersKeepOrder(t: int, ws: seq<int>, i: int, j: int)
    requires FewDigits(t, ws) && 0 <= i < |ws| && 0 <= j < |ws|
    requires Rest(t, ws, i) > Rest(t, ws, j)
    ensures var rems := Remainders(t, ws, Sum(ws)); Less(rems[j], rems[i])
  {
    hide Round28;
    var total := Sum(ws);
    BasesAreFloors(t, ws, i);
    BasesAreFloors(t, ws, j);
    ShareApproximates(t, ws[i], total);
    ShareApproximates(t, ws[j], total);
    var a, b := RawShare(t, ws[i], total), RawShare(t, ws[j], total);
    DivMod(t * ws[i], total);
    DivMod(t * ws[j], total);
    RemainderError(t * ws[i], total, a, Floor(t, ws, i), Rest(t, ws, i));
    RemainderError(t * ws[j], total, b, Floor(t, ws, j), Rest(t, ws, j));
    Separate(total, Rest(t, ws, i), Rest(t, ws, j),
             a.num - Floor(t, ws, i) * a.den, a.den, b.num - Floor(t, ws, j) * b.den, b.den);
  }

  /** The remainder of a 28-digit share is within half a weight unit of the exact remainder. */
  lemma RemainderError(n: int, total: int, raw: Rat, f: int, r: int)
    requires total > 0 && raw.den > 0
    requires n == f * total + r
    requires -raw.den < 2 * (raw.num * total - n * raw.den) < raw.den
    ensures -raw.den < 2 * ((raw.num - f * raw.den) * total - r * raw.den) < raw.den
  {
    var e := raw.den;
    assert n * e == (f * e) * total + r * e by { Swap(f, total, e); assert (f * total + r) * e == (f * total) * e + r * e; }
    assert (raw.num - f * e) * total == raw.num * total - (f * e) * total;
  }

  lemma Separate(total: int, r: int, s: int, x: int, dx: int, y: int, dy: int)
    requires total > 0 && dx > 0 && dy > 0 && r > s
    requires -dx < 2 * (x * total - r * dx)
    requires 2 * (y * total - s * dy) < dy
    ensures y * dx < x * dy
  {
    // 2 * x * total > (2r - 1) * dx  and  2 * y * total < (2s + 1) * dy <= (2r - 1) * dy
    assert (2 * r - 1) * dx == 2 * (r * dx) - dx;
    assert (2 * s + 1) * dy == 2 * (s * dy) + dy;
    CrossScale(2 * s + 1, 2 * r - 1, dy);
    Chain(2 * total * x, 2 * total * y, 2 * r - 1, dx, dy);
    assert (2 * total * y) * dx == (y * dx) * (2 * total);
    assert (2 * total * x) * dy == (x * dy) * (2 * total);
    MulLt(y * dx, x * dy, 2 * total);
  }

  lemma Chain(x: int, y: int, k: int, dx: int, dy: int)
    requires dx > 0 && dy > 0
    requires x > k * dx && y < k * dy
    ensures y * dx < x * dy
  {
    MulLt(k * dx, x, dy);
    MulLt(y, k * dy, dx);
    Swap(k, dx, dy);
  }

  // ---------------------------------------------------------------- the split

  ghost function Rests(t: int, ws: seq<int>): (r: seq<int>)
    requires Weights(ws)
    ensures |r| == |ws|
  {
    seq(|ws|, i requires 0 <= i < |ws| => Rest(t, ws, i))
  }

  lemma {:induction false} ZeroSum(n: nat)
    ensures Sum(seq(n, i => 0)) == 0
  {
    SumBounds(seq(n, i => 0), 0, 0);
  }

  /** The exact shares add up to the whole. */
  lemma SharesSum(t: int, ws: seq<int>)
    ensures Sum(seq(|ws|, i requires 0 <= i < |ws| => t * ws[i])) == t * Sum(ws)
  {
    ZeroSum(|ws|);
    SumLinear(seq(|ws|, i => 0), ws, seq(|ws|, i requires 0 <= i < |ws| => t * ws[i]), t);
  }

  /** The exact remainders add up to the leftover times the total weight. */
  lemma RestsSum(t: int, ws: seq<int>)
    requires FewDigits(t, ws)
    ensures Sum(Rests(t, ws)) == Sum(ws) * Leftover(t, ws)
  {
    hide Round28;
    var total, bases := Sum(ws), Bases(t, ws, Sum(ws));
    var shares := seq(|ws|, i requires 0 <= i < |ws| => t * ws[i]);
    forall i | 0 <= i < |ws| ensures shares[i] == Rests(t, ws)[i] + total * bases[i] {
      BasesAreFloors(t, ws, i);
      DivMod(t * ws[i], total);
    }
    SumLinear(Rests(t, ws), bases, shares, total);
    SharesSum(t, ws);
    assert total * (t - Sum(bases)) == t * total - total * Sum(bases);
  }

  /** The leftover is a slice length smaller than the number of parts. */
  lemma LeftoverInRange(t: int, ws: seq<int>)
    requires FewDigits(t, ws)
    ensures 0 <= Leftover(t, ws) < |ws|
  {
    RestsSum(t, ws);
    SumBounds(Rests(t, ws), 0, Sum(ws) - 1);
    QuotientRange(Sum(ws), Leftover(t, ws), |ws|);
  }

  lemma QuotientRange(total: int, q: int, n: int)
    requires total > 0 && n > 0
    requires 0 * n <= total * q <= (total - 1) * n
    ensures 0 <= q < n
  {
    assert (total - 1) * n == n * total - n;
    MulLt(q, 0, total);
    MulLt(q, n, total);
  }

  /** The indicator of the lucky indices sums to their number. */
  lemma {:induction false} IndicatorSum(lucky: set<int>, n: nat)
    requires forall i :: i in lucky ==> 0 <= i < n
    ensures Sum(seq(n, i => if i in lucky then 1 else 0)) == |lucky|
  {
    if n > 0 {
      var s := seq(n, i => if i in lucky then 1 else 0);
      var front := seq(n - 1, i => if i in lucky - {n - 1} then 1 else 0);
      IndicatorSum(lucky - {n - 1}, n - 1);
      assert s == front + [s[n - 1]];
      SumAppend(front, s[n - 1]);
    } else if lucky != {} {
      var x := Element(lucky);
    }
  }

  /** What the parts sum to, for every amount and all weights. */
  lemma SplitSum(t: int, ws: seq<int>)
    requires t >= 0 && Weights(ws)
    ensures Sum(Split(t, ws)) == t - Leftover(t, ws) + SliceEnd(Leftover(t, ws), |ws|)
  {
    hide Round28;
    var lucky := Lucky(t, ws);
    var bases := Bases(t, ws, Sum(ws));
    var extra := seq(|ws|, i => if i in lucky then 1 else 0);
    ChosenIsInitial(Remainders(t, ws, Sum(ws)), SliceEnd(Leftover(t, ws), |ws|));
    IndicatorSum(lucky, |ws|);
    SumLinear(bases, extra, Split(t, ws), 1);
  }

  /**
   The parts sum exactly to the amount if and only if the leftover is a legitimate slice length.
   (A negative leftover makes the slice drop indices from the end, and adds units even so.)
   */
  lemma SumsExactlyIff(t: int, ws: seq<int>)
    requires t >= 0 && Weights(ws)
    ensures Sum(Split(t, ws)) == t <==> 0 <= Leftover(t, ws) <= |ws|
  {
    SplitSum(t, ws);
  }

  /** Under the bound the parts always sum exactly to the amount. */
  lemma SumsExactly(t: int, ws: seq<int>)
    requires FewDigits(t, ws)
    ensures 0 <= Leftover(t, ws) < |ws|
    ensures Sum(Split(t, ws)) == t
  {
    LeftoverInRange(t, ws);
    SplitSum(t, ws);
  }

  /** Beyond the bound they need not: one part of weight 2 comes back two smallest units too large. */
  lemma SumCanBreak()
    ensures var t := 7_000_000_000_000_000_000_000_000_003;
            Weights([2]) && Split(t, [2]) == [t + 2]
  {
    var t := 7_000_000_000_000_000_000_000_000_003;
    assert Sum([2]) == 2 by { assert [2][1..] == []; }
    assert RawShare(t, 2, 2) == Rat(t + 2, 1);
    var bases := Bases(t, [2], 2);
    assert bases == [t + 2];
    assert Sum(bases) == t + 2 by { assert bases[1..] == []; }
    assert Lucky(t, [2]) == {};
  }

  /** A lucky index never has a smaller exact remainder than an unlucky one. */
  lemma LargestRemaindersWin(t: int, ws: seq<int>, i: int, j: int)
    requires FewDigits(t, ws)
    requires i in Lucky(t, ws) && 0 <= j < |ws| && j !in Lucky(t, ws)
    ensures 0 <= i < |ws| && Rest(t, ws, i) >= Rest(t, ws, j)
  {
    hide Round28;
    var rems := Remainders(t, ws, Sum(ws));
    ChosenIsInitial(rems, SliceEnd(Leftover(t, ws), |ws|));
    if Rest(t, ws, j) > Rest(t, ws, i) {
      RemaindersKeepOrder(t, ws, j, i);
      LessAsymmetric(rems[i], rems[j]);
    }
  }

  lemma LessAsymmetric(a: Rat, b: Rat)
    ensures !(Less(a, b) && Less(b, a))
  {
  }

  /**
   Every part is the floor or the ceiling of its exact share: an exact share is returned as it is,
   and in particular a zero weight receives nothing.
   */
  lemma FloorOrCeiling(t: int, ws: seq<int>, i: int)
    requires FewDigits(t, ws) && 0 <= i < |ws|
    ensures Split(t, ws)[i] == Floor(t, ws, i) || Split(t, ws)[i] == Floor(t, ws, i) + 1
    ensures Rest(t, ws, i) == 0 ==> Split(t, ws)[i] == Floor(t, ws, i)
    ensures ws[i] == 0 ==> Split(t, ws)[i] == 0
  {
    BasesAreFloors(t, ws, i);
    if Rest(t, ws, i) == 0 && i in Lucky(t, ws) { ExactShareIsUnlucky(t, ws, i); }
    if ws[i] == 0 { assert t * ws[i] == 0; }
  }

  lemma ExactShareIsUnlucky(t: int, ws: seq<int>, i: int)
    requires FewDigits(t, ws) && 0 <= i < |ws|
    requires Rest(t, ws, i) == 0
    ensures i !in Lucky(t, ws)
  {
    hide Round28;
    if i in Lucky(t, ws) {
      var total, lucky := Sum(ws), Lucky(t, ws);
      var rests := Rests(t, ws);
      var extra := seq(|ws|, x => if x in lucky then 1 else 0);
      var scaled := seq(|ws|, x requires 0 <= x < |ws| => total * extra[x]);
      forall x | 0 <= x < |ws| ensures rests[x] <= scaled[x] {
        if x !in lucky { LargestRemaindersWin(t, ws, i, x); }
      }
      assert rests[i] < scaled[i];
      SumLe(rests, scaled);
      SumLinear(seq(|ws|, x => 0), extra, scaled, total);
      ZeroSum(|ws|);
      ChosenIsInitial(Remainders(t, ws, total), SliceEnd(Leftover(t, ws), |ws|));
      IndicatorSum(lucky, |ws|);
      RestsSum(t, ws);
      LeftoverInRange(t, ws);
    }
  }

  // ---------------------------------------------------------------- optimality


  /** Total deviation of a split from the exact shares, times the total weight. */
  ghost function Deviation(t: int, ws: seq<int>, parts: seq<int>): int
    requires |parts| == |ws|
  {
    Sum(seq(|ws|, i requires 0 <= i < |ws| => FixedPoint.Abs(Sum(ws) * parts[i] - t * ws[i])))
  }

  /**
   No integer split with the same total is closer to the exact proportional shares, however
   equal remainders are ordered.
   */
  lemma SplitIsOptimal(t: int, ws: seq<int>, other: seq<int>)
    requires FewDigits(t, ws)
    requires |other| == |ws| && Sum(other) == t
    ensures Deviation(t, ws, Split(t, ws)) <= Deviation(t, ws, other)
  {
    hide Round28, Order;
    var total, parts := Sum(ws), Split(t, ws);
    var theta := Threshold(t, ws);
    var slope := 2 * theta - total;
    var mine := seq(|ws|, i requires 0 <= i < |ws| => FixedPoint.Abs(total * parts[i] - t * ws[i]));
    var theirs := seq(|ws|, i requires 0 <= i < |ws| => FixedPoint.Abs(total * other[i] - t * ws[i]));
    var mineTilted := seq(|ws|, i requires 0 <= i < |ws| => mine[i] + slope * parts[i]);
    var theirsTilted := seq(|ws|, i requires 0 <= i < |ws| => theirs[i] + slope * other[i]);
    forall i | 0 <= i < |ws| ensures mineTilted[i] <= theirsTilted[i] {
      BasesAreFloors(t, ws, i);
      DivMod(t * ws[i], total);
      PartIsBest(total, Floor(t, ws, i), Rest(t, ws, i), theta, parts[i], other[i], t * ws[i]);
    }
    SumLe(mineTilted, theirsTilted);
    SumLinear(mine, parts, mineTilted, slope);
    SumLinear(theirs, other, theirsTilted, slope);
    SumsExactly(t, ws);
  }

  /** A remainder that separates lucky from unlucky indices. */
  lemma Threshold(t: int, ws: seq<int>) returns (theta: int)
    requires FewDigits(t, ws)
    ensures 0 <= theta <= Sum(ws)
    ensures forall i :: 0 <= i < |ws| && i in Lucky(t, ws) ==> Rest(t, ws, i) >= theta
    ensures forall i :: 0 <= i < |ws| && i !in Lucky(t, ws) ==> Rest(t, ws, i) <= theta
  {
    hide Lucky, RawShare, Order;
    theta := 0;
    var n := 0;
    while n < |ws|
      invariant 0 <= n <= |ws| && 0 <= theta <= Sum(ws)
      invariant forall i :: 0 <= i < n && i !in Lucky(t, ws) ==> Rest(t, ws, i) <= theta
      invariant theta == 0 || exists j :: 0 <= j < |ws| && j !in Lucky(t, ws) && Rest(t, ws, j) == theta
    {
      if n !in Lucky(t, ws) && Rest(t, ws, n) > theta { theta := Rest(t, ws, n); }
      n := n + 1;
    }
    forall i | 0 <= i < |ws| && i in Lucky(t, ws) ensures Rest(t, ws, i) >= theta {
      if theta != 0 {
        var j :| 0 <= j < |ws| && j !in Lucky(t, ws) && Rest(t, ws, j) == theta;
        LargestRemaindersWin(t, ws, i, j);
      }
    }
  }

  /**
   Deviation tilted by the threshold's slope is convex, with its minimum at the floor when the
   remainder is at most the threshold and at the ceiling when it is at least the threshold.
   */
  lemma PartIsBest(total: int, f: int, r: int, theta: int, x: int, y: int, a: int)
    requires total > 0 && 0 <= r < total && 0 <= theta <= total
    requires a == f * total + r
    requires (x == f && r <= theta) || (x == f + 1 && r >= theta)
    ensures FixedPoint.Abs(total * x - a) + (2 * theta - total) * x <= FixedPoint.Abs(total * y - a) + (2 * theta - total) * y
  {
    var z, slope := y - f, 2 * theta - total;
    assert total * y - a == total * z - r && total * f - a == -r && total * (f + 1) - a == total - r;
    assert slope * y == slope * f + slope * z && slope * (f + 1) == slope * f + slope;
    Tilted(total, r, theta, z);
  }

  /** The tilted deviation z steps away from the floor. */
  lemma Tilted(total: int, r: int, theta: int, z: int)
    requires total > 0 && 0 <= r < total && 0 <= theta <= total
    ensures z >= 1 ==> FixedPoint.Abs(total * z - r) + (2 * theta - total) * z >= 2 * theta - r
    ensures z <= 0 ==> FixedPoint.Abs(total * z - r) + (2 * theta - total) * z >= r
  {
    assert (2 * theta - total) * z == 2 * (theta * z) - total * z;
    if z >= 1 {
      MulMonotone(theta, 1, z);
      MulMonotone(total, 1, z);
    } else {
      MulMonotone(total, z, 0);
      MulMonotone(total - theta, z, 0);
      assert (total - theta) * z == total * z - theta * z;
    }
  }

  lemma MulMonotone(k: int, a: int, b: int)
    requires k >= 0 && a <= b
    ensures k * a <= k * b
  {
    assert k * (b - a) >= 0;
  }

  // ---------------------------------------------------------------- the documented tie-break

  /** The remainders of exact rational arithmetic. */
  ghost function ExactRemainders(t: int, ws: seq<int>): (r: seq<Rat>)
    requires Weights(ws)
    ensures |r| == |ws| && Positive(r)
  {
    seq(|ws|, i requires 0 <= i < |ws| => Rat(Rest(t, ws, i), Sum(ws)))
  }

  /** Who gets the extra units by the documentation: largest exact remainder, then smallest index. */
  ghost function Documented(t: int, ws: seq<int>): set<int>
    requires FewDigits(t, ws)
  {
    LeftoverInRange(t, ws);
    Chosen(ExactRemainders(t, ws), Leftover(t, ws))
  }

  /** Digit rounding reverses no exact tie between a documented winner and a documented loser. */
  ghost predicate NoTieReversed(t: int, ws: seq<int>)
    requires FewDigits(t, ws)
  {
    var rems := Remainders(t, ws, Sum(ws));
    forall i, j :: 0 <= i < |ws| && 0 <= j < |ws| && i in Documented(t, ws) && j !in Documented(t, ws)
      ==> Rest(t, ws, i) == Rest(t, ws, j) ==> !Less(rems[i], rems[j])
  }

  /** The code follows the documented index tie-break if and only if no such tie is reversed. */
  lemma TieBreakIff(t: int, ws: seq<int>)
    requires FewDigits(t, ws)
    ensures Lucky(t, ws) == Documented(t, ws) <==> NoTieReversed(t, ws)
  {
    hide RawShare, Round28, Order;
    LeftoverInRange(t, ws);
    ChosenIsInitial(ExactRemainders(t, ws), Leftover(t, ws));
    ChosenIsInitial(Remainders(t, ws, Sum(ws)), Leftover(t, ws));
    if NoTieReversed(t, ws) { TieBreakFollowed(t, ws); }
  }

  lemma TieBreakFollowed(t: int, ws: seq<int>)
    requires FewDigits(t, ws) && NoTieReversed(t, ws)
    ensures Lucky(t, ws) == Documented(t, ws)
  {
    var rems := Remainders(t, ws, Sum(ws));
    LeftoverInRange(t, ws);
    ChosenIsInitial(ExactRemainders(t, ws), Leftover(t, ws));
    ChosenIsInitial(rems, Leftover(t, ws));
    forall i, j | i in Documented(t, ws) && 0 <= j < |ws| && j !in Documented(t, ws)
      ensures Before(rems, i, j)
    {
      ExactOrder(t, ws, i, j);
      if Rest(t, ws, i) > Rest(t, ws, j) { RemaindersKeepOrder(t, ws, i, j); }
    }
    InitialIsUnique(rems, Documented(t, ws), Lucky(t, ws));
  }

  /** The order of exact remainders, read off the integers. */
  lemma ExactOrder(t: int, ws: seq<int>, i: int, j: int)
    requires Weights(ws) && 0 <= i < |ws| && 0 <= j < |ws|
    requires Before(ExactRemainders(t, ws), i, j)
    ensures Rest(t, ws, i) > Rest(t, ws, j) || (Rest(t, ws, i) == Rest(t, ws, j) && i < j)
  {
    MulLt(Rest(t, ws, i), Rest(t, ws, j), Sum(ws));
    MulLt(Rest(t, ws, j), Rest(t, ws, i), Sum(ws));
  }

  /** Equal weights are served in index order, whatever the digits do. */
  lemma EqualWeightsByIndex(t: int, ws: seq<int>, i: int, j: int)
    requires t >= 0 && Weights(ws) && 0 <= i < j < |ws| && ws[i] == ws[j]
    ensures Split(t, ws)[j] <= Split(t, ws)[i] <= Split(t, ws)[j] + 1
  {
    hide RawShare, Round28, Order;
    ChosenIsInitial(Remainders(t, ws, Sum(ws)), SliceEnd(Leftover(t, ws), |ws|));
  }

  /** The documented tie-break fails on 0.0002 split by [4, 1, 1]: index 1, not 0, gets the extra unit. */
  lemma TieBreakCanFail()
    ensures FewDigits(2, [4, 1, 1])
    ensures Split(2, [4, 1, 1]) == [1, 1, 0]
    ensures 0 in Documented(2, [4, 1, 1]) && 0 !in Lucky(2, [4, 1, 1])
  {
    hide RawShare, Round28, Order, Lucky, Documented;
    FourOneOne();
    IndexOneIsLucky();
    IndexZeroIsDocumented();
  }

  lemma IndexOneIsLucky()
    ensures FewDigits(2, [4, 1, 1]) && Lucky(2, [4, 1, 1]) == {1}
  {
    hide RawShare, Round28, Order;
    var ws := [4, 1, 1];
    FourOneOne();
    ThirdsDiffer();
    var rems := Remainders(2, ws, 6);
    assert rems[0] == Remainder(2, 4, 6) && rems[1] == Remainder(2, 1, 6) == rems[2];
    assert Before(rems, 1, 0) && Before(rems, 1, 2);
    ChosenIsInitial(rems, 1);
    InitialIsUnique(rems, Lucky(2, ws), {1});
  }

  lemma IndexZeroIsDocumented()
    ensures FewDigits(2, [4, 1, 1]) && Documented(2, [4, 1, 1]) == {0}
  {
    hide RawShare, Round28, Order;
    var ws := [4, 1, 1];
    FourOneOne();
    var exact := ExactRemainders(2, ws);
    assert exact == [Rat(2, 6), Rat(2, 6), Rat(2, 6)];
    assert Before(exact, 0, 1) && Before(exact, 0, 2);
    ChosenIsInitial(exact, 1);
    InitialIsUnique(exact, Documented(2, ws), {0});
  }

  lemma FourOneOne()
    ensures Sum([4, 1, 1]) == 6 && FewDigits(2, [4, 1, 1])
    ensures Bases(2, [4, 1, 1], 6) == [1, 0, 0] && Leftover(2, [4, 1, 1]) == 1
  {
    hide Round28;
    var ws := [4, 1, 1];
    assert Sum(ws) == 6 by { assert ws[1..] == [1, 1] && [1, 1][1..] == [1] && [1][1..] == []; }
    BasesAreFloors(2, ws, 0); BasesAreFloors(2, ws, 1); BasesAreFloors(2, ws, 2);
    var bases := Bases(2, ws, 6);
    assert bases == [1, 0, 0];
    assert Sum(bases) == 1 by { assert bases[1..] == [0, 0] && [0, 0][1..] == [0] && [0][1..] == []; }
  }

  /** 8/6 keeps 27 threes after the point and 2/6 keeps 28. */
  lemma ThirdsDiffer()
    ensures Less(Remainder(2, 4, 6), Remainder(2, 1, 6))
  {
    hide Round28;
    LongThird();
    LongerThird();
    Thirds(2, 4, 1, 6);
  }

  lemma Thirds(t: int, w: int, w': int, total: int)
    requires t == 2 && w == 4 && w' == 1 && total == 6
    requires var a := RawShare(t, w, total); E27(a.num) == 1_333_333_333_333_333_333_333_333_333 * a.den
    requires var b := RawShare(t, w', total); E28(b.num) == 3_333_333_333_333_333_333_333_333_333 * b.den
    ensures Less(Remainder(t, w, total), Remainder(t, w', total))
  {
    hide Round28;
    ShareApproximates(t, w, total);
    ShareApproximates(t, w', total);
    var a, b := RawShare(t, w, total), RawShare(t, w', total);
    CompareThirds(a.num - a.den, a.den, b.num, b.den);
  }

  lemma LongThird()
    ensures var a := RawShare(2, 4, 6); E27(a.num) == 1_333_333_333_333_333_333_333_333_333 * a.den
  {
    hide RawShare;
    ShareIsQuotient(2, 4, 6);
    Pow27();
    Round28ShiftBy(8, 6, 27);
    assert Round28(E27(8), 6) == Rat(1_333_333_333_333_333_333_333_333_333, 1);
  }

  lemma LongerThird()
    ensures var b := RawShare(2, 1, 6); E28(b.num) == 3_333_333_333_333_333_333_333_333_333 * b.den
  {
    hide RawShare;
    ShareIsQuotient(2, 1, 6);
    Pow27();
    Round28ShiftBy(2, 6, 28);
    assert Round28(E28(2), 6) == Rat(3_333_333_333_333_333_333_333_333_333, 1);
  }

  lemma CompareThirds(x: int, dx: int, y: int, dy: int)
    requires dx > 0 && dy > 0
    requires E27(x) == 333_333_333_333_333_333_333_333_333 * dx
    requires E28(y) == 3_333_333_333_333_333_333_333_333_333 * dy
    ensures x * dy < y * dx
  {
    var p := dx * dy;
    assert p > 0;
    assert E27(x * dy) == 333_333_333_333_333_333_333_333_333 * p by { assert E27(x) * dy == E27(x * dy); }
    assert E28(y * dx) == 3_333_333_333_333_333_333_333_333_333 * p by { assert E28(y) * dx == E28(y * dx); }
  }

  lemma Pow27()
    ensures Pow10(27) == E27(1) && Pow10(28) == E28(1)
  {
    assert Pow10(9) == 1_000_000_000;
    assert Pow10(18) == 1_000_000_000_000_000_000;
  }

  // ---------------------------------------------------------------- the whole operation

  /** For money, total weights up to a billion are always within the bound. */
  lemma MoneyBound(v: int, ws: seq<int>)
    requires FixedPoint.InRange(FixedPoint.Money, v)
    requires Weights(ws) && Sum(ws) <= 1_000_000_000
    ensures FewDigits(FixedPoint.Abs(v), ws)
  {
    ProductBound(FixedPoint.Abs(v), Sum(ws), 1_000_000_000);
  }

  /**
   Under the bound `allocate` succeeds: the parts carry the sign of the amount, sum exactly to it
   and have the magnitudes of the exact largest-remainder split.
   */
  lemma AllocateConserves(k: FixedPoint.Kind, v: int, ws: seq<int>)
    requires FixedPoint.InRange(k, v) && FewDigits(FixedPoint.Abs(v), ws)
    ensures var r := Allocated(k, v, ws);
            && r.Parts? && |r.values| == |ws| && Sum(r.values) == v
            && forall i :: 0 <= i < |ws| ==> r.values[i] == Sign(v) * Split(FixedPoint.Abs(v), ws)[i]
  {
    hide RawShare, Round28, Order, Split, FixedPoint.Construct;
    var t := FixedPoint.Abs(v);
    var units := Split(t, ws);
    SumsExactly(t, ws);
    PartsAreNonNegative(t, ws);
    forall i | 0 <= i < |units| ensures 0 <= units[i] < FixedPoint.Limit(k) { ElementAtMostSum(units, i); }
    ConstructedFits(k, units, Sign(v));
    SumSigned(units, Allocated(k, v, ws).values, Sign(v));
  }

  lemma PartsAreNonNegative(t: int, ws: seq<int>)
    requires FewDigits(t, ws)
    ensures forall i :: 0 <= i < |ws| ==> Split(t, ws)[i] >= 0
  {
    hide RawShare, Round28, Order;
    forall i | 0 <= i < |ws| ensures Split(t, ws)[i] >= 0 {
      BasesAreFloors(t, ws, i);
      FloorOrCeiling(t, ws, i);
    }
  }

  lemma {:induction false} SumSigned(a: seq<int>, b: seq<int>, k: int)
    requires |a| == |b| && forall i :: 0 <= i < |a| ==> b[i] == k * a[i]
    ensures Sum(b) == k * Sum(a)
  {
    ZeroSum(|a|);
    SumLinear(seq(|a|, i => 0), a, b, k);
  }

  lemma {:induction false} ConstructedFits(k: FixedPoint.Kind, units: seq<int>, sign: int)
    requires sign == 1 || sign == -1
    requires forall i :: 0 <= i < |units| ==> 0 <= units[i] < FixedPoint.Limit(k)
    ensures var r := Constructed(k, units, sign);
            r.Parts? && |r.values| == |units| && forall i :: 0 <= i < |units| ==> r.values[i] == sign * units[i]
  {
    if units != [] {
      PartStored(k, units[0], sign);
      ConstructedFits(k, units[1..], sign);
    }
  }

  lemma PartStored(k: FixedPoint.Kind, u: int, sign: int)
    requires sign == 1 || sign == -1
    requires 0 <= u < FixedPoint.Limit(k)
    ensures FixedPoint.Construct(k, Round28Signed(sign * u, FixedPoint.PerWhole(k))) == FixedPoint.Ok(sign * u)
  {
    FixedPoint.WholeIsExact(k, sign * u);
  }

  function Negated(r: Outcome): Outcome {
    if r.Parts? then Parts(seq(|r.values|, i requires 0 <= i < |r.values| => -r.values[i])) else r
  }

  /** Splitting -x gives the negated split of x, for every value and all weights. */
  lemma AllocateNegates(k: FixedPoint.Kind, v: int, ws: seq<int>)
    ensures Allocated(k, -v, ws) == Negated(Allocated(k, v, ws))
  {
    hide RawShare, Round28, Order, FixedPoint.Construct;
    if Allocated(k, v, ws).Parts? || Allocated(k, v, ws).BadPart? {
      var units := Split(FixedPoint.Abs(v), ws);
      if v == 0 { ZeroSplits(k, ws); }
      ConstructedNegates(k, units, Sign(v));
    }
  }

  lemma {:induction false} ConstructedNegates(k: FixedPoint.Kind, units: seq<int>, sign: int)
    ensures Constructed(k, units, -sign) == Negated(Constructed(k, units, sign))
  {
    hide Round28, FixedPoint.Construct;
    if units != [] {
      FixedPoint.Negate(sign, units[0]);
      FixedPoint.WholeIsExact(k, sign * units[0]);
      FixedPoint.WholeIsExact(k, -(sign * units[0]));
      ConstructedNegates(k, units[1..], sign);
    }
  }

  /** Zero splits into zeros. */
  lemma ZeroSplits(k: FixedPoint.Kind, ws: seq<int>)
    requires Weights(ws)
    ensures Constructed(k, Split(0, ws), 1) == Negated(Constructed(k, Split(0, ws), 1))
  {
    hide RawShare, Round28, Order, FixedPoint.Construct;
    assert FewDigits(0, ws);
    AllocateConserves(k, 0, ws);
    forall i | 0 <= i < |ws| ensures Split(0, ws)[i] == 0 {
      assert 0 * ws[i] == 0;
      FloorOrCeiling(0, ws, i);
    }
  }
}
