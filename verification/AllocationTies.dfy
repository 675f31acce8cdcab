/**
 The index tie-break of `allocate`, decided before the call: a stored remainder is the exact one,
 rounded to as many places as its share leaves of 28 digits.
 */
module AllocationTies {
  import opened Sums
  import opened Rounding
  import opened Allocation
  import opened AllocationProofs
  import opened IntegerQuotients

  /** Decimal places a share of n/total keeps, none for a zero share. */
  function Places(n: int, total: int): nat
    requires n >= 0 && total > 0
  {
    if n == 0 then 0 else Shifts(n, total)
  }

  /** The rounded numerator of a remainder of `rest`/total at that many places. */
  ghost function Rounded(rest: int, total: int, places: nat): int
    requires total > 0
  {
    HalfEven(rest * Pow10(places), total)
  }

  lemma ProductSum(q: int, h: int, d: int)
    ensures (q + h) * d == q * d + h * d
  {
  }

  lemma EvenPlus(q: int, h: int)
    requires q % 2 == 0
    ensures (q + h) % 2 == h % 2
  {
  }

  /** An even whole part passes through half-even rounding. */
  lemma WholePartPasses(x: int, q: int, d: int)
    requires d > 0 && q % 2 == 0
    ensures HalfEven(q * d + x, d) == q + HalfEven(x, d)
  {
    hide HalfEven;
    var h := HalfEven(x, d);
    ProductSum(q, h, d);
    EvenPlus(q, h);
    HalfEvenUnique(q + h, HalfEven(q * d + x, d), q * d + x, d);
  }

  lemma WholeTimesTen(f: int, k: nat)
    requires k > 0
    ensures (f * Pow10(k)) % 2 == 0
  {
    EvenIs(f * Pow10(k), 5 * (f * Pow10(k - 1)));
  }

  lemma SomePlaces(n: int, total: int)
    requires 0 < n < E27(1) && total > 0
    ensures n < E28(total) && Shifts(n, total) > 0
  {
    MulLt(n, E27(1), total);
    assert n <= n * total;
  }

  lemma ZeroShare(total: int)
    requires total > 0
    ensures Round28(0, total) == Rat(0, 1) && HalfEven(0 * Pow10(0), total) == 0
  {
  }

  lemma SplitProduct(f: int, total: int, rest: int, p: int)
    ensures (f * total + rest) * p == (f * p) * total + rest * p
  {
  }

  /** Subtracting the whole part of a share of at most 28 digits leaves the rounded remainder. */
  lemma RemainderIs(t: int, w: int, total: int)
    requires t >= 0 && w >= 0 && total > 0 && 0 <= t * w < E27(1)
    ensures var k, rest := Places(t * w, total), t * w % total;
            Remainder(t, w, total) == Rat(Rounded(rest, total, k), Pow10(k))
  {
    hide Round28, HalfEven, RawShare;
    var n := t * w;
    var f, rest := n / total, n % total;
    ShareIsQuotient(t, w, total);
    ShareApproximates(t, w, total);
    if n == 0 {
      ZeroShare(total);
    } else {
      SomePlaces(n, total);
      Round28Is(n, total);
      var k := Shifts(n, total);
      DivMod(n, total);
      SplitProduct(f, total, rest, Pow10(k));
      WholeTimesTen(f, k);
      WholePartPasses(rest * Pow10(k), f * Pow10(k), total);
    }
  }

  /**
   Digit rounding puts the tied j before i: with the same exact remainder, the rounding at j's places
   is the larger one.
   */
  ghost predicate Reversed(t: int, ws: seq<int>, i: int, j: int)
    requires FewDigits(t, ws) && 0 <= i < |ws| && 0 <= j < |ws|
  {
    BasesAreFloors(t, ws, i);
    BasesAreFloors(t, ws, j);
    var total, rest := Sum(ws), Rest(t, ws, i);
    var x, y := Places(t * ws[i], total), Places(t * ws[j], total);
    rest == Rest(t, ws, j) && Rounded(rest, total, x) * Pow10(y) < Rounded(rest, total, y) * Pow10(x)
  }

  /** That is when the stored remainders are the other way round. */
  lemma ReversedIff(t: int, ws: seq<int>, i: int, j: int)
    requires FewDigits(t, ws) && 0 <= i < |ws| && 0 <= j < |ws| && Rest(t, ws, i) == Rest(t, ws, j)
    ensures var rems := Remainders(t, ws, Sum(ws)); Less(rems[i], rems[j]) <==> Reversed(t, ws, i, j)
  {
    hide Round28, HalfEven, RawShare, Places, Rounded;
    BasesAreFloors(t, ws, i);
    BasesAreFloors(t, ws, j);
    RemainderIs(t, ws[i], Sum(ws));
    RemainderIs(t, ws[j], Sum(ws));
  }

  /** The code follows the documented index tie-break if and only if no documented winner is reversed with a documented loser. */
  lemma TieBreakIffDigits(t: int, ws: seq<int>)
    requires FewDigits(t, ws)
    ensures Lucky(t, ws) == Documented(t, ws)
            <==> forall i, j :: 0 <= i < |ws| && 0 <= j < |ws| && i in Documented(t, ws) && j !in Documented(t, ws) ==> !Reversed(t, ws, i, j)
  {
    hide Lucky, Documented, Reversed, Remainders, Less;
    TieBreakIff(t, ws);
    forall i, j | 0 <= i < |ws| && 0 <= j < |ws| && Rest(t, ws, i) == Rest(t, ws, j)
      ensures Less(Remainders(t, ws, Sum(ws))[i], Remainders(t, ws, Sum(ws))[j]) <==> Reversed(t, ws, i, j)
    {
      ReversedIff(t, ws, i, j);
    }
    forall i, j | 0 <= i < |ws| && 0 <= j < |ws| && Reversed(t, ws, i, j) ensures Rest(t, ws, i) == Rest(t, ws, j) { ReversedTies(t, ws, i, j); }
  }

  lemma ReversedTies(t: int, ws: seq<int>, i: int, j: int)
    requires FewDigits(t, ws) && 0 <= i < |ws| && 0 <= j < |ws| && Reversed(t, ws, i, j)
    ensures Rest(t, ws, i) == Rest(t, ws, j)
  {
  }
}
