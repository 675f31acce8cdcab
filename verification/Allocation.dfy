/**
 `allocate`: splitting an amount into parts proportional to integer weights by the
 largest-remainder method, carried out in 28-digit decimals.
 */
module Allocation {
  import opened Sums
  import opened Collections
  import opened Rounding
  import FixedPoint

  // ---------------------------------------------------------------- rationals and sums

  predicate Less(a: Rat, b: Rat) { a.num * b.den < b.num * a.den }

  // ---------------------------------------------------------------- the order of remainders

  /** The sort key `(-remainder, index)`: larger remainder first, then smaller index. */
  predicate Before(rems: seq<Rat>, i: int, j: int)
    requires 0 <= i < |rems| && 0 <= j < |rems|
  {
    Less(rems[j], rems[i]) || (!Less(rems[i], rems[j]) && i < j)
  }

  ghost predicate Positive(rems: seq<Rat>) {
    forall i :: 0 <= i < |rems| ==> rems[i].den > 0
  }

  lemma LessTransitive(a: Rat, b: Rat, c: Rat)
    requires a.den > 0 && b.den > 0 && c.den > 0
    requires !Less(b, a) && !Less(c, b)
    ensures !Less(c, a)
    ensures Less(a, b) || Less(b, c) ==> Less(a, c)
  {
    CrossScale(a.num * b.den, b.num * a.den, c.den);
    CrossScale(b.num * c.den, c.num * b.den, a.den);
    Swap(a.num, b.den, c.den);
    Swap(b.num, a.den, c.den);
    Swap(c.num, b.den, a.den);
    MulLt(a.num * c.den, c.num * a.den, b.den);
  }

  lemma Swap(x: int, y: int, z: int)
    ensures (x * y) * z == (x * z) * y
  {
  }

  lemma CrossScale(x: int, y: int, k: int)
    requires x <= y && k > 0
    ensures x * k <= y * k
    ensures x < y ==> x * k < y * k
  {
    MulLt(x, y, k);
  }

  lemma BeforeTransitive(rems: seq<Rat>, i: int, j: int, k: int)
    requires Positive(rems)
    requires 0 <= i < |rems| && 0 <= j < |rems| && 0 <= k < |rems|
    requires Before(rems, i, j) && Before(rems, j, k)
    ensures Before(rems, i, k)
  {
    LessTransitive(rems[k], rems[j], rems[i]);
  }

  lemma Asymmetric(rems: seq<Rat>, i: int, j: int)
    requires 0 <= i < |rems| && 0 <= j < |rems|
    ensures !(Before(rems, i, j) && Before(rems, j, i))
  {
  }

  ghost predicate IndicesBelow(s: seq<int>, n: int) {
    forall x :: 0 <= x < |s| ==> 0 <= s[x] < n
  }

  ghost predicate SortedBefore(rems: seq<Rat>, s: seq<int>)
    requires IndicesBelow(s, |rems|)
  {
    forall x, y :: 0 <= x < y < |s| ==> Before(rems, s[x], s[y])
  }

  /** Insert index i into a sorted sequence of smaller indices. */
  function Insert(rems: seq<Rat>, s: seq<int>, i: int): (r: seq<int>)
    requires Positive(rems) && 0 <= i < |rems|
    requires IndicesBelow(s, i)
    requires SortedBefore(rems, s)
    ensures |r| == |s| + 1
    ensures IndicesBelow(r, i + 1) && SortedBefore(rems, r)
    ensures forall x :: x in r <==> x in s || x == i
  {
    if s == [] then [i]
    else if Before(rems, i, s[0]) then
      assert forall y :: 0 < y < |s| ==> Before(rems, i, s[y]) by {
        forall y | 0 < y < |s| ensures Before(rems, i, s[y]) { BeforeTransitive(rems, i, s[0], s[y]); }
      }
      [i] + s
    else
      var rest := Insert(rems, s[1..], i);
      assert s == [s[0]] + s[1..];
      assert forall x :: 0 <= x < |rest| ==> Before(rems, s[0], rest[x]) by {
        forall x | 0 <= x < |rest| ensures Before(rems, s[0], rest[x]) {
          assert rest[x] in s[1..] || rest[x] == i;
        }
      }
      [s[0]] + rest
  }

  /** `sorted(range(n), key=...)`: the indices below n in remainder order. */
  function Order(rems: seq<Rat>, n: nat): (r: seq<int>)
    requires Positive(rems) && n <= |rems|
    ensures |r| == n
    ensures IndicesBelow(r, n) && SortedBefore(rems, r)
    ensures forall x :: x in r <==> 0 <= x < n
  {
    if n == 0 then [] else Insert(rems, Order(rems, n - 1), n - 1)
  }

  /** How many elements Python's slice `s[:k]` of a sequence of n elements keeps. */
  function SliceEnd(k: int, n: nat): (e: nat)
    ensures e <= n
  {
    if k >= 0 then (if k <= n then k else n) else if n + k >= 0 then n + k else 0
  }

  /** The set of indices that receive one extra smallest unit. */
  function Chosen(rems: seq<Rat>, count: nat): set<int>
    requires Positive(rems) && count <= |rems|
  {
    set x | x in Order(rems, |rems|)[..count]
  }

  /** Every chosen index precedes every index that is not chosen, and exactly `count` are chosen. */
  lemma ChosenIsInitial(rems: seq<Rat>, count: nat)
    requires Positive(rems) && count <= |rems|
    ensures |Chosen(rems, count)| == count
    ensures forall i :: i in Chosen(rems, count) ==> 0 <= i < |rems|
    ensures forall i, j :: i in Chosen(rems, count) && 0 <= j < |rems| && j !in Chosen(rems, count)
              ==> Before(rems, i, j)
  {
    var order := Order(rems, |rems|);
    DistinctSize(rems, order[..count]);
    assert forall y :: 0 <= y < count ==> order[y] in order[..count];
    forall i, j | i in Chosen(rems, count) && 0 <= j < |rems| && j !in Chosen(rems, count)
      ensures Before(rems, i, j)
    {
      var x :| 0 <= x < count && order[x] == i;
      assert j in order;
      var y :| 0 <= y < |order| && order[y] == j;
    }
  }

  lemma {:induction false} DistinctSize(rems: seq<Rat>, s: seq<int>)
    requires Positive(rems) && IndicesBelow(s, |rems|) && SortedBefore(rems, s)
    ensures |set x | x in s| == |s|
  {
    if s != [] {
      var t := s[..|s| - 1];
      var last := s[|s| - 1];
      DistinctSize(rems, t);
      assert (set x | x in s) == (set x | x in t) + {last};
      assert last !in t;
    }
  }

  /** A set of the same size that is also an initial segment of the order is the same set. */
  lemma InitialIsUnique(rems: seq<Rat>, a: set<int>, b: set<int>)
    requires forall i :: i in a || i in b ==> 0 <= i < |rems|
    requires |a| == |b|
    requires forall i, j :: i in a && 0 <= j < |rems| && j !in a ==> Before(rems, i, j)
    requires forall i, j :: i in b && 0 <= j < |rems| && j !in b ==> Before(rems, i, j)
    ensures a == b
  {
    if a != b {
      var i, j := SameSizeDiffer(a, b);
      Asymmetric(rems, i, j);
    }
  }

  // ---------------------------------------------------------------- shares

  ghost predicate Weights(ws: seq<int>) {
    && ws != []
    && (forall i :: 0 <= i < |ws| ==> ws[i] >= 0)
    && Sum(ws) > 0
  }

  /** `Decimal(t) * Decimal(w) / Decimal(total)`: both operations round to 28 digits. */
  function RawShare(t: int, w: int, total: int): (r: Rat)
    requires t >= 0 && w >= 0 && total > 0
    ensures r.num >= 0 && r.den > 0
  {
    assert t * w >= 0;
    var product := Round28(t * w, 1);
    Round28(product.num, product.den * total)
  }

  function Base(t: int, w: int, total: int): int
    requires t >= 0 && w >= 0 && total > 0
  {
    var raw := RawShare(t, w, total);
    raw.num / raw.den
  }

  function Remainder(t: int, w: int, total: int): (r: Rat)
    requires t >= 0 && w >= 0 && total > 0
    ensures r.den > 0
  {
    var raw := RawShare(t, w, total);
    Rat(raw.num - Base(t, w, total) * raw.den, raw.den)
  }

  function Bases(t: int, ws: seq<int>, total: int): (r: seq<int>)
    requires t >= 0 && total > 0 && forall i :: 0 <= i < |ws| ==> ws[i] >= 0
    ensures |r| == |ws|
  {
    seq(|ws|, i requires 0 <= i < |ws| => Base(t, ws[i], total))
  }

  function Remainders(t: int, ws: seq<int>, total: int): (r: seq<Rat>)
    requires t >= 0 && total > 0 && forall i :: 0 <= i < |ws| ==> ws[i] >= 0
    ensures |r| == |ws| && Positive(r)
  {
    seq(|ws|, i requires 0 <= i < |ws| => Remainder(t, ws[i], total))
  }

  /** The smallest units left after every share is rounded down. */
  function Leftover(t: int, ws: seq<int>): int
    requires t >= 0 && Weights(ws)
  {
    t - Sum(Bases(t, ws, Sum(ws)))
  }

  /** The indices that `order[:leftover]` names. */
  function Lucky(t: int, ws: seq<int>): set<int>
    requires t >= 0 && Weights(ws)
  {
    Chosen(Remainders(t, ws, Sum(ws)), SliceEnd(Leftover(t, ws), |ws|))
  }

  /** The parts, in smallest units, before the sign is put back. */
  function Split(t: int, ws: seq<int>): (r: seq<int>)
    requires t >= 0 && Weights(ws)
    ensures |r| == |ws|
  {
    var bases := Bases(t, ws, Sum(ws));
    var lucky := Lucky(t, ws);
    seq(|ws|, i requires 0 <= i < |ws| => bases[i] + if i in lucky then 1 else 0)
  }

  // ---------------------------------------------------------------- the whole operation

  datatype Outcome =
    | Parts(values: seq<int>)
    | NoWeights
    | NegativeWeight
    | NoPositiveWeight
    | BadPart(error: FixedPoint.Error)

  /** Put the sign back and construct the parts in order; the first refused part is the error. */
  function Constructed(k: FixedPoint.Kind, units: seq<int>, sign: int): (r: Outcome)
    ensures r.Parts? || r.BadPart?
  {
    if units == [] then Parts([])
    else
      var first := FixedPoint.Construct(k, Round28Signed(sign * units[0], FixedPoint.PerWhole(k)));
      if first.Err? then BadPart(first.error)
      else
        var rest := Constructed(k, units[1..], sign);
        if rest.Parts? then Parts([first.value] + rest.values) else rest
  }

  function Sign(v: int): int { if v < 0 then -1 else 1 }

  /** `allocate` on a value of v smallest units of kind k. */
  function Allocated(k: FixedPoint.Kind, v: int, ws: seq<int>): Outcome {
    if ws == [] then NoWeights
    else if exists i :: 0 <= i < |ws| && ws[i] < 0 then NegativeWeight
    else if Sum(ws) <= 0 then NoPositiveWeight
    else Constructed(k, Split(FixedPoint.Abs(v), ws), Sign(v))
  }

  /** `sum(weights)`, with the check that none is negative. */
  method TotalWeight(ws: seq<int>) returns (total: int, negative: bool)
    ensures negative <==> exists i :: 0 <= i < |ws| && ws[i] < 0
    ensures !negative ==> total == Sum(ws)
  {
    total, negative := 0, false;
    for i := 0 to |ws|
      invariant total == Sum(ws[..i])
      invariant negative <==> exists x :: 0 <= x < i && ws[x] < 0
    {
      if ws[i] < 0 { negative := true; }
      total := total + ws[i];
      assert ws[..i + 1] == ws[..i] + [ws[i]];
      SumAppend(ws[..i], ws[i]);
    }
    assert ws[..|ws|] == ws;
  }

  /** The rounded-down shares, their remainders, and what is left over. */
  method Shares(t: int, ws: seq<int>, total: int) returns (bases: seq<int>, rems: seq<Rat>, leftover: int)
    requires t >= 0 && total > 0 && forall i :: 0 <= i < |ws| ==> ws[i] >= 0
    ensures bases == Bases(t, ws, total) && rems == Remainders(t, ws, total)
    ensures leftover == t - Sum(bases)
  {
    bases, rems, leftover := [], [], t;
    for i := 0 to |ws|
      invariant bases == Bases(t, ws, total)[..i]
      invariant rems == Remainders(t, ws, total)[..i]
      invariant leftover == t - Sum(bases)
    {
      var raw := RawShare(t, ws[i], total);
      var base := raw.num / raw.den;
      SumAppend(bases, base);
      bases := bases + [base];
      rems := rems + [Rat(raw.num - base * raw.den, raw.den)];
      leftover := leftover - base;
    }
  }

  /** One more smallest unit for each index in `order`. */
  method Increment(bases: seq<int>, order: seq<int>) returns (units: seq<int>)
    requires forall i :: 0 <= i < |order| ==> 0 <= order[i] < |bases| && order[i] !in order[..i]
    ensures |units| == |bases|
    ensures forall x :: 0 <= x < |bases| ==> units[x] == bases[x] + if x in order then 1 else 0
  {
    units := bases;
    for i := 0 to |order|
      invariant |units| == |bases|
      invariant forall x :: 0 <= x < |bases| ==> units[x] == bases[x] + if x in order[..i] then 1 else 0
    {
      units := units[order[i] := units[order[i]] + 1];
      assert order[..i + 1] == order[..i] + [order[i]];
    }
    assert order[..|order|] == order;
  }

  /** The errors about weights: none at all, a negative one, or only zeros. */
  lemma WeightErrorsIff(k: FixedPoint.Kind, v: int, ws: seq<int>)
    ensures var r := Allocated(k, v, ws);
            && (r.NoWeights? <==> ws == [])
            && (r.NegativeWeight? <==> exists i :: 0 <= i < |ws| && ws[i] < 0)
            && (r.NoPositiveWeight? <==> ws != [] && forall i :: 0 <= i < |ws| ==> ws[i] == 0)
  {
    hide Split, Constructed, Sum;
    if forall i :: 0 <= i < |ws| ==> ws[i] >= 0 {
      if Sum(ws) <= 0 {
        forall i | 0 <= i < |ws| ensures ws[i] == 0 { ElementAtMostSum(ws, i); }
      } else if forall i :: 0 <= i < |ws| ==> ws[i] == 0 {
        SumZero(ws);
      }
    }
  }

  /** The body of `allocate`: lists of shares, the leftover, and one increment per lucky index. */
  method Allocate(k: FixedPoint.Kind, v: int, ws: seq<int>) returns (r: Outcome)
    ensures r == Allocated(k, v, ws)
  {
    hide RawShare, Base, Remainder, Order, Constructed, Sum;
    if ws == [] { return NoWeights; }
    var total, negative := TotalWeight(ws);
    if negative { return NegativeWeight; }
    if total <= 0 { return NoPositiveWeight; }
    var t := FixedPoint.Abs(v);
    var bases, rems, leftover := Shares(t, ws, total);
    var count := SliceEnd(leftover, |ws|);
    DistinctPrefix(rems, count);
    var units := Increment(bases, Order(rems, |rems|)[..count]);
    assert units == Split(t, ws);
    r := Constructed(k, units, Sign(v));
  }

  /** No index occurs twice in the order. */
  lemma DistinctPrefix(rems: seq<Rat>, count: nat)
    requires Positive(rems) && count <= |rems|
    ensures var s := Order(rems, |rems|)[..count];
            forall i :: 0 <= i < |s| ==> 0 <= s[i] < |rems| && s[i] !in s[..i]
  {
    var s := Order(rems, |rems|)[..count];
    forall i, x | 0 <= x < i < |s| ensures s[x] != s[i] { assert Before(rems, s[x], s[i]); }
  }
}
