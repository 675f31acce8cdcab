/** Small facts about sets shared by the other modules. */
module Collections {

  /** Some element of a non-empty set. */
  lemma Element<T>(s: set<T>) returns (x: T)
    requires s != {}
    ensures x in s
  {
    x :| x in s;
  }

  lemma {:induction false} SubsetSize<T>(a: set<T>, b: set<T>)
    requires a <= b
    ensures |a| <= |b|
    ensures a != b ==> |a| < |b|
  {
    if a == {} {
      if b != {} { var y := Element(b); }
    } else {
      var x := Element(a);
      SubsetSize(a - {x}, b - {x});
      assert a == (a - {x}) + {x} && b == (b - {x}) + {x};
    }
  }

  /** Of two different sets of equal size, each has an element the other lacks. */
  lemma SameSizeDiffer<T>(a: set<T>, b: set<T>) returns (x: T, y: T)
    requires |a| == |b| && a != b
    ensures x in a && x !in b && y in b && y !in a
  {
    if a <= b { SubsetSize(a, b); }
    if b <= a { SubsetSize(b, a); }
    assert a <= (a - b) + b && b <= (b - a) + a;
    x := Element(a - b);
    y := Element(b - a);
  }

  /** A larger set has an element that a smaller one lacks. */
  lemma LargerHasMore<T>(a: set<T>, b: set<T>) returns (x: T)
    requires |a| > |b|
    ensures x in a && x !in b
  {
    if a <= b { SubsetSize(a, b); }
    assert a <= (a - b) + b;
    x := Element(a - b);
  }
}
