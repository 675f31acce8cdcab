/** `ORDER BY` and `sorted`: stable insertion sort under a weak order. */
module Sorting {

  /** Asymmetric, and incomparability is transitive: rows may tie. */
  ghost predicate WeakOrder<T(!new)>(lt: (T, T) -> bool) {
    && (forall a, b :: lt(a, b) ==> !lt(b, a))
    && (forall a, b, c :: !lt(a, b) && !lt(b, c) ==> !lt(a, c))
  }

  ghost predicate Sorted<T>(lt: (T, T) -> bool, s: seq<T>) {
    forall i, j :: 0 <= i < j < |s| ==> !lt(s[j], s[i])
  }

  function Insert<T(!new)>(lt: (T, T) -> bool, s: seq<T>, x: T): (r: seq<T>)
    requires WeakOrder(lt) && Sorted(lt, s)
    ensures Sorted(lt, r)
    ensures multiset(r) == multiset(s) + multiset{x} && |r| == |s| + 1
    ensures forall y :: y in r <==> y in s || y == x
  {
    if s == [] then [x]
    else if lt(x, s[0]) then
      assert Sorted(lt, [x] + s) by { InsertFirst(lt, s, x); }
      assert forall y :: y in [x] + s <==> y in s || y == x;
      [x] + s
    else
      var rest := Insert(lt, s[1..], x);
      assert s == [s[0]] + s[1..];
      assert Sorted(lt, [s[0]] + rest) by { KeepFirst(lt, s, x, rest); }
      [s[0]] + rest
  }

  lemma InsertFirst<T(!new)>(lt: (T, T) -> bool, s: seq<T>, x: T)
    requires WeakOrder(lt) && Sorted(lt, s) && s != [] && lt(x, s[0])
    ensures Sorted(lt, [x] + s)
  {
    forall j | 0 <= j < |s| ensures !lt(s[j], x) {
      assert j > 0 ==> !lt(s[j], s[0]);
      assert !lt(s[0], x);
    }
  }

  lemma KeepFirst<T(!new)>(lt: (T, T) -> bool, s: seq<T>, x: T, rest: seq<T>)
    requires WeakOrder(lt) && Sorted(lt, s) && s != [] && !lt(x, s[0]) && Sorted(lt, rest)
    requires forall y :: y in rest <==> y in s[1..] || y == x
    ensures Sorted(lt, [s[0]] + rest)
  {
    forall j | 0 <= j < |rest| ensures !lt(rest[j], s[0]) {
      if rest[j] != x {
        assert rest[j] in s[1..];
        var i :| 0 <= i < |s[1..]| && s[1..][i] == rest[j];
        assert s[i + 1] == rest[j];
      }
    }
  }

  function Sort<T(!new)>(lt: (T, T) -> bool, s: seq<T>): (r: seq<T>)
    requires WeakOrder(lt)
    ensures Sorted(lt, r)
    ensures multiset(r) == multiset(s)
    ensures |r| == |s|
    ensures forall y :: y in r <==> y in s
  {
    if s == [] then []
    else
      hide Insert, Sorted, WeakOrder;
      assert s == [s[0]] + s[1..];
      Insert(lt, Sort(lt, s[1..]), s[0])
  }
}
