/** Python 2's `sorted(xs, cmp=c, key=k)`: a stable sort driven by a three-way
    comparator (`k` is folded into the comparator by the callers). Sorting is
    modelled as insertion sort; whenever the comparator is a total preorder on
    the elements, every stable sort (CPython's included) yields the same list,
    which `SortedStableUnique` proves. */
module Sorting {

  /** `cmp` is a total preorder on the elements of `u`: the sign of a
      comparison flips with its arguments and "not greater" is transitive. */
  ghost predicate TotalPreorderOn<T>(cmp: (T, T) -> int, u: seq<T>) {
    && (forall x, y | x in u && y in u :: cmp(x, y) < 0 <==> cmp(y, x) > 0)
    && (forall x, y, z | x in u && y in u && z in u :: cmp(x, y) <= 0 && cmp(y, z) <= 0 ==> cmp(x, z) <= 0)
  }

  lemma Transitive<T>(cmp: (T, T) -> int, u: seq<T>, x: T, y: T, z: T)
    requires TotalPreorderOn(cmp, u) && x in u && y in u && z in u
    requires cmp(x, y) <= 0 && cmp(y, z) <= 0
    ensures cmp(x, z) <= 0
  {
  }

  lemma Flip<T>(cmp: (T, T) -> int, u: seq<T>, x: T, y: T)
    requires TotalPreorderOn(cmp, u) && x in u && y in u
    ensures cmp(x, y) < 0 <==> cmp(y, x) > 0
    ensures cmp(x, y) == 0 <==> cmp(y, x) == 0
  {
    assert cmp(y, x) < 0 <==> cmp(x, y) > 0;
  }

  lemma StrictThenWeak<T>(cmp: (T, T) -> int, u: seq<T>, x: T, y: T, z: T)
    requires TotalPreorderOn(cmp, u) && x in u && y in u && z in u
    requires cmp(x, y) < 0 && cmp(y, z) <= 0
    ensures cmp(x, z) < 0
  {
    if cmp(x, z) >= 0 {
      Flip(cmp, u, x, z);
      Transitive(cmp, u, y, z, x);
      Flip(cmp, u, x, y);
    }
  }

  /** Nothing strictly above `x` can be tied with something tied with `x`. */
  lemma AboveNotTied<T>(cmp: (T, T) -> int, u: seq<T>, x: T, y: T, e: T)
    requires TotalPreorderOn(cmp, u) && x in u && y in u && e in u
    requires cmp(x, y) < 0 && cmp(x, e) == 0
    ensures cmp(y, e) != 0
  {
    if cmp(y, e) == 0 {
      Flip(cmp, u, x, e);
      Transitive(cmp, u, y, e, x);
      Flip(cmp, u, x, y);
    }
  }

  /** Python 2's built-in `cmp` on integers. */
  function CmpInt(a: int, b: int): (r: int)
    ensures r < 0 <==> a < b
    ensures r > 0 <==> a > b
    ensures -1 <= r <= 1
  {
    if a < b then -1 else if a > b then 1 else 0
  }

  ghost predicate SortedBy<T>(cmp: (T, T) -> int, s: seq<T>) {
    forall i, j | 0 <= i < j < |s| :: cmp(s[i], s[j]) <= 0
  }

  /** Inserts `x` after every element that is not greater than it. */
  function Insert<T>(x: T, s: seq<T>, cmp: (T, T) -> int): (r: seq<T>)
    ensures multiset(r) == multiset(s) + multiset{x}
    ensures |r| == |s| + 1
  {
    if |s| == 0 then [x]
    else if cmp(x, s[0]) < 0 then [x] + s
    else
      assert s == [s[0]] + s[1..];
      [s[0]] + Insert(x, s[1..], cmp)
  }

  /** Stable sort: elements are inserted in their original order. */
  function SortBy<T>(s: seq<T>, cmp: (T, T) -> int): (r: seq<T>)
    ensures multiset(r) == multiset(s)
    ensures |r| == |s|
  {
    if |s| == 0 then []
    else
      assert s == s[..|s| - 1] + [s[|s| - 1]];
      Insert(s[|s| - 1], SortBy(s[..|s| - 1], cmp), cmp)
  }

  /** The elements of `s` that compare equal to `e`, in their order in `s`. */
  function Tied<T>(s: seq<T>, cmp: (T, T) -> int, e: T): (r: seq<T>)
    ensures |r| <= |s|
  {
    if |s| == 0 then []
    else (if cmp(s[0], e) == 0 then [s[0]] else []) + Tied(s[1..], cmp, e)
  }

  lemma {:induction false} TiedConcat<T>(a: seq<T>, b: seq<T>, cmp: (T, T) -> int, e: T)
    ensures Tied(a + b, cmp, e) == Tied(a, cmp, e) + Tied(b, cmp, e)
  {
    if |a| == 0 {
      assert a + b == b;
    } else {
      var ab := a + b;
      var head := if cmp(a[0], e) == 0 then [a[0]] else [];
      assert ab[0] == a[0];
      assert ab[1..] == a[1..] + b;
      TiedConcat(a[1..], b, cmp, e);
      assert Tied(ab, cmp, e) == head + (Tied(a[1..], cmp, e) + Tied(b, cmp, e));
      assert Tied(a, cmp, e) == head + Tied(a[1..], cmp, e);
    }
  }

  lemma {:induction false} TiedNone<T>(s: seq<T>, cmp: (T, T) -> int, e: T)
    requires forall y | y in s :: cmp(y, e) != 0
    ensures Tied(s, cmp, e) == []
  {
    if |s| > 0 {
      TiedNone(s[1..], cmp, e);
    }
  }

  lemma ElementOfInsert<T>(x: T, s: seq<T>, cmp: (T, T) -> int, y: T)
    requires y in Insert(x, s, cmp)
    ensures y == x || y in s
  {
    assert y in multiset(Insert(x, s, cmp));
  }

  lemma {:induction false} InsertSorted<T>(x: T, s: seq<T>, cmp: (T, T) -> int, u: seq<T>)
    requires TotalPreorderOn(cmp, u)
    requires x in u && forall y | y in s :: y in u
    requires SortedBy(cmp, s)
    ensures SortedBy(cmp, Insert(x, s, cmp))
  {
    if |s| > 0 {
      if cmp(x, s[0]) < 0 {
        forall j | 0 <= j < |s|
          ensures cmp(x, s[j]) <= 0
        {
          assert s[0] in u && s[j] in u;
          Transitive(cmp, u, x, s[0], s[j]);
        }
        SortedCons(x, s, cmp);
      } else {
        SortedTail(cmp, s);
        TailWithin(s, u);
        InsertSorted(x, s[1..], cmp, u);
        HeadBelowInsert(x, s, cmp, u);
        SortedCons(s[0], Insert(x, s[1..], cmp), cmp);
      }
    }
  }

  /** A sorted list stays sorted under a new head not above any element. */
  lemma SortedCons<T>(x: T, s: seq<T>, cmp: (T, T) -> int)
    requires SortedBy(cmp, s)
    requires forall j | 0 <= j < |s| :: cmp(x, s[j]) <= 0
    ensures SortedBy(cmp, [x] + s)
  {
    var r := [x] + s;
    forall i, j | 0 <= i < j < |r| ensures cmp(r[i], r[j]) <= 0 {
      assert r[j] == s[j - 1];
      if i > 0 {
        assert r[i] == s[i - 1];
      }
    }
  }

  /** When `x` goes behind the head, the head is below everything after it. */
  lemma HeadBelowInsert<T>(x: T, s: seq<T>, cmp: (T, T) -> int, u: seq<T>)
    requires TotalPreorderOn(cmp, u)
    requires x in u && forall y | y in s :: y in u
    requires SortedBy(cmp, s)
    requires |s| > 0 && cmp(x, s[0]) >= 0
    ensures Insert(x, s, cmp) == [s[0]] + Insert(x, s[1..], cmp)
    ensures forall k | 0 <= k < |Insert(x, s[1..], cmp)| :: cmp(s[0], Insert(x, s[1..], cmp)[k]) <= 0
  {
    assert s[0] in u;
    Flip(cmp, u, x, s[0]);
    var rest := Insert(x, s[1..], cmp);
    forall k | 0 <= k < |rest|
      ensures cmp(s[0], rest[k]) <= 0
    {
      ElementOfInsert(x, s[1..], cmp, rest[k]);
      if rest[k] != x {
        var j :| 0 <= j < |s[1..]| && s[1..][j] == rest[k];
        assert s[j + 1] == rest[k];
      }
    }
  }

  lemma {:induction false} SortBySortedIn<T>(s: seq<T>, cmp: (T, T) -> int, u: seq<T>)
    requires TotalPreorderOn(cmp, u)
    requires forall y | y in s :: y in u
    ensures SortedBy(cmp, SortBy(s, cmp))
  {
    if |s| > 0 {
      var init := s[..|s| - 1];
      SortBySortedIn(init, cmp, u);
      SortByWithin(init, cmp, u);
      InsertSorted(s[|s| - 1], SortBy(init, cmp), cmp, u);
    }
  }

  /** The result of `SortBy` is ordered whenever the comparator is consistent
      on the input. */
  lemma SortBySorted<T>(s: seq<T>, cmp: (T, T) -> int)
    requires TotalPreorderOn(cmp, s)
    ensures SortedBy(cmp, SortBy(s, cmp))
  {
    SortBySortedIn(s, cmp, s);
  }

  lemma TiedSingle<T>(x: T, cmp: (T, T) -> int, e: T)
    ensures Tied([x], cmp, e) == if cmp(x, e) == 0 then [x] else []
  {
    assert [x][1..] == [];
  }

  /** `x` goes in front of `s`: any element tied with `x` would have to be
      below it, and none is. */
  lemma InsertTiedFront<T>(x: T, s: seq<T>, cmp: (T, T) -> int, e: T, u: seq<T>)
    requires TotalPreorderOn(cmp, u)
    requires x in u && e in u && forall y | y in s :: y in u
    requires SortedBy(cmp, s)
    requires |s| > 0 && cmp(x, s[0]) < 0
    ensures Tied([x] + s, cmp, e) == Tied(s, cmp, e) + Tied([x], cmp, e)
  {
    TiedSingle(x, cmp, e);
    TiedConcat([x], s, cmp, e);
    if cmp(x, e) == 0 {
      NoneTiedAbove(x, s, cmp, e, u);
      TiedNone(s, cmp, e);
    }
  }

  lemma NoneTiedAbove<T>(x: T, s: seq<T>, cmp: (T, T) -> int, e: T, u: seq<T>)
    requires TotalPreorderOn(cmp, u)
    requires x in u && e in u && forall y | y in s :: y in u
    requires SortedBy(cmp, s)
    requires |s| > 0 && cmp(x, s[0]) < 0 && cmp(x, e) == 0
    ensures forall y | y in s :: cmp(y, e) != 0
  {
    forall y | y in s ensures cmp(y, e) != 0 {
      var j :| 0 <= j < |s| && s[j] == y;
      assert s[0] in u;
      if j == 0 {
        AboveNotTied(cmp, u, x, y, e);
      } else {
        assert cmp(s[0], s[j]) <= 0;
        StrictThenWeak(cmp, u, x, s[0], y);
        AboveNotTied(cmp, u, x, y, e);
      }
    }
  }

  lemma {:induction false} InsertTied<T>(x: T, s: seq<T>, cmp: (T, T) -> int, e: T, u: seq<T>)
    requires TotalPreorderOn(cmp, u)
    requires x in u && e in u && forall y | y in s :: y in u
    requires SortedBy(cmp, s)
    ensures Tied(Insert(x, s, cmp), cmp, e) == Tied(s, cmp, e) + Tied([x], cmp, e)
    decreases |s|, 1
  {
    if |s| == 0 {
      assert Insert(x, s, cmp) == [x];
      assert s == [];
    } else if cmp(x, s[0]) < 0 {
      assert Insert(x, s, cmp) == [x] + s;
      InsertTiedFront(x, s, cmp, e, u);
    } else {
      InsertTiedLater(x, s, cmp, e, u);
    }
  }

  lemma {:induction false} InsertTiedLater<T>(x: T, s: seq<T>, cmp: (T, T) -> int, e: T, u: seq<T>)
    requires TotalPreorderOn(cmp, u)
    requires x in u && e in u && forall y | y in s :: y in u
    requires SortedBy(cmp, s)
    requires |s| > 0 && cmp(x, s[0]) >= 0
    ensures Tied(Insert(x, s, cmp), cmp, e) == Tied(s, cmp, e) + Tied([x], cmp, e)
    decreases |s|, 0
  {
    SortedTail(cmp, s);
    TailWithin(s, u);
    InsertTied(x, s[1..], cmp, e, u);
    TiedInsertBehind(x, s, cmp, e);
  }

  /** Where `x` goes behind the head of `s`, the head's contribution comes
      first on both sides. */
  lemma TiedInsertBehind<T>(x: T, s: seq<T>, cmp: (T, T) -> int, e: T)
    requires |s| > 0 && cmp(x, s[0]) >= 0
    ensures Tied(Insert(x, s, cmp), cmp, e) == Tied([s[0]], cmp, e) + Tied(Insert(x, s[1..], cmp), cmp, e)
    ensures Tied(s, cmp, e) == Tied([s[0]], cmp, e) + Tied(s[1..], cmp, e)
  {
    var rest := Insert(x, s[1..], cmp);
    var r := Insert(x, s, cmp);
    assert r == [s[0]] + rest;
    assert r[0] == s[0] && r[1..] == rest;
    TiedSingle(s[0], cmp, e);
  }

  lemma TailWithin<T>(s: seq<T>, u: seq<T>)
    requires |s| > 0 && forall y | y in s :: y in u
    ensures forall y | y in s[1..] :: y in u
  {
    forall y | y in s[1..] ensures y in u {
      assert y in s;
    }
  }

  lemma {:induction false} SortByStableIn<T>(s: seq<T>, cmp: (T, T) -> int, e: T, u: seq<T>)
    requires TotalPreorderOn(cmp, u)
    requires e in u && forall y | y in s :: y in u
    ensures Tied(SortBy(s, cmp), cmp, e) == Tied(s, cmp, e)
  {
    if |s| > 0 {
      var init := s[..|s| - 1];
      var last := s[|s| - 1];
      SortByStableIn(init, cmp, e, u);
      SortByWithin(init, cmp, u);
      SortBySortedIn(init, cmp, u);
      InsertTied(last, SortBy(init, cmp), cmp, e, u);
      TiedSplitLast(s, cmp, e);
    }
  }

  lemma SortByWithin<T>(s: seq<T>, cmp: (T, T) -> int, u: seq<T>)
    requires forall y | y in s :: y in u
    ensures forall y | y in SortBy(s, cmp) :: y in u
  {
    var sorted := SortBy(s, cmp);
    forall y | y in sorted ensures y in u {
      assert y in multiset(sorted);
      assert y in s;
    }
  }

  /** The last element's contribution comes last. */
  lemma TiedSplitLast<T>(s: seq<T>, cmp: (T, T) -> int, e: T)
    requires |s| > 0
    ensures Tied(s, cmp, e) == Tied(s[..|s| - 1], cmp, e) + Tied([s[|s| - 1]], cmp, e)
  {
    TiedConcat(s[..|s| - 1], [s[|s| - 1]], cmp, e);
    assert s[..|s| - 1] + [s[|s| - 1]] == s;
  }

  /** Stability: elements that compare equal keep their relative order. */
  lemma SortByStable<T>(s: seq<T>, cmp: (T, T) -> int, e: T)
    requires TotalPreorderOn(cmp, s) && e in s
    ensures Tied(SortBy(s, cmp), cmp, e) == Tied(s, cmp, e)
  {
    SortByStableIn(s, cmp, e, s);
  }

  /** Two sorted arrangements of the same elements start with tied elements. */
  lemma SortedHeadsTied<T>(a: seq<T>, b: seq<T>, cmp: (T, T) -> int)
    requires TotalPreorderOn(cmp, a)
    requires multiset(a) == multiset(b) && |a| > 0
    requires SortedBy(cmp, a) && SortedBy(cmp, b)
    ensures |b| > 0 && cmp(b[0], a[0]) == 0
  {
    assert |multiset(a)| == |a| && |multiset(b)| == |b|;
    var a0, b0 := a[0], b[0];
    assert b0 in multiset(a);
    var k :| 0 <= k < |a| && a[k] == b0;
    assert a0 in multiset(b);
    var m :| 0 <= m < |b| && b[m] == a0;
    assert cmp(a0, b0) <= 0 by {
      if k == 0 {
        Flip(cmp, a, a0, a0);
      }
    }
    assert cmp(b0, a0) <= 0 by {
      if m == 0 {
        Flip(cmp, a, a0, a0);
      }
    }
    Flip(cmp, a, a0, b0);
  }

  lemma SortedTail<T>(cmp: (T, T) -> int, s: seq<T>)
    requires SortedBy(cmp, s) && |s| > 0
    ensures SortedBy(cmp, s[1..])
  {
    forall i, j | 0 <= i < j < |s[1..]| ensures cmp(s[1..][i], s[1..][j]) <= 0 {
      assert s[1..][i] == s[i + 1] && s[1..][j] == s[j + 1];
    }
  }

  /** Removing the same first element from two stable arrangements leaves
      two stable arrangements. */
  lemma TailsAgree<T>(a: seq<T>, b: seq<T>, cmp: (T, T) -> int)
    requires |a| > 0 && |b| > 0 && a[0] == b[0]
    requires multiset(a) == multiset(b)
    requires forall e | e in a :: Tied(a, cmp, e) == Tied(b, cmp, e)
    ensures multiset(a[1..]) == multiset(b[1..])
    ensures forall e | e in a[1..] :: Tied(a[1..], cmp, e) == Tied(b[1..], cmp, e)
  {
    var a0 := a[0];
    assert a == [a0] + a[1..] && b == [a0] + b[1..];
    assert multiset(a[1..]) == multiset(a) - multiset{a0};
    assert multiset(b[1..]) == multiset(b) - multiset{a0};
    forall e | e in a[1..]
      ensures Tied(a[1..], cmp, e) == Tied(b[1..], cmp, e)
    {
      TiedConcat([a0], a[1..], cmp, e);
      TiedConcat([a0], b[1..], cmp, e);
      assert e in a;
      var p := Tied([a0], cmp, e);
      assert Tied(a[1..], cmp, e) == Tied(a, cmp, e)[|p|..];
      assert Tied(b[1..], cmp, e) == Tied(b, cmp, e)[|p|..];
    }
  }

  /** Heads that are tied with each other are equal when the tied elements
      appear in the same order. */
  lemma TiedHeadsEqual<T>(a: seq<T>, b: seq<T>, cmp: (T, T) -> int)
    requires |a| > 0 && |b| > 0
    requires cmp(a[0], a[0]) == 0 && cmp(b[0], a[0]) == 0
    requires Tied(a, cmp, a[0]) == Tied(b, cmp, a[0])
    ensures a[0] == b[0]
  {
    var a0, b0 := a[0], b[0];
    assert a == [a0] + a[1..] && b == [b0] + b[1..];
    TiedSingle(a0, cmp, a0);
    TiedSingle(b0, cmp, a0);
    TiedConcat([a0], a[1..], cmp, a0);
    TiedConcat([b0], b[1..], cmp, a0);
    assert Tied(a, cmp, a0)[0] == a0;
    assert Tied(b, cmp, a0)[0] == b0;
  }

  lemma PreorderTail<T>(cmp: (T, T) -> int, u: seq<T>)
    requires TotalPreorderOn(cmp, u) && |u| > 0
    ensures TotalPreorderOn(cmp, u[1..])
  {
    TailWithin(u, u);
  }

  /** Two sorted, stable arrangements of the same elements are the same list;
      so on consistent comparators `SortBy` agrees with any stable sort. */
  lemma {:induction false} SortedStableUnique<T>(a: seq<T>, b: seq<T>, cmp: (T, T) -> int)
    requires TotalPreorderOn(cmp, a)
    requires multiset(a) == multiset(b)
    requires SortedBy(cmp, a) && SortedBy(cmp, b)
    requires forall e | e in a :: Tied(a, cmp, e) == Tied(b, cmp, e)
    ensures a == b
  {
    if |a| == 0 {
      assert |multiset(b)| == |b|;
    } else {
      SortedHeadsTied(a, b, cmp);
      Flip(cmp, a, a[0], a[0]);
      assert a[0] in a;
      TiedHeadsEqual(a, b, cmp);
      TailsAgree(a, b, cmp);
      PreorderTail(cmp, a);
      SortedTail(cmp, a);
      SortedTail(cmp, b);
      SortedStableUnique(a[1..], b[1..], cmp);
    }
  }
}
