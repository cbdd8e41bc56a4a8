/**
 `sorted(...)` on a collection of distinct elements under a strict total
 order: the forecaster sorts year numbers, the trend chart sorts year texts.
 */
module Sorting {
  import opened Sets

  /** `less` is irreflexive, transitive and relates any two distinct elements. */
  ghost predicate StrictTotalOrder<T(!new)>(less: (T, T) -> bool)
  {
    && (forall x :: !less(x, x))
    && (forall x, y, z :: less(x, y) && less(y, z) ==> less(x, z))
    && (forall x, y :: x != y ==> less(x, y) || less(y, x))
  }

  predicate Ascending<T>(s: seq<T>, less: (T, T) -> bool)
  {
    forall i, j :: 0 <= i < j < |s| ==> less(s[i], s[j])
  }

  /** `m` is below every other element of `s`. */
  predicate Least<T(==)>(m: T, s: set<T>, less: (T, T) -> bool)
  {
    m in s && forall y :: y in s && y != m ==> less(m, y)
  }

  /** Every non-empty finite set has exactly one least element. */
  lemma {:induction false} LeastExists<T(!new)>(s: set<T>, less: (T, T) -> bool)
    requires StrictTotalOrder(less) && s != {}
    ensures exists m :: Least(m, s, less)
    ensures forall m, n :: Least(m, s, less) && Least(n, s, less) ==> m == n
    decreases |s|
  {
    var x := Pick(s);
    if s != {x} {
      var rest := s - {x};
      LeastExists(rest, less);
      var m :| Least(m, rest, less);
      var least := if less(x, m) then x else m;
      forall y | y in s && y != least
        ensures less(least, y)
      {
        if y != x && y != m {
          assert y in rest;
        }
      }
      assert Least(least, s, less);
    } else {
      assert Least(x, s, less);
    }
  }

  /** The least element of a non-empty set. */
  function Min<T(!new)>(s: set<T>, less: (T, T) -> bool): (m: T)
    requires StrictTotalOrder(less) && s != {}
    ensures m in s && forall y :: y in s && y != m ==> less(m, y)
  {
    LeastExists(s, less);
    var m :| Least(m, s, less); m
  }

  /** The elements of `s` in ascending order. */
  function SortedBy<T(!new)>(s: set<T>, less: (T, T) -> bool): (r: seq<T>)
    requires StrictTotalOrder(less)
    ensures |r| == |s| && Ascending(r, less)
    ensures forall i :: 0 <= i < |r| ==> r[i] in s
    ensures forall y :: y in s ==> y in r
    decreases |s|
  {
    if s == {} then []
    else
      var m := Min(s, less);
      var rest := SortedBy(s - {m}, less);
      assert forall i :: 0 <= i < |rest| ==> less(m, rest[i]);
      [m] + rest
  }

  /** Two ascending sequences with the same elements are the same sequence. */
  lemma {:induction false} AscendingUnique<T(!new)>(a: seq<T>, b: seq<T>, less: (T, T) -> bool)
    requires StrictTotalOrder(less)
    requires Ascending(a, less) && Ascending(b, less)
    requires forall y :: y in a <==> y in b
    ensures a == b
    decreases |a|
  {
    if a != [] || b != [] {
      assert a != [] && b != [] by {
        if a != [] {
          assert a[0] in a;
        }
        if b != [] {
          assert b[0] in b;
        }
      }
      assert a[0] in b && b[0] in a;
      assert a[0] == b[0];
      forall y
        ensures y in a[1..] <==> y in b[1..]
      {
        if y in a[1..] {
          var i :| 1 <= i < |a| && a[i] == y;
          assert y in b && y != b[0] by {
            assert less(a[0], a[i]);
          }
        }
        if y in b[1..] {
          var i :| 1 <= i < |b| && b[i] == y;
          assert y in a && y != a[0] by {
            assert less(b[0], b[i]);
          }
        }
      }
      AscendingUnique(a[1..], b[1..], less);
      assert a == [a[0]] + a[1..] && b == [b[0]] + b[1..];
    }
  }

  /** `SortedBy` is the only ascending listing of a set. */
  lemma SortedByIsAscendingListing<T(!new)>(s: set<T>, r: seq<T>, less: (T, T) -> bool)
    requires StrictTotalOrder(less)
    requires Ascending(r, less)
    requires forall y :: y in s <==> y in r
    ensures SortedBy(s, less) == r
  {
    AscendingUnique(SortedBy(s, less), r, less);
  }

  // ---------------------------------------------------------------------------
  // Integers in numeric order
  // ---------------------------------------------------------------------------

  function IntLess(a: int, b: int): bool
  {
    a < b
  }

  predicate StrictlyIncreasing(s: seq<int>)
  {
    forall i, j :: 0 <= i < j < |s| ==> s[i] < s[j]
  }

  lemma IntLessOrder()
    ensures StrictTotalOrder(IntLess)
  {
  }

  /** The elements of a set of integers in ascending numeric order. */
  function Sorted(s: set<int>): (r: seq<int>)
    ensures |r| == |s| && StrictlyIncreasing(r)
    ensures forall i :: 0 <= i < |r| ==> r[i] in s
    ensures forall y :: y in s ==> y in r
  {
    IntLessOrder();
    var r := SortedBy(s, IntLess);
    assert forall i, j :: 0 <= i < j < |r| ==> IntLess(r[i], r[j]);
    r
  }

  /** `Sorted` is the only ascending listing of a set of integers. */
  lemma SortedIsAscendingListing(s: set<int>, r: seq<int>)
    requires StrictlyIncreasing(r)
    requires forall y :: y in s <==> y in r
    ensures Sorted(s) == r
  {
    IntLessOrder();
    assert Ascending(r, IntLess);
    AscendingUnique(SortedBy(s, IntLess), r, IntLess);
  }

}
