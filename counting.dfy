/**
 Counting occurrences into a dictionary, as both `year_count[y] = year_count.get(y, 0) + 1`
 and `collections.Counter` do. The map holds exactly the values that occur, each
 with its number of occurrences.
 */
module Counting {
  import opened Sets

  /** The occurrence counts of `xs`, built left to right one element at a time. */
  function Tally<T(==)>(xs: seq<T>): (m: map<T, nat>)
    ensures m.Keys == set x | x in xs
    ensures forall x :: x in m ==> m[x] == multiset(xs)[x]
    decreases |xs|
  {
    if xs == [] then map[]
    else
      var m := Tally(xs[..|xs| - 1]);
      var x := xs[|xs| - 1];
      assert xs == xs[..|xs| - 1] + [x];
      m[x := (if x in m then m[x] else 0) + 1]
  }

  /** Counting one more element adds one to its count. */
  lemma TallySnoc<T>(xs: seq<T>, x: T)
    ensures var m := Tally(xs); Tally(xs + [x]) == m[x := (if x in m then m[x] else 0) + 1]
  {
    assert (xs + [x])[..|xs|] == xs;
  }

  /** One element counts once. */
  lemma TallySingle<T>(x: T)
    ensures Tally([x]) == map[x := 1]
  {
    TallySnoc([], x);
    assert [] + [x] == [x];
  }

  /** The sum of all values of a map. */
  ghost function Total<T>(m: map<T, nat>): nat
    decreases |m|
  {
    if |m| == 0 then 0
    else
      var k := Pick(m.Keys);
      m[k] + Total(m - {k})
  }

  /** `Total` does not depend on which key is taken out first. */
  lemma {:induction false} TotalRemove<T>(m: map<T, nat>, k: T)
    requires k in m
    ensures Total(m) == m[k] + Total(m - {k})
    decreases |m|
  {
    var j := Pick(m.Keys);
    if j != k {
      var mj, mk := m - {j}, m - {k};
      assert mj.Keys == m.Keys - {j} && mk.Keys == m.Keys - {k};
      TotalRemove(mj, k);
      TotalRemove(mk, j);
      assert mj - {k} == mk - {j};
    }
  }

  /** Changing one value changes the total by the difference. */
  lemma TotalUpdate<T>(m: map<T, nat>, k: T, v: nat)
    ensures Total(m[k := v]) == Total(m - {k}) + v
  {
    TotalRemove(m[k := v], k);
    assert m[k := v] - {k} == m - {k};
  }

  /** Every count is at least one: a value is only present when it occurs. */
  lemma TallyPositive<T>(xs: seq<T>)
    ensures forall x :: x in Tally(xs) ==> Tally(xs)[x] >= 1
  {
    forall x | x in Tally(xs)
      ensures Tally(xs)[x] >= 1
    {
      assert x in xs;
    }
  }

  /** The counts add up to the number of elements counted. */
  lemma {:induction false} TallyTotal<T>(xs: seq<T>)
    ensures Total(Tally(xs)) == |xs|
    decreases |xs|
  {
    if xs != [] {
      var init, x := xs[..|xs| - 1], xs[|xs| - 1];
      var m := Tally(init);
      TallyTotal(init);
      var c := if x in m then m[x] else 0;
      TotalUpdate(m, x, c + 1);
      if x in m {
        TotalRemove(m, x);
      } else {
        assert m - {x} == m;
      }
    }
  }

}
