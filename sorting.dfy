/** Python's `sorted(set(xs), key=key)`: the distinct elements of a list in
    ascending key order. Python leaves the order of distinct elements with
    equal keys to the set's iteration order; this model keeps them in the
    order of their first occurrence in the list, which is one of the orders
    Python may produce. */
module Sorting {

  ghost predicate SortedBy<T>(xs: seq<T>, key: T -> int) {
    forall i, j {:trigger key(xs[i]), key(xs[j])} | 0 <= i < j < |xs| :: key(xs[i]) <= key(xs[j])
  }

  /** No element occurs twice: the first is not among the rest, and the
      rest are distinct. */
  ghost predicate Distinct<T>(xs: seq<T>) {
    |xs| == 0 || (xs[0] !in xs[1..] && Distinct(xs[1..]))
  }

  /** Two positions of a list without repetitions hold different elements. */
  lemma {:induction false} DistinctAt<T>(xs: seq<T>, i: int, j: int)
    requires Distinct(xs) && 0 <= i < j < |xs|
    ensures xs[i] != xs[j]
  {
    if 0 < i {
      DistinctAt(xs[1..], i - 1, j - 1);
    } else {
      assert xs[j] == xs[1..][j - 1];
    }
  }

  /** Insert x into a sorted list of distinct elements, after every element
      whose key is not greater, unless x is already there. */
  function InsertDistinct<T(==)>(xs: seq<T>, x: T, key: T -> int): (ys: seq<T>)
    requires SortedBy(xs, key) && Distinct(xs)
    ensures SortedBy(ys, key) && Distinct(ys)
    ensures x in ys
    ensures forall y | y in xs :: y in ys
    ensures forall y | y in ys :: y in xs || y == x
  {
    if x in xs then xs
    else if |xs| == 0 then
      assert [x][1..] == [];
      [x]
    else if key(x) < key(xs[0]) then
      assert forall y | y in xs :: key(x) <= key(y) by {
        forall y | y in xs ensures key(x) <= key(y) {
          var j :| 0 <= j < |xs| && xs[j] == y;
          SortedAt(xs, key, 0, j);
        }
      }
      ConsSorted(x, xs, key);
      ConsDistinct(x, xs);
      [x] + xs
    else
      var rest := InsertDistinct(xs[1..], x, key);
      assert forall y | y in rest :: key(xs[0]) <= key(y) && y != xs[0] by {
        forall y | y in rest ensures key(xs[0]) <= key(y) && y != xs[0] {
          if y != x {
            var j :| 0 <= j < |xs[1..]| && xs[1..][j] == y;
            SortedAt(xs, key, 0, j + 1);
            DistinctAt(xs, 0, j + 1);
          }
        }
      }
      ConsSorted(xs[0], rest, key);
      ConsDistinct(xs[0], rest);
      [xs[0]] + rest
  }

  lemma ConsSorted<T>(a: T, rest: seq<T>, key: T -> int)
    requires SortedBy(rest, key) && forall y | y in rest :: key(a) <= key(y)
    ensures SortedBy([a] + rest, key)
  {
    var ys := [a] + rest;
    forall i, j | 0 <= i < j < |ys| ensures key(ys[i]) <= key(ys[j]) {
      assert ys[j] == rest[j - 1] && ys[j] in rest;
      if 0 < i {
        SortedAt(rest, key, i - 1, j - 1);
      }
    }
  }

  lemma ConsDistinct<T>(a: T, rest: seq<T>)
    requires Distinct(rest) && a !in rest
    ensures Distinct([a] + rest)
  {
    assert ([a] + rest)[1..] == rest;
  }

  /** `sorted(set(xs), key=key)`. */
  function SortedSet<T(==)>(xs: seq<T>, key: T -> int): (ys: seq<T>)
    ensures SortedBy(ys, key) && Distinct(ys)
    ensures forall y | y in xs :: y in ys
    ensures forall y | y in ys :: y in xs
  {
    if |xs| == 0 then []
    else InsertDistinct(SortedSet(xs[..|xs| - 1], key), xs[|xs| - 1], key)
  }

  /** Keys strictly ascending: sorted, and no two elements share a key. */
  ghost predicate StrictlySortedBy<T>(xs: seq<T>, key: T -> int) {
    forall i, j {:trigger key(xs[i]), key(xs[j])} | 0 <= i < j < |xs| :: key(xs[i]) < key(xs[j])
  }

  /** The order of two elements of a sorted list. */
  lemma SortedAt<T>(xs: seq<T>, key: T -> int, i: int, j: int)
    requires SortedBy(xs, key) && 0 <= i <= j < |xs|
    ensures key(xs[i]) <= key(xs[j])
  {
  }

  /** The order of two elements of a strictly sorted list. */
  lemma StrictlySortedAt<T>(xs: seq<T>, key: T -> int, i: int, j: int)
    requires StrictlySortedBy(xs, key) && 0 <= i <= j < |xs|
    ensures key(xs[i]) <= key(xs[j])
    ensures i < j ==> key(xs[i]) < key(xs[j])
  {
  }

  /** Two lists with the same members whose keys strictly ascend are equal:
      when no two elements share a key, the result of SortedSet depends only
      on the set of elements, not on their order or repetitions. */
  lemma {:induction false} SortedUnique<T>(xs: seq<T>, ys: seq<T>, key: T -> int)
    requires StrictlySortedBy(xs, key) && StrictlySortedBy(ys, key)
    requires forall y | y in xs :: y in ys
    requires forall y | y in ys :: y in xs
    ensures xs == ys
    decreases |xs|
  {
    if |xs| == 0 {
      if |ys| > 0 {
        SameHead(ys, xs, key);
        assert false;
      }
    } else {
      SameHead(xs, ys, key);
      SameTail(xs, ys, key);
      SortedUnique(xs[1..], ys[1..], key);
      assert xs == [xs[0]] + xs[1..];
      assert ys == [ys[0]] + ys[1..];
    }
  }

  lemma SameHead<T>(xs: seq<T>, ys: seq<T>, key: T -> int)
    requires |xs| > 0 && StrictlySortedBy(xs, key) && StrictlySortedBy(ys, key)
    requires forall y | y in xs :: y in ys
    requires forall y | y in ys :: y in xs
    ensures |ys| > 0 && xs[0] == ys[0]
  {
    assert xs[0] in ys;
    var i :| 0 <= i < |ys| && ys[i] == xs[0];
    assert ys[0] in xs;
    var j :| 0 <= j < |xs| && xs[j] == ys[0];
    if 0 < i && 0 < j {
      StrictlySortedAt(ys, key, 0, i);
      StrictlySortedAt(xs, key, 0, j);
    }
  }

  lemma SameTail<T>(xs: seq<T>, ys: seq<T>, key: T -> int)
    requires |xs| > 0 && |ys| > 0 && xs[0] == ys[0]
    requires StrictlySortedBy(xs, key) && StrictlySortedBy(ys, key)
    requires forall y | y in xs :: y in ys
    requires forall y | y in ys :: y in xs
    ensures forall y | y in xs[1..] :: y in ys[1..]
    ensures forall y | y in ys[1..] :: y in xs[1..]
  {
    forall y | y in xs[1..] ensures y in ys[1..] {
      var i :| 1 <= i < |xs| && xs[i] == y;
      assert y in xs;
      var j :| 0 <= j < |ys| && ys[j] == y;
      assert key(ys[0]) < key(ys[j]) by {
        assert key(xs[0]) < key(xs[i]);
      }
      assert y == ys[1..][j - 1];
    }
    forall y | y in ys[1..] ensures y in xs[1..] {
      var j :| 1 <= j < |ys| && ys[j] == y;
      assert y in ys;
      var i :| 0 <= i < |xs| && xs[i] == y;
      assert key(xs[0]) < key(xs[i]) by {
        assert key(ys[0]) < key(ys[j]);
      }
      assert y == xs[1..][i - 1];
    }
  }
}
