/**
 * The order that `List::sort` establishes, stated on plain sequences.
 *
 * `sort(ascending)` compares payloads with a strict comparison (`<`, or `>`
 * when descending) and a non-strict one (`<=`, or `>=`), and inserts every
 * element, scanning backwards, in front of the first element of the sorted
 * prefix that it strictly precedes.  `InsertSorted` is that insertion step,
 * written from the right exactly as the scan goes, and `InsertionSort`
 * applies it to every element from left to right.  The lemmas show that the
 * result is ordered, a permutation, stable, and equal to the input when the
 * input is already ordered.
 *
 * Elements are of any type `A` with an integer sort key `key`.
 */
module StableSort {

  /** The strict comparison of the sort: `a < b`, or `a > b` when descending. */
  predicate Precedes(a: int, b: int, ascending: bool)
  {
    if ascending then a < b else a > b
  }

  /** The non-strict comparison of the sort: `a <= b`, or `a >= b` when descending. */
  predicate PrecedesOrEqual(a: int, b: int, ascending: bool)
  {
    if ascending then a <= b else a >= b
  }

  /** Every element precedes or equals every later one. */
  ghost predicate Sorted<A>(s: seq<A>, key: A -> int, ascending: bool)
  {
    forall i, j :: 0 <= i < j < |s| ==> PrecedesOrEqual(key(s[i]), key(s[j]), ascending)
  }

  /** The elements of `s` whose key is `k`, in their order in `s`. */
  function Filter<A>(s: seq<A>, key: A -> int, k: int): seq<A>
    decreases |s|
  {
    if s == [] then []
    else Filter(s[..|s| - 1], key, k) + (if key(s[|s| - 1]) == k then [s[|s| - 1]] else [])
  }

  /**
   * The test of the backward scan at position `j` of the sorted prefix `s`:
   * `x` strictly precedes `s[j]`, and `j` is the first position or `s[j - 1]`
   * precedes or equals `x`.
   */
  predicate IsInsertionPoint<A>(s: seq<A>, x: A, key: A -> int, ascending: bool, j: int)
    requires 0 <= j < |s|
  {
    Precedes(key(x), key(s[j]), ascending) &&
    (j == 0 || PrecedesOrEqual(key(s[j - 1]), key(x), ascending))
  }

  /** Inserts `x` after the last element of `s` that it does not strictly precede. */
  function InsertSorted<A>(s: seq<A>, x: A, key: A -> int, ascending: bool): seq<A>
    decreases |s|
  {
    if s == [] then [x]
    else if Precedes(key(x), key(s[|s| - 1]), ascending) then
      InsertSorted(s[..|s| - 1], x, key, ascending) + [s[|s| - 1]]
    else s + [x]
  }

  /** Inserts the elements of `s` one by one, from left to right, into a sorted prefix. */
  function InsertionSort<A>(s: seq<A>, key: A -> int, ascending: bool): seq<A>
    decreases |s|
  {
    if s == [] then []
    else InsertSorted(InsertionSort(s[..|s| - 1], key, ascending), s[|s| - 1], key, ascending)
  }

  /** Insertion adds `x` and nothing else. */
  lemma {:induction false} InsertSortedPermutes<A>(s: seq<A>, x: A, key: A -> int, ascending: bool)
    ensures multiset(InsertSorted(s, x, key, ascending)) == multiset(s) + multiset{x}
    decreases |s|
  {
    if s != [] && Precedes(key(x), key(s[|s| - 1]), ascending) {
      InsertSortedPermutes(s[..|s| - 1], x, key, ascending);
      assert s == s[..|s| - 1] + [s[|s| - 1]];
    }
  }

  /** The sort neither loses nor duplicates an element. */
  lemma {:induction false} InsertionSortPermutes<A>(s: seq<A>, key: A -> int, ascending: bool)
    ensures multiset(InsertionSort(s, key, ascending)) == multiset(s)
    decreases |s|
  {
    if s != [] {
      InsertionSortPermutes(s[..|s| - 1], key, ascending);
      InsertSortedPermutes(InsertionSort(s[..|s| - 1], key, ascending), s[|s| - 1], key, ascending);
      assert s == s[..|s| - 1] + [s[|s| - 1]];
    }
  }

  lemma {:induction false} FilterAppend<A>(a: seq<A>, b: seq<A>, key: A -> int, k: int)
    ensures Filter(a + b, key, k) == Filter(a, key, k) + Filter(b, key, k)
    decreases |b|
  {
    if b == [] {
      assert a + b == a;
    } else {
      var c := b[..|b| - 1];
      assert (a + b)[..|a + b| - 1] == a + c;
      assert (a + b)[|a + b| - 1] == b[|b| - 1];
      FilterAppend(a, c, key, k);
    }
  }

  /** Insertion into a sorted sequence keeps it sorted. */
  lemma {:induction false} InsertSortedKeepsOrder<A>(s: seq<A>, x: A, key: A -> int, ascending: bool)
    requires Sorted(s, key, ascending)
    ensures Sorted(InsertSorted(s, x, key, ascending), key, ascending)
    decreases |s|
  {
    if s != [] {
      var init, last := s[..|s| - 1], s[|s| - 1];
      if Precedes(key(x), key(last), ascending) {
        InsertSortedKeepsOrder(init, x, key, ascending);
        var t := InsertSorted(init, x, key, ascending);
        assert InsertSorted(s, x, key, ascending) == t + [last];
        InsertSortedPermutes(init, x, key, ascending);
        forall i | 0 <= i < |t|
          ensures PrecedesOrEqual(key(t[i]), key(last), ascending)
        {
          assert t[i] in multiset(t);
          if t[i] != x {
            assert t[i] in multiset(init);
            var m :| 0 <= m < |init| && init[m] == t[i];
            assert s[m] == t[i];
          }
        }
      } else {
        var r := s + [x];
        forall i, j | 0 <= i < j < |r|
          ensures PrecedesOrEqual(key(r[i]), key(r[j]), ascending)
        {
          if j == |s| && i < |s| - 1 {
            assert PrecedesOrEqual(key(s[i]), key(s[|s| - 1]), ascending);
          }
        }
      }
    }
  }

  /** The result of the sort is ordered by the chosen comparison. */
  lemma {:induction false} InsertionSortIsSorted<A>(s: seq<A>, key: A -> int, ascending: bool)
    ensures Sorted(InsertionSort(s, key, ascending), key, ascending)
    decreases |s|
  {
    if s != [] {
      InsertionSortIsSorted(s[..|s| - 1], key, ascending);
      InsertSortedKeepsOrder(InsertionSort(s[..|s| - 1], key, ascending), s[|s| - 1], key, ascending);
    }
  }

  lemma FilterSingleton<A>(y: A, key: A -> int, k: int)
    ensures Filter([y], key, k) == if key(y) == k then [y] else []
  {
    assert [y][..0] == [];
  }

  /** Insertion never moves an element past another one with the same key. */
  lemma {:induction false} InsertSortedFilter<A>(s: seq<A>, x: A, key: A -> int, ascending: bool, k: int)
    ensures Filter(InsertSorted(s, x, key, ascending), key, k) == Filter(s, key, k) + Filter([x], key, k)
    decreases |s|
  {
    if s == [] {
      assert InsertSorted(s, x, key, ascending) == [x];
      assert Filter(s, key, k) == [];
    } else {
      var init, last := s[..|s| - 1], s[|s| - 1];
      var fx, fl := Filter([x], key, k), Filter([last], key, k);
      assert Filter(s, key, k) == Filter(init, key, k) + fl by {
        assert s == init + [last];
        FilterAppend(init, [last], key, k);
      }
      if Precedes(key(x), key(last), ascending) {
        var t := InsertSorted(init, x, key, ascending);
        assert InsertSorted(s, x, key, ascending) == t + [last];
        assert Filter(t, key, k) == Filter(init, key, k) + fx by {
          InsertSortedFilter(init, x, key, ascending, k);
        }
        assert Filter(t + [last], key, k) == Filter(t, key, k) + fl by {
          FilterAppend(t, [last], key, k);
        }
        assert fx == [] || fl == [] by {
          FilterSingleton(x, key, k);
          FilterSingleton(last, key, k);
        }
        if fx == [] {
          assert Filter(init, key, k) + fx == Filter(init, key, k);
          assert Filter(s, key, k) + fx == Filter(s, key, k);
        } else {
          assert Filter(init, key, k) + fl == Filter(init, key, k);
        }
      } else {
        assert InsertSorted(s, x, key, ascending) == s + [x];
        FilterAppend(s, [x], key, k);
      }
    }
  }

  /** Stability: for every key, the elements with that key keep their relative order. */
  lemma {:induction false} InsertionSortIsStable<A>(s: seq<A>, key: A -> int, ascending: bool, k: int)
    ensures Filter(InsertionSort(s, key, ascending), key, k) == Filter(s, key, k)
    decreases |s|
  {
    if s != [] {
      var init, last := s[..|s| - 1], s[|s| - 1];
      InsertionSortIsStable(init, key, ascending, k);
      InsertSortedFilter(InsertionSort(init, key, ascending), last, key, ascending, k);
      assert s == init + [last];
      FilterAppend(init, [last], key, k);
    }
  }

  /** Sorting a sequence that is already ordered changes nothing. */
  lemma {:induction false} InsertionSortOfSorted<A>(s: seq<A>, key: A -> int, ascending: bool)
    requires Sorted(s, key, ascending)
    ensures InsertionSort(s, key, ascending) == s
    decreases |s|
  {
    if s != [] {
      var init, last := s[..|s| - 1], s[|s| - 1];
      assert Sorted(init, key, ascending);
      InsertionSortOfSorted(init, key, ascending);
      if init != [] {
        assert PrecedesOrEqual(key(init[|init| - 1]), key(last), ascending);
      }
      assert init + [last] == s;
    }
  }

  /**
   * `InsertSorted` puts `x` at `j` when `x` strictly precedes every element
   * from `j` on and no element before `j`.
   */
  lemma {:induction false} InsertSortedAtSplit<A>(s: seq<A>, x: A, key: A -> int, ascending: bool, j: int)
    requires 0 <= j <= |s|
    requires forall m :: j <= m < |s| ==> Precedes(key(x), key(s[m]), ascending)
    requires j == 0 || !Precedes(key(x), key(s[j - 1]), ascending)
    ensures InsertSorted(s, x, key, ascending) == s[..j] + [x] + s[j..]
    decreases |s|
  {
    if j == |s| {
      assert s[..j] + [x] + s[j..] == s + [x];
    } else {
      var init, last := s[..|s| - 1], s[|s| - 1];
      assert InsertSorted(s, x, key, ascending) == InsertSorted(init, x, key, ascending) + [last];
      InsertSortedAtSplit(init, x, key, ascending, j);
      assert init[..j] == s[..j] && init[j..] + [last] == s[j..];
    }
  }

  /**
   * In a sorted sequence, a position that passes the scan's test is where
   * `InsertSorted` puts `x`.
   */
  lemma InsertSortedAt<A>(s: seq<A>, x: A, key: A -> int, ascending: bool, j: int)
    requires Sorted(s, key, ascending) && 0 <= j < |s|
    requires IsInsertionPoint(s, x, key, ascending, j)
    ensures InsertSorted(s, x, key, ascending) == s[..j] + [x] + s[j..]
  {
    forall m | j <= m < |s|
      ensures Precedes(key(x), key(s[m]), ascending)
    {
      assert PrecedesOrEqual(key(s[j]), key(s[m]), ascending) || m == j;
    }
    InsertSortedAtSplit(s, x, key, ascending, j);
  }

  /** If `x` strictly precedes `s[m]`, the test passes at `m` or at an earlier position. */
  lemma {:induction false} InsertionPointExists<A>(s: seq<A>, x: A, key: A -> int, ascending: bool, m: int)
    requires 0 <= m < |s| && Precedes(key(x), key(s[m]), ascending)
    ensures exists u :: 0 <= u <= m && IsInsertionPoint(s, x, key, ascending, u)
    decreases m
  {
    if m > 0 && Precedes(key(x), key(s[m - 1]), ascending) {
      InsertionPointExists(s, x, key, ascending, m - 1);
    } else {
      assert IsInsertionPoint(s, x, key, ascending, m);
    }
  }

  /** When the test fails everywhere, `x` stays where it is: after the whole prefix. */
  lemma InsertSortedAtEnd<A>(s: seq<A>, x: A, key: A -> int, ascending: bool)
    requires forall m :: 0 <= m < |s| ==> !IsInsertionPoint(s, x, key, ascending, m)
    ensures InsertSorted(s, x, key, ascending) == s + [x]
  {
    if s != [] && Precedes(key(x), key(s[|s| - 1]), ascending) {
      InsertionPointExists(s, x, key, ascending, |s| - 1);
    }
  }

  /**
   * One pass of the outer loop that moves element `i`: when the first `i`
   * elements of `p` are the sorted prefix of `orig`, the rest is still
   * `orig`'s, and position `j` is an insertion point for `p[i]`, taking
   * `p[i]` out and putting it back before position `j` extends the sorted
   * prefix by one element.
   */
  lemma SortStepMove<A>(p: seq<A>, orig: seq<A>, key: A -> int, ascending: bool, i: int, j: int)
    requires 0 <= j < i < |p| == |orig|
    requires p[..i] == InsertionSort(orig[..i], key, ascending) && p[i..] == orig[i..]
    requires IsInsertionPoint(p[..i], p[i], key, ascending, j)
    ensures var q := p[..i] + p[i + 1..];
      var r := q[..j] + [p[i]] + q[j..];
      |r| == |p| && r[..i + 1] == InsertionSort(orig[..i + 1], key, ascending) && r[i + 1..] == orig[i + 1..]
  {
    var pre, x := p[..i], p[i];
    var q := pre + p[i + 1..];
    var r := q[..j] + [x] + q[j..];
    assert InsertSorted(pre, x, key, ascending) == pre[..j] + [x] + pre[j..] by {
      InsertionSortIsSorted(orig[..i], key, ascending);
      InsertSortedAt(pre, x, key, ascending, j);
    }
    assert InsertionSort(orig[..i + 1], key, ascending) == InsertSorted(pre, x, key, ascending) by {
      assert orig[..i + 1][..i] == orig[..i] && orig[i] == x;
    }
    assert q[..j] == pre[..j] && q[j..i] == pre[j..];
    assert r[..i + 1] == q[..j] + [x] + q[j..i];
    assert r[i + 1..] == q[i..] == p[i + 1..];
  }

  /**
   * One pass of the outer loop that leaves element `i` where it is: when no
   * position of the sorted prefix is an insertion point for `p[i]`, the
   * sorted prefix already extends to `i + 1` elements.
   */
  lemma SortStepKeep<A>(p: seq<A>, orig: seq<A>, key: A -> int, ascending: bool, i: int)
    requires 0 <= i < |p| == |orig|
    requires p[..i] == InsertionSort(orig[..i], key, ascending) && p[i..] == orig[i..]
    requires forall m :: 0 <= m < i ==> !IsInsertionPoint(p[..i], p[i], key, ascending, m)
    ensures p[..i + 1] == InsertionSort(orig[..i + 1], key, ascending) && p[i + 1..] == orig[i + 1..]
  {
    assert orig[..i + 1][..i] == orig[..i] && orig[i] == p[i];
    InsertSortedAtEnd(p[..i], p[i], key, ascending);
    assert p[..i + 1] == p[..i] + [p[i]];
  }
}
