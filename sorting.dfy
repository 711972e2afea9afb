// `Array.prototype.sort` with a comparator, as the routes use it to order pages
// by career and workers by number. The engine's sort is stable, so for a
// comparator that orders consistently its result is the stable insertion sort
// below. `after(a, b)` stands for `compare(a, b) > 0`.
module Sorting {

  /** Inserts x after every trailing element that does not come after it. */
  function Insert<T>(s: seq<T>, x: T, after: (T, T) -> bool): (r: seq<T>)
    ensures multiset(r) == multiset(s) + multiset{x}
    ensures |r| == |s| + 1
    ensures r[|r| - 1] == x || (s != [] && r[|r| - 1] == s[|s| - 1])
  {
    if s == [] || !after(s[|s| - 1], x) then s + [x]
    else
      assert s == s[..|s| - 1] + [s[|s| - 1]];
      Insert(s[..|s| - 1], x, after) + [s[|s| - 1]]
  }

  /** The input sorted stably: each element in turn is inserted into the sorted prefix. */
  function SortBy<T>(xs: seq<T>, after: (T, T) -> bool): (r: seq<T>)
    ensures multiset(r) == multiset(xs)
    ensures |r| == |xs|
  {
    if xs == [] then []
    else
      assert xs == xs[..|xs| - 1] + [xs[|xs| - 1]];
      Insert(SortBy(xs[..|xs| - 1], after), xs[|xs| - 1], after)
  }

  /** Sorting neither adds nor drops an element. */
  lemma SortByKeeps<T>(xs: seq<T>, after: (T, T) -> bool)
    ensures forall x :: x in SortBy(xs, after) <==> x in xs
  {
    var r := SortBy(xs, after);
    forall x
      ensures x in r <==> x in xs
    {
      assert x in r <==> x in multiset(r);
      assert x in xs <==> x in multiset(xs);
    }
  }

  /** A comparator never puts a before b and b before a. */
  ghost predicate Asymmetric<T(!new)>(after: (T, T) -> bool) {
    forall a, b :: after(a, b) ==> !after(b, a)
  }

  /** No element is followed by one it should come after. */
  ghost predicate Ordered<T>(r: seq<T>, after: (T, T) -> bool) {
    forall i :: 0 <= i < |r| - 1 ==> !after(r[i], r[i + 1])
  }

  lemma {:induction false} InsertOrdered<T(!new)>(s: seq<T>, x: T, after: (T, T) -> bool)
    requires Asymmetric(after) && Ordered(s, after)
    ensures Ordered(Insert(s, x, after), after)
    decreases |s|
  {
    var r := Insert(s, x, after);
    if s == [] || !after(s[|s| - 1], x) {
      forall i | 0 <= i < |r| - 1
        ensures !after(r[i], r[i + 1])
      {
        if i < |s| - 1 {
          assert r[i] == s[i] && r[i + 1] == s[i + 1];
        }
      }
    } else {
      var init := s[..|s| - 1];
      var last := s[|s| - 1];
      assert Ordered(init, after) by {
        forall i | 0 <= i < |init| - 1
          ensures !after(init[i], init[i + 1])
        {
          assert init[i] == s[i] && init[i + 1] == s[i + 1];
        }
      }
      InsertOrdered(init, x, after);
      var r0 := Insert(init, x, after);
      assert r == r0 + [last];
      forall i | 0 <= i < |r| - 1
        ensures !after(r[i], r[i + 1])
      {
        if i < |r0| - 1 {
          assert r[i] == r0[i] && r[i + 1] == r0[i + 1];
        } else {
          assert r[i] == r0[|r0| - 1] && r[i + 1] == last;
          if r0[|r0| - 1] != x {
            assert init != [] && r0[|r0| - 1] == init[|init| - 1];
            assert init[|init| - 1] == s[|s| - 2];
          }
        }
      }
    }
  }

  /** The result is ordered by the comparator. */
  lemma {:induction false} SortByOrdered<T(!new)>(xs: seq<T>, after: (T, T) -> bool)
    requires Asymmetric(after)
    ensures Ordered(SortBy(xs, after), after)
    decreases |xs|
  {
    if xs != [] {
      SortByOrdered(xs[..|xs| - 1], after);
      InsertOrdered(SortBy(xs[..|xs| - 1], after), xs[|xs| - 1], after);
    }
  }

  /** No two elements share a key. */
  ghost predicate DistinctBy<T>(s: seq<T>, key: T -> string) {
    forall i, j :: 0 <= i < j < |s| ==> key(s[i]) != key(s[j])
  }

  lemma {:induction false} AtMostOnce<T>(a: seq<T>, key: T -> string, x: T)
    requires DistinctBy(a, key)
    ensures multiset(a)[x] <= 1
    decreases |a|
  {
    if a != [] {
      var init := a[..|a| - 1];
      assert a == init + [a[|a| - 1]];
      assert DistinctBy(init, key) by {
        forall i, j | 0 <= i < j < |init|
          ensures key(init[i]) != key(init[j])
        {
          assert init[i] == a[i] && init[j] == a[j];
        }
      }
      var last := a[|a| - 1];
      forall k | 0 <= k < |init|
        ensures init[k] != last
      {
        assert init[k] == a[k];
      }
      AtMostOnce(init, key, x);
    }
  }

  lemma Twice<T>(b: seq<T>, i: int, j: int)
    requires 0 <= i < j < |b| && b[i] == b[j]
    ensures multiset(b)[b[i]] >= 2
  {
    assert b == b[..j] + b[j..];
    assert b[i] == b[..j][i] && b[j] == b[j..][0];
  }

  /** Reordering keeps keys distinct: sorting never makes two entries share a key. */
  lemma PermutationDistinct<T>(a: seq<T>, b: seq<T>, key: T -> string)
    requires multiset(a) == multiset(b) && DistinctBy(a, key)
    ensures DistinctBy(b, key)
  {
    forall i, j | 0 <= i < j < |b|
      ensures key(b[i]) != key(b[j])
    {
      assert b[i] in multiset(a) && b[j] in multiset(a);
      var p :| 0 <= p < |a| && a[p] == b[i];
      var q :| 0 <= q < |a| && a[q] == b[j];
      if p == q {
        Twice(b, i, j);
        AtMostOnce(a, key, b[i]);
        assert false;
      } else if p > q {
        assert key(a[q]) != key(a[p]);
      }
    }
  }
}
