// A JavaScript `Map` from a string key to an array that `push`es grow, read
// back in insertion order: how the routes group rows by career and by worker.
module Buckets {

  /** The map's entries in insertion order. */
  type Buckets<V> = seq<(string, seq<V>)>

  /** Where key k sits, or -1 when `has(k)` is false. */
  function Find<V>(b: Buckets<V>, k: string): (i: int)
    ensures -1 <= i < |b|
    ensures i >= 0 ==> b[i].0 == k && forall j :: 0 <= j < i ==> b[j].0 != k
    ensures i == -1 <==> forall j :: 0 <= j < |b| ==> b[j].0 != k
  {
    if b == [] then -1
    else if b[0].0 == k then 0
    else
      var j := Find(b[1..], k);
      if j < 0 then -1 else j + 1
  }

  /** The iteration order of `new Set(xs)`: each value once, where it first appears. */
  function Dedup<T(==,!new)>(xs: seq<T>): (ys: seq<T>)
    ensures forall i, j :: 0 <= i < j < |ys| ==> ys[i] != ys[j]
    ensures forall x :: x in ys <==> x in xs
  {
    if xs == [] then []
    else
      var init := xs[..|xs| - 1];
      var x := xs[|xs| - 1];
      assert xs == init + [x];
      Dedup(init) + (if x in init then [] else [x])
  }

  /** `if (!m.has(k)) m.set(k, []); m.get(k).push(v)`. */
  function Put<V>(b: Buckets<V>, k: string, v: V): Buckets<V> {
    var i := Find(b, k);
    if i < 0 then b + [(k, [v])] else b[i := (k, b[i].1 + [v])]
  }

  /** The map after putting val(x) under key(x) for every x of xs, in order. */
  function GroupBy<T, V>(xs: seq<T>, key: T -> string, val: T -> V): Buckets<V> {
    if xs == [] then []
    else
      var x := xs[|xs| - 1];
      Put(GroupBy(xs[..|xs| - 1], key, val), key(x), val(x))
  }

  /** The values of the elements with key k, in input order. */
  function Select<T, V>(xs: seq<T>, key: T -> string, val: T -> V, k: string): (r: seq<V>)
    ensures |r| <= |xs|
  {
    if xs == [] then []
    else
      var x := xs[|xs| - 1];
      Select(xs[..|xs| - 1], key, val, k) + (if key(x) == k then [val(x)] else [])
  }

  /** `m.get(k)`, with a missing key read as no values. */
  function Entry<V>(b: Buckets<V>, k: string): (vs: seq<V>)
    ensures Find(b, k) >= 0 ==> vs == b[Find(b, k)].1
  {
    var i := Find(b, k);
    if i < 0 then [] else b[i].1
  }

  predicate DistinctKeys<V>(b: Buckets<V>) {
    forall i, j :: 0 <= i < j < |b| ==> b[i].0 != b[j].0
  }

  /** The keys, in insertion order. */
  function KeysOf<V>(b: Buckets<V>): (ks: seq<string>)
    ensures |ks| == |b| && forall i :: 0 <= i < |b| ==> ks[i] == b[i].0
  {
    if b == [] then [] else KeysOf(b[..|b| - 1]) + [b[|b| - 1].0]
  }

  lemma OnlyEntry<V>(b: Buckets<V>, k: string, i: int)
    requires DistinctKeys(b) && 0 <= i < |b| && i != Find(b, k)
    ensures b[i].0 != k
  {
    var f := Find(b, k);
    if f >= 0 && i > f {
      assert b[f].0 != b[i].0;
    }
  }

  lemma PutEntries<V>(b: Buckets<V>, k: string, v: V)
    ensures var b' := Put(b, k, v); var f := Find(b, k);
      && |b'| == (if f < 0 then |b| + 1 else |b|)
      && (f < 0 ==> b'[|b|] == (k, [v]))
      && (f >= 0 ==> b'[f] == (k, b[f].1 + [v]))
      && forall i :: 0 <= i < |b| && i != f ==> b'[i] == b[i]
  {
  }

  /** No key has two entries. */
  lemma {:induction false} GroupByDistinct<T, V>(xs: seq<T>, key: T -> string, val: T -> V)
    ensures DistinctKeys(GroupBy(xs, key, val))
    decreases |xs|
  {
    if xs != [] {
      var init := xs[..|xs| - 1];
      var x := xs[|xs| - 1];
      GroupByDistinct(init, key, val);
      var b0 := GroupBy(init, key, val);
      var b := GroupBy(xs, key, val);
      PutEntries(b0, key(x), val(x));
      var f := Find(b0, key(x));
      forall i, j | 0 <= i < j < |b|
        ensures b[i].0 != b[j].0
      {
        if j == |b0| {
          assert b[i] == b0[i] && b[j].0 == key(x);
        } else if i == f {
          OnlyEntry(b0, key(x), j);
          assert b[j] == b0[j];
        } else if j == f {
          OnlyEntry(b0, key(x), i);
          assert b[i] == b0[i];
        } else {
          assert b[i] == b0[i] && b[j] == b0[j];
        }
      }
    }
  }

  /** Entry i holds exactly the values of its key's elements, in input order. */
  ghost predicate EntryHolds<T, V>(xs: seq<T>, key: T -> string, val: T -> V, b: Buckets<V>, i: int)
    requires 0 <= i < |b|
  {
    b[i].1 == Select(xs, key, val, b[i].0) && |b[i].1| > 0
  }

  ghost predicate AllHold<T, V>(xs: seq<T>, key: T -> string, val: T -> V, b: Buckets<V>) {
    forall i :: 0 <= i < |b| ==> EntryHolds(xs, key, val, b, i)
  }

  /** Every entry holds exactly the values of its key's elements, in input order. */
  lemma {:induction false} GroupBySelect<T, V>(xs: seq<T>, key: T -> string, val: T -> V)
    ensures AllHold(xs, key, val, GroupBy(xs, key, val))
    decreases |xs|
  {
    if xs != [] {
      var init := xs[..|xs| - 1];
      var x := xs[|xs| - 1];
      GroupBySelect(init, key, val);
      var b0 := GroupBy(init, key, val);
      assert forall i :: 0 <= i < |b0| ==> EntryHolds(init, key, val, b0, i);
      GroupByDistinct(init, key, val);
      var b := GroupBy(xs, key, val);
      PutEntries(b0, key(x), val(x));
      var f := Find(b0, key(x));
      assert f < 0 ==> Select(init, key, val, key(x)) == [] by {
        if f < 0 && Select(init, key, val, key(x)) != [] {
          GroupByComplete(init, key, val, key(x));
        }
      }
      forall i | 0 <= i < |b|
        ensures EntryHolds(xs, key, val, b, i)
      {
        assert Select(xs, key, val, b[i].0)
               == Select(init, key, val, b[i].0) + (if key(x) == b[i].0 then [val(x)] else []);
        if i == |b0| {
          assert b[i] == (key(x), [val(x)]);
        } else if i == f {
          assert EntryHolds(init, key, val, b0, f);
          assert b[i] == (key(x), b0[f].1 + [val(x)]);
        } else {
          assert EntryHolds(init, key, val, b0, i);
          OnlyEntry(b0, key(x), i);
          assert b[i] == b0[i];
        }
      }
    }
  }

  /** Every key that some element has gets an entry. */
  lemma {:induction false} GroupByComplete<T, V>(xs: seq<T>, key: T -> string, val: T -> V, k: string)
    requires Select(xs, key, val, k) != []
    ensures Find(GroupBy(xs, key, val), k) >= 0
    decreases |xs|
  {
    var init := xs[..|xs| - 1];
    var x := xs[|xs| - 1];
    var b0 := GroupBy(init, key, val);
    PutEntries(b0, key(x), val(x));
    if key(x) != k {
      GroupByComplete(init, key, val, k);
      var i := Find(b0, k);
      assert GroupBy(xs, key, val)[i].0 == k;
    } else {
      var f := Find(b0, k);
      assert GroupBy(xs, key, val)[if f < 0 then |b0| else f].0 == k;
    }
  }

  /** Every element lands in the entry of its key. */
  lemma SelectHolds<T, V>(xs: seq<T>, key: T -> string, val: T -> V, p: int)
    requires 0 <= p < |xs|
    ensures Select(xs, key, val, key(xs[p])) != []
  {
    SelectCount(xs, key, val, p);
  }

  lemma {:induction false} SelectCount<T, V>(xs: seq<T>, key: T -> string, val: T -> V, p: int)
    requires 0 <= p < |xs|
    ensures |Select(xs, key, val, key(xs[p]))| > 0
    decreases |xs|
  {
    if p < |xs| - 1 {
      var init := xs[..|xs| - 1];
      assert init[p] == xs[p];
      SelectCount(init, key, val, p);
    }
  }

  /** The entries together hold each element's value once: their sizes add up to |xs|. */
  lemma {:induction false} GroupBySize<T, V>(xs: seq<T>, key: T -> string, val: T -> V)
    ensures TotalSize(GroupBy(xs, key, val)) == |xs|
    decreases |xs|
  {
    if xs != [] {
      var init := xs[..|xs| - 1];
      var x := xs[|xs| - 1];
      GroupBySize(init, key, val);
      var b0 := GroupBy(init, key, val);
      PutEntries(b0, key(x), val(x));
      var f := Find(b0, key(x));
      if f < 0 {
        TotalSizeAppend(b0, (key(x), [val(x)]));
      } else {
        TotalSizeUpdate(b0, f, (key(x), b0[f].1 + [val(x)]));
      }
    }
  }

  /** The `for (const x of xs) put(key(x), val(x))` loop. */
  method GroupAll<T, V>(xs: seq<T>, key: T -> string, val: T -> V) returns (b: Buckets<V>)
    ensures b == GroupBy(xs, key, val)
  {
    b := [];
    var i := 0;
    while i < |xs|
      invariant 0 <= i <= |xs|
      invariant b == GroupBy(xs[..i], key, val)
    {
      assert xs[..i + 1][..i] == xs[..i];
      b := Put(b, key(xs[i]), val(xs[i]));
      i := i + 1;
    }
    assert xs[..i] == xs;
  }

  /** Elements with pairwise different keys get one entry each, in input order. */
  lemma {:induction false} GroupByUnique<T, V>(xs: seq<T>, key: T -> string, val: T -> V)
    requires forall i, j :: 0 <= i < j < |xs| ==> key(xs[i]) != key(xs[j])
    ensures |GroupBy(xs, key, val)| == |xs|
    ensures forall i :: 0 <= i < |xs| ==> GroupBy(xs, key, val)[i] == (key(xs[i]), [val(xs[i])])
    decreases |xs|
  {
    if xs != [] {
      var init := xs[..|xs| - 1];
      var x := xs[|xs| - 1];
      assert forall i :: 0 <= i < |init| ==> init[i] == xs[i];
      GroupByUnique(init, key, val);
      var b0 := GroupBy(init, key, val);
      forall j | 0 <= j < |b0|
        ensures b0[j].0 != key(x)
      {
        assert b0[j].0 == key(xs[j]);
      }
      assert Find(b0, key(x)) == -1;
      var b := GroupBy(xs, key, val);
      assert b == b0 + [(key(x), [val(x)])];
      forall i | 0 <= i < |xs|
        ensures b[i] == (key(xs[i]), [val(xs[i])])
      {
        if i < |init| {
          assert b[i] == b0[i];
        }
      }
    }
  }

  function TotalSize<V>(b: Buckets<V>): nat {
    if b == [] then 0 else TotalSize(b[..|b| - 1]) + |b[|b| - 1].1|
  }

  lemma TotalSizeAppend<V>(b: Buckets<V>, e: (string, seq<V>))
    ensures TotalSize(b + [e]) == TotalSize(b) + |e.1|
  {
    assert (b + [e])[..|b|] == b;
  }

  lemma {:induction false} TotalSizeUpdate<V>(b: Buckets<V>, i: int, e: (string, seq<V>))
    requires 0 <= i < |b|
    ensures TotalSize(b[i := e]) == TotalSize(b) - |b[i].1| + |e.1|
    decreases |b|
  {
    var b' := b[i := e];
    if i < |b| - 1 {
      assert b'[..|b'| - 1] == b[..|b| - 1][i := e];
      TotalSizeUpdate(b[..|b| - 1], i, e);
    } else {
      assert b'[..|b'| - 1] == b[..|b| - 1];
    }
  }
}
