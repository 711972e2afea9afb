// The plurality vote of the proposal route (`mostFrequentNonEmpty` in
// src/routes/propuesta-pdf.js): the most frequent non-blank value of a field,
// used for a page's department, career and period metadata.
module Plurality {
  import opened JsValues

  /** `(v ?? "").toString().trim()`. */
  function Cleaned(v: Value): string {
    Trim(TextOf(v))
  }

  /** The values the tally counts: neither blank nor "-". */
  predicate Counted(s: string) {
    s != "" && s != "-"
  }

  /** Every value, cleaned. */
  function CleanAll(vs: seq<Value>): (ks: seq<string>)
    ensures |ks| == |vs|
  {
    if vs == [] then [] else CleanAll(vs[..|vs| - 1]) + [Cleaned(vs[|vs| - 1])]
  }

  lemma {:induction false} CleanAllAt(vs: seq<Value>, p: int)
    requires 0 <= p < |vs|
    ensures CleanAll(vs)[p] == Cleaned(vs[p])
    decreases |vs|
  {
    if p < |vs| - 1 {
      CleanAllAt(vs[..|vs| - 1], p);
    }
  }

  /** How many of the cleaned values are s. */
  function Count(ks: seq<string>, s: string): nat {
    if ks == [] then 0
    else Count(ks[..|ks| - 1], s) + (if ks[|ks| - 1] == s then 1 else 0)
  }

  /** An occurrence of a comes before every occurrence of b. */
  predicate SeenBefore(ks: seq<string>, a: string, b: string) {
    exists p :: 0 <= p < |ks| && ks[p] == a && forall q :: 0 <= q <= p ==> ks[q] != b
  }

  /** The frequency table: a `Map` from value to count, in insertion order. */
  type Tally = seq<(string, nat)>

  /** Where key s sits in the table, or -1 (`freq.get(s)` finding nothing). */
  function KeyIndex(t: Tally, s: string): (i: int)
    ensures -1 <= i < |t|
    ensures i >= 0 ==> t[i].0 == s && forall j :: 0 <= j < i ==> t[j].0 != s
    ensures i == -1 <==> forall j :: 0 <= j < |t| ==> t[j].0 != s
  {
    if t == [] then -1
    else if t[0].0 == s then 0
    else
      var j := KeyIndex(t[1..], s);
      if j < 0 then -1 else j + 1
  }

  /** `freq.set(s, (freq.get(s) || 0) + 1)`. */
  function Bump(t: Tally, s: string): Tally {
    var i := KeyIndex(t, s);
    if i < 0 then t + [(s, 1)] else t[i := (s, t[i].1 + 1)]
  }

  /** The table the first loop has built after reading the cleaned values ks. */
  function TallyOf(ks: seq<string>): Tally {
    if ks == [] then []
    else
      var t := TallyOf(ks[..|ks| - 1]);
      var s := ks[|ks| - 1];
      if Counted(s) then Bump(t, s) else t
  }

  /**
   * The entry the second loop keeps: strictly larger counts replace the best
   * so far, so it is the first entry of maximal count.
   */
  function BestIndex(t: Tally): (i: int)
    ensures -1 <= i < |t|
    ensures i == -1 <==> t == []
    ensures i >= 0 ==> forall j :: 0 <= j < |t| ==> t[j].1 <= t[i].1
    ensures i >= 0 ==> forall j :: 0 <= j < i ==> t[j].1 < t[i].1
  {
    if t == [] then -1
    else
      var b := BestIndex(t[..|t| - 1]);
      assert forall j :: 0 <= j < |t| - 1 ==> t[..|t| - 1][j] == t[j];
      if b < 0 || t[|t| - 1].1 > t[b].1 then |t| - 1 else b
  }

  /** The first most frequent counted value of ks, or "" when there is none. */
  function Mode(ks: seq<string>): string {
    var t := TallyOf(ks);
    var i := BestIndex(t);
    if i < 0 then "" else t[i].0
  }

  /** The value `mostFrequentNonEmpty` returns. */
  function MostFrequent(vs: seq<Value>): string {
    Mode(CleanAll(vs))
  }

  /** `mostFrequentNonEmpty`: count, then pick the first value of maximal count. */
  method MostFrequentNonEmpty(values: seq<Value>) returns (best: string)
    ensures best == MostFrequent(values)
  {
    var freq: Tally := [];
    var i := 0;
    while i < |values|
      invariant 0 <= i <= |values|
      invariant freq == TallyOf(CleanAll(values[..i]))
    {
      var s := Cleaned(values[i]);
      CleanStep(values, i);
      if Counted(s) {
        freq := Bump(freq, s);
      }
      i := i + 1;
    }
    assert values[..|values|] == values;
    best := PickBest(freq);
  }

  /** The second loop of `mostFrequentNonEmpty`: the first entry of maximal count wins. */
  method PickBest(freq: Tally) returns (best: string)
    ensures BestIndex(freq) < 0 ==> best == ""
    ensures BestIndex(freq) >= 0 ==> best == freq[BestIndex(freq)].0
  {
    best := "";
    var bestCount: int := -1;
    var j := 0;
    while j < |freq|
      invariant 0 <= j <= |freq|
      invariant BestIndex(freq[..j]) < 0 ==> best == "" && bestCount == -1
      invariant BestIndex(freq[..j]) >= 0 ==>
                  best == freq[BestIndex(freq[..j])].0 && bestCount == freq[BestIndex(freq[..j])].1
    {
      var (k, c) := freq[j];
      BestStep(freq, j);
      if c > bestCount {
        best := k;
        bestCount := c;
      }
      j := j + 1;
    }
    assert freq[..|freq|] == freq;
  }

  /** One turn of the counting loop. */
  lemma CleanStep(vs: seq<Value>, i: int)
    requires 0 <= i < |vs|
    ensures var s := Cleaned(vs[i]);
      TallyOf(CleanAll(vs[..i + 1]))
        == if Counted(s) then Bump(TallyOf(CleanAll(vs[..i])), s) else TallyOf(CleanAll(vs[..i]))
  {
    assert vs[..i + 1][..i] == vs[..i];
    var ks := CleanAll(vs[..i + 1]);
    assert ks[..i] == CleanAll(vs[..i]);
  }

  /** One turn of the selection loop. */
  lemma BestStep(t: Tally, j: int)
    requires 0 <= j < |t|
    ensures var b := BestIndex(t[..j]);
      BestIndex(t[..j + 1]) == if b < 0 || t[j].1 > t[b].1 then j else b
  {
    assert t[..j + 1][..j] == t[..j];
  }

  // ---------------------------------------------------------------------------
  // What the table holds

  lemma {:induction false} CountPositive(ks: seq<string>, s: string)
    ensures Count(ks, s) > 0 <==> exists p :: 0 <= p < |ks| && ks[p] == s
    decreases |ks|
  {
    if ks != [] {
      var init := ks[..|ks| - 1];
      CountPositive(init, s);
      assert forall p :: 0 <= p < |init| ==> init[p] == ks[p];
    }
  }

  /** Bumping s raises its entry, or appends it, and leaves the other entries alone. */
  lemma BumpEntries(t: Tally, s: string)
    ensures var t' := Bump(t, s); var k := KeyIndex(t, s);
      && |t'| == (if k < 0 then |t| + 1 else |t|)
      && (k < 0 ==> t'[|t|] == (s, 1))
      && (k >= 0 ==> t'[k] == (s, t[k].1 + 1))
      && forall i :: 0 <= i < |t| && i != k ==> t'[i] == t[i]
  {
  }

  predicate DistinctKeys(t: Tally) {
    forall i, j :: 0 <= i < j < |t| ==> t[i].0 != t[j].0
  }

  /** With distinct keys, only the entry KeyIndex finds holds s. */
  lemma OnlyEntry(t: Tally, s: string, i: int)
    requires DistinctKeys(t) && 0 <= i < |t| && i != KeyIndex(t, s)
    ensures t[i].0 != s
  {
    var k := KeyIndex(t, s);
    if k >= 0 && i > k {
      assert t[k].0 != t[i].0;
    }
  }

  /** Entries are counted values, each with its number of occurrences. */
  predicate CountsHeld(ks: seq<string>, t: Tally) {
    forall i :: 0 <= i < |t| ==> Counted(t[i].0) && t[i].1 == Count(ks, t[i].0) && t[i].1 > 0
  }

  /** Entries are counted values, each with its number of occurrences. */
  lemma {:induction false} TallyCounts(ks: seq<string>)
    ensures CountsHeld(ks, TallyOf(ks))
    decreases |ks|
  {
    if ks != [] {
      var init := ks[..|ks| - 1];
      TallyCounts(init);
      TallyDistinct(init);
      var t0 := TallyOf(init);
      assert CountsHeld(init, t0);
      var t := TallyOf(ks);
      var s := ks[|ks| - 1];
      if Counted(s) {
        BumpEntries(t0, s);
        var k := KeyIndex(t0, s);
        assert t == Bump(t0, s);
        assert k < 0 ==> Count(init, s) == 0 by {
          if Count(init, s) > 0 { TallyComplete(init, s); }
        }
        forall i | 0 <= i < |t|
          ensures Counted(t[i].0) && t[i].1 == Count(ks, t[i].0) && t[i].1 > 0
        {
          if i == |t0| {
            assert t[i] == (s, 1);
            assert Counted(t[i].0);
            assert Count(ks, s) == Count(init, s) + 1;
          } else if i == k {
            assert t[i] == (s, t0[k].1 + 1);
            assert Counted(t[i].0);
            assert Count(ks, s) == Count(init, s) + 1;
          } else {
            OnlyEntry(t0, s, i);
            assert t[i] == t0[i];
            assert Counted(t[i].0);
            assert Count(ks, t0[i].0) == Count(init, t0[i].0);
          }
        }
      } else {
        assert t == t0;
        forall i | 0 <= i < |t|
          ensures Counted(t[i].0) && t[i].1 == Count(ks, t[i].0) && t[i].1 > 0
        {
          assert Counted(t0[i].0) && t0[i].0 != s;
          assert Count(ks, t0[i].0) == Count(init, t0[i].0);
        }
      }
    }
  }

  /** No value has two entries. */
  lemma {:induction false} TallyDistinct(ks: seq<string>)
    ensures DistinctKeys(TallyOf(ks))
    decreases |ks|
  {
    if ks != [] {
      var init := ks[..|ks| - 1];
      TallyDistinct(init);
      var t0 := TallyOf(init);
      var t := TallyOf(ks);
      var s := ks[|ks| - 1];
      if Counted(s) {
        BumpEntries(t0, s);
        var k := KeyIndex(t0, s);
        forall i, j | 0 <= i < j < |t|
          ensures t[i].0 != t[j].0
        {
          if j == |t0| {
            assert t[i] == t0[i] && t[j].0 == s;
          } else if i == k {
            OnlyEntry(t0, s, j);
            assert t[i].0 == s && t[j] == t0[j];
          } else if j == k {
            OnlyEntry(t0, s, i);
            assert t[j].0 == s && t[i] == t0[i];
          } else {
            assert t[i] == t0[i] && t[j] == t0[j];
          }
        }
      }
    }
  }

  /** Every counted value that occurs has an entry. */
  lemma {:induction false} TallyComplete(ks: seq<string>, s: string)
    requires Counted(s) && Count(ks, s) > 0
    ensures KeyIndex(TallyOf(ks), s) >= 0
    decreases |ks|
  {
    var init := ks[..|ks| - 1];
    var t0 := TallyOf(init);
    var last := ks[|ks| - 1];
    if last != s {
      TallyComplete(init, s);
      var i := KeyIndex(t0, s);
      if Counted(last) {
        BumpEntries(t0, last);
        assert TallyOf(ks)[i].0 == s;
      }
    } else {
      BumpEntries(t0, s);
      var k := KeyIndex(t0, s);
      assert TallyOf(ks)[if k < 0 then |t0| else k].0 == s;
    }
  }

  /** The entries of t come in the order their values were first seen in ks. */
  predicate InSightOrder(ks: seq<string>, t: Tally) {
    forall i, j :: 0 <= i < j < |t| ==> SeenBefore(ks, t[i].0, t[j].0)
  }

  /** Table entries come in the order their values were first seen. */
  lemma {:induction false} TallyOrder(ks: seq<string>)
    ensures InSightOrder(ks, TallyOf(ks))
    decreases |ks|
  {
    if ks != [] {
      var init := ks[..|ks| - 1];
      TallyOrder(init);
      TallyCounts(init);
      var t0 := TallyOf(init);
      var t := TallyOf(ks);
      var s := ks[|ks| - 1];
      if Counted(s) {
        BumpEntries(t0, s);
      }
      forall i, j | 0 <= i < j < |t|
        ensures SeenBefore(ks, t[i].0, t[j].0)
      {
        if j < |t0| {
          assert t[i].0 == t0[i].0 && t[j].0 == t0[j].0;
          assert SeenBefore(init, t0[i].0, t0[j].0);
          var p :| 0 <= p < |init| && init[p] == t0[i].0
                   && forall q :: 0 <= q <= p ==> init[q] != t0[j].0;
          assert ks[p] == t[i].0;
          assert forall q :: 0 <= q <= p ==> ks[q] == init[q];
        } else {
          // j is the entry appended for s, which init never held
          assert KeyIndex(t0, s) < 0 && t[j].0 == s && t[i].0 == t0[i].0;
          assert Count(init, s) == 0 by {
            if Count(init, s) > 0 { TallyComplete(init, s); }
          }
          CountPositive(init, s);
          CountPositive(init, t0[i].0);
          var p :| 0 <= p < |init| && init[p] == t0[i].0;
          assert ks[p] == t[i].0;
          assert forall q :: 0 <= q <= p ==> ks[q] == init[q];
        }
      }
    }
  }

  // ---------------------------------------------------------------------------
  // The promises of mostFrequentNonEmpty

  /** The result is blank exactly when no value is counted. */
  lemma ModeBlank(ks: seq<string>)
    ensures Mode(ks) == "" <==> forall p :: 0 <= p < |ks| ==> !Counted(ks[p])
  {
    TallyCounts(ks);
    var t := TallyOf(ks);
    if p :| 0 <= p < |ks| && Counted(ks[p]) {
      CountPositive(ks, ks[p]);
      TallyComplete(ks, ks[p]);
    } else if t != [] {
      CountPositive(ks, t[0].0);
    }
  }

  /** A non-blank result is a value that occurs, and no value occurs more often. */
  lemma ModeIsMostFrequent(ks: seq<string>)
    ensures var r := Mode(ks);
      && (r != "" ==> Counted(r) && Count(ks, r) > 0)
      && forall s :: Counted(s) ==> Count(ks, s) <= Count(ks, r)
  {
    TallyCounts(ks);
    var t := TallyOf(ks);
    forall s | Counted(s)
      ensures Count(ks, s) <= Count(ks, Mode(ks))
    {
      if Count(ks, s) > 0 {
        TallyComplete(ks, s);
        var k := KeyIndex(t, s);
        assert t[k].1 <= t[BestIndex(t)].1;
      }
    }
  }

  /** Of two values that occur equally often, the one seen first wins. */
  lemma ModeFirstOnTie(ks: seq<string>, s: string)
    requires Counted(s) && Count(ks, s) > 0
    requires s != Mode(ks) && Count(ks, s) == Count(ks, Mode(ks))
    ensures SeenBefore(ks, Mode(ks), s)
  {
    TallyCounts(ks);
    TallyOrder(ks);
    TallyComplete(ks, s);
    var t := TallyOf(ks);
    var k := KeyIndex(t, s);
    var b := BestIndex(t);
    assert t[k].0 == s && t[b].0 == Mode(ks);
    assert t[k].1 == t[b].1;
  }

  /** Lifted to the raw field values: blank exactly when every value cleans to "" or "-". */
  lemma MostFrequentBlank(vs: seq<Value>)
    ensures MostFrequent(vs) == "" <==> forall p :: 0 <= p < |vs| ==> !Counted(Cleaned(vs[p]))
  {
    forall p | 0 <= p < |vs|
      ensures CleanAll(vs)[p] == Cleaned(vs[p])
    {
      CleanAllAt(vs, p);
    }
    ModeBlank(CleanAll(vs));
  }

  lemma ModeExample()
    ensures Mode(["Ingenieria", "-", "", "Derecho", "Derecho"]) == "Derecho"
  {
    var ks := ["Ingenieria", "-", "", "Derecho", "Derecho"];
    assert ks[..1][..0] == [];
    assert TallyOf(ks[..1]) == [("Ingenieria", 1)];
    assert ks[..2][..1] == ks[..1];
    assert TallyOf(ks[..2]) == [("Ingenieria", 1)];
    assert ks[..3][..2] == ks[..2];
    assert TallyOf(ks[..3]) == [("Ingenieria", 1)];
    assert ks[..4][..3] == ks[..3];
    assert TallyOf(ks[..4]) == [("Ingenieria", 1), ("Derecho", 1)];
    assert ks[..4] == ks[..|ks| - 1];
    assert KeyIndex([("Ingenieria", 1), ("Derecho", 1)], "Derecho") == 1;
    assert TallyOf(ks) == [("Ingenieria", 1), ("Derecho", 2)];
    var t: Tally := [("Ingenieria", 1), ("Derecho", 2)];
    assert t[..1] == [("Ingenieria", 1)] && t[..1][..0] == [];
  }
}
