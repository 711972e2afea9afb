// The movements table of the proposal document ("Propuesta de Movimientos"),
// drawn by `drawTable` in both proposal routes: how the two flexible columns
// share the width the fixed ones leave, the group header cells, the text
// fitted into a cell (ellipsis by binary search, font shrinking), the totals
// row, and the example rows used when a request carries none.
module ProposalTable {
  import opened JsValues
  import Grid

  // ---------------------------------------------------------------------------
  // Columns

  /** A column of `baseCols`; `group` is the header cell it belongs to, if any. */
  datatype Column = Column(key: string, w: real, group: Option<string>, flex: bool)

  function FixedCol(key: string, w: real): Column {
    Column(key, w, None, false)
  }

  function GroupCol(key: string, w: real, g: string): Column {
    Column(key, w, Some(g), false)
  }

  function FlexCol(key: string): Column {
    Column(key, 0.0, None, true)
  }

  /** The eighteen columns both routes declare, the two flexible ones at width 0 (titles left out). */
  const BaseCols: seq<Column> := [
    FixedCol("mov", 36.0), FixedCol("causa", 60.0), FixedCol("cat", 52.0),
    GroupCol("iD", 22.0, "INICIO"), GroupCol("iM", 22.0, "INICIO"), GroupCol("iA", 32.0, "INICIO"),
    GroupCol("tD", 22.0, "TERMINO"), GroupCol("tM", 22.0, "TERMINO"), GroupCol("tA", 32.0, "TERMINO"),
    FixedCol("plan", 32.0), FixedCol("cve", 36.0), FlexCol("asig"), FixedCol("grupo", 32.0),
    GroupCol("teo", 30.0, "HORAS"), GroupCol("pra", 30.0, "HORAS"), GroupCol("tot", 30.0, "HORAS"),
    FlexCol("hor"), FixedCol("salon", 48.0)
  ]

  /** Landscape A4 less a 22 pt margin on each side: the table box width. */
  const InnerW: real := 841.89 - 2.0 * 22.0

  const AsigMin: real := 320.0
  const HorMin: real := 200.0

  /** `cols.reduce((a, c) => a + c.w, 0)`. */
  function Span(cols: seq<Column>): real
    decreases |cols|
  {
    if cols == [] then 0.0 else Span(cols[..|cols| - 1]) + cols[|cols| - 1].w
  }

  /** `cols.filter((c) => !c.flex).reduce((a, c) => a + c.w, 0)`. */
  function FixedTotal(cols: seq<Column>): real
    decreases |cols|
  {
    if cols == [] then 0.0
    else FixedTotal(cols[..|cols| - 1]) + (if cols[|cols| - 1].flex then 0.0 else cols[|cols| - 1].w)
  }

  /** What the flexible columns add to the width. */
  function FlexTotal(cols: seq<Column>): real
    decreases |cols|
  {
    if cols == [] then 0.0
    else FlexTotal(cols[..|cols| - 1]) + (if cols[|cols| - 1].flex then cols[|cols| - 1].w else 0.0)
  }

  /** `cols.findIndex((c) => c.key === key)`: the first column with that key, or -1. */
  function FindIndex(cols: seq<Column>, key: string): (k: int)
    ensures -1 <= k < |cols|
    ensures k >= 0 ==> cols[k].key == key
  {
    FindFrom(cols, key, 0)
  }

  /** The search of `findIndex` from position `i` on. */
  function FindFrom(cols: seq<Column>, key: string, i: int): (k: int)
    requires 0 <= i <= |cols|
    ensures k == -1 || (i <= k < |cols| && cols[k].key == key)
    decreases |cols| - i
  {
    if i == |cols| then -1
    else if cols[i].key == key then i
    else FindFrom(cols, key, i + 1)
  }

  /** `cols.find((c) => c.key === key).w = w`, on a value (no such column: unchanged). */
  function WithWidth(cols: seq<Column>, key: string, w: real): (r: seq<Column>) {
    var k := FindIndex(cols, key);
    if k < 0 then cols else cols[k := cols[k].(w := w)]
  }

  /** No column before the one found, and none at all when -1, has the key. */
  lemma {:induction false} FindIndexFirst(cols: seq<Column>, key: string, j: int)
    requires 0 <= j < |cols|
    requires FindIndex(cols, key) < 0 || j < FindIndex(cols, key)
    ensures cols[j].key != key
  {
    FindFromFirst(cols, key, 0, j);
  }

  lemma {:induction false} FindFromFirst(cols: seq<Column>, key: string, i: int, j: int)
    requires 0 <= i <= j < |cols|
    requires FindFrom(cols, key, i) < 0 || j < FindFrom(cols, key, i)
    ensures cols[j].key != key
    decreases j - i
  {
    if i < j {
      FindFromFirst(cols, key, i + 1, j);
    }
  }

  lemma {:induction false} FindIndexAt(cols: seq<Column>, key: string, i: int)
    requires 0 <= i < |cols| && cols[i].key == key
    requires forall j :: 0 <= j < i ==> cols[j].key != key
    ensures FindIndex(cols, key) == i
  {
    var k := FindIndex(cols, key);
    if k < 0 || i < k {
      FindIndexFirst(cols, key, i);
    }
  }

  /** `Math.max(min, Math.min(max, n))`. */
  function Clamp(n: real, lo: real, hi: real): (r: real)
    ensures lo <= hi ==> lo <= r <= hi
    ensures lo <= n <= hi ==> r == n
    ensures hi < lo ==> r == lo
    ensures n < lo ==> r == lo
    ensures lo <= hi < n ==> r == hi
  {
    Max(lo, Min(hi, n))
  }

  /**
   * The widths of the subject and timetable columns out of `remaining`, the width
   * the fixed columns leave: a 65/35 split, corrected when either falls under its
   * minimum.
   */
  function Flex(remaining: real): (aw: (real, real)) {
    var asig0 := Grid.Round(remaining * 0.65) as real;
    var hor0 := remaining - asig0;
    if asig0 >= AsigMin && hor0 >= HorMin then (asig0, hor0)
    else if remaining <= 0.0 then (AsigMin, HorMin)
    else if remaining < AsigMin + HorMin then
      var a := Clamp(Grid.Round(remaining * (AsigMin / (AsigMin + HorMin))) as real, 60.0, remaining - 60.0);
      (a, remaining - a)
    else
      var a1 := Max(asig0, AsigMin);
      var h1 := Max(hor0, HorMin);
      var over := a1 + h1 - remaining;
      (if over > 0.0 then Max(AsigMin, a1 - over) else a1, h1)
  }

  /** The columns once the two flexible widths are written in. */
  function Sized(boxW: real): seq<Column> {
    SizedFrom(BaseCols, boxW)
  }

  /** A column list with the flexible widths negotiated for what its fixed columns leave of boxW. */
  function SizedFrom(base: seq<Column>, boxW: real): seq<Column> {
    var aw := Flex(boxW - FixedTotal(base));
    WithWidth(WithWidth(base, "asig", aw.0), "hor", aw.1)
  }

  /** The `asigW` / `horW` negotiation of `drawTable`. */
  method NegotiateFlex(remaining: real) returns (asigW: real, horW: real)
    ensures (asigW, horW) == Flex(remaining)
  {
    asigW := Grid.Round(remaining * 0.65) as real;
    horW := remaining - asigW;
    if asigW < AsigMin || horW < HorMin {
      var totalMin := AsigMin + HorMin;
      if remaining <= 0.0 {
        asigW := AsigMin;
        horW := HorMin;
      } else if remaining < totalMin {
        asigW := Clamp(Grid.Round(remaining * (AsigMin / totalMin)) as real, 60.0, remaining - 60.0);
        horW := remaining - asigW;
      } else {
        asigW := Max(asigW, AsigMin);
        horW := Max(horW, HorMin);
        var over := asigW + horW - remaining;
        if over > 0.0 {
          asigW := Max(AsigMin, asigW - over);
        }
      }
    }
  }

  /** The column list `drawTable` lays out: base columns, then the flexible widths written in place. */
  method SizeColumns(boxW: real) returns (cols: array<Column>)
    ensures cols[..] == Sized(boxW)
  {
    BaseKeys();
    cols := SizeFrom(BaseCols, boxW);
  }

  /** A fresh array holding the column literal built on each call, then the two `find(...).w =` writes. */
  method SizeFrom(base: seq<Column>, boxW: real) returns (cols: array<Column>)
    requires FindIndex(base, "asig") >= 0 && FindIndex(base, "hor") >= 0
    ensures fresh(cols)
    ensures cols[..] == SizedFrom(base, boxW)
  {
    cols := new Column[|base|](i requires 0 <= i < |base| => base[i]);
    var asigW, horW := NegotiateFlex(boxW - FixedTotal(base));
    assert cols[..] == base;
    SetWidth(cols, "asig", asigW);
    WithWidthKeys(base, "asig", asigW, "hor");
    SetWidth(cols, "hor", horW);
  }

  /** `cols.find((c) => c.key === key).w = w`: the first column with the key gets the width. */
  method SetWidth(cols: array<Column>, key: string, w: real)
    requires FindIndex(cols[..], key) >= 0
    modifies cols
    ensures cols[..] == WithWidth(old(cols[..]), key, w)
  {
    ghost var k := FindIndex(cols[..], key);
    var i := 0;
    while cols[i].key != key
      invariant 0 <= i <= k
      invariant forall j :: 0 <= j < i ==> cols[j].key != key
      decreases k - i
    {
      if i == k {
        assert false;
      }
      i := i + 1;
    }
    FindIndexAt(cols[..], key, i);
    cols[i] := cols[i].(w := w);
  }

  lemma FindIndexSameKeys(a: seq<Column>, b: seq<Column>, key: string)
    requires |a| == |b| && forall i :: 0 <= i < |a| ==> a[i].key == b[i].key
    ensures FindIndex(a, key) == FindIndex(b, key)
  {
    FindFromSameKeys(a, b, key, 0);
  }

  lemma {:induction false} FindFromSameKeys(a: seq<Column>, b: seq<Column>, key: string, i: int)
    requires |a| == |b| && forall i :: 0 <= i < |a| ==> a[i].key == b[i].key
    requires 0 <= i <= |a|
    ensures FindFrom(a, key, i) == FindFrom(b, key, i)
    decreases |a| - i
  {
    if i < |a| && a[i].key != key {
      FindFromSameKeys(a, b, key, i + 1);
    }
  }

  /** Writing a width keeps every key, so later look-ups find the same columns. */
  lemma WithWidthKeys(cols: seq<Column>, key: string, w: real, k: string)
    ensures FindIndex(WithWidth(cols, key, w), k) == FindIndex(cols, k)
  {
    FindIndexSameKeys(WithWidth(cols, key, w), cols, k);
  }

  /** Every column counts once, as fixed or as flexible. */
  lemma {:induction false} SpanSplit(cols: seq<Column>)
    ensures Span(cols) == FixedTotal(cols) + FlexTotal(cols)
    decreases |cols|
  {
    if cols != [] {
      SpanSplit(cols[..|cols| - 1]);
    }
  }

  /** A new width on a flexible column moves only the flexible share. */
  lemma {:induction false} ResizeFlex(cols: seq<Column>, i: int, w: real)
    requires 0 <= i < |cols| && cols[i].flex
    ensures FixedTotal(cols[i := cols[i].(w := w)]) == FixedTotal(cols)
    ensures FlexTotal(cols[i := cols[i].(w := w)]) == FlexTotal(cols) - cols[i].w + w
    decreases |cols|
  {
    var c := cols[i := cols[i].(w := w)];
    var n := |cols| - 1;
    if i < n {
      assert c[..n] == cols[..n][i := cols[i].(w := w)];
      ResizeFlex(cols[..n], i, w);
    } else {
      assert c[..n] == cols[..n];
    }
  }

  lemma FixedStep(cols: seq<Column>, k: int)
    requires 0 <= k < |cols|
    ensures FixedTotal(cols[..k + 1]) == FixedTotal(cols[..k]) + (if cols[k].flex then 0.0 else cols[k].w)
  {
    assert cols[..k + 1][..k] == cols[..k];
  }

  /** The base columns: 538 pt fixed, the flexible ones at 0. */
  lemma BaseWidths()
    ensures FixedTotal(BaseCols) == 538.0 && FlexTotal(BaseCols) == 0.0
  {
    var c := BaseCols;
    assert c[..0] == [];
    FixedStep(c, 0); FixedStep(c, 1); FixedStep(c, 2); FixedStep(c, 3); FixedStep(c, 4); FixedStep(c, 5);
    FixedStep(c, 6); FixedStep(c, 7); FixedStep(c, 8); FixedStep(c, 9); FixedStep(c, 10); FixedStep(c, 11);
    FixedStep(c, 12); FixedStep(c, 13); FixedStep(c, 14); FixedStep(c, 15); FixedStep(c, 16); FixedStep(c, 17);
    assert c[..18] == c;
    FlexZero(c, 18);
  }

  /** Where the keys `drawTable` looks up sit among the base columns. */
  lemma BaseKeys()
    ensures FindIndex(BaseCols, "asig") == 11 && BaseCols[11].flex
    ensures FindIndex(BaseCols, "hor") == 16 && BaseCols[16].flex
    ensures FindIndex(BaseCols, "grupo") == 12
    ensures FindIndex(BaseCols, "teo") == 13 && FindIndex(BaseCols, "pra") == 14 && FindIndex(BaseCols, "tot") == 15
  {
    BaseKeyFirst("asig", 11);
    BaseKeyFirst("grupo", 12);
    BaseKeyFirst("teo", 13);
    BaseKeyFirst("pra", 14);
    BaseKeyFirst("tot", 15);
    BaseKeyFirst("hor", 16);
  }

  lemma BaseKeyFirst(key: string, i: int)
    requires 11 <= i <= 16 && BaseCols[i].key == key
    ensures FindIndex(BaseCols, key) == i
  {
    forall j | 0 <= j < i
      ensures BaseCols[j].key != key
    {
    }
    FindIndexAt(BaseCols, key, i);
  }

  lemma {:induction false} FlexZero(cols: seq<Column>, n: nat)
    requires n <= |cols| && forall i :: 0 <= i < |cols| ==> cols[i].flex ==> cols[i].w == 0.0
    ensures FlexTotal(cols[..n]) == 0.0
  {
    if n > 0 {
      assert cols[..n][..n - 1] == cols[..n - 1];
      FlexZero(cols, n - 1);
    }
  }

  // ---------------------------------------------------------------------------
  // Properties of the flexible widths

  /** With room left, the two flexible columns take exactly that room. */
  lemma FlexFillsRemaining(remaining: real)
    requires remaining > 0.0
    ensures Flex(remaining).0 + Flex(remaining).1 == remaining
  {
    if remaining >= AsigMin + HorMin {
      assert Grid.Round(remaining * 0.65) >= 338;
    }
  }

  /** From 520 pt on, both minimums hold. */
  lemma FlexMeetsMinimums(remaining: real)
    requires remaining >= AsigMin + HorMin
    ensures Flex(remaining).0 >= AsigMin && Flex(remaining).1 >= HorMin
  {
    assert Grid.Round(remaining * 0.65) >= 338;
  }

  /** From 573 pt on, the plain 65/35 split stands. */
  lemma FlexProportional(remaining: real)
    requires remaining >= 573.0
    ensures Flex(remaining) == (Grid.Round(remaining * 0.65) as real, remaining - Grid.Round(remaining * 0.65) as real)
  {
    assert Grid.Round(remaining * 0.65) as real <= remaining * 0.65 + 0.5;
  }

  /** No room at all: the minimums themselves, wider than the box. */
  lemma FlexNoRoom(remaining: real)
    requires remaining <= 0.0
    ensures Flex(remaining) == (AsigMin, HorMin)
  {
    assert Grid.Round(remaining * 0.65) <= 0;
  }

  /** Between 120 and 520 pt, the room is cut 320:200 and each column keeps 60 pt. */
  lemma FlexNarrow(remaining: real)
    requires 120.0 <= remaining < AsigMin + HorMin
    ensures 60.0 <= Flex(remaining).0 && 60.0 <= Flex(remaining).1
    ensures Flex(remaining).0 == Clamp(Grid.Round(remaining * (8.0 / 13.0)) as real, 60.0, remaining - 60.0)
  {
    assert AsigMin / (AsigMin + HorMin) == 8.0 / 13.0;
  }

  /** Under 120 pt the subject column still takes 60 pt and the timetable column the rest, possibly negative. */
  lemma FlexTiny(remaining: real)
    requires 0.0 < remaining < 120.0
    ensures Flex(remaining) == (60.0, remaining - 60.0)
  {
  }

  /**
   * On the shipped page the fixed columns leave 259.89 pt: the subject column
   * gets 160 and the timetable column 99.89, neither at its minimum.
   */
  lemma ShippedFlex()
    ensures InnerW - FixedTotal(BaseCols) == 259.89
    ensures Flex(InnerW - FixedTotal(BaseCols)) == (160.0, 99.89)
  {
    BaseWidths();
    assert Grid.Round(259.89 * 0.65) == 169;
    assert Grid.Round(259.89 * (AsigMin / (AsigMin + HorMin))) == 160;
  }

  /** Whenever the fixed columns leave room, the sized columns span the box exactly. */
  lemma SizedSpansBox(boxW: real)
    requires boxW > 538.0
    ensures |Sized(boxW)| == |BaseCols|
    ensures Span(Sized(boxW)) == boxW
  {
    BaseWidths();
    BaseKeys();
    var aw := Flex(boxW - 538.0);
    var c1 := WithWidth(BaseCols, "asig", aw.0);
    assert c1 == BaseCols[11 := BaseCols[11].(w := aw.0)];
    ResizeFlex(BaseCols, 11, aw.0);
    WithWidthKeys(BaseCols, "asig", aw.0, "hor");
    assert c1[16] == BaseCols[16];
    var c2 := WithWidth(c1, "hor", aw.1);
    assert c2 == c1[16 := c1[16].(w := aw.1)];
    ResizeFlex(c1, 16, aw.1);
    SpanSplit(c2);
    FlexFillsRemaining(boxW - 538.0);
  }

  // ---------------------------------------------------------------------------
  // Group header cells

  /** A header cell over columns `first .. end - 1`, at `x`, `w` wide. */
  datatype Run = Run(group: Option<string>, first: nat, end: nat, x: real, w: real)

  /**
   * `runs` cut `cols[..n]` into maximal stretches of one group, left to right,
   * each placed where its first column starts and as wide as its columns.
   */
  predicate Tiles(cols: seq<Column>, xStart: real, runs: seq<Run>, n: nat)
    requires n <= |cols|
  {
    Partition(runs, n) && Maximal(cols, runs, n) && Placed(cols, xStart, runs, n)
  }

  /** The runs cut `0 .. n` into consecutive non-empty stretches. */
  predicate Partition(runs: seq<Run>, n: nat) {
    && (runs == [] <==> n == 0)
    && (runs != [] ==> runs[0].first == 0 && runs[|runs| - 1].end == n)
    && (forall k :: 0 <= k < |runs| ==> runs[k].first < runs[k].end <= n)
    && (forall k :: 0 <= k < |runs| - 1 ==> runs[k].end == runs[k + 1].first)
  }

  /** Each run's columns share its group, and neighbouring runs differ in group. */
  predicate Maximal(cols: seq<Column>, runs: seq<Run>, n: nat)
    requires n <= |cols|
  {
    && (forall k :: 0 <= k < |runs| - 1 ==> runs[k].group != runs[k + 1].group)
    && (forall k, i :: 0 <= k < |runs| && runs[k].first <= i < runs[k].end <= n ==> cols[i].group == runs[k].group)
  }

  /** Each run sits where its first column starts and is as wide as its columns. */
  predicate Placed(cols: seq<Column>, xStart: real, runs: seq<Run>, n: nat)
    requires n <= |cols|
  {
    forall k :: 0 <= k < |runs| && runs[k].first <= runs[k].end <= n ==>
      (runs[k].x == xStart + Span(cols[..runs[k].first]) && runs[k].w == Span(cols[runs[k].first..runs[k].end]))
  }

  lemma {:induction false} SpanAppend(a: seq<Column>, b: seq<Column>)
    ensures Span(a + b) == Span(a) + Span(b)
    decreases |b|
  {
    if b == [] {
      assert a + b == a;
    } else {
      assert (a + b)[..|a + b| - 1] == a + b[..|b| - 1];
      assert (a + b)[|a + b| - 1] == b[|b| - 1];
      SpanAppend(a, b[..|b| - 1]);
    }
  }

  lemma SpanCut(cols: seq<Column>, i: int, j: int)
    requires 0 <= i <= j <= |cols|
    ensures Span(cols[..j]) == Span(cols[..i]) + Span(cols[i..j])
  {
    assert cols[..j] == cols[..i] + cols[i..j];
    SpanAppend(cols[..i], cols[i..j]);
  }

  lemma SpanGrow(cols: seq<Column>, i: int, j: int)
    requires 0 <= i <= j < |cols|
    ensures Span(cols[i..j + 1]) == Span(cols[i..j]) + cols[j].w
  {
    assert cols[i..j + 1][..j - i] == cols[i..j];
  }

  /** The first header row: one cell per maximal run of columns sharing a group. */
  method GroupHeaders(cols: seq<Column>, xStart: real) returns (runs: seq<Run>, cx: real)
    ensures Tiles(cols, xStart, runs, |cols|)
    ensures cx == xStart + Span(cols)
  {
    runs := [];
    cx := xStart;
    var i := 0;
    while i < |cols|
      invariant 0 <= i <= |cols|
      invariant Tiles(cols, xStart, runs, i)
      invariant cx == xStart + Span(cols[..i])
      invariant runs != [] && i < |cols| ==> cols[i].group != runs[|runs| - 1].group
    {
      var g := cols[i].group;
      var j, spanW := RunFrom(cols, i);
      SpanCut(cols, i, j);
      TilesExtend(cols, xStart, runs, i, j, g, cx, spanW);
      runs := runs + [Run(g, i, j, cx, spanW)];
      cx := cx + spanW;
      i := j;
    }
    assert cols[..|cols|] == cols;
  }

  /** The inner `while` of the header row: the columns from `i` on that share its group. */
  method RunFrom(cols: seq<Column>, i: nat) returns (j: nat, spanW: real)
    requires i < |cols|
    ensures i < j <= |cols| && spanW == Span(cols[i..j])
    ensures forall k :: i <= k < j ==> cols[k].group == cols[i].group
    ensures j == |cols| || cols[j].group != cols[i].group
  {
    var g := cols[i].group;
    spanW := cols[i].w;
    j := i + 1;
    assert cols[i..i + 1] == [cols[i]];
    assert [cols[i]][..0] == [];
    while j < |cols| && cols[j].group == g
      invariant i < j <= |cols|
      invariant spanW == Span(cols[i..j])
      invariant forall k :: i <= k < j ==> cols[k].group == g
    {
      SpanGrow(cols, i, j);
      spanW := spanW + cols[j].w;
      j := j + 1;
    }
  }

  /** One more maximal run keeps the tiling. */
  lemma TilesExtend(cols: seq<Column>, xStart: real, runs: seq<Run>, i: nat, j: nat, g: Option<string>, x: real, w: real)
    requires i < j <= |cols| && Tiles(cols, xStart, runs, i)
    requires x == xStart + Span(cols[..i]) && w == Span(cols[i..j])
    requires forall k :: i <= k < j ==> cols[k].group == g
    requires runs != [] ==> runs[|runs| - 1].group != g
    ensures Tiles(cols, xStart, runs + [Run(g, i, j, x, w)], j)
  {
    PartitionExtend(runs, i, j, g, x, w);
    MaximalExtend(cols, runs, i, j, g, x, w);
    PlacedExtend(cols, xStart, runs, i, j, g, x, w);
  }

  lemma PartitionExtend(runs: seq<Run>, i: nat, j: nat, g: Option<string>, x: real, w: real)
    requires i < j && Partition(runs, i)
    ensures Partition(runs + [Run(g, i, j, x, w)], j)
  {
    var rs := runs + [Run(g, i, j, x, w)];
    assert forall k :: 0 <= k < |runs| ==> rs[k] == runs[k];
  }

  lemma MaximalExtend(cols: seq<Column>, runs: seq<Run>, i: nat, j: nat, g: Option<string>, x: real, w: real)
    requires i < j <= |cols| && Partition(runs, i) && Maximal(cols, runs, i)
    requires forall k :: i <= k < j ==> cols[k].group == g
    requires runs != [] ==> runs[|runs| - 1].group != g
    ensures Maximal(cols, runs + [Run(g, i, j, x, w)], j)
  {
    var rs := runs + [Run(g, i, j, x, w)];
    assert forall k :: 0 <= k < |runs| ==> rs[k] == runs[k];
    forall k, c | 0 <= k < |rs| && rs[k].first <= c < rs[k].end <= j
      ensures cols[c].group == rs[k].group
    {
      if k < |runs| {
        assert runs[k].end <= i;
      }
    }
  }

  lemma PlacedExtend(cols: seq<Column>, xStart: real, runs: seq<Run>, i: nat, j: nat, g: Option<string>, x: real, w: real)
    requires i < j <= |cols| && Partition(runs, i) && Placed(cols, xStart, runs, i)
    requires x == xStart + Span(cols[..i]) && w == Span(cols[i..j])
    ensures Placed(cols, xStart, runs + [Run(g, i, j, x, w)], j)
  {
    var rs := runs + [Run(g, i, j, x, w)];
    assert forall k :: 0 <= k < |runs| ==> rs[k] == runs[k];
    forall k | 0 <= k < |rs| && rs[k].first <= rs[k].end <= j
      ensures rs[k].x == xStart + Span(cols[..rs[k].first]) && rs[k].w == Span(cols[rs[k].first..rs[k].end])
    {
      if k < |runs| {
        assert runs[k].end <= i;
      }
    }
  }

  /** Every column sits under exactly one header cell. */
  lemma {:induction false} ColumnUnderOneRun(cols: seq<Column>, xStart: real, runs: seq<Run>, i: int)
    requires Tiles(cols, xStart, runs, |cols|) && 0 <= i < |cols|
    ensures exists k :: 0 <= k < |runs| && runs[k].first <= i < runs[k].end
    ensures forall k, l :: (0 <= k < |runs| && 0 <= l < |runs| && runs[k].first <= i < runs[k].end &&
      runs[l].first <= i < runs[l].end) ==> k == l
  {
    RunsAscend(cols, xStart, runs);
    var k := 0;
    while runs[k].end <= i
      invariant 0 <= k < |runs| && runs[k].first <= i
      decreases |runs| - k
    {
      k := k + 1;
    }
  }

  /** Header cells start strictly left to right. */
  lemma {:induction false} RunsAscend(cols: seq<Column>, xStart: real, runs: seq<Run>)
    requires Tiles(cols, xStart, runs, |cols|)
    ensures forall k, l :: 0 <= k < l < |runs| ==> runs[k].end <= runs[l].first
  {
    forall k, l | 0 <= k < l < |runs|
      ensures runs[k].end <= runs[l].first
    {
      var m := k + 1;
      while m < l
        invariant k < m <= l && runs[k].end <= runs[m].first
        decreases l - m
      {
        m := m + 1;
      }
    }
  }

  // ---------------------------------------------------------------------------
  // The totals row

  datatype HourTotals = HourTotals(teo: JsNumber, pra: JsNumber, tot: JsNumber)

  /** `+r[key] || 0`. */
  function Hours(r: Record, key: string): (x: JsNumber)
    ensures x != NaN
    ensures key !in r ==> x == Finite(0)
  {
    OrZero(ToNumber(Get(r, key)))
  }

  function AddTotals(a: HourTotals, b: HourTotals): HourTotals {
    HourTotals(Add(a.teo, b.teo), Add(a.pra, b.pra), Add(a.tot, b.tot))
  }

  /** The `rows.reduce` that accumulates the three hour columns. */
  function Totals(rows: seq<Record>): HourTotals
    decreases |rows|
  {
    if rows == [] then HourTotals(Finite(0), Finite(0), Finite(0))
    else
      var r := rows[|rows| - 1];
      AddTotals(Totals(rows[..|rows| - 1]), HourTotals(Hours(r, "teo"), Hours(r, "pra"), Hours(r, "tot")))
  }

  /** Totals over two batches of rows add up. */
  lemma {:induction false} TotalsAppend(a: seq<Record>, b: seq<Record>)
    ensures Totals(a + b) == AddTotals(Totals(a), Totals(b))
    decreases |b|
  {
    if b == [] {
      assert a + b == a;
    } else {
      var r := b[|b| - 1];
      var h := HourTotals(Hours(r, "teo"), Hours(r, "pra"), Hours(r, "tot"));
      assert (a + b)[..|a + b| - 1] == a + b[..|b| - 1];
      TotalsAppend(a, b[..|b| - 1]);
      var ta, tb := Totals(a), Totals(b[..|b| - 1]);
      AddAssociates(ta.teo, tb.teo, h.teo);
      AddAssociates(ta.pra, tb.pra, h.pra);
      AddAssociates(ta.tot, tb.tot, h.tot);
    }
  }

  /** A row without hour fields adds nothing. */
  lemma RowWithoutHours(rows: seq<Record>, r: Record)
    requires "teo" !in r && "pra" !in r && "tot" !in r
    ensures Totals(rows + [r]) == Totals(rows)
  {
    assert (rows + [r])[..|rows|] == rows;
    var t := Totals(rows);
    assert Add(t.teo, Finite(0)) == t.teo && Add(t.pra, Finite(0)) == t.pra && Add(t.tot, Finite(0)) == t.tot;
  }

  /** Where the totals row puts the label and the three sums. */
  datatype TotalsLine = TotalsLine(labelSpan: real, teoX: real, praX: real, totX: real)

  /**
   * "Totales:" spans every column before Grupo; the sums follow Grupo, each
   * as wide as the column with its key.
   */
  function TotalsAt(cols: seq<Column>, xStart: real): TotalsLine
    requires FindIndex(cols, "grupo") >= 0 && FindIndex(cols, "teo") >= 0 && FindIndex(cols, "pra") >= 0
  {
    var g := FindIndex(cols, "grupo");
    var labelSpan := Span(cols[..g]);
    var teoX := xStart + labelSpan + cols[g].w;
    var praX := teoX + cols[FindIndex(cols, "teo")].w;
    TotalsLine(labelSpan, teoX, praX, praX + cols[FindIndex(cols, "pra")].w)
  }

  /** Where Teo., Prác. and Tot. follow Grupo, each sum sits at its column's x. */
  lemma TotalsUnderColumns(cols: seq<Column>, xStart: real)
    requires FindIndex(cols, "grupo") >= 0
    requires FindIndex(cols, "teo") == FindIndex(cols, "grupo") + 1
    requires FindIndex(cols, "pra") == FindIndex(cols, "grupo") + 2
    requires FindIndex(cols, "tot") == FindIndex(cols, "grupo") + 3
    ensures var g := FindIndex(cols, "grupo");
      var t := TotalsAt(cols, xStart);
      && xStart + t.labelSpan == xStart + Span(cols[..g])
      && t.teoX == xStart + Span(cols[..g + 1])
      && t.praX == xStart + Span(cols[..g + 2])
      && t.totX == xStart + Span(cols[..g + 3])
  {
    var g := FindIndex(cols, "grupo");
    SpanGrow(cols, 0, g);
    SpanGrow(cols, 0, g + 1);
    SpanGrow(cols, 0, g + 2);
    assert cols[0..g] == cols[..g] && cols[0..g + 1] == cols[..g + 1];
    assert cols[0..g + 2] == cols[..g + 2] && cols[0..g + 3] == cols[..g + 3];
  }

  /** On the sized table the label covers the twelve columns before Grupo and the sums line up. */
  lemma ShippedTotalsLine(boxW: real, xStart: real)
    ensures var c := Sized(boxW);
      && FindIndex(c, "grupo") == 12 && FindIndex(c, "teo") == 13
      && FindIndex(c, "pra") == 14 && FindIndex(c, "tot") == 15
      && TotalsAt(c, xStart).labelSpan == Span(c[..12])
      && TotalsAt(c, xStart).teoX == xStart + Span(c[..13])
      && TotalsAt(c, xStart).praX == xStart + Span(c[..14])
      && TotalsAt(c, xStart).totX == xStart + Span(c[..15])
  {
    BaseKeys();
    SizedFromKeys(BaseCols, boxW, "grupo");
    SizedFromKeys(BaseCols, boxW, "teo");
    SizedFromKeys(BaseCols, boxW, "pra");
    SizedFromKeys(BaseCols, boxW, "tot");
    TotalsUnderColumns(Sized(boxW), xStart);
  }

  /** Writing the flexible widths moves no key. */
  lemma SizedFromKeys(base: seq<Column>, boxW: real, k: string)
    ensures FindIndex(SizedFrom(base, boxW), k) == FindIndex(base, k)
  {
    var aw := Flex(boxW - FixedTotal(base));
    WithWidthKeys(base, "asig", aw.0, k);
    WithWidthKeys(WithWidth(base, "asig", aw.0), "hor", aw.1, k);
  }

  // ---------------------------------------------------------------------------
  // textClamp

  const Ellipsis: char := '\U{2026}'

  /** `s.slice(0, m) + "…"` fits in `maxW`. */
  predicate CandidateFits(width: string -> real, s: string, maxW: real, m: int)
    requires 0 <= m <= |s|
  {
    width(s[..m] + [Ellipsis]) <= maxW
  }

  /** Wider text never measures less: the candidates grow with their prefix. */
  predicate Monotone(width: string -> real, s: string) {
    forall i, j :: 0 <= i <= j <= |s| ==> width(s[..i] + [Ellipsis]) <= width(s[..j] + [Ellipsis])
  }

  /** The longest prefix shorter than `m` whose candidate fits, or -1. */
  function LongestFit(width: string -> real, s: string, maxW: real, m: int): (k: int)
    requires 0 <= m <= |s|
    ensures -1 <= k < m
    ensures k >= 0 ==> CandidateFits(width, s, maxW, k)
    ensures forall j :: k < j < m ==> !CandidateFits(width, s, maxW, j)
    decreases m
  {
    if m == 0 then -1
    else if CandidateFits(width, s, maxW, m - 1) then m - 1
    else LongestFit(width, s, maxW, m - 1)
  }

  /** The text a cell shows: the whole text if it fits, else its longest fitting prefix and "…". */
  function Clamped(width: string -> real, s: string, maxW: real): (r: string)
    ensures width(s) <= maxW ==> r == s
    ensures width(s) > maxW ==> 1 <= |r| <= |s| + 1 && r[|r| - 1] == Ellipsis && r[..|r| - 1] == s[..|r| - 1]
  {
    if width(s) <= maxW then s
    else
      var k := LongestFit(width, s, maxW, |s|);
      s[..if k < 0 then 0 else k] + [Ellipsis]
  }

  /** `textClamp(doc, txt, maxW)`: null and undefined show nothing. */
  function ClampText(width: string -> real, txt: Value, maxW: real): string {
    if IsNullish(txt) then "" else Clamped(width, ToStr(txt), maxW)
  }

  /** A clamped text fits whenever "…" alone does. */
  lemma ClampedFits(width: string -> real, s: string, maxW: real)
    requires width([Ellipsis]) <= maxW
    ensures width(Clamped(width, s, maxW)) <= maxW
  {
    if width(s) > maxW {
      assert s[..0] + [Ellipsis] == [Ellipsis];
      if |s| > 0 {
        assert CandidateFits(width, s, maxW, 0);
      }
    }
  }

  /** No longer prefix of the text would have fitted with the ellipsis. */
  lemma ClampedLongest(width: string -> real, s: string, maxW: real)
    requires width(s) > maxW
    ensures var r := Clamped(width, s, maxW);
      forall j :: |r| - 1 < j < |s| ==> !CandidateFits(width, s, maxW, j)
  {
  }

  /** Under a monotone width, the candidates that fit are exactly the prefixes shorter than `lo`. */
  lemma {:induction false} LongestFitIs(width: string -> real, s: string, maxW: real, m: int, lo: int)
    requires 0 <= lo <= m <= |s|
    requires forall j :: 0 <= j < lo ==> CandidateFits(width, s, maxW, j)
    requires forall j :: lo <= j < |s| ==> !CandidateFits(width, s, maxW, j)
    ensures LongestFit(width, s, maxW, m) == lo - 1
    decreases m
  {
    if m > lo {
      LongestFitIs(width, s, maxW, m - 1, lo);
    }
  }

  /** Under a monotone width, every shorter candidate fits when one does. */
  lemma FitsBelow(width: string -> real, s: string, maxW: real, m: int)
    requires Monotone(width, s) && 0 <= m <= |s| && CandidateFits(width, s, maxW, m)
    ensures forall j :: 0 <= j <= m ==> CandidateFits(width, s, maxW, j)
  {
  }

  /** Under a monotone width, no longer candidate fits when one does not. */
  lemma MissesAbove(width: string -> real, s: string, maxW: real, m: int)
    requires Monotone(width, s) && 0 <= m <= |s| && !CandidateFits(width, s, maxW, m)
    ensures forall j :: m <= j <= |s| ==> !CandidateFits(width, s, maxW, j)
  {
  }

  /** The binary search of `textClamp`. */
  method TextClamp(width: string -> real, txt: Value, maxW: real) returns (r: string)
    ensures IsNullish(txt) ==> r == ""
    ensures !IsNullish(txt) && width(ToStr(txt)) <= maxW ==> r == ToStr(txt)
    ensures !IsNullish(txt) && width(ToStr(txt)) > maxW ==>
      var s := ToStr(txt);
      && 1 <= |r| <= |s| + 1 && r[|r| - 1] == Ellipsis && r[..|r| - 1] == s[..|r| - 1]
      && (|r| > 1 ==> CandidateFits(width, s, maxW, |r| - 1))
    ensures Monotone(width, ToStr(txt)) ==> r == ClampText(width, txt, maxW)
  {
    if IsNullish(txt) {
      return "";
    }
    var s := ToStr(txt);
    if width(s) <= maxW {
      return s;
    }
    var lo, hi := 0, |s|;
    while lo < hi
      invariant 0 <= lo <= hi <= |s|
      invariant lo == 0 || CandidateFits(width, s, maxW, lo - 1)
      invariant Monotone(width, s) ==> forall j :: 0 <= j < lo ==> CandidateFits(width, s, maxW, j)
      invariant Monotone(width, s) ==> forall j :: hi <= j < |s| ==> !CandidateFits(width, s, maxW, j)
    {
      var mid := (lo + hi) / 2;
      if width(s[..mid] + [Ellipsis]) <= maxW {
        if Monotone(width, s) {
          FitsBelow(width, s, maxW, mid);
        }
        lo := mid + 1;
      } else {
        if Monotone(width, s) {
          MissesAbove(width, s, maxW, mid);
        }
        hi := mid;
      }
    }
    r := s[..if lo - 1 < 0 then 0 else lo - 1] + [Ellipsis];
    assert r[..|r| - 1] == s[..|r| - 1];
    if Monotone(width, s) {
      LongestFitIs(width, s, maxW, |s|, lo);
    }
  }

  // ---------------------------------------------------------------------------
  // multiLineCell

  /** The font size counted down from `size`: the first whose text height fits `h - 4`, else `minFont`. */
  function FontFit(height: int -> real, size: int, minFont: int, h: real): (c: (int, real))
    requires minFont <= size
    ensures minFont <= c.0 <= size && c.1 == height(c.0)
    ensures c.1 <= h - 4.0 || c.0 == minFont
    ensures forall t :: c.0 < t <= size ==> height(t) > h - 4.0
    decreases size - minFont
  {
    if height(size) <= h - 4.0 || size == minFont then (size, height(size))
    else FontFit(height, size - 1, minFont, h)
  }

  /** The size and text height `multiLineCell` settles on; an empty range keeps `maxFont` and height 0. */
  function FontChoice(height: int -> real, maxFont: int, minFont: int, h: real): (int, real) {
    if maxFont < minFont then (maxFont, 0.0) else FontFit(height, maxFont, minFont, h)
  }

  /**
   * `multiLineCell`: `height(size)` measures the cell's text at that font size
   * and width `w - 6`; the text is centred vertically at `ty`.
   */
  method MultiLineCell(height: int -> real, txt: Value, y: real, h: real, maxFont: int, minFont: int)
    returns (text: string, size: int, textHeight: real, ty: real)
    ensures text == TextOf(txt)
    ensures (size, textHeight) == FontChoice(height, maxFont, minFont, h)
    ensures ty == y + (h - textHeight) / 2.0
  {
    text := TextOf(txt);
    size := maxFont;
    textHeight := 0.0;
    var s := maxFont;
    while s >= minFont
      invariant s <= maxFont && (maxFont >= minFont ==> minFont - 1 <= s)
      invariant forall t :: s < t <= maxFont ==> height(t) > h - 4.0
      invariant (s >= minFont || maxFont < minFont) ==> size == maxFont && textHeight == 0.0
      invariant s < minFont <= maxFont ==> size == minFont && textHeight == height(minFont)
      decreases s - minFont
    {
      var hs := height(s);
      if hs <= h - 4.0 {
        size := s;
        textHeight := hs;
        break;
      }
      if s == minFont {
        size := s;
        textHeight := hs;
      }
      s := s - 1;
    }
    if minFont <= maxFont {
      FontFitIs(height, maxFont, minFont, h, size);
    }
    ty := y + (h - textHeight) / 2.0;
  }

  /** The size counted down to is the only one that is in range, fits or is `minFont`, with no larger size fitting. */
  lemma FontFitIs(height: int -> real, size: int, minFont: int, h: real, s: int)
    requires minFont <= s <= size
    requires height(s) <= h - 4.0 || s == minFont
    requires forall t :: s < t <= size ==> height(t) > h - 4.0
    ensures FontFit(height, size, minFont, h) == (s, height(s))
  {
    var c := FontFit(height, size, minFont, h);
    assert !(c.0 < s) && !(s < c.0);
  }

  /** The chosen size is the largest in range whose text fits, or `minFont` when none does. */
  lemma FontChoiceLargest(height: int -> real, maxFont: int, minFont: int, h: real)
    requires minFont <= maxFont
    ensures var c := FontChoice(height, maxFont, minFont, h);
      && minFont <= c.0 <= maxFont
      && (height(c.0) <= h - 4.0 <==> exists t :: minFont <= t <= maxFont && height(t) <= h - 4.0)
      && forall t :: c.0 < t <= maxFont ==> height(t) > h - 4.0
  {
    var c := FontChoice(height, maxFont, minFont, h);
    if exists t :: minFont <= t <= maxFont && height(t) <= h - 4.0 {
      var t :| minFont <= t <= maxFont && height(t) <= h - 4.0;
      assert c.0 >= t || height(t) > h - 4.0;
    }
  }

  // ---------------------------------------------------------------------------
  // Data cells

  /** `r[c.key] ?? ""`. */
  function CellValue(r: Record, key: string): (v: Value)
    ensures !IsNullish(v)
    ensures key !in r ==> v == Str("")
  {
    Coalesce(Get(r, key), Str(""))
  }

  /** The summary route's data cell: subject and timetable are clamped, the rest shown whole. */
  function HelperCell(width: string -> real, c: Column, r: Record): (s: string)
    ensures c.key != "asig" && c.key != "hor" ==> s == ToStr(CellValue(r, c.key))
    ensures var v := ToStr(CellValue(r, c.key));
      s == v || (1 <= |s| <= |v| + 1 && s[|s| - 1] == Ellipsis && s[..|s| - 1] == v[..|s| - 1])
  {
    var v := CellValue(r, c.key);
    if c.key == "asig" || c.key == "hor" then ClampText(width, v, c.w - 6.0) else ToStr(v)
  }

  /** How the main route shows a cell: wrapped over lines with a shrinking font, or on one line. */
  datatype Shown = Wrapped(text: string) | OneLine(text: string)

  /** The main route's data cell: category and subject wrap, the timetable is clamped. */
  function ProposalCell(width: string -> real, c: Column, r: Record): (s: Shown)
    ensures s.Wrapped? <==> c.key == "cat" || c.key == "asig"
    ensures c.key != "hor" ==> s.text == ToStr(CellValue(r, c.key))
    ensures var v := ToStr(CellValue(r, c.key));
      s.text == v || (1 <= |s.text| <= |v| + 1 && s.text[|s.text| - 1] == Ellipsis && s.text[..|s.text| - 1] == v[..|s.text| - 1])
  {
    var v := CellValue(r, c.key);
    if c.key == "cat" || c.key == "asig" then Wrapped(TextOf(v))
    else if c.key == "hor" then OneLine(ClampText(width, v, c.w - 6.0))
    else OneLine(ToStr(v))
  }

  // ---------------------------------------------------------------------------
  // Rows of the request

  /** The request's `rows` field: an array, or anything else. */
  datatype RowsField = RowArray(rows: seq<Record>) | NotArray

  /** A movement row with the eighteen keys of the table. */
  function MovementRow(mov: string, causa: string, cat: string, iD: string, iM: string, iA: string,
                       tD: string, tM: string, tA: string, plan: string, cve: string, asig: string,
                       grupo: string, teo: int, pra: int, tot: int, hor: string, salon: string): Record
  {
    map["mov" := Str(mov), "causa" := Str(causa), "cat" := Str(cat),
        "iD" := Str(iD), "iM" := Str(iM), "iA" := Str(iA),
        "tD" := Str(tD), "tM" := Str(tM), "tA" := Str(tA),
        "plan" := Str(plan), "cve" := Str(cve), "asig" := Str(asig), "grupo" := Str(grupo),
        "teo" := Num(Finite(teo)), "pra" := Num(Finite(pra)), "tot" := Num(Finite(tot)),
        "hor" := Str(hor), "salon" := Str(salon)]
  }

  /** The two example rows shown when the request has no row array. */
  const FallbackRows: seq<Record> := [
    MovementRow("A", "PRORROGA", "INT \"A\"", "07", "08", "23", "28", "01", "24", "1279", "1705",
                "SEGURIDAD INFORMATICA", "2757", 4, 4, 8, "LU MI 19:00 - 21:00", "A8117"),
    MovementRow("A", "ALTA", "INT \"A\"", "08", "08", "23", "30", "01", "24", "1279", "1710",
                "BASES DE DATOS", "2810", 2, 3, 5, "MA JU 19:00 - 20:30", "A8201")
  ]

  /** `Array.isArray(rows) ? rows : fallbackRows`: any array, even an empty one, is kept. */
  function RowsOrFallback(f: RowsField): (rs: seq<Record>)
    ensures f.RowArray? ==> rs == f.rows
    ensures !f.RowArray? ==> |rs| == 2
  {
    if f.RowArray? then f.rows else FallbackRows
  }

  lemma MovementRowHours(mov: string, causa: string, cat: string, iD: string, iM: string, iA: string,
                         tD: string, tM: string, tA: string, plan: string, cve: string, asig: string,
                         grupo: string, teo: int, pra: int, tot: int, hor: string, salon: string)
    ensures var r := MovementRow(mov, causa, cat, iD, iM, iA, tD, tM, tA, plan, cve, asig, grupo, teo, pra, tot, hor, salon);
      Hours(r, "teo") == OrZero(Finite(teo)) && Hours(r, "pra") == OrZero(Finite(pra)) && Hours(r, "tot") == OrZero(Finite(tot))
  {
  }

  /** Without a row array the totals row reads 6, 7 and 13 hours. */
  lemma FallbackTotals()
    ensures Totals(RowsOrFallback(NotArray)) == HourTotals(Finite(6), Finite(7), Finite(13))
  {
    var rs := FallbackRows;
    MovementRowHours("A", "PRORROGA", "INT \"A\"", "07", "08", "23", "28", "01", "24", "1279", "1705",
                     "SEGURIDAD INFORMATICA", "2757", 4, 4, 8, "LU MI 19:00 - 21:00", "A8117");
    MovementRowHours("A", "ALTA", "INT \"A\"", "08", "08", "23", "30", "01", "24", "1279", "1710",
                     "BASES DE DATOS", "2810", 2, 3, 5, "MA JU 19:00 - 20:30", "A8201");
    assert rs[..1][..0] == [];
    assert rs[..|rs| - 1] == rs[..1];
  }
}
