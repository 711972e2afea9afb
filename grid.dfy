// The generic table of the hours-ledger document (`splitEvenInt`, `drawTable`):
// column and row positions, and which cells are drawn once colspan/rowspan
// have covered their neighbours.
module Grid {
  // ---------------------------------------------------------------------------
  // splitEvenInt

  function IntSum(s: seq<int>): int
    decreases |s|
  {
    if s == [] then 0 else IntSum(s[..|s| - 1]) + s[|s| - 1]
  }

  /** n widths of `base`, the first `rem` of them one wider. */
  function Evenly(base: int, rem: int, n: nat): (w: seq<int>)
    ensures |w| == n
  {
    seq(n, i requires 0 <= i < n => base + (if i < rem then 1 else 0))
  }

  /** `splitEvenInt(total, n).widths`: `floor(total / n)` each, the remainder spread over the first columns. */
  function SplitEvenInt(total: int, n: nat): (w: seq<int>)
    ensures |w| == n
    ensures n > 0 ==> forall i :: 0 <= i < n ==> w[i] == total / n || w[i] == total / n + 1
    ensures forall i, j :: 0 <= i < j < n ==> w[i] >= w[j]
  {
    if n == 0 then [] else Evenly(total / n, total - (total / n) * n, n)
  }

  lemma {:induction false} EvenlySum(base: int, rem: int, m: nat)
    requires 0 <= rem
    ensures IntSum(Evenly(base, rem, m)) == m * base + (if m < rem then m else rem)
    decreases m
  {
    if m > 0 {
      var w := Evenly(base, rem, m);
      assert w[..m - 1] == Evenly(base, rem, m - 1);
      EvenlySum(base, rem, m - 1);
    }
  }

  /** The widths add up to the total, and no two differ by more than one point. */
  lemma SplitEvenIntSum(total: int, n: nat)
    requires n > 0
    ensures IntSum(SplitEvenInt(total, n)) == total
    ensures forall i, j :: 0 <= i < n && 0 <= j < n ==> -1 <= SplitEvenInt(total, n)[i] - SplitEvenInt(total, n)[j] <= 1
  {
    var base := total / n;
    var rem := total - base * n;
    assert 0 <= rem < n;
    EvenlySum(base, rem, n);
  }

  // ---------------------------------------------------------------------------
  // Positions

  function Sum(s: seq<real>): real
    decreases |s|
  {
    if s == [] then 0.0 else Sum(s[..|s| - 1]) + s[|s| - 1]
  }

  /** `xsFrom(x0)`: where each column starts. */
  function XsFrom(ws: seq<real>, x0: real): (xs: seq<real>)
    ensures |xs| == |ws|
    ensures forall i :: 0 <= i < |ws| ==> xs[i] == x0 + Sum(ws[..i])
  {
    seq(|ws|, i requires 0 <= i < |ws| => x0 + Sum(ws[..i]))
  }

  lemma SumStep(s: seq<real>, i: int)
    requires 0 <= i < |s|
    ensures Sum(s[..i + 1]) == Sum(s[..i]) + s[i]
  {
    assert s[..i + 1][..i] == s[..i];
  }

  /** The `cx` / `ry` loop: each start is the previous start plus the previous size. */
  method Offsets(start: real, sizes: seq<real>) returns (xs: seq<real>)
    ensures xs == XsFrom(sizes, start)
  {
    xs := [];
    var i := 0;
    while i < |sizes|
      invariant 0 <= i <= |sizes|
      invariant |xs| == i && forall j :: 0 <= j < i ==> xs[j] == start + Sum(sizes[..j])
    {
      if i == 0 {
        xs := xs + [start];
      } else {
        SumStep(sizes, i - 1);
        xs := xs + [xs[i - 1] + sizes[i - 1]];
      }
      i := i + 1;
    }
  }

  /** `Math.round`. */
  function Round(x: real): int {
    (x + 0.5).Floor
  }

  // ---------------------------------------------------------------------------
  // drawTable

  /** A cell of the `cells` matrix: a bare string, or an object with text and spans. */
  datatype Cell = Plain(s: string) | Boxed(text: string, colspan: int, rowspan: int)

  /** The table a caller describes; an empty `colWidths` / `rowHeights` stands for a missing one. */
  datatype Table = Table(x: real, y: real, width: real, rows: nat, cols: nat,
                         colWidths: seq<real>, rowHeights: seq<real>, rowHeight: real,
                         cells: seq<seq<Cell>>)

  /** `colWidths` when it has one width per column, else the even split of the rounded width. */
  function ColWidths(t: Table): (cw: seq<real>)
    ensures |cw| == t.cols
  {
    if |t.colWidths| == t.cols then t.colWidths
    else
      var w := SplitEvenInt(Round(t.width), t.cols);
      seq(t.cols, i requires 0 <= i < t.cols => w[i] as real)
  }

  /** `rowHeights` when it has one height per row, else `rowHeight` for every row. */
  function RowHeights(t: Table): (rh: seq<real>)
    ensures |rh| == t.rows
  {
    if |t.rowHeights| == t.rows then t.rowHeights else seq(t.rows, i => t.rowHeight)
  }

  /** `(cells[r] && cells[r][c]) || {}`. */
  function CellAt(t: Table, r: nat, c: nat): Cell {
    if r < |t.cells| && c < |t.cells[r]| then t.cells[r][c] else Boxed("", 1, 1)
  }

  /** `Math.max(1, v || 1)`. */
  function Span(v: int): (s: nat)
    ensures s >= 1 && (v >= 1 ==> s == v)
  {
    if v >= 1 then v else 1
  }

  function ColSpan(cell: Cell): nat {
    match cell
    case Plain(_) => 1
    case Boxed(_, cs, _) => Span(cs)
  }

  function RowSpan(cell: Cell): nat {
    match cell
    case Plain(_) => 1
    case Boxed(_, _, rs) => Span(rs)
  }

  function TextOf(cell: Cell): string {
    match cell
    case Plain(s) => s
    case Boxed(s, _, _) => s
  }

  function Min(a: int, b: int): int {
    if a <= b then a else b
  }

  /** `sizes.slice(i, i + span).reduce(+)`: the sizes under a span, cut at the edge of the grid. */
  function SpanSum(sizes: seq<real>, i: nat, span: nat): real
    requires i <= |sizes|
  {
    Sum(sizes[i..Min(i + span, |sizes|)])
  }

  /** A drawn cell: where it is in the grid, its rectangle, its spans and its text. */
  datatype Box = Box(r: nat, c: nat, x: real, y: real, w: real, h: real,
                     colspan: nat, rowspan: nat, text: string)

  /** The box drawn for cell (r, c) of t. */
  ghost predicate BoxOf(t: Table, b: Box) {
    b.r < t.rows && b.c < t.cols &&
    var cell := CellAt(t, b.r, b.c);
    b.colspan == ColSpan(cell) && b.rowspan == RowSpan(cell) && b.text == TextOf(cell) &&
    b.x == t.x + Sum(ColWidths(t)[..b.c]) && b.y == t.y + Sum(RowHeights(t)[..b.r]) &&
    b.w == SpanSum(ColWidths(t), b.c, b.colspan) && b.h == SpanSum(RowHeights(t), b.r, b.rowspan)
  }

  /** Row-major order. */
  predicate Before(r1: int, c1: int, r2: int, c2: int) {
    r1 < r2 || (r1 == r2 && c1 < c2)
  }

  /** b's span covers (r, c), which is not b's own cell. */
  predicate Covers(b: Box, r: int, c: int) {
    b.r <= r < b.r + b.rowspan && b.c <= c < b.c + b.colspan && (r != b.r || c != b.c)
  }

  predicate Covered(trace: seq<Box>, r: int, c: int) {
    exists k :: 0 <= k < |trace| && Covers(trace[k], r, c)
  }

  predicate Drawn(trace: seq<Box>, r: int, c: int) {
    exists k :: 0 <= k < |trace| && trace[k].r == r && trace[k].c == c
  }

  /** What `drawTable` promises: boxes in row-major order, and a cell drawn exactly when no earlier span covers it. */
  ghost predicate Drawing(t: Table, trace: seq<Box>) {
    (forall k :: 0 <= k < |trace| ==> BoxOf(t, trace[k])) &&
    (forall k, l :: 0 <= k < l < |trace| ==> Before(trace[k].r, trace[k].c, trace[l].r, trace[l].c)) &&
    (forall r, c :: 0 <= r < t.rows && 0 <= c < t.cols ==> (Drawn(trace, r, c) <==> !Covered(trace, r, c)))
  }

  /** The loop state at cell (r, c): every box so far lies before it, and the cells before it are settled. */
  ghost predicate Progress(t: Table, trace: seq<Box>, r: int, c: int) {
    (forall k :: 0 <= k < |trace| ==> BoxOf(t, trace[k])) &&
    (forall k, l :: 0 <= k < l < |trace| ==> Before(trace[k].r, trace[k].c, trace[l].r, trace[l].c)) &&
    (forall k :: 0 <= k < |trace| ==> Before(trace[k].r, trace[k].c, r, c)) &&
    (forall a, b :: 0 <= a < t.rows && 0 <= b < t.cols && Before(a, b, r, c) ==> (Drawn(trace, a, b) <==> !Covered(trace, a, b)))
  }

  /** A span only reaches cells after its own. */
  lemma CoversLater(b: Box, r: int, c: int)
    requires Covers(b, r, c)
    ensures Before(b.r, b.c, r, c)
  {
  }

  lemma AppendBox(trace: seq<Box>, b: Box, r: int, c: int)
    ensures Covered(trace + [b], r, c) <==> Covered(trace, r, c) || Covers(b, r, c)
    ensures Drawn(trace + [b], r, c) <==> Drawn(trace, r, c) || (b.r == r && b.c == c)
  {
    var tr := trace + [b];
    assert tr[|trace|] == b;
    if Covered(trace, r, c) {
      var k :| 0 <= k < |trace| && Covers(trace[k], r, c);
      assert tr[k] == trace[k];
    }
    if Drawn(trace, r, c) {
      var k :| 0 <= k < |trace| && trace[k].r == r && trace[k].c == c;
      assert tr[k] == trace[k];
    }
    if Covered(tr, r, c) {
      var k :| 0 <= k < |tr| && Covers(tr[k], r, c);
      if k < |trace| {
        assert tr[k] == trace[k];
      }
    }
    if Drawn(tr, r, c) {
      var k :| 0 <= k < |tr| && tr[k].r == r && tr[k].c == c;
      if k < |trace| {
        assert tr[k] == trace[k];
      }
    }
  }

  /** Cell (r, c) settled as skipped: it is covered and, every box lying before it, not drawn. */
  lemma SkipCell(t: Table, trace: seq<Box>, r: int, c: int, cn: int)
    requires Progress(t, trace, r, c) && Covered(trace, r, c)
    requires cn == c + 1
    ensures Progress(t, trace, r, cn)
  {
    assert !Drawn(trace, r, c);
  }

  /** Cell (r, c) settled as drawn: its box goes after every earlier box and covers only later cells. */
  lemma DrawCell(t: Table, trace: seq<Box>, b: Box, r: int, c: int)
    requires Progress(t, trace, r, c) && !Covered(trace, r, c)
    requires BoxOf(t, b) && b.r == r && b.c == c
    ensures Progress(t, trace + [b], r, c + 1)
  {
    var tr := trace + [b];
    forall a, e | 0 <= a < t.rows && 0 <= e < t.cols && Before(a, e, r, c + 1)
      ensures Drawn(tr, a, e) <==> !Covered(tr, a, e)
    {
      AppendBox(trace, b, a, e);
      if Covers(b, a, e) {
        CoversLater(b, a, e);
      }
    }
    forall k | 0 <= k < |tr|
      ensures BoxOf(t, tr[k]) && Before(tr[k].r, tr[k].c, r, c + 1)
    {
      if k < |trace| {
        assert tr[k] == trace[k];
      }
    }
  }

  /** The end of a row: the next row starts with nothing before it left unsettled. */
  lemma NextRow(t: Table, trace: seq<Box>, r: int)
    requires 0 <= r && Progress(t, trace, r, t.cols)
    ensures Progress(t, trace, r + 1, 0)
  {
    forall k | 0 <= k < |trace|
      ensures Before(trace[k].r, trace[k].c, r + 1, 0)
    {
      assert BoxOf(t, trace[k]);
    }
  }

  /** The `skip` matrix marks exactly the cells the boxes so far cover. */
  ghost predicate Marks(t: Table, skip: array2<bool>, trace: seq<Box>)
    reads skip
    requires skip.Length0 == t.rows && skip.Length1 == t.cols
  {
    forall a, b :: 0 <= a < t.rows && 0 <= b < t.cols ==> skip[a, b] == Covered(trace, a, b)
  }

  /** Marks (r, c)'s span in `skip`, cut at the edge of the grid, its own cell left alone. */
  method MarkSpan(t: Table, skip: array2<bool>, ghost trace: seq<Box>, b: Box)
    requires skip.Length0 == t.rows && skip.Length1 == t.cols
    requires Marks(t, skip, trace)
    modifies skip
    ensures Marks(t, skip, trace + [b])
  {
    var rr := b.r;
    while rr < b.r + b.rowspan
      invariant b.r <= rr <= b.r + b.rowspan
      invariant forall a, e :: 0 <= a < t.rows && 0 <= e < t.cols ==>
        skip[a, e] == (Covered(trace, a, e) || (Covers(b, a, e) && a < rr))
    {
      var cc := b.c;
      while cc < b.c + b.colspan
        invariant b.c <= cc <= b.c + b.colspan
        invariant forall a, e :: 0 <= a < t.rows && 0 <= e < t.cols ==>
          skip[a, e] == (Covered(trace, a, e) || (Covers(b, a, e) && (a < rr || (a == rr && e < cc))))
      {
        if !(rr == b.r && cc == b.c) && rr < t.rows && cc < t.cols {
          skip[rr, cc] := true;
        }
        cc := cc + 1;
      }
      rr := rr + 1;
    }
    forall a, e | 0 <= a < t.rows && 0 <= e < t.cols
      ensures skip[a, e] == Covered(trace + [b], a, e)
    {
      AppendBox(trace, b, a, e);
    }
  }

  /** `drawTable`: every cell not covered by an earlier span is drawn as one box. */
  method DrawTable(t: Table) returns (trace: seq<Box>)
    ensures Drawing(t, trace)
  {
    var cw := ColWidths(t);
    var rh := RowHeights(t);
    var cx := Offsets(t.x, cw);
    var ry := Offsets(t.y, rh);
    var skip := new bool[t.rows, t.cols]((i, j) => false);
    trace := [];
    var r := 0;
    while r < t.rows
      invariant 0 <= r <= t.rows
      invariant Progress(t, trace, r, 0)
      invariant Marks(t, skip, trace)
    {
      var c := 0;
      while c < t.cols
        invariant 0 <= c <= t.cols
        invariant Progress(t, trace, r, c)
        invariant Marks(t, skip, trace)
      {
        if skip[r, c] {
          SkipCell(t, trace, r, c, c + 1);
        } else {
          var cell := CellAt(t, r, c);
          var colspan, rowspan := ColSpan(cell), RowSpan(cell);
          var w := SpanSum(cw, c, colspan);
          var h := SpanSum(rh, r, rowspan);
          var b := Box(r, c, cx[c], ry[r], w, h, colspan, rowspan, TextOf(cell));
          MarkSpan(t, skip, trace, b);
          DrawCell(t, trace, b, r, c);
          trace := trace + [b];
        }
        c := c + 1;
      }
      NextRow(t, trace, r);
      r := r + 1;
    }
  }

  /** A drawn box ends where the column (row) after its span begins, or at the grid's edge. */
  lemma SpanEndsOnBoundary(t: Table, b: Box)
    requires BoxOf(t, b)
    ensures b.x + b.w == t.x + Sum(ColWidths(t)[..Min(b.c + b.colspan, t.cols)])
    ensures b.y + b.h == t.y + Sum(RowHeights(t)[..Min(b.r + b.rowspan, t.rows)])
  {
    var cw, rh := ColWidths(t), RowHeights(t);
    SumSplit(cw, b.c, Min(b.c + b.colspan, t.cols));
    SumSplit(rh, b.r, Min(b.r + b.rowspan, t.rows));
  }

  lemma {:induction false} SumSplit(s: seq<real>, i: int, j: int)
    requires 0 <= i <= j <= |s|
    ensures Sum(s[..j]) == Sum(s[..i]) + Sum(s[i..j])
    decreases j - i
  {
    if i < j {
      SumSplit(s, i, j - 1);
      assert s[..j][..j - 1] == s[..j - 1];
      assert s[i..j][..j - 1 - i] == s[i..j - 1];
      assert s[i..j][j - 1 - i] == s[j - 1];
    } else {
      assert s[i..j] == [];
    }
  }
}
