// The hours-ledger document: row heights, page breaks, and the rows a professor
// block lays down (`calcRowHeight`, `ensurePage`, `drawRow`, `drawProfessor`).
// Font metrics are parameters; positions are reals in points.
module Pagination {
  import opened JsValues
  import opened Ledger

  const PageH: real := 595.28
  const Margin: real := 38.0
  const BandH: real := 22.0

  /** The lowest point a row may reach, `PAGE.h - MARGIN`. */
  const Bottom: real := PageH - Margin

  /** Where rows start on a fresh page: below the replayed three-band column header. */
  const HeaderTop: real := Margin + 3.0 * BandH

  /** `doc.heightOfString` at the three fonts and widths the row uses. */
  datatype Metrics = Metrics(nameH: string -> real, metaH: string -> real, nomH: string -> real)

  /** `Math.ceil`. */
  function Ceil(x: real): (c: int)
    ensures c as real >= x && (c - 1) as real < x
  {
    -((-x).Floor)
  }

  /** The second and third lines of the name block. */
  function MetaText(rfc: string, worker: string): string {
    "RFC: " + rfc + "\nNÚMERO DE TRABAJADOR: " + worker
  }

  /** Height of the name block: `4 + nameH + 4 + metaH + 4`, or 0 without a name. */
  function NameBlock(m: Metrics, name: Option<Holder>): real {
    match name
    case None => 0.0
    case Some(hd) => 4.0 + m.nameH(hd.name + "\n") + 4.0 + m.metaH(MetaText(hd.rfc, hd.worker)) + 4.0
  }

  /** Height of the appointment block: `10 + h + 6`, or 0 for an empty title. */
  function NomBlock(m: Metrics, nom: string): real {
    if nom != "" then 10.0 + m.nomH(nom) + 6.0 else 0.0
  }

  /**
   * `calcRowHeight`: the least whole number of points that is at least 40 and
   * holds both the name block and the appointment block.
   */
  function CalcRowHeight(m: Metrics, name: Option<Holder>, nom: string): (h: int)
    ensures h >= 40
    ensures h as real >= NameBlock(m, name) && h as real >= NomBlock(m, nom)
    ensures h == 40 || (h - 1) as real < Max(NameBlock(m, name), NomBlock(m, nom))
  {
    var c := Ceil(Max(Max(NameBlock(m, name), NomBlock(m, nom)), 24.0));
    if c >= 40 then c else 40
  }

  // ---------------------------------------------------------------------------
  // Rows

  /** What `drawRow` is given: the name block (first subject only), title, kind and slots. */
  datatype RowSpec = RowSpec(name: Option<Holder>, nom: string, kind: string, values: seq<Slot>)

  /** A row as laid down: its page, its top and its height. */
  datatype Placed = Placed(page: nat, top: real, height: int, row: RowSpec)

  function RowHeight(m: Metrics, r: RowSpec): (h: int)
    ensures h >= 40
  {
    CalcRowHeight(m, r.name, r.nom)
  }

  /** The page a row of height h starting at the cursor lands on fits: no break. */
  predicate Fits(y: real, h: real) {
    y + h <= Bottom
  }

  /** Where `ensurePage` puts the cursor. */
  function NextTop(y: real, h: real): real {
    if Fits(y, h) then y else HeaderTop
  }

  /** `subjects.reduce((a, s) => a + (s.parcial[i][k] || 0), 0)`, k = 0 for HT and 1 for HP. */
  function ColumnSum(ss: seq<Subject>, i: nat, k: nat): JsNumber
    requires k < 2 && HasSlot(ss, i)
    decreases |ss|
  {
    if ss == [] then Finite(0)
    else
      var s := ss[|ss| - 1];
      var x := if k == 0 then s.parcial[i].0 else s.parcial[i].1;
      Add(ColumnSum(ss[..|ss| - 1], i, k), OrZero(x))
  }

  /** Each subject has exactly n semester slots. */
  ghost predicate Slots(ss: seq<Subject>, n: nat) {
    forall j :: 0 <= j < |ss| ==> |ss[j].parcial| == n
  }

  /** The TOTAL row: one column sum per semester slot. */
  function TotalRow(ss: seq<Subject>, n: nat): (t: seq<Slot>)
    requires Slots(ss, n)
    ensures |t| == n
  {
    seq(n, i requires 0 <= i < n => (ColumnSum(ss, i, 0), ColumnSum(ss, i, 1)))
  }

  /** The TOTAL row as written: always four columns; a subject with fewer slots throws. */
  function TotalRowAsWritten(ss: seq<Subject>): (t: Option<seq<Slot>>)
    ensures t.Some? <==> forall j :: 0 <= j < |ss| ==> |ss[j].parcial| >= 4
    ensures t.Some? ==> |t.value| == 4
  {
    if exists j :: 0 <= j < |ss| && |ss[j].parcial| < 4 then None
    else Some(seq(4, i requires 0 <= i < 4 => (ColumnSum(ss, i, 0), ColumnSum(ss, i, 1))))
  }

  /** The rows of one professor block: one PARCIAL row per title, then the TOTAL row. */
  function ProfessorRows(prof: Professor, n: nat): (rs: seq<RowSpec>)
    requires Slots(prof.subjects, n)
    ensures |rs| == |prof.subjects| + 1
  {
    var ss := prof.subjects;
    seq(|ss|, idx requires 0 <= idx < |ss| =>
      RowSpec(if idx == 0 then Some(prof.holder) else None, ss[idx].nom, "PARCIAL", ss[idx].parcial))
    + [RowSpec(None, "", "TOTAL", TotalRow(ss, n))]
  }

  /**
   * The rows `drawProfessor` draws as written: `drawRow` fills exactly four
   * semester columns, `values[i]` for i < 4, in every row, so a subject with
   * fewer slots throws at its PARCIAL row and later slots are never shown.
   */
  function ProfessorRowsAsWritten(prof: Professor): (rs: Option<seq<RowSpec>>)
    ensures rs.Some? <==> forall j :: 0 <= j < |prof.subjects| ==> |prof.subjects[j].parcial| >= 4
    ensures rs.Some? ==> |rs.value| == |prof.subjects| + 1
                         && forall k :: 0 <= k < |rs.value| ==> |rs.value[k].values| == 4
  {
    var ss := prof.subjects;
    match TotalRowAsWritten(ss)
    case None => None
    case Some(total) =>
      Some(seq(|ss|, idx requires 0 <= idx < |ss| =>
             RowSpec(if idx == 0 then Some(prof.holder) else None, ss[idx].nom, "PARCIAL", ss[idx].parcial[..4]))
           + [RowSpec(None, "", "TOTAL", total)])
  }

  /** The rows laid down so far, the cursor and the page count. */
  datatype Flowed = Flowed(rows: seq<Placed>, y: real, page: nat)

  lemma ProfessorRowsAt(prof: Professor, n: nat, idx: int)
    requires Slots(prof.subjects, n) && 0 <= idx <= |prof.subjects|
    ensures var ss := prof.subjects;
      ProfessorRows(prof, n)[idx]
      == if idx < |ss| then RowSpec(if idx == 0 then Some(prof.holder) else None, ss[idx].nom, "PARCIAL", ss[idx].parcial)
         else RowSpec(None, "", "TOTAL", TotalRow(ss, n))
  {
  }

  /** Rows drawn one after another from the cursor: each measured, moved to a new page when it does not fit, then passed. */
  function Place(y0: real, p0: nat, m: Metrics, rs: seq<RowSpec>): (f: Flowed)
    ensures |f.rows| == |rs|
    decreases |rs|
  {
    if rs == [] then Flowed([], y0, p0)
    else Advance(Place(y0, p0, m, rs[..|rs| - 1]), m, rs[|rs| - 1])
  }

  /** One row laid down at the cursor: measured, moved to a new page when it does not fit, then passed. */
  function Advance(f: Flowed, m: Metrics, r: RowSpec): (g: Flowed)
    ensures |g.rows| == |f.rows| + 1
  {
    var h := RowHeight(m, r);
    var top := NextTop(f.y, h as real);
    var page := if Fits(f.y, h as real) then f.page else f.page + 1;
    Flowed(f.rows + [Placed(page, top, h, r)], top + h as real, page)
  }

  lemma PlaceStep(y0: real, p0: nat, m: Metrics, rs: seq<RowSpec>, i: int)
    requires 0 <= i < |rs|
    ensures Place(y0, p0, m, rs[..i + 1]) == Advance(Place(y0, p0, m, rs[..i]), m, rs[i])
  {
    assert rs[..i + 1][..i] == rs[..i];
  }

  // ---------------------------------------------------------------------------
  // The document

  class Pdf {
    /** Pages added so far. */
    var pages: nat
    /** Every table row drawn, in order. */
    var drawn: seq<Placed>

    constructor ()
      ensures pages == 1 && drawn == []
    {
      pages := 1;
      drawn := [];
    }

    /** `ensurePage`: a new page (with its column header) when the row would pass the bottom margin. */
    method EnsurePage(currentY: real, neededH: real) returns (y: real)
      modifies this
      ensures y == NextTop(currentY, neededH)
      ensures pages == if Fits(currentY, neededH) then old(pages) else old(pages) + 1
      ensures drawn == old(drawn)
    {
      var bottom := PageH - Margin;
      if currentY + neededH > bottom {
        pages := pages + 1;
        y := Margin + 3.0 * BandH;
      } else {
        y := currentY;
      }
    }

    /** `drawRow`: one row at topY, as tall as `calcRowHeight` says. */
    method DrawRow(m: Metrics, topY: real, r: RowSpec) returns (rowH: int)
      modifies this
      ensures rowH == RowHeight(m, r)
      ensures pages == old(pages)
      ensures drawn == old(drawn) + [Placed(old(pages), topY, rowH, r)]
    {
      rowH := CalcRowHeight(m, r.name, r.nom);
      drawn := drawn + [Placed(pages, topY, rowH, r)];
    }

    /** One row of `drawProfessor`: `ensurePage`, `drawRow`, then the cursor passes the row. */
    method FlowRow(m: Metrics, y: real, r: RowSpec) returns (next: real)
      modifies this
      ensures Flowed(drawn, next, pages) == Advance(Flowed(old(drawn), y, old(pages)), m, r)
    {
      var rh := CalcRowHeight(m, r.name, r.nom);
      var top := EnsurePage(y, rh as real);
      var _ := DrawRow(m, top, r);
      next := top + rh as real;
    }

    /** `drawProfessor`: the PARCIAL rows, the TOTAL row, then 14 points of separation. */
    method DrawProfessor(m: Metrics, startY: real, prof: Professor, n: nat) returns (y: real)
      requires Slots(prof.subjects, n)
      modifies this
      ensures var f := Place(startY, old(pages), m, ProfessorRows(prof, n));
        drawn == old(drawn) + f.rows && pages == f.page && y == f.y + 14.0
    {
      var rs := ProfessorRows(prof, n);
      var p0 := pages;
      ghost var d0 := drawn;
      y := startY;
      var idx := 0;
      while idx < |prof.subjects|
        invariant 0 <= idx <= |prof.subjects|
        invariant var f := Place(startY, p0, m, rs[..idx]);
          drawn == d0 + f.rows && pages == f.page && y == f.y
      {
        var subj := prof.subjects[idx];
        var row := RowSpec(if idx == 0 then Some(prof.holder) else None, subj.nom, "PARCIAL", subj.parcial);
        ProfessorRowsAt(prof, n, idx);
        PlaceStep(startY, p0, m, rs, idx);
        y := FlowRow(m, y, row);
        idx := idx + 1;
      }
      var total := TotalRow(prof.subjects, n);
      var row := RowSpec(None, "", "TOTAL", total);
      ProfessorRowsAt(prof, n, idx);
      PlaceStep(startY, p0, m, rs, idx);
      y := FlowRow(m, y, row);
      assert rs[..idx + 1] == rs;
      y := y + 14.0;
    }
  }

  // ---------------------------------------------------------------------------
  // What the flow guarantees

  /** Row r is laid down at the cursor (y, page): there if it fits, at the top of the next page if not. */
  ghost predicate Follows(y: real, page: nat, r: Placed) {
    if Fits(y, r.height as real) then r.page == page && r.top == y
    else r.page == page + 1 && r.top == HeaderTop
  }

  /** The rows of a flow, each measured before it is placed and passed by exactly its height. */
  ghost predicate Flows(y0: real, p0: nat, m: Metrics, rs: seq<RowSpec>, f: Flowed) {
    |f.rows| == |rs| &&
    (forall k :: 0 <= k < |rs| ==> f.rows[k].row == rs[k] && f.rows[k].height == RowHeight(m, rs[k])) &&
    (rs == [] ==> f.y == y0 && f.page == p0) &&
    (rs != [] ==> Follows(y0, p0, f.rows[0])) &&
    (forall k :: 0 < k < |rs| ==> Follows(f.rows[k - 1].top + f.rows[k - 1].height as real, f.rows[k - 1].page, f.rows[k])) &&
    (rs != [] ==> f.y == f.rows[|rs| - 1].top + f.rows[|rs| - 1].height as real && f.page == f.rows[|rs| - 1].page)
  }

  lemma {:induction false} PlaceFlows(y0: real, p0: nat, m: Metrics, rs: seq<RowSpec>)
    ensures Flows(y0, p0, m, rs, Place(y0, p0, m, rs))
    decreases |rs|
  {
    if rs != [] {
      var init := rs[..|rs| - 1];
      PlaceFlows(y0, p0, m, init);
      var f0 := Place(y0, p0, m, init);
      var f := Place(y0, p0, m, rs);
      assert f.rows[..|init|] == f0.rows;
      forall k | 0 <= k < |rs|
        ensures f.rows[k].row == rs[k] && f.rows[k].height == RowHeight(m, rs[k])
      {
        if k < |init| {
          assert f.rows[k] == f0.rows[k];
        }
      }
    }
  }

  /** Rows no taller than the space below the header never pass the bottom margin. */
  lemma RowsInBand(y0: real, p0: nat, m: Metrics, rs: seq<RowSpec>, k: int)
    requires forall j :: 0 <= j < |rs| ==> HeaderTop + RowHeight(m, rs[j]) as real <= Bottom
    requires 0 <= k < |rs|
    ensures Place(y0, p0, m, rs).rows[k].top + Place(y0, p0, m, rs).rows[k].height as real <= Bottom
  {
    PlaceFlows(y0, p0, m, rs);
  }

  /** Pages only grow, by at most one per row. */
  lemma {:induction false} PagesGrow(y0: real, p0: nat, m: Metrics, rs: seq<RowSpec>)
    ensures p0 <= Place(y0, p0, m, rs).page <= p0 + |rs|
    decreases |rs|
  {
    if rs != [] {
      PagesGrow(y0, p0, m, rs[..|rs| - 1]);
    }
  }

  /** Within one page the cursor only moves down, by at least 40 points a row. */
  lemma {:induction false} CursorAdvances(y0: real, p0: nat, m: Metrics, rs: seq<RowSpec>)
    ensures Place(y0, p0, m, rs).page == p0 ==> Place(y0, p0, m, rs).y >= y0 + 40.0 * |rs| as real
    decreases |rs|
  {
    if rs != [] {
      CursorAdvances(y0, p0, m, rs[..|rs| - 1]);
      PagesGrow(y0, p0, m, rs[..|rs| - 1]);
    }
  }

  // ---------------------------------------------------------------------------
  // The TOTAL row

  /** Every subject has a slot i. */
  predicate HasSlot(ss: seq<Subject>, i: nat) {
    forall j :: 0 <= j < |ss| ==> i < |ss[j].parcial|
  }

  lemma HasSlotAppend(a: seq<Subject>, b: seq<Subject>, i: nat)
    requires HasSlot(a, i) && HasSlot(b, i)
    ensures HasSlot(a + b, i)
  {
    var ab := a + b;
    forall j | 0 <= j < |ab|
      ensures i < |ab[j].parcial|
    {
      if j < |a| {
        assert ab[j] == a[j];
      } else {
        assert ab[j] == b[j - |a|];
      }
    }
  }

  /** A column sum over the subjects of two lists is the sum of the two column sums. */
  lemma {:induction false} ColumnSumAppend(a: seq<Subject>, b: seq<Subject>, i: nat, k: nat)
    requires k < 2 && HasSlot(a, i) && HasSlot(b, i) && HasSlot(a + b, i)
    ensures ColumnSum(a + b, i, k) == Add(ColumnSum(a, i, k), ColumnSum(b, i, k))
    decreases |b|
  {
    if b == [] {
      assert a + b == a;
      ColumnSumEmpty(b, i, k);
      AddZero(ColumnSum(a, i, k));
    } else {
      var b0 := b[..|b| - 1];
      var ab := a + b;
      assert ab[..|ab| - 1] == a + b0;
      assert ab[|ab| - 1] == b[|b| - 1];
      assert HasSlot(b0, i);
      HasSlotAppend(a, b0, i);
      ColumnSumAppend(a, b0, i, k);
      ColumnSumLast(ab, i, k);
      ColumnSumLast(b, i, k);
      var s := b[|b| - 1];
      var x := if k == 0 then s.parcial[i].0 else s.parcial[i].1;
      AddAssociates(ColumnSum(a, i, k), ColumnSum(b0, i, k), OrZero(x));
    }
  }

  /** Every subject of tt is one of ss: tt has a slot i too. */
  lemma HasSlotFrom(ss: seq<Subject>, tt: seq<Subject>, i: nat)
    requires HasSlot(ss, i) && forall y :: y in tt ==> y in ss
    ensures HasSlot(tt, i)
  {
    forall j | 0 <= j < |tt|
      ensures i < |tt[j].parcial|
    {
      assert tt[j] in ss;
    }
  }

  /** Removing the subject at j from tt leaves the other subjects. */
  lemma RemoveAt(ss: seq<Subject>, x: Subject, tt: seq<Subject>, j: int)
    requires 0 <= j < |tt| && tt[j] == x && multiset(ss + [x]) == multiset(tt)
    ensures tt == tt[..j] + [x] + tt[j + 1..]
    ensures multiset(ss) == multiset(tt[..j] + tt[j + 1..])
  {
    var a, b := tt[..j], tt[j + 1..];
    assert tt == a + [x] + b;
    assert multiset(a + b) == multiset(a) + multiset(b);
    assert multiset(tt) == multiset(a) + multiset{x} + multiset(b);
    assert multiset(ss + [x]) == multiset(ss) + multiset{x};
    calc {
      multiset(ss);
      multiset(ss + [x]) - multiset{x};
      multiset(tt) - multiset{x};
      multiset(a) + multiset(b);
      multiset(a + b);
    }
  }

  /** A subject in the middle adds its slot to the sum over the others. */
  lemma ColumnSumMiddle(a: seq<Subject>, x: Subject, b: seq<Subject>, i: nat, k: nat)
    requires k < 2 && HasSlot(a + [x] + b, i)
    ensures i < |x.parcial| && HasSlot(a + b, i)
    ensures ColumnSum(a + [x] + b, i, k) == Add(ColumnSum(a + b, i, k), OrZero(if k == 0 then x.parcial[i].0 else x.parcial[i].1))
  {
    var t := a + [x] + b;
    assert t[|a|] == x;
    forall y | y in a + b
      ensures y in t
    {
    }
    HasSlotFrom(t, a + b, i);
    HasSlotFrom(t, a, i);
    HasSlotFrom(t, b, i);
    HasSlotFrom(t, a + [x], i);
    ColumnSumAppend(a, b, i, k);
    ColumnSumAppend(a + [x], b, i, k);
    assert (a + [x])[..|a|] == a;
    ColumnSumLast(a + [x], i, k);
    var ca, cb := ColumnSum(a, i, k), ColumnSum(b, i, k);
    var vx := OrZero(if k == 0 then x.parcial[i].0 else x.parcial[i].1);
    AddAssociates(ca, vx, cb);
    AddCommutes(vx, cb);
    AddAssociates(ca, cb, vx);
  }

  /** A column sum does not depend on the order of the subjects. */
  lemma {:induction false} ColumnSumPermutation(ss: seq<Subject>, tt: seq<Subject>, i: nat, k: nat)
    requires k < 2 && HasSlot(ss, i) && multiset(ss) == multiset(tt)
    ensures HasSlot(tt, i)
    ensures ColumnSum(ss, i, k) == ColumnSum(tt, i, k)
    decreases |ss|
  {
    forall y | y in tt
      ensures y in ss
    {
      assert y in multiset(tt);
    }
    HasSlotFrom(ss, tt, i);
    if ss == [] {
      assert |tt| == |multiset(tt)| == 0;
    } else {
      var init, x := ss[..|ss| - 1], ss[|ss| - 1];
      assert ss == init + [x];
      assert x in multiset(tt);
      var j :| 0 <= j < |tt| && tt[j] == x;
      RemoveAt(init, x, tt, j);
      var a, b := tt[..j], tt[j + 1..];
      assert HasSlot(init, i);
      ColumnSumMiddle(a, x, b, i, k);
      ColumnSumPermutation(init, a + b, i, k);
      ColumnSumLast(ss, i, k);
    }
  }

  /** The TOTAL row does not depend on the order in which the titles were first seen. */
  lemma TotalRowPermutation(ss: seq<Subject>, tt: seq<Subject>, n: nat)
    requires Slots(ss, n) && multiset(ss) == multiset(tt)
    ensures Slots(tt, n)
    ensures TotalRow(ss, n) == TotalRow(tt, n)
  {
    forall j | 0 <= j < |tt|
      ensures |tt[j].parcial| == n
    {
      assert tt[j] in multiset(ss);
    }
    forall i | 0 <= i < n
      ensures TotalRow(ss, n)[i] == TotalRow(tt, n)[i]
    {
      TotalRowAt(ss, n, i);
      TotalRowAt(tt, n, i);
      ColumnSumPermutation(ss, tt, i, 0);
      ColumnSumPermutation(ss, tt, i, 1);
    }
  }

  lemma AddZero(x: JsNumber)
    ensures Add(x, Finite(0)) == x
  {
  }

  /** With whole-number hours the TOTAL cell is the plain sum over the subjects. */
  lemma {:induction false} ColumnSumFinite(ss: seq<Subject>, i: nat, k: nat)
    requires k < 2 && HasSlot(ss, i)
    requires forall j :: 0 <= j < |ss| ==> ss[j].parcial[i].0.Finite? && ss[j].parcial[i].1.Finite?
    ensures ColumnSum(ss, i, k).Finite?
    ensures ColumnSum(ss, i, k).n == IntColumn(ss, i, k)
    decreases |ss|
  {
    if ss != [] {
      ColumnSumFinite(ss[..|ss| - 1], i, k);
    }
  }

  /** The sum of the whole-number hours in slot i. */
  function IntColumn(ss: seq<Subject>, i: nat, k: nat): int
    requires k < 2 && HasSlot(ss, i)
    requires forall j :: 0 <= j < |ss| ==> ss[j].parcial[i].0.Finite? && ss[j].parcial[i].1.Finite?
    decreases |ss|
  {
    if ss == [] then 0
    else
      var s := ss[|ss| - 1];
      IntColumn(ss[..|ss| - 1], i, k) + (if k == 0 then s.parcial[i].0.n else s.parcial[i].1.n)
  }

  /** The column sums of a single subject are its own slots, NaN read as 0. */
  lemma SingleColumn(s: Subject, i: nat)
    requires i < |s.parcial|
    ensures HasSlot([s], i)
    ensures ColumnSum([s], i, 0) == OrZero(s.parcial[i].0)
    ensures ColumnSum([s], i, 1) == OrZero(s.parcial[i].1)
  {
    SingleSlot(s, i, 0);
    SingleSlot(s, i, 1);
  }

  lemma SingleSlot(s: Subject, i: nat, k: nat)
    requires i < |s.parcial| && k < 2
    ensures HasSlot([s], i)
    ensures ColumnSum([s], i, k) == OrZero(if k == 0 then s.parcial[i].0 else s.parcial[i].1)
  {
    ColumnSumOne([s], i, k);
  }

  /** A reduce over one subject: its slot, NaN read as 0. */
  lemma ColumnSumOne(ss: seq<Subject>, i: nat, k: nat)
    requires k < 2 && |ss| == 1 && i < |ss[0].parcial|
    ensures HasSlot(ss, i)
    ensures ColumnSum(ss, i, k) == OrZero(if k == 0 then ss[0].parcial[i].0 else ss[0].parcial[i].1)
  {
    var x := if k == 0 then ss[0].parcial[i].0 else ss[0].parcial[i].1;
    ColumnSumLast(ss, i, k);
    ColumnSumEmpty(ss[..0], i, k);
    ZeroAdd(OrZero(x));
  }

  lemma ColumnSumEmpty(ss: seq<Subject>, i: nat, k: nat)
    requires k < 2 && ss == []
    ensures ColumnSum(ss, i, k) == Finite(0)
  {
  }

  /** One step of the reduce: the last subject's slot added to the sum over the others. */
  lemma ColumnSumLast(ss: seq<Subject>, i: nat, k: nat)
    requires k < 2 && HasSlot(ss, i) && ss != []
    ensures var s := ss[|ss| - 1];
      ColumnSum(ss, i, k) == Add(ColumnSum(ss[..|ss| - 1], i, k), OrZero(if k == 0 then s.parcial[i].0 else s.parcial[i].1))
  {
  }

  /** The TOTAL row of a single subject is its own slots, NaN read as 0. */
  lemma SingleTotal(s: Subject, n: nat, i: nat)
    requires |s.parcial| == n && i < n
    ensures Slots([s], n)
    ensures TotalRow([s], n)[i] == (OrZero(s.parcial[i].0), OrZero(s.parcial[i].1))
  {
    OneSlots([s], n);
    SingleColumn(s, i);
    TotalRowAt([s], n, i);
  }

  lemma OneSlots(ss: seq<Subject>, n: nat)
    requires |ss| == 1 && |ss[0].parcial| == n
    ensures Slots(ss, n)
  {
  }

  lemma TotalRowAt(ss: seq<Subject>, n: nat, i: nat)
    requires Slots(ss, n) && i < n
    ensures HasSlot(ss, i)
    ensures TotalRow(ss, n)[i] == (ColumnSum(ss, i, 0), ColumnSum(ss, i, 1))
  {
  }


  /** Four semesters or more: the TOTAL row as written keeps the first four column totals only. */
  lemma AsWrittenTruncates(ss: seq<Subject>, n: nat)
    requires Slots(ss, n) && n >= 4
    ensures TotalRowAsWritten(ss) == Some(TotalRow(ss, n)[..4])
  {
    assert !exists j :: 0 <= j < |ss| && |ss[j].parcial| < 4;
    var t := seq(4, i requires 0 <= i < 4 => (ColumnSum(ss, i, 0), ColumnSum(ss, i, 1)));
    assert TotalRowAsWritten(ss) == Some(t);
    var u := TotalRow(ss, n);
    forall i | 0 <= i < 4
      ensures t[i] == u[i]
    {
    }
    assert t == u[..4];
  }

  /** Fewer than four semesters: the TOTAL row as written reads a slot that is not there and throws. */
  lemma AsWrittenThrows(ss: seq<Subject>, n: nat)
    requires Slots(ss, n) && n < 4 && ss != []
    ensures TotalRowAsWritten(ss) == None
  {
    assert |ss[0].parcial| < 4;
  }

  /** Under the default list of four semesters the rows drawn as written are the per-slot rows. */
  lemma DefaultListAsWritten(prof: Professor)
    requires Slots(prof.subjects, 4)
    ensures ProfessorRowsAsWritten(prof) == Some(ProfessorRows(prof, 4))
  {
    var ss := prof.subjects;
    AsWrittenTruncates(ss, 4);
    assert TotalRow(ss, 4)[..4] == TotalRow(ss, 4);
    var a, b := ProfessorRowsAsWritten(prof).value, ProfessorRows(prof, 4);
    forall k | 0 <= k < |b|
      ensures a[k] == b[k]
    {
      if k < |ss| {
        assert |ss[k].parcial| == 4;
        assert ss[k].parcial[..4] == ss[k].parcial;
      } else {
        assert a[k] == RowSpec(None, "", "TOTAL", TotalRowAsWritten(ss).value);
      }
    }
    assert |a| == |b|;
    assert a == b;
  }

  /** With more than four semesters each row drawn as written shows only the first four slots of the per-slot row. */
  lemma LongerListAsWritten(prof: Professor, n: nat)
    requires Slots(prof.subjects, n) && n >= 4
    ensures ProfessorRowsAsWritten(prof).Some?
    ensures var a, b := ProfessorRowsAsWritten(prof).value, ProfessorRows(prof, n);
      |a| == |b| && forall k :: 0 <= k < |a| ==> a[k] == b[k].(values := b[k].values[..4])
  {
    var ss := prof.subjects;
    AsWrittenTruncates(ss, n);
  }

  /** With fewer than four semesters a professor with a subject throws at the first PARCIAL row. */
  lemma ShorterListThrows(prof: Professor, n: nat)
    requires Slots(prof.subjects, n) && n < 4 && prof.subjects != []
    ensures ProfessorRowsAsWritten(prof) == None
  {
    assert |prof.subjects[0].parcial| < 4;
  }

  /** A fifth semester's hours: present in the per-slot total, absent from the row as written. */
  lemma FifthSemesterDropped(s: Subject)
    requires |s.parcial| == 5 && s.parcial[4] == (Finite(3), Finite(0))
    ensures TotalRowAsWritten([s]) == Some(TotalRow([s], 5)[..4])
    ensures TotalRow([s], 5)[4] == (Finite(3), Finite(0))
  {
    AsWrittenTruncates([s], 5);
    SingleTotal(s, 5, 4);
  }
}
