// What `POST /propuestas-from-csv` does with the records `rowsFromCSV` returns
// before any page is drawn: it groups them by worker number, orders the worker
// numbers numerically, decides between one PDF and a ZIP of one PDF per worker,
// and names each PDF of the ZIP.
module WorkerFiles {
  import opened JsValues
  import opened Buckets
  import opened Sorting
  import CsvRows
  import PdfRows

  type CsvRow = PdfRows.CsvRow

  // ---------------------------------------------------------------------------
  // Grouping by worker

  /** `r[k]` of a CSV record, with a missing key read as "" (both are falsy). */
  function CellOf(r: CsvRow, k: string): string {
    if k in r then r[k] else ""
  }

  /** `String(r.num_trabajador || r.numTrabajador || "").trim()`. */
  function WorkerKey(r: CsvRow): string {
    var snake := CellOf(r, "num_trabajador");
    Trim(if snake != "" then snake else CellOf(r, "numTrabajador"))
  }

  /** The record itself: what the grouping pushes. */
  function Self(r: CsvRow): CsvRow {
    r
  }

  /** The records whose worker key is not empty, in input order. */
  function Named(rows: seq<CsvRow>): (named: seq<CsvRow>)
    ensures |named| <= |rows|
  {
    if rows == [] then []
    else
      var last := rows[|rows| - 1];
      Named(rows[..|rows| - 1]) + (if WorkerKey(last) == "" then [] else [last])
  }

  /** The `byWorker` map the route fills. */
  function ByWorker(rows: seq<CsvRow>): Buckets<CsvRow> {
    GroupBy(Named(rows), WorkerKey, Self)
  }

  /** The grouping loop: records without a worker number are skipped. */
  method GroupByWorker(rows: seq<CsvRow>) returns (byWorker: Buckets<CsvRow>)
    ensures byWorker == ByWorker(rows)
  {
    byWorker := [];
    var i := 0;
    while i < |rows|
      invariant 0 <= i <= |rows|
      invariant byWorker == GroupBy(Named(rows[..i]), WorkerKey, Self)
    {
      var r := rows[i];
      var worker := WorkerKey(r);
      ByWorkerStep(rows, i);
      if worker != "" {
        byWorker := Put(byWorker, worker, r);
      }
      i := i + 1;
    }
    assert rows[..i] == rows;
  }

  lemma NamedSnoc(rows: seq<CsvRow>, i: int)
    requires 0 <= i < |rows|
    ensures Named(rows[..i + 1]) == Named(rows[..i]) + (if WorkerKey(rows[i]) == "" then [] else [rows[i]])
  {
    assert rows[..i + 1][..i] == rows[..i];
  }

  lemma GroupBySnoc(xs: seq<CsvRow>, x: CsvRow)
    ensures GroupBy(xs + [x], WorkerKey, Self) == Put(GroupBy(xs, WorkerKey, Self), WorkerKey(x), x)
  {
    assert (xs + [x])[..|xs|] == xs;
  }

  /** One turn of the grouping loop. */
  lemma ByWorkerStep(rows: seq<CsvRow>, i: int)
    requires 0 <= i < |rows|
    ensures GroupBy(Named(rows[..i + 1]), WorkerKey, Self)
            == if WorkerKey(rows[i]) == "" then GroupBy(Named(rows[..i]), WorkerKey, Self)
               else Put(GroupBy(Named(rows[..i]), WorkerKey, Self), WorkerKey(rows[i]), rows[i])
  {
    NamedSnoc(rows, i);
    if WorkerKey(rows[i]) != "" {
      GroupBySnoc(Named(rows[..i]), rows[i]);
    } else {
      assert Named(rows[..i + 1]) == Named(rows[..i]);
    }
  }

  lemma SelectSnoc(xs: seq<CsvRow>, x: CsvRow, k: string)
    ensures Select(xs + [x], WorkerKey, Self, k)
            == Select(xs, WorkerKey, Self, k) + (if WorkerKey(x) == k then [x] else [])
  {
    assert (xs + [x])[..|xs|] == xs;
  }

  /** A record is kept exactly when its worker key is not empty. */
  lemma {:induction false} NamedMembers(rows: seq<CsvRow>, r: CsvRow)
    ensures r in Named(rows) <==> r in rows && WorkerKey(r) != ""
    decreases |rows|
  {
    if rows != [] {
      var init := rows[..|rows| - 1];
      assert rows == init + [rows[|rows| - 1]];
      NamedMembers(init, r);
    }
  }

  lemma {:induction false} NoEmptyWorker(rows: seq<CsvRow>)
    ensures Select(Named(rows), WorkerKey, Self, "") == []
    decreases |rows|
  {
    if rows != [] {
      var init := rows[..|rows| - 1];
      var last := rows[|rows| - 1];
      NoEmptyWorker(init);
      if WorkerKey(last) != "" {
        var xs := Named(init);
        assert Named(rows) == xs + [last];
        SelectSnoc(xs, last, "");
      } else {
        assert Named(rows) == Named(init);
      }
    }
  }

  /**
   * The map has one entry per distinct non-empty worker number, each holding
   * that worker's records in input order, and holds every kept record once.
   */
  lemma WorkerBuckets(rows: seq<CsvRow>)
    ensures DistinctKeys(ByWorker(rows))
    ensures AllHold(Named(rows), WorkerKey, Self, ByWorker(rows))
    ensures forall i :: 0 <= i < |ByWorker(rows)| ==> ByWorker(rows)[i].0 != ""
    ensures TotalSize(ByWorker(rows)) == |Named(rows)|
  {
    var b := ByWorker(rows);
    GroupByDistinct(Named(rows), WorkerKey, Self);
    GroupBySelect(Named(rows), WorkerKey, Self);
    GroupBySize(Named(rows), WorkerKey, Self);
    NoEmptyWorker(rows);
    forall i | 0 <= i < |b|
      ensures b[i].0 != ""
    {
      assert EntryHolds(Named(rows), WorkerKey, Self, b, i);
    }
  }

  /** Every record with a worker number has an entry under that number. */
  lemma WorkerFound(rows: seq<CsvRow>, p: int)
    requires 0 <= p < |Named(rows)|
    ensures Find(ByWorker(rows), WorkerKey(Named(rows)[p])) >= 0
  {
    SelectHolds(Named(rows), WorkerKey, Self, p);
    GroupByComplete(Named(rows), WorkerKey, Self, WorkerKey(Named(rows)[p]));
  }

  /**
   * The records `rowsFromCSV` builds never have a `num_trabajador` key (that
   * header folds to the alias of `numTrabajador`), so the first operand of the
   * `||` is always undefined and the worker is the trimmed `numTrabajador` cell.
   */
  lemma CsvWorkerKey(header: seq<string>, recs: seq<seq<string>>, i: int)
    requires 0 <= i < |CsvRows.Records(CsvRows.HeaderKeys(header), recs)|
    ensures WorkerKey(CsvRows.Records(CsvRows.HeaderKeys(header), recs)[i])
            == Trim(CellOf(CsvRows.Records(CsvRows.HeaderKeys(header), recs)[i], "numTrabajador"))
  {
    var keys := CsvRows.HeaderKeys(header);
    var row := CsvRows.Records(keys, recs)[i];
    CsvRows.RecordsKeys(keys, recs);
    if "num_trabajador" in row {
      var c :| 0 <= c < |keys| && keys[c] == "num_trabajador";
      CsvRows.NoNumTrabajadorKey(Trim(header[c]));
      assert false;
    }
  }

  // ---------------------------------------------------------------------------
  // Numeric order of the worker numbers

  /** `a - b` on JavaScript numbers. */
  function Sub(a: JsNumber, b: JsNumber): JsNumber {
    match (a, b)
    case (Finite(x), Finite(y)) => Finite(x - y)
    case (Infinity(p), Finite(_)) => Infinity(p)
    case (Finite(_), Infinity(q)) => Infinity(!q)
    case (Infinity(p), Infinity(q)) => if p == q then NaN else Infinity(p)
    case _ => NaN
  }

  /** A comparator result that makes `sort` put its second argument first. */
  predicate Positive(x: JsNumber) {
    (x.Finite? && x.n > 0) || x == Infinity(true)
  }

  /** `(a, b) => Number(a) - Number(b)` is greater than zero. */
  predicate WorkerAfter(a: string, b: string) {
    Positive(Sub(StringToNumber(a), StringToNumber(b)))
  }

  /** `Array.from(byWorker.keys()).sort((a, b) => Number(a) - Number(b))`. */
  function SortedWorkers(b: Buckets<CsvRow>): (workers: seq<string>)
    ensures multiset(workers) == multiset(KeysOf(b))
  {
    SortBy(KeysOf(b), WorkerAfter)
  }

  lemma SubAntisymmetric(x: JsNumber, y: JsNumber)
    ensures Positive(Sub(x, y)) ==> !Positive(Sub(y, x))
  {
  }

  /** The comparator never puts a before b and b before a. */
  lemma WorkerAfterAsymmetric()
    ensures Asymmetric(WorkerAfter)
  {
    forall a, b | WorkerAfter(a, b)
      ensures !WorkerAfter(b, a)
    {
      SubAntisymmetric(StringToNumber(a), StringToNumber(b));
    }
  }

  /** The number `Number(w)` gives for a worker, when it is finite. */
  predicate FiniteWorker(w: string) {
    StringToNumber(w).Finite?
  }

  /** `Number(w)` for a worker whose number is finite. */
  function WorkerNumber(w: string): int {
    match StringToNumber(w)
    case Finite(n) => n
    case _ => 0
  }

  ghost predicate Ascending(ws: seq<string>) {
    forall i, j :: 0 <= i < j < |ws| ==> WorkerNumber(ws[i]) <= WorkerNumber(ws[j])
  }

  lemma {:induction false} AdjacentAscending(ws: seq<string>)
    requires forall i :: 0 <= i < |ws| ==> FiniteWorker(ws[i])
    requires Ordered(ws, WorkerAfter)
    ensures Ascending(ws)
    decreases |ws|
  {
    if |ws| > 1 {
      var tail := ws[1..];
      assert forall i :: 0 <= i < |tail| ==> tail[i] == ws[i + 1];
      AdjacentAscending(tail);
      assert !WorkerAfter(ws[0], ws[1]);
      forall i, j | 0 <= i < j < |ws|
        ensures WorkerNumber(ws[i]) <= WorkerNumber(ws[j])
      {
        if i > 0 {
          assert ws[i] == tail[i - 1] && ws[j] == tail[j - 1];
        } else if j > 1 {
          assert ws[1] == tail[0] && ws[j] == tail[j - 1];
        }
      }
    }
  }

  /**
   * When every worker number reads as a finite number, the workers come out in
   * ascending numeric order ("9" before "10"), and they are the map's keys.
   */
  lemma SortedWorkersAscending(b: Buckets<CsvRow>)
    requires forall i :: 0 <= i < |b| ==> FiniteWorker(b[i].0)
    ensures forall i :: 0 <= i < |SortedWorkers(b)| ==> FiniteWorker(SortedWorkers(b)[i])
    ensures Ascending(SortedWorkers(b))
  {
    var ws := SortedWorkers(b);
    var ks := KeysOf(b);
    forall i | 0 <= i < |ws|
      ensures FiniteWorker(ws[i])
    {
      assert ws[i] in multiset(ks);
      var k :| 0 <= k < |ks| && ks[k] == ws[i];
    }
    WorkerAfterAsymmetric();
    SortByOrdered(ks, WorkerAfter);
    AdjacentAscending(ws);
  }

  // ---------------------------------------------------------------------------
  // PDF or ZIP

  /** A request parameter, as the query string or a JSON body can give it. */
  datatype Param = Missing | Nul | Flag(b: bool) | Number(x: JsNumber) | Text(s: string)

  /** The request body: absent, raw `text/csv`, or a parsed JSON object. */
  datatype Body = NoBody | TextBody(text: string) | JsonBody(fields: map<string, Param>)

  function ParamOf(m: map<string, Param>, k: string): Param {
    if k in m then m[k] else Missing
  }

  /** `a ?? b`. */
  function OrElse(a: Param, b: Param): (r: Param)
    ensures r == a || r == b
  {
    if a == Missing || a == Nul then b else a
  }

  /** `req.body && (req.body.isZip ?? req.body.zip)`. */
  function BodyFlag(body: Body): Param {
    match body
    case NoBody => Missing
    case TextBody(t) => if t == "" then Text("") else Missing
    case JsonBody(f) => OrElse(ParamOf(f, "isZip"), ParamOf(f, "zip"))
  }

  /** `rawIsZip`: the first of the five places that is not nullish, else "false". */
  function RawIsZip(query: map<string, Param>, body: Body): Param {
    OrElse(OrElse(OrElse(OrElse(ParamOf(query, "isZip"), ParamOf(query, "iszip")),
                         ParamOf(query, "zip")), BodyFlag(body)), Text("false"))
  }

  /** `String(p)`. */
  function ParamText(p: Param): string {
    match p
    case Missing => "undefined"
    case Nul => "null"
    case Flag(b) => if b then "true" else "false"
    case Number(x) => NumberToString(x)
    case Text(s) => s
  }

  /** `String(raw).toLowerCase() === "true" || String(raw) === "1" || ... === "zip"`. */
  predicate IsZip(raw: Param) {
    var t := ParamText(raw);
    CsvRows.LowerAll(t) == "true" || t == "1" || CsvRows.LowerAll(t) == "zip"
  }

  /** The query's `isZip` wins over every other place when it is given. */
  lemma QueryIsZipFirst(query: map<string, Param>, body: Body)
    requires "isZip" in query && query["isZip"] != Missing && query["isZip"] != Nul
    ensures RawIsZip(query, body) == query["isZip"]
  {
  }

  /** With no flag anywhere the route answers with one PDF. */
  lemma SinglePdfByDefault(query: map<string, Param>, body: Body)
    requires "isZip" !in query && "iszip" !in query && "zip" !in query
    requires body.NoBody? || body.TextBody?
    ensures !IsZip(RawIsZip(query, body))
  {
    var t := ParamText(RawIsZip(query, body));
    assert t == "false" || t == "";
    assert CsvRows.LowerAll(t) == t;
  }

  /** `true` in a JSON body, `"ZIP"` and `"1"` in the query all ask for a ZIP. */
  lemma ZipSpellings()
    ensures IsZip(Flag(true))
    ensures IsZip(Text("ZIP"))
    ensures IsZip(Text("1"))
    ensures !IsZip(Flag(false))
  {
    assert CsvRows.LowerAll("ZIP") == "zip";
    assert "false" != "1";
  }

  // ---------------------------------------------------------------------------
  // File names inside the ZIP

  /** A character the file name keeps: `[a-zA-Z0-9_\- ]`. */
  predicate Allowed(c: char) {
    'a' <= c <= 'z' || 'A' <= c <= 'Z' || '0' <= c <= '9' || c == '_' || c == '-' || c == ' '
  }

  predicate AllAllowed(s: string) {
    forall i :: 0 <= i < |s| ==> Allowed(s[i])
  }

  /** `.replace(/[^a-zA-Z0-9_\- ]/g, "")`. */
  function KeepAllowed(s: string): (r: string)
    ensures |r| <= |s| && AllAllowed(r)
  {
    if s == [] then []
    else (if Allowed(s[0]) then [s[0]] else []) + KeepAllowed(s[1..])
  }

  /** `clean(s)`: accents stripped, other disallowed characters removed, then trimmed. */
  function Clean(s: string): (r: string)
    ensures |r| <= |s|
  {
    Trim(KeepAllowed(StripAccents(s)))
  }

  /** The holder name used when `interesado` is empty. */
  const DefaultHolder: string := "Trabajador"

  /** The worker part of the name when the cleaned worker number is empty. */
  const NoNumber: string := "sin-numero"

  /** `clean(interesado || "Trabajador")`. */
  function HolderPart(interesado: string): string {
    Clean(if interesado != "" then interesado else DefaultHolder)
  }

  /** `clean(worker || "") || "sin-numero"`. */
  function WorkerPart(worker: string): string {
    var workerId := Clean(worker);
    if workerId != "" then workerId else NoNumber
  }

  /** `buildWorkerPdfFileName(interesado, worker)`: "Holder - number.pdf". */
  function WorkerPdfFileName(interesado: string, worker: string): (name: string)
    ensures |name| >= 7
  {
    HolderPart(interesado) + " - " + WorkerPart(worker) + ".pdf"
  }

  lemma {:induction false} KeepAllowedFixes(s: string)
    requires AllAllowed(s)
    ensures KeepAllowed(s) == s
    decreases |s|
  {
    if s != [] {
      assert AllAllowed(s[1..]) by {
        assert forall i :: 0 <= i < |s| - 1 ==> s[1..][i] == s[i + 1];
      }
      KeepAllowedFixes(s[1..]);
    }
  }

  lemma {:induction false} StripAccentsFixes(s: string)
    requires AllAllowed(s)
    ensures StripAccents(s) == s
    decreases |s|
  {
    if s != [] {
      assert AllAllowed(s[1..]) by {
        assert forall i :: 0 <= i < |s| - 1 ==> s[1..][i] == s[i + 1];
      }
      StripAccentsFixes(s[1..]);
    }
  }

  lemma {:induction false} TrimStartKeeps(s: string)
    requires AllAllowed(s)
    ensures AllAllowed(TrimStart(s))
    decreases |s|
  {
    if s != [] && IsSpace(s[0]) {
      assert AllAllowed(s[1..]) by {
        assert forall i :: 0 <= i < |s| - 1 ==> s[1..][i] == s[i + 1];
      }
      TrimStartKeeps(s[1..]);
    }
  }

  lemma {:induction false} TrimEndKeeps(s: string)
    requires AllAllowed(s)
    ensures AllAllowed(TrimEnd(s))
    decreases |s|
  {
    if s != [] && IsSpace(s[|s| - 1]) {
      assert AllAllowed(s[..|s| - 1]) by {
        assert forall i :: 0 <= i < |s| - 1 ==> s[..|s| - 1][i] == s[i];
      }
      TrimEndKeeps(s[..|s| - 1]);
    }
  }

  /** A cleaned name holds only allowed characters and no space at either end. */
  lemma CleanAllowed(s: string)
    ensures AllAllowed(Clean(s))
    ensures Clean(s) == [] || (Clean(s)[0] != ' ' && Clean(s)[|Clean(s)| - 1] != ' ')
  {
    var k := KeepAllowed(StripAccents(s));
    TrimStartKeeps(k);
    TrimEndKeeps(TrimStart(k));
  }

  /** Cleaning a cleaned name changes nothing. */
  lemma CleanIdempotent(s: string)
    ensures Clean(Clean(s)) == Clean(s)
  {
    var c := Clean(s);
    CleanAllowed(s);
    StripAccentsFixes(c);
    KeepAllowedFixes(c);
    TrimIdempotent(KeepAllowed(StripAccents(s)));
  }

  lemma AllAllowedJoin(a: string, b: string)
    requires AllAllowed(a) && AllAllowed(b)
    ensures AllAllowed(a + " - " + b)
  {
    var t := a + " - " + b;
    forall i | 0 <= i < |t|
      ensures Allowed(t[i])
    {
      if i < |a| {
        assert t[i] == a[i];
      } else if i >= |a| + 3 {
        assert t[i] == b[i - |a| - 3];
      }
    }
  }

  lemma HolderPartAllowed(interesado: string)
    ensures AllAllowed(HolderPart(interesado))
  {
    CleanAllowed(if interesado != "" then interesado else DefaultHolder);
  }

  lemma WorkerPartAllowed(worker: string)
    ensures AllAllowed(WorkerPart(worker))
  {
    CleanAllowed(worker);
  }

  lemma PdfSuffix(stem: string)
    ensures (stem + ".pdf")[..|stem|] == stem && (stem + ".pdf")[|stem|..] == ".pdf"
  {
  }

  /** Every character of a file name is allowed, apart from the dot of ".pdf". */
  lemma FileNameCharacters(interesado: string, worker: string)
    ensures var name := WorkerPdfFileName(interesado, worker);
      name[|name| - 4..] == ".pdf" && AllAllowed(name[..|name| - 4])
  {
    HolderPartAllowed(interesado);
    WorkerPartAllowed(worker);
    AllAllowedJoin(HolderPart(interesado), WorkerPart(worker));
    PdfSuffix(HolderPart(interesado) + " - " + WorkerPart(worker));
  }

  /** A worker number that is already clean (digits, say) appears verbatim in the name. */
  lemma FileNameKeepsWorker(interesado: string, worker: string)
    requires worker != [] && AllAllowed(worker) && worker[0] != ' ' && worker[|worker| - 1] != ' '
    ensures WorkerPdfFileName(interesado, worker) == HolderPart(interesado) + " - " + worker + ".pdf"
  {
    CleanOfClean(worker);
  }

  lemma {:induction false} KeepAllowedAppend(a: string, b: string)
    ensures KeepAllowed(a + b) == KeepAllowed(a) + KeepAllowed(b)
    decreases |a|
  {
    if a == [] {
      assert a + b == b;
    } else {
      assert (a + b)[0] == a[0] && (a + b)[1..] == a[1..] + b;
      KeepAllowedAppend(a[1..], b);
    }
  }

  /** A clean word is its own cleaning. */
  lemma CleanOfClean(s: string)
    requires AllAllowed(s) && (s == [] || (s[0] != ' ' && s[|s| - 1] != ' '))
    ensures Clean(s) == s
  {
    StripAccentsFixes(s);
    KeepAllowedFixes(s);
    TrimOfTrimmed(s);
  }

  /** One accented letter between clean words is replaced by its base letter. */
  lemma CleanAroundAccent(head: string, c: char, tail: string)
    requires AllAllowed(head) && AllAllowed(tail)
    requires !IsCombining(c) && Allowed(BaseLetter(c))
    ensures KeepAllowed(StripAccents(head + [c] + tail)) == head + [BaseLetter(c)] + tail
  {
    StripAccentsAppend(head + [c], tail);
    StripAccentsAppend(head, [c]);
    StripAccentsFixes(head);
    StripAccentsFixes(tail);
    assert StripAccents([c]) == [BaseLetter(c)];
    KeepAllowedAppend(head + [BaseLetter(c)], tail);
    KeepAllowedAppend(head, [BaseLetter(c)]);
    KeepAllowedFixes(head);
    KeepAllowedFixes(tail);
  }

  /** The accent of "Pérez" is stripped, not dropped with its letter. */
  lemma CleanAccentedName(s: string)
    requires s == "Pérez"
    ensures Clean(s) == "Perez"
  {
    var head, tail := "P", "rez";
    assert s == head + ['é'] + tail;
    assert BaseLetter('é') == 'e';
    CleanAroundAccent(head, 'é', tail);
    assert head + ['e'] + tail == "Perez";
    TrimOfTrimmed("Perez");
  }

  /**
   * A holder name that is clean apart from one accented letter, and a clean
   * worker number: the name keeps the base letter and the number verbatim.
   */
  lemma FileNameOfAccented(head: string, c: char, tail: string, worker: string)
    requires AllAllowed(head) && AllAllowed(tail) && !IsCombining(c) && Allowed(BaseLetter(c))
    requires head != [] && head[0] != ' ' && tail != [] && tail[|tail| - 1] != ' '
    requires worker != [] && AllAllowed(worker) && worker[0] != ' ' && worker[|worker| - 1] != ' '
    ensures WorkerPdfFileName(head + [c] + tail, worker) == head + [BaseLetter(c)] + tail + " - " + worker + ".pdf"
  {
    var k := head + [BaseLetter(c)] + tail;
    CleanAroundAccent(head, c, tail);
    assert k[0] == head[0] && k[|k| - 1] == tail[|tail| - 1];
    TrimOfTrimmed(k);
    FileNameKeepsWorker(head + [c] + tail, worker);
  }

  lemma NothingAllowed(w: string)
    requires w == "#"
    ensures Clean(w) == ""
  {
    assert StripAccents(w) == w;
  }

  /** A worker number with nothing left after cleaning is written "sin-numero". */
  lemma FileNameWithoutNumber(interesado: string, worker: string)
    requires Clean(worker) == ""
    ensures WorkerPdfFileName(interesado, worker) == HolderPart(interesado) + " - " + NoNumber + ".pdf"
  {
  }
}
