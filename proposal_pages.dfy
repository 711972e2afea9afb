// The pages of a proposal ("propuesta") PDF: one page per career of a worker,
// each carrying its own department, head, remarks, period and table rows. The
// route builds them from the stored professor and schedule records
// (`groupRowsByCarreraFromRedis`) or from the CSV records of one worker
// (`buildPagesFromCsvRecords`), and in ZIP mode names one PDF per worker.
//
// `a.localeCompare(b, "es")` is not modelled: the career order is a parameter
// `after`, with `after(a, b)` standing for `a.localeCompare(b, "es") > 0`.
module ProposalPages {
  import opened JsValues
  import opened Buckets
  import opened Sorting
  import Plurality
  import opened Normalize
  import opened PdfRows
  import WorkerFiles

  /** One page: header period, info bar, table rows, remarks and signature. */
  datatype Page = Page(
    periodo: string, carrera: string, unidad: string, jefe: string,
    observaciones: string, rows: seq<Row>)

  const Unknown: string := "desconocido"
  const DefaultUnit: string := "DIVISIÓN DE CIENCIAS FÍSICO MATEMÁTICAS Y LAS INGENIERÍAS"
  const DefaultHead: string := "ING. JORGE ARTURO LOPEZ HERNANDEZ"
  const DefaultPeriod: string := "2024-I"

  /** The order `pages.sort` uses: by career. */
  function ByCareer(after: (string, string) -> bool): (Page, Page) -> bool {
    (p: Page, q: Page) => after(p.carrera, q.carrera)
  }

  function Career(p: Page): string {
    p.carrera
  }

  lemma ByCareerAsymmetric(after: (string, string) -> bool)
    requires Asymmetric(after)
    ensures Asymmetric(ByCareer(after))
  {
    forall p, q | ByCareer(after)(p, q)
      ensures !ByCareer(after)(q, p)
    {
      assert after(p.carrera, q.carrera);
    }
  }

  // ---------------------------------------------------------------------------
  // From stored records

  /** `(r.carrera ?? "").trim()`. */
  function CareerOf(r: Record): string {
    Trim(TextOf(Get(r, "carrera")))
  }

  /** `records.map(r => (r.carrera ?? "").trim()).filter(Boolean)`. */
  function Careers(rs: seq<Record>): (cs: seq<string>)
    ensures forall i :: 0 <= i < |cs| ==> cs[i] != ""
  {
    if rs == [] then []
    else
      var c := CareerOf(rs[|rs| - 1]);
      Careers(rs[..|rs| - 1]) + (if c == "" then [] else [c])
  }

  function Strs(xs: seq<string>): seq<Value> {
    seq(|xs|, i requires 0 <= i < |xs| => Str(xs[i]))
  }

  /** `mostFrequentNonEmpty(carrerasProf) || mostFrequentNonEmpty(carrerasHor) || "desconocido"`. */
  function DefaultCareer(profs: seq<Record>, hors: seq<Record>): (c: string)
    ensures c != ""
  {
    Or(Plurality.MostFrequent(Strs(Careers(profs))), Or(Plurality.MostFrequent(Strs(Careers(hors))), Unknown))
  }

  /** `carrerasSet`: the careers named anywhere, or the default career alone. */
  function CareerSet(profs: seq<Record>, hors: seq<Record>): (cs: seq<string>)
    ensures cs != []
  {
    var s := Dedup(Careers(profs) + Careers(hors));
    if s == [] then [DefaultCareer(profs, hors)] else s
  }

  /** `records.map(r => r[k])`. */
  function Column(rs: seq<Record>, k: string): seq<Value> {
    seq(|rs|, i requires 0 <= i < |rs| => Get(rs[i], k))
  }

  /** The records whose trimmed career is c, in input order. */
  function WithCareer(rs: seq<Record>, c: string): (sub: seq<Record>)
    ensures |sub| <= |rs|
  {
    if rs == [] then []
    else
      var r := rs[|rs| - 1];
      WithCareer(rs[..|rs| - 1], c) + (if CareerOf(r) == c then [r] else [])
  }

  datatype Meta = Meta(unidad: string, jefe: string, obs: string)

  /** `metaPorCarrera[c] || { unidad: "", jefe: "", obs: "" }`. */
  function MetaFor(profs: seq<Record>, careers: seq<string>, c: string): Meta {
    if c in careers then
      var sub := WithCareer(profs, c);
      Meta(Plurality.MostFrequent(Column(sub, "unidad")), Plurality.MostFrequent(Column(sub, "jefe")),
           Plurality.MostFrequent(Column(sub, "observaciones")))
    else Meta("", "", "")
  }

  /** The page a schedule record goes to: its career, or the default one. */
  function RowKey(dflt: string): Record -> string {
    (h: Record) => Or(CareerOf(h), dflt)
  }

  /** `profByWorker.find(pp => career(pp) === c) || profByWorker[0]`. */
  function TemplateSource(profs: seq<Record>, c: string): (p: Record)
    requires profs != []
    ensures p in profs
  {
    var sub := WithCareer(profs, c);
    WithCareerIn(profs, c);
    if sub != [] then sub[0] else profs[0]
  }

  lemma {:induction false} WithCareerIn(rs: seq<Record>, c: string)
    ensures forall r :: r in WithCareer(rs, c) ==> r in rs && CareerOf(r) == c
    decreases |rs|
  {
    if rs != [] {
      WithCareerIn(rs[..|rs| - 1], c);
    }
  }

  /** The template row of career c. */
  function TemplateFor(profs: seq<Record>): string -> Row
    requires profs != []
  {
    (c: string) => TemplateRow(TemplateSource(profs, c))
  }

  function Same(c: string): string {
    c
  }

  /** `buckets` after both loops: schedule rows by career, or one template row per career. */
  function RowBuckets(profs: seq<Record>, hors: seq<Record>): Buckets<Row> {
    if hors == [] && profs != [] then GroupBy(CareerSet(profs, hors), Same, TemplateFor(profs))
    else GroupBy(hors, RowKey(DefaultCareer(profs, hors)), HorarioToRow)
  }

  /** `horByWorker.find(h => h.anoIni || h.anoFin)`, as a period. */
  function PeriodOf(hors: seq<Record>): string {
    if hors == [] then DefaultPeriod
    else if Truthy(Get(hors[0], "anoIni")) || Truthy(Get(hors[0], "anoFin")) then InferPeriodo(hors[0])
    else PeriodOf(hors[1..])
  }

  /** The schedule records of one career, default career included. */
  function OfCareer(hors: seq<Record>, key: Record -> string, c: string): seq<Record> {
    if hors == [] then []
    else
      var h := hors[|hors| - 1];
      OfCareer(hors[..|hors| - 1], key, c) + (if key(h) == c then [h] else [])
  }

  /** The page of one bucket entry. */
  function RedisPage(profs: seq<Record>, hors: seq<Record>, carrera: string, rows: seq<Row>): (pg: Page)
    ensures pg.carrera == carrera && pg.rows == rows
    ensures pg.unidad != "" && pg.jefe != ""
  {
    var meta := MetaFor(profs, CareerSet(profs, hors), carrera);
    var obsRows := Column(OfCareer(hors, RowKey(DefaultCareer(profs, hors)), carrera), "observaciones");
    Page(PeriodOf(hors), carrera, Or(meta.unidad, DefaultUnit), Or(meta.jefe, DefaultHead),
         Or(Plurality.MostFrequent(obsRows), meta.obs), rows)
  }

  function PageMaker(profs: seq<Record>, hors: seq<Record>): (string, seq<Row>) -> Page {
    (c: string, rows: seq<Row>) => RedisPage(profs, hors, c, rows)
  }

  /** The page of each bucket entry, in bucket order. */
  function BuildPages(b: Buckets<Row>, mk: (string, seq<Row>) -> Page): (pages: seq<Page>)
    ensures |pages| == |b|
  {
    seq(|b|, i requires 0 <= i < |b| => mk(b[i].0, b[i].1))
  }

  /** What `groupRowsByCarreraFromRedis` returns. */
  function RedisPages(profs: seq<Record>, hors: seq<Record>, after: (string, string) -> bool): seq<Page> {
    SortBy(BuildPages(RowBuckets(profs, hors), PageMaker(profs, hors)), ByCareer(after))
  }

  /** The two bucket loops of `groupRowsByCarreraFromRedis`. */
  method CollectRowBuckets(profs: seq<Record>, hors: seq<Record>) returns (buckets: Buckets<Row>)
    ensures buckets == RowBuckets(profs, hors)
  {
    if |hors| == 0 && |profs| > 0 {
      var careers := CareerSet(profs, hors);
      buckets := GroupAll(careers, Same, TemplateFor(profs));
    } else {
      var dflt := DefaultCareer(profs, hors);
      buckets := GroupAll(hors, RowKey(dflt), HorarioToRow);
    }
  }

  /** The page loop: one page per bucket entry, in bucket order, each made by `page`. */
  method CollectPages(buckets: Buckets<Row>, page: (string, seq<Row>) -> Page) returns (pages: seq<Page>)
    ensures pages == BuildPages(buckets, page)
  {
    pages := [];
    var i := 0;
    while i < |buckets|
      invariant 0 <= i <= |buckets| && |pages| == i
      invariant forall j :: 0 <= j < i ==> pages[j] == page(buckets[j].0, buckets[j].1)
    {
      pages := pages + [page(buckets[i].0, buckets[i].1)];
      i := i + 1;
    }
    BuildPagesEqual(pages, buckets, page);
  }

  lemma BuildPagesEqual(pages: seq<Page>, b: Buckets<Row>, mk: (string, seq<Row>) -> Page)
    requires |pages| == |b| && forall j :: 0 <= j < |b| ==> pages[j] == mk(b[j].0, b[j].1)
    ensures pages == BuildPages(b, mk)
  {
  }

  /** `groupRowsByCarreraFromRedis`: the bucket loops, the page loop, then the sort. */
  method GroupRowsByCarreraFromRedis(profs: seq<Record>, hors: seq<Record>, after: (string, string) -> bool)
    returns (pages: seq<Page>)
    ensures pages == RedisPages(profs, hors, after)
  {
    var buckets := CollectRowBuckets(profs, hors);
    var unsorted := CollectPages(buckets, PageMaker(profs, hors));
    pages := SortBy(unsorted, ByCareer(after));
  }

  /** The maker puts an entry's career and rows on its page. */
  ghost predicate KeepsEntry(mk: (string, seq<Row>) -> Page) {
    forall c, rows :: mk(c, rows).carrera == c && mk(c, rows).rows == rows
  }

  lemma PageMakerKeepsEntry(profs: seq<Record>, hors: seq<Record>)
    ensures KeepsEntry(PageMaker(profs, hors))
  {
  }

  /** The page shows the rows of its career's entry. */
  ghost predicate PageOfEntry(b: Buckets<Row>, pg: Page) {
    Find(b, pg.carrera) >= 0 && pg.rows == b[Find(b, pg.carrera)].1
  }

  /** Page i shows entry i. */
  lemma BuildPagesEntries(b: Buckets<Row>, mk: (string, seq<Row>) -> Page)
    requires KeepsEntry(mk)
    ensures forall i :: 0 <= i < |b| ==>
      BuildPages(b, mk)[i].carrera == b[i].0 && BuildPages(b, mk)[i].rows == b[i].1
  {
  }

  /** Every page built from a map with distinct keys shows its own career's entry. */
  lemma BuildPagesOfEntry(b: Buckets<Row>, mk: (string, seq<Row>) -> Page)
    requires DistinctKeys(b) && KeepsEntry(mk)
    ensures forall pg :: pg in BuildPages(b, mk) ==> PageOfEntry(b, pg)
  {
    var un := BuildPages(b, mk);
    BuildPagesEntries(b, mk);
    forall pg | pg in un
      ensures PageOfEntry(b, pg)
    {
      var i :| 0 <= i < |un| && un[i] == pg;
      OnlyFind(b, i);
    }
  }

  /** The pages built from a map with distinct keys have distinct careers. */
  lemma BuildPagesDistinct(b: Buckets<Row>, mk: (string, seq<Row>) -> Page)
    requires DistinctKeys(b) && KeepsEntry(mk)
    ensures DistinctBy(BuildPages(b, mk), Career)
  {
    BuildPagesEntries(b, mk);
  }

  /** Every key of the map has a page. */
  lemma BuildPagesComplete(b: Buckets<Row>, mk: (string, seq<Row>) -> Page, k: string)
    requires KeepsEntry(mk) && Find(b, k) >= 0
    ensures exists i :: 0 <= i < |BuildPages(b, mk)| && BuildPages(b, mk)[i].carrera == k
  {
    BuildPagesEntries(b, mk);
  }

  /**
   * One page per key of the map, each showing its key's entry, with distinct
   * careers in career order.
   */
  ghost predicate PagesOfMap(b: Buckets<Row>, after: (string, string) -> bool, pages: seq<Page>) {
    && (forall pg :: pg in pages ==> PageOfEntry(b, pg))
    && (forall k :: Find(b, k) >= 0 ==> exists i :: 0 <= i < |pages| && pages[i].carrera == k)
    && DistinctBy(pages, Career)
    && Ordered(pages, ByCareer(after))
  }

  /** The sorted pages of a map with distinct keys: one page per key, sorted by career. */
  lemma SortedBucketPages(b: Buckets<Row>, mk: (string, seq<Row>) -> Page, after: (string, string) -> bool)
    requires DistinctKeys(b) && KeepsEntry(mk) && Asymmetric(after)
    ensures PagesOfMap(b, after, SortBy(BuildPages(b, mk), ByCareer(after)))
  {
    var un := BuildPages(b, mk);
    var pages := SortBy(un, ByCareer(after));
    BuildPagesOfEntry(b, mk);
    SortByKeeps(un, ByCareer(after));
    forall k | Find(b, k) >= 0
      ensures exists i :: 0 <= i < |pages| && pages[i].carrera == k
    {
      BuildPagesComplete(b, mk, k);
      var j :| 0 <= j < |un| && un[j].carrera == k;
      assert un[j] in pages;
    }
    BuildPagesDistinct(b, mk);
    PermutationDistinct(un, pages, Career);
    ByCareerAsymmetric(after);
    SortByOrdered(un, ByCareer(after));
  }

  ghost predicate PageHolds(hors: seq<Record>, key: Record -> string, pg: Page) {
    pg.rows == Select(hors, key, HorarioToRow, pg.carrera) && pg.rows != []
  }

  /**
   * Each page holds exactly the rows of its career's schedule records, in
   * input order; every record's career has a page; careers are distinct and
   * in career order.
   */
  ghost predicate SchedulePages(hors: seq<Record>, key: Record -> string, after: (string, string) -> bool,
                                pages: seq<Page>) {
    && (forall pg :: pg in pages ==> PageHolds(hors, key, pg))
    && (forall p :: 0 <= p < |hors| ==> exists i :: 0 <= i < |pages| && pages[i].carrera == key(hors[p]))
    && DistinctBy(pages, Career)
    && Ordered(pages, ByCareer(after))
  }

  /** Each page of the grouped schedule records holds exactly its career's rows. */
  lemma GroupedPagesHold(hors: seq<Record>, key: Record -> string, pages: seq<Page>)
    requires forall pg :: pg in pages ==> PageOfEntry(GroupBy(hors, key, HorarioToRow), pg)
    ensures forall pg :: pg in pages ==> PageHolds(hors, key, pg)
  {
    var b := GroupBy(hors, key, HorarioToRow);
    GroupBySelect(hors, key, HorarioToRow);
    forall pg | pg in pages
      ensures PageHolds(hors, key, pg)
    {
      assert EntryHolds(hors, key, HorarioToRow, b, Find(b, pg.carrera));
    }
  }

  /** Every schedule record's career is a key of the grouping. */
  lemma GroupedKeysComplete(hors: seq<Record>, key: Record -> string)
    ensures forall p :: 0 <= p < |hors| ==> Find(GroupBy(hors, key, HorarioToRow), key(hors[p])) >= 0
  {
    forall p | 0 <= p < |hors|
      ensures Find(GroupBy(hors, key, HorarioToRow), key(hors[p])) >= 0
    {
      SelectHolds(hors, key, HorarioToRow, p);
      GroupByComplete(hors, key, HorarioToRow, key(hors[p]));
    }
  }

  /** The pages of the schedule records grouped by `key` hold those records. */
  lemma GroupedPages(hors: seq<Record>, key: Record -> string, after: (string, string) -> bool,
                     pages: seq<Page>)
    requires PagesOfMap(GroupBy(hors, key, HorarioToRow), after, pages)
    ensures SchedulePages(hors, key, after, pages)
  {
    var b := GroupBy(hors, key, HorarioToRow);
    GroupedPagesHold(hors, key, pages);
    GroupedKeysComplete(hors, key);
    forall p | 0 <= p < |hors|
      ensures exists i :: 0 <= i < |pages| && pages[i].carrera == key(hors[p])
    {
      assert Find(b, key(hors[p])) >= 0;
    }
  }

  /**
   * With schedule records, each page holds exactly the rows of its career's
   * records in input order, no career has two pages, every record's career has
   * a page, the pages hold one row per record, and they come sorted by career.
   */
  lemma RedisPagesHoldSchedules(profs: seq<Record>, hors: seq<Record>, after: (string, string) -> bool)
    requires hors != [] && Asymmetric(after)
    ensures SchedulePages(hors, RowKey(DefaultCareer(profs, hors)), after, RedisPages(profs, hors, after))
    ensures TotalSize(RowBuckets(profs, hors)) == |hors|
  {
    var key := RowKey(DefaultCareer(profs, hors));
    var b := RowBuckets(profs, hors);
    assert b == GroupBy(hors, key, HorarioToRow);
    GroupBySize(hors, key, HorarioToRow);
    GroupByDistinct(hors, key, HorarioToRow);
    PageMakerKeepsEntry(profs, hors);
    SortedBucketPages(b, PageMaker(profs, hors), after);
    GroupedPages(hors, key, after, RedisPages(profs, hors, after));
  }

  /**
   * Without schedule records, each career of the set gets one page holding the
   * one template row built from its first professor record (or the first
   * record when none names it).
   */
  lemma RedisPagesFromTemplates(profs: seq<Record>, hors: seq<Record>, after: (string, string) -> bool)
    requires hors == [] && profs != [] && Asymmetric(after)
    ensures |RedisPages(profs, hors, after)| == |CareerSet(profs, hors)|
    ensures forall pg :: pg in RedisPages(profs, hors, after) ==>
      pg.carrera in CareerSet(profs, hors) && pg.rows == [TemplateRow(TemplateSource(profs, pg.carrera))]
  {
    var cs := CareerSet(profs, hors);
    var b := RowBuckets(profs, hors);
    assert b == GroupBy(cs, Same, TemplateFor(profs));
    GroupByUnique(cs, Same, TemplateFor(profs));
    GroupByDistinct(cs, Same, TemplateFor(profs));
    PageMakerKeepsEntry(profs, hors);
    SortedBucketPages(b, PageMaker(profs, hors), after);
    assert PagesOfMap(b, after, RedisPages(profs, hors, after));
    forall pg | pg in RedisPages(profs, hors, after)
      ensures pg.carrera in cs && pg.rows == [TemplateRow(TemplateSource(profs, pg.carrera))]
    {
      var f := Find(b, pg.carrera);
      assert b[f] == (cs[f], [TemplateFor(profs)(cs[f])]);
    }
  }

  /** A worker with neither professor nor schedule records gets no page. */
  lemma RedisPagesEmpty(after: (string, string) -> bool)
    ensures RedisPages([], [], after) == []
  {
  }

  /** With no career anywhere, the one career of the set is "desconocido". */
  lemma UnknownCareer(profs: seq<Record>, hors: seq<Record>)
    requires forall i :: 0 <= i < |profs| ==> CareerOf(profs[i]) == ""
    requires forall i :: 0 <= i < |hors| ==> CareerOf(hors[i]) == ""
    ensures CareerSet(profs, hors) == [Unknown]
  {
    NoCareers(profs);
    NoCareers(hors);
    assert Strs([]) == [];
    Plurality.MostFrequentBlank([]);
  }

  lemma {:induction false} NoCareers(rs: seq<Record>)
    requires forall i :: 0 <= i < |rs| ==> CareerOf(rs[i]) == ""
    ensures Careers(rs) == []
    decreases |rs|
  {
    if rs != [] {
      NoCareers(rs[..|rs| - 1]);
    }
  }

  // ---------------------------------------------------------------------------
  // From the CSV records of one worker

  /** `String(r.carrera ?? "").trim() || "desconocido"`. */
  function CsvCareer(r: CsvRow): (c: string)
    ensures c != ""
  {
    Or(Trim(WorkerFiles.CellOf(r, "carrera")), Unknown)
  }

  /** `recs.map(r => r[k])`: a missing column reads as undefined. */
  function CsvColumn(rs: seq<CsvRow>, k: string): seq<Value> {
    seq(|rs|, i requires 0 <= i < |rs| => if k in rs[i] then Str(rs[i][k]) else Undefined)
  }

  function CsvTableRows(group: seq<CsvRow>): (rows: seq<Row>)
    ensures |rows| == |group|
    ensures forall i :: 0 <= i < |group| ==> rows[i] == RowCsvToHorarioRow(group[i])
  {
    seq(|group|, i requires 0 <= i < |group| => RowCsvToHorarioRow(group[i]))
  }

  /** One page of `buildPagesFromCsvRecords`, for the records of one career. */
  function CsvPage(carrera: string, group: seq<CsvRow>): (pg: Page)
    ensures pg.carrera == carrera && pg.rows == CsvTableRows(group)
    ensures pg.unidad != "" && pg.jefe != "" && pg.periodo != ""
  {
    Page(Or(Plurality.MostFrequent(CsvColumn(group, "periodo")), DefaultPeriod),
         carrera,
         Or(Plurality.MostFrequent(CsvColumn(group, "unidad")), DefaultUnit),
         Or(Plurality.MostFrequent(CsvColumn(group, "jefe")), DefaultHead),
         Plurality.MostFrequent(CsvColumn(group, "observaciones")),
         CsvTableRows(group))
  }

  /** `byCarrera`. */
  function ByCarrera(recs: seq<CsvRow>): Buckets<CsvRow> {
    GroupBy(recs, CsvCareer, WorkerFiles.Self)
  }

  /** `order.map(c => mk(c, b.get(c)))`. */
  function PagesInOrder(order: seq<string>, b: Buckets<CsvRow>, mk: (string, seq<CsvRow>) -> Page): (pages: seq<Page>)
    ensures |pages| == |order|
  {
    seq(|order|, i requires 0 <= i < |order| => mk(order[i], Entry(b, order[i])))
  }

  /** The pages `buildPagesFromCsvRecords` returns. */
  function CsvPages(recs: seq<CsvRow>, after: (string, string) -> bool): (pages: seq<Page>)
    ensures |pages| == |ByCarrera(recs)|
  {
    var b := ByCarrera(recs);
    PagesInOrder(SortBy(KeysOf(b), after), b, CsvPage)
  }

  /** The `interesado` of `buildPagesFromCsvRecords`. */
  function Interesado(recs: seq<CsvRow>, worker: string): (who: string)
    ensures who != ""
  {
    Or(Plurality.MostFrequent(CsvColumn(recs, "profesor")), "Trabajador " + worker)
  }

  /** `buildPagesFromCsvRecords(recs, worker)`. */
  method BuildPagesFromCsvRecords(recs: seq<CsvRow>, worker: string, after: (string, string) -> bool)
    returns (pages: seq<Page>, interesado: string)
    ensures pages == CsvPages(recs, after) && interesado == Interesado(recs, worker)
  {
    var byCarrera := GroupAll(recs, CsvCareer, WorkerFiles.Self);
    interesado := Plurality.MostFrequentNonEmpty(CsvColumn(recs, "profesor"));
    if interesado == "" {
      interesado := "Trabajador " + worker;
    }
    var carrerasOrden := SortBy(KeysOf(byCarrera), after);
    pages := PagesInOrder(carrerasOrden, byCarrera, CsvPage);
  }

  /** The maker puts a career and the table rows of its records on its page. */
  ghost predicate ShowsGroup(mk: (string, seq<CsvRow>) -> Page) {
    forall c, g :: mk(c, g).carrera == c && mk(c, g).rows == CsvTableRows(g)
  }

  /** Page i shows key i of the order and the table rows of its entry. */
  lemma PagesInOrderEntries(order: seq<string>, b: Buckets<CsvRow>, mk: (string, seq<CsvRow>) -> Page)
    requires ShowsGroup(mk)
    ensures forall i :: 0 <= i < |order| ==>
      PagesInOrder(order, b, mk)[i].carrera == order[i] &&
      PagesInOrder(order, b, mk)[i].rows == CsvTableRows(Entry(b, order[i]))
  {
    forall i | 0 <= i < |order|
      ensures PagesInOrder(order, b, mk)[i].carrera == order[i]
      ensures PagesInOrder(order, b, mk)[i].rows == CsvTableRows(Entry(b, order[i]))
    {
      var g := Entry(b, order[i]);
      assert PagesInOrder(order, b, mk)[i] == mk(order[i], g);
    }
  }

  /** The keys of a map with distinct keys are distinct. */
  lemma KeysDistinct<V>(b: Buckets<V>)
    requires DistinctKeys(b)
    ensures DistinctBy(KeysOf(b), Same)
  {
  }

  /** A page for a key of the map shows that key's entry. */
  lemma KeyPageOfEntry(b: Buckets<CsvRow>, c: string)
    requires DistinctKeys(b) && c in KeysOf(b)
    ensures Find(b, c) >= 0 && Entry(b, c) == b[Find(b, c)].1
  {
    var ks := KeysOf(b);
    var k :| 0 <= k < |ks| && ks[k] == c;
    OnlyFind(b, k);
  }

  /** Each page of a key shows the table rows of that key's entry. */
  lemma KeyPagesHold(b: Buckets<CsvRow>, mk: (string, seq<CsvRow>) -> Page, order: seq<string>)
    requires DistinctKeys(b) && ShowsGroup(mk) && forall c :: c in order ==> c in KeysOf(b)
    ensures forall pg :: pg in PagesInOrder(order, b, mk) ==>
      Find(b, pg.carrera) >= 0 && pg.rows == CsvTableRows(b[Find(b, pg.carrera)].1)
  {
    var pages := PagesInOrder(order, b, mk);
    PagesInOrderEntries(order, b, mk);
    forall pg | pg in pages
      ensures Find(b, pg.carrera) >= 0 && pg.rows == CsvTableRows(b[Find(b, pg.carrera)].1)
    {
      var i :| 0 <= i < |pages| && pages[i] == pg;
      assert order[i] in order;
      KeyPageOfEntry(b, order[i]);
    }
  }

  /** Every key of the map in the order has a page. */
  lemma KeyPagesComplete(b: Buckets<CsvRow>, mk: (string, seq<CsvRow>) -> Page, order: seq<string>)
    requires ShowsGroup(mk) && forall c :: c in KeysOf(b) ==> c in order
    ensures forall k :: Find(b, k) >= 0 ==>
      exists i :: 0 <= i < |PagesInOrder(order, b, mk)| && PagesInOrder(order, b, mk)[i].carrera == k
  {
    var pages := PagesInOrder(order, b, mk);
    PagesInOrderEntries(order, b, mk);
    forall k | Find(b, k) >= 0
      ensures exists i :: 0 <= i < |pages| && pages[i].carrera == k
    {
      var ks := KeysOf(b);
      assert ks[Find(b, k)] == k;
      assert k in ks;
      assert k in order;
      var i :| 0 <= i < |order| && order[i] == k;
      assert pages[i].carrera == k;
    }
  }

  /** Pages of a sorted order of distinct keys have distinct careers in career order. */
  lemma KeyPagesSorted(b: Buckets<CsvRow>, mk: (string, seq<CsvRow>) -> Page, order: seq<string>,
                       after: (string, string) -> bool)
    requires ShowsGroup(mk) && DistinctBy(order, Same) && Ordered(order, after)
    ensures DistinctBy(PagesInOrder(order, b, mk), Career)
    ensures Ordered(PagesInOrder(order, b, mk), ByCareer(after))
  {
    var pages := PagesInOrder(order, b, mk);
    PagesInOrderEntries(order, b, mk);
    forall i | 0 <= i < |pages| - 1
      ensures !ByCareer(after)(pages[i], pages[i + 1])
    {
      assert !after(order[i], order[i + 1]);
    }
    forall i, j | 0 <= i < j < |pages|
      ensures Career(pages[i]) != Career(pages[j])
    {
      assert Same(order[i]) != Same(order[j]);
    }
  }

  /** The pages of the sorted keys of a map with distinct keys: one per key, sorted by career. */
  lemma SortedKeyPages(b: Buckets<CsvRow>, mk: (string, seq<CsvRow>) -> Page, after: (string, string) -> bool)
    requires DistinctKeys(b) && ShowsGroup(mk) && Asymmetric(after)
    ensures forall pg :: pg in PagesInOrder(SortBy(KeysOf(b), after), b, mk) ==>
      Find(b, pg.carrera) >= 0 && pg.rows == CsvTableRows(b[Find(b, pg.carrera)].1)
    ensures forall k :: Find(b, k) >= 0 ==>
      exists i :: 0 <= i < |PagesInOrder(SortBy(KeysOf(b), after), b, mk)| &&
        PagesInOrder(SortBy(KeysOf(b), after), b, mk)[i].carrera == k
    ensures DistinctBy(PagesInOrder(SortBy(KeysOf(b), after), b, mk), Career)
    ensures Ordered(PagesInOrder(SortBy(KeysOf(b), after), b, mk), ByCareer(after))
  {
    var ks := KeysOf(b);
    var order := SortBy(ks, after);
    SortByKeeps(ks, after);
    KeyPagesHold(b, mk, order);
    KeyPagesComplete(b, mk, order);
    KeysDistinct(b);
    PermutationDistinct(ks, order, Same);
    SortByOrdered(ks, after);
    KeyPagesSorted(b, mk, order, after);
  }

  /**
   * Each page holds the rows of exactly the records of its career, in input
   * order; no career has two pages; every record's career has a page; the
   * pages hold one row per record and come sorted by career.
   */
  lemma CsvPagesHoldRecords(recs: seq<CsvRow>, after: (string, string) -> bool)
    requires Asymmetric(after)
    ensures forall pg :: pg in CsvPages(recs, after) ==>
      pg.rows == CsvTableRows(Select(recs, CsvCareer, WorkerFiles.Self, pg.carrera)) && pg.rows != []
    ensures DistinctBy(CsvPages(recs, after), Career)
    ensures Ordered(CsvPages(recs, after), ByCareer(after))
    ensures TotalSize(ByCarrera(recs)) == |recs|
    ensures forall p :: 0 <= p < |recs| ==>
      exists i :: 0 <= i < |CsvPages(recs, after)| && CsvPages(recs, after)[i].carrera == CsvCareer(recs[p])
  {
    var b := ByCarrera(recs);
    var pages := CsvPages(recs, after);
    GroupBySelect(recs, CsvCareer, WorkerFiles.Self);
    GroupByDistinct(recs, CsvCareer, WorkerFiles.Self);
    GroupBySize(recs, CsvCareer, WorkerFiles.Self);
    SortedKeyPages(b, CsvPage, after);
    forall pg | pg in pages
      ensures pg.rows == CsvTableRows(Select(recs, CsvCareer, WorkerFiles.Self, pg.carrera)) && pg.rows != []
    {
      assert EntryHolds(recs, CsvCareer, WorkerFiles.Self, b, Find(b, pg.carrera));
    }
    forall p | 0 <= p < |recs|
      ensures Find(b, CsvCareer(recs[p])) >= 0
    {
      SelectHolds(recs, CsvCareer, WorkerFiles.Self, p);
      GroupByComplete(recs, CsvCareer, WorkerFiles.Self, CsvCareer(recs[p]));
    }
  }

  /** In a map with distinct keys, the key at index k is found at k. */
  lemma OnlyFind<V>(b: Buckets<V>, k: int)
    requires DistinctKeys(b) && 0 <= k < |b|
    ensures Find(b, b[k].0) == k
  {
    var f := Find(b, b[k].0);
    if f != k {
      OnlyEntry(b, b[k].0, k);
    }
  }

  /** A worker with at least one record gets at least one page, so the ZIP never skips it. */
  lemma CsvPagesNotEmpty(recs: seq<CsvRow>, after: (string, string) -> bool)
    requires recs != []
    ensures CsvPages(recs, after) != []
  {
    GroupBySize(recs, CsvCareer, WorkerFiles.Self);
  }

  // ---------------------------------------------------------------------------
  // The ZIP of one PDF per worker

  /** The entry names of the ZIP: one PDF per worker, in numeric worker order. */
  function ZipEntryNames(rows: seq<CsvRow>): (names: seq<string>)
    ensures |names| == |WorkerFiles.ByWorker(rows)|
  {
    var byWorker := WorkerFiles.ByWorker(rows);
    var workers := WorkerFiles.SortedWorkers(byWorker);
    seq(|workers|, i requires 0 <= i < |workers| =>
      WorkerFiles.WorkerPdfFileName(Interesado(Entry(byWorker, workers[i]), workers[i]), workers[i]))
  }

  /** Each worker's PDF is named after the holder its own records name most often. */
  lemma ZipEntryName(rows: seq<CsvRow>, i: int)
    requires 0 <= i < |ZipEntryNames(rows)|
    ensures var w := WorkerFiles.SortedWorkers(WorkerFiles.ByWorker(rows))[i];
      ZipEntryNames(rows)[i] == WorkerFiles.WorkerPdfFileName(
        Interesado(Select(WorkerFiles.Named(rows), WorkerFiles.WorkerKey, WorkerFiles.Self, w), w), w)
  {
    var b := WorkerFiles.ByWorker(rows);
    var ws := WorkerFiles.SortedWorkers(b);
    var ks := KeysOf(b);
    WorkerFiles.WorkerBuckets(rows);
    assert ws[i] in multiset(ks);
    var k :| 0 <= k < |ks| && ks[k] == ws[i];
    OnlyFind(b, k);
    assert EntryHolds(WorkerFiles.Named(rows), WorkerFiles.WorkerKey, WorkerFiles.Self, b, k);
  }
}
