// `rowsFromCSV`: the parsed CSV text becomes one record per data line, keyed
// by the header cells, whose spellings are folded onto canonical field names.
module CsvRows {
  import opened JsValues
  import CsvParse
  import PdfRows

  type CsvRow = PdfRows.CsvRow

  // ---------------------------------------------------------------------------
  // Header folding

  /** `toLowerCase()` as far as `Lower` goes: ASCII and Latin-1 capitals, one for one. */
  function LowerAll(s: string): (r: string)
    ensures |r| == |s| && forall i :: 0 <= i < |s| ==> r[i] == Lower(s[i])
  {
    seq(|s|, i requires 0 <= i < |s| => Lower(s[i]))
  }

  predicate NoSpaceOrDash(s: string) {
    forall i :: 0 <= i < |s| ==> !IsSpace(s[i]) && s[i] != '-'
  }

  /** `.replace(/[\s\-]+/g, "")`. */
  function DropSpacesAndDashes(s: string): (r: string)
    ensures |r| <= |s|
    ensures NoSpaceOrDash(r)
  {
    if s == [] then []
    else if IsSpace(s[0]) || s[0] == '-' then DropSpacesAndDashes(s[1..])
    else [s[0]] + DropSpacesAndDashes(s[1..])
  }

  /** `.replace(/[_]+/g, "")`. */
  function DropUnderscores(s: string): (r: string)
    ensures |r| <= |s|
    ensures forall i :: 0 <= i < |r| ==> r[i] != '_'
    ensures NoSpaceOrDash(s) ==> NoSpaceOrDash(r)
  {
    if s == [] then []
    else if s[0] == '_' then DropUnderscores(s[1..])
    else [s[0]] + DropUnderscores(s[1..])
  }

  /**
   * `norm(h)`: lower case, accents stripped, then white space and hyphens
   * removed, then underscores removed. No underscore, hyphen or white space
   * is left.
   */
  function Fold(h: string): (n: string)
    ensures forall i :: 0 <= i < |n| ==> n[i] != '_' && n[i] != '-' && !IsSpace(n[i])
  {
    DropUnderscores(DropSpacesAndDashes(StripAccents(LowerAll(h))))
  }

  lemma {:induction false} LowerAllAppend(a: string, b: string)
    ensures LowerAll(a + b) == LowerAll(a) + LowerAll(b)
  {
  }

  lemma {:induction false} DropSpacesAndDashesAppend(a: string, b: string)
    ensures DropSpacesAndDashes(a + b) == DropSpacesAndDashes(a) + DropSpacesAndDashes(b)
    decreases |a|
  {
    if a != [] {
      assert (a + b)[0] == a[0] && (a + b)[1..] == a[1..] + b;
      DropSpacesAndDashesAppend(a[1..], b);
    } else {
      assert a + b == b;
    }
  }

  lemma {:induction false} DropUnderscoresAppend(a: string, b: string)
    ensures DropUnderscores(a + b) == DropUnderscores(a) + DropUnderscores(b)
    decreases |a|
  {
    if a != [] {
      assert (a + b)[0] == a[0] && (a + b)[1..] == a[1..] + b;
      DropUnderscoresAppend(a[1..], b);
    } else {
      assert a + b == b;
    }
  }

  /** Folding works piece by piece. */
  lemma FoldAppend(a: string, b: string)
    ensures Fold(a + b) == Fold(a) + Fold(b)
  {
    LowerAllAppend(a, b);
    StripAccentsAppend(LowerAll(a), LowerAll(b));
    DropSpacesAndDashesAppend(StripAccents(LowerAll(a)), StripAccents(LowerAll(b)));
    DropUnderscoresAppend(DropSpacesAndDashes(StripAccents(LowerAll(a))),
                          DropSpacesAndDashes(StripAccents(LowerAll(b))));
  }

  predicate IsAsciiLetter(c: char) {
    'a' <= c <= 'z' || 'A' <= c <= 'Z'
  }

  /** An ASCII letter folds to its lower-case self. */
  lemma FoldLetter(c: char)
    requires IsAsciiLetter(c)
    ensures Fold([c]) == [Lower(c)]
  {
    assert LowerAll([c]) == [Lower(c)];
    assert StripAccents([Lower(c)]) == [Lower(c)];
    assert DropSpacesAndDashes([Lower(c)]) == [Lower(c)];
  }

  /** Hyphens, underscores and white space fold to nothing. */
  lemma FoldSeparator(c: char)
    requires c == '_' || c == '-' || c == ' '
    ensures Fold([c]) == []
  {
    assert LowerAll([c]) == [c];
    assert StripAccents([c]) == [c];
  }

  /** A word of ASCII letters folds to its lower-case spelling. */
  lemma {:induction false} FoldWord(s: string)
    requires forall i :: 0 <= i < |s| ==> IsAsciiLetter(s[i])
    ensures Fold(s) == LowerAll(s)
    decreases |s|
  {
    if s != [] {
      var c, rest := s[0], s[1..];
      assert s == [c] + rest;
      assert forall i :: 0 <= i < |rest| ==> rest[i] == s[i + 1];
      FoldWord(rest);
      FoldLetter(c);
      FoldAppend([c], rest);
      LowerAllAppend([c], rest);
      assert LowerAll([c]) == [Lower(c)];
    }
  }

  // ---------------------------------------------------------------------------
  // Aliases

  /** The canonical field names the table maps onto. */
  datatype Field =
    NumTrabajador | Profesor | Carrera | Unidad | Jefe | Observaciones | Periodo | Tipo |
    Causa | Categoria | DiaIni | MesIni | AnoIni | DiaFin | MesFin | AnoFin | PlanEstudios |
    CveAsignatura | NombreAsignatura | Grupo | HorasTeoricas | HorasPracticas | HorasTotal |
    Horario | Salon

  /** The field's key in a record. */
  function FieldName(f: Field): (name: string)
    ensures |name| > 0
  {
    match f
    case NumTrabajador => "numTrabajador"
    case Profesor => "profesor"
    case Carrera => "carrera"
    case Unidad => "unidad"
    case Jefe => "jefe"
    case Observaciones => "observaciones"
    case Periodo => "periodo"
    case Tipo => "tipo"
    case Causa => "causa"
    case Categoria => "categoria"
    case DiaIni => "diaIni"
    case MesIni => "mesIni"
    case AnoIni => "anoIni"
    case DiaFin => "diaFin"
    case MesFin => "mesFin"
    case AnoFin => "anoFin"
    case PlanEstudios => "planEstudios"
    case CveAsignatura => "cveAsignatura"
    case NombreAsignatura => "nombreAsignatura"
    case Grupo => "grupo"
    case HorasTeoricas => "horasTeoricas"
    case HorasPracticas => "horasPracticas"
    case HorasTotal => "horasTotal"
    case Horario => "horario"
    case Salon => "salon"
  }

  /**
   * `ALIAS.get(n)`: the field a folded header spelling names, the table's
   * entries tried in order.
   */
  function Alias(n: string): Option<Field> {
    if n == "numtrabajador" then Some(NumTrabajador)
    else if n == "num_trabajador" then Some(NumTrabajador)
    else if n == "trabajador" then Some(NumTrabajador)
    else if n == "profesor" then Some(Profesor)
    else if n == "interesado" then Some(Profesor)
    else if n == "carrera" then Some(Carrera)
    else if n == "unidad" then Some(Unidad)
    else if n == "jefe" then Some(Jefe)
    else if n == "observaciones" then Some(Observaciones)
    else if n == "periodo" then Some(Periodo)
    else if n == "tipo" then Some(Tipo)
    else if n == "mov" then Some(Tipo)
    else if n == "causa" then Some(Causa)
    else if n == "categoria" then Some(Categoria)
    else if n == "cat" then Some(Categoria)
    else if n == "diaini" then Some(DiaIni)
    else if n == "diainicio" then Some(DiaIni)
    else if n == "diain" then Some(DiaIni)
    else if n == "dia_ini" then Some(DiaIni)
    else if n == "mesini" then Some(MesIni)
    else if n == "mesinicio" then Some(MesIni)
    else if n == "mesin" then Some(MesIni)
    else if n == "mes_ini" then Some(MesIni)
    else if n == "anoini" then Some(AnoIni)
    else if n == "anioini" then Some(AnoIni)
    else if n == "ano_ini" then Some(AnoIni)
    else if n == "diafin" then Some(DiaFin)
    else if n == "dia_fin" then Some(DiaFin)
    else if n == "mesfin" then Some(MesFin)
    else if n == "mes_fin" then Some(MesFin)
    else if n == "anofin" then Some(AnoFin)
    else if n == "aniofin" then Some(AnoFin)
    else if n == "ano_fin" then Some(AnoFin)
    else if n == "anofin_" then Some(AnoFin)
    else if n == "planestudios" then Some(PlanEstudios)
    else if n == "plan_estudios" then Some(PlanEstudios)
    else if n == "plan" then Some(PlanEstudios)
    else if n == "cveasignatura" then Some(CveAsignatura)
    else if n == "cve_asignatura" then Some(CveAsignatura)
    else if n == "clave" then Some(CveAsignatura)
    else if n == "cve" then Some(CveAsignatura)
    else if n == "nombreasignatura" then Some(NombreAsignatura)
    else if n == "nombre_asignatura" then Some(NombreAsignatura)
    else if n == "asignatura" then Some(NombreAsignatura)
    else if n == "nombre" then Some(NombreAsignatura)
    else if n == "asig" then Some(NombreAsignatura)
    else if n == "grupo" then Some(Grupo)
    else if n == "horasteoricas" then Some(HorasTeoricas)
    else if n == "horas_teoricas" then Some(HorasTeoricas)
    else if n == "teo" then Some(HorasTeoricas)
    else if n == "horaspracticas" then Some(HorasPracticas)
    else if n == "horas_practicas" then Some(HorasPracticas)
    else if n == "pra" then Some(HorasPracticas)
    else if n == "horastotal" then Some(HorasTotal)
    else if n == "horas_total" then Some(HorasTotal)
    else if n == "tot" then Some(HorasTotal)
    else if n == "horario" then Some(Horario)
    else if n == "hor" then Some(Horario)
    else if n == "salon" then Some(Salon)
    else if n == "aula" then Some(Salon)
    else if n == "id" then Some(DiaIni)
    else if n == "im" then Some(MesIni)
    else if n == "ia" then Some(AnoIni)
    else if n == "td" then Some(DiaFin)
    else if n == "tm" then Some(MesFin)
    else if n == "ta" then Some(AnoFin)
    else None
  }

  /**
   * `ALIAS.get(norm(h)) || h`: the canonical name of a header cell, or the
   * cell itself when its folded spelling is not in the table.
   */
  function CanonicalHeader(h: string): string {
    match Alias(Fold(h))
    case Some(f) => FieldName(f)
    case None => h
  }

  /** Spellings that fold alike name the same field. */
  lemma SameFoldSameField(h1: string, h2: string)
    requires Fold(h1) == Fold(h2) && Alias(Fold(h1)).Some?
    ensures CanonicalHeader(h1) == CanonicalHeader(h2) == FieldName(Alias(Fold(h1)).value)
  {
  }

  /** A header whose folded spelling is not in the table is kept verbatim. */
  lemma UnknownHeaderKept(h: string)
    requires Alias(Fold(h)).None?
    ensures CanonicalHeader(h) == h
  {
  }

  /** An alias key with an underscore in it never matches: the fold has removed it. */
  lemma UnderscoreKeysUnreachable(h: string, key: string)
    requires Alias(key).Some? && exists i :: 0 <= i < |key| && key[i] == '_'
    ensures Fold(h) != key
  {
  }

  /** Two words of ASCII letters joined by an underscore fold to the two words in lower case. */
  lemma FoldSnake(h: string, k: nat)
    requires k < |h| && h[k] == '_'
    requires forall i :: 0 <= i < |h| && i != k ==> IsAsciiLetter(h[i])
    ensures Fold(h) == LowerAll(h[..k]) + LowerAll(h[k + 1..])
  {
    var w, t := h[..k], h[k + 1..];
    assert h == w + "_" + t;
    assert forall i :: 0 <= i < |t| ==> t[i] == h[k + 1 + i];
    FoldAppend(w, "_");
    FoldSeparator('_');
    assert Fold(w + "_") == Fold(w);
    FoldAppend(w + "_", t);
    FoldWord(w);
    FoldWord(t);
  }

  lemma FoldNumTrabajador(h: string)
    requires h == "num_trabajador"
    ensures Fold(h) == "numtrabajador"
  {
    FoldSnake(h, 3);
    assert LowerAll(h[..3]) == "num";
    assert LowerAll(h[4..]) == "trabajador";
  }

  /** No field is keyed `num_trabajador`. */
  lemma FieldNameNotNumTrabajador(f: Field)
    ensures FieldName(f) != "num_trabajador"
  {
    if f == HorasPracticas {
      assert FieldName(f)[0] != "num_trabajador"[0];
    }
  }

  /** No header is ever stored under `num_trabajador`. */
  lemma NoNumTrabajadorKey(h: string)
    ensures CanonicalHeader(h) != "num_trabajador"
  {
    if h == "num_trabajador" {
      FoldNumTrabajador(h);
      assert Alias("numtrabajador").Some?;
      FieldNameNotNumTrabajador(Alias(Fold(h)).value);
    } else if Alias(Fold(h)).Some? {
      FieldNameNotNumTrabajador(Alias(Fold(h)).value);
    }
  }

  /** The canonical name of a header whose fold and alias are known. */
  lemma CanonicalOf(h: string, n: string, f: Field)
    requires Fold(h) == n && Alias(n) == Some(f)
    ensures CanonicalHeader(h) == FieldName(f)
  {
  }

  lemma FoldWorkerHeader(h: string)
    requires h == "Num_Trabajador"
    ensures Fold(h) == "numtrabajador"
  {
    FoldSnake(h, 3);
    assert LowerAll(h[..3]) == "num";
    assert LowerAll(h[4..]) == "trabajador";
  }

  lemma WorkerHeaderExample(h: string)
    requires h == "Num_Trabajador"
    ensures CanonicalHeader(h) == "numTrabajador"
  {
    FoldWorkerHeader(h);
    CanonicalOf(h, "numtrabajador", NumTrabajador);
  }

  lemma TeacherHeaderExample(h: string)
    requires h == "Profesor"
    ensures CanonicalHeader(h) == "profesor"
  {
    FoldWord(h);
    assert LowerAll(h) == "profesor";
    CanonicalOf(h, "profesor", Profesor);
  }

  lemma CodeHeaderExample(h: string)
    requires h == "CVE"
    ensures CanonicalHeader(h) == "cveAsignatura"
  {
    FoldWord(h);
    assert LowerAll(h) == "cve";
    AliasOfShortKey("cve");
    CanonicalOf(h, "cve", CveAsignatura);
  }

  lemma TheoryHeaderExample(h: string)
    requires h == "Teo"
    ensures CanonicalHeader(h) == "horasTeoricas"
  {
    FoldWord(h);
    assert LowerAll(h) == "teo";
    AliasOfShortKey("teo");
    CanonicalOf(h, "teo", HorasTeoricas);
  }

  lemma AliasOfShortKey(n: string)
    requires n == "cve" || n == "teo"
    ensures n == "cve" ==> Alias(n) == Some(CveAsignatura)
    ensures n == "teo" ==> Alias(n) == Some(HorasTeoricas)
  {
  }

  // ---------------------------------------------------------------------------
  // Records

  /** The record keys for a header line: each cell trimmed, then canonicalised. */
  function HeaderKeys(header: seq<string>): (keys: seq<string>)
    ensures |keys| == |header|
    ensures forall c :: 0 <= c < |header| ==> keys[c] == CanonicalHeader(Trim(header[c]))
  {
    seq(|header|, c requires 0 <= c < |header| => CanonicalHeader(Trim(header[c])))
  }

  /** `rec[c] ?? ""`: a cell past the end of a short line reads as "". */
  function Cell(rec: seq<string>, c: int): string {
    if 0 <= c < |rec| then rec[c] else ""
  }

  /** `rec.every(v => String(v ?? "").trim() === "")`. */
  predicate Blank(rec: seq<string>) {
    forall c :: 0 <= c < |rec| ==> Trim(rec[c]) == ""
  }

  /** The object the inner loop builds: `row[keys[c]] = rec[c] ?? ""` for each column in turn. */
  function RowOf(keys: seq<string>, rec: seq<string>): (row: CsvRow)
    ensures row.Keys == set c | 0 <= c < |keys| :: keys[c]
    decreases |keys|
  {
    if keys == [] then map[]
    else
      var init := keys[..|keys| - 1];
      var row := RowOf(init, rec)[keys[|keys| - 1] := Cell(rec, |keys| - 1)];
      assert forall c :: 0 <= c < |init| ==> init[c] == keys[c];
      row
  }

  /** The records kept from the data lines, in order: blank lines are skipped. */
  function Records(keys: seq<string>, recs: seq<seq<string>>): (out: seq<CsvRow>)
    ensures |out| <= |recs|
    decreases |recs|
  {
    if recs == [] then []
    else
      var last := recs[|recs| - 1];
      Records(keys, recs[..|recs| - 1]) + (if Blank(last) then [] else [RowOf(keys, last)])
  }

  /** What `rowsFromCSV` returns for rows parsed from the text. */
  function RowsOf(raw: seq<seq<string>>): seq<CsvRow> {
    if raw == [] then [] else Records(HeaderKeys(raw[0]), raw[1..])
  }

  /**
   * Each key holds the cell of its last column: a later duplicate header
   * overwrites an earlier one, and a column past the end of a short line
   * reads as "".
   */
  lemma {:induction false} RowOfCell(keys: seq<string>, rec: seq<string>, c: int)
    requires 0 <= c < |keys|
    requires forall d :: c < d < |keys| ==> keys[d] != keys[c]
    ensures RowOf(keys, rec)[keys[c]] == if c < |rec| then rec[c] else ""
    decreases |keys|
  {
    if c < |keys| - 1 {
      var init := keys[..|keys| - 1];
      assert init[c] == keys[c];
      assert forall d :: c < d < |init| ==> init[d] == keys[d];
      RowOfCell(init, rec, c);
    }
  }

  /** With no blank line, every data line gives the object of its cells, in order. */
  lemma {:induction false} RecordsAllKept(keys: seq<string>, recs: seq<seq<string>>)
    requires forall i :: 0 <= i < |recs| ==> !Blank(recs[i])
    ensures |Records(keys, recs)| == |recs|
    ensures forall i :: 0 <= i < |recs| ==> Records(keys, recs)[i] == RowOf(keys, recs[i])
    decreases |recs|
  {
    if recs != [] {
      var init := recs[..|recs| - 1];
      var last := recs[|recs| - 1];
      assert !Blank(last);
      assert forall i :: 0 <= i < |init| ==> init[i] == recs[i];
      RecordsAllKept(keys, init);
      var r0 := Records(keys, init);
      var r := Records(keys, recs);
      assert r == r0 + [RowOf(keys, last)];
      forall i | 0 <= i < |recs|
        ensures r[i] == RowOf(keys, recs[i])
      {
        if i < |init| {
          assert r[i] == r0[i];
        }
      }
    }
  }

  /** Blank lines give no record. */
  lemma {:induction false} RecordsBlankDropped(keys: seq<string>, recs: seq<seq<string>>)
    requires forall i :: 0 <= i < |recs| ==> Blank(recs[i])
    ensures Records(keys, recs) == []
    decreases |recs|
  {
    if recs != [] {
      var init := recs[..|recs| - 1];
      assert forall i :: 0 <= i < |init| ==> init[i] == recs[i];
      RecordsBlankDropped(keys, init);
    }
  }

  /** The lines are read in order: the records of a + b are those of a, then those of b. */
  lemma {:induction false} RecordsAppend(keys: seq<string>, a: seq<seq<string>>, b: seq<seq<string>>)
    ensures Records(keys, a + b) == Records(keys, a) + Records(keys, b)
    decreases |b|
  {
    if b == [] {
      assert a + b == a;
    } else {
      var init := b[..|b| - 1];
      var last := b[|b| - 1];
      assert a + b == (a + init) + [last];
      assert b == init + [last];
      RecordsSnoc(keys, a + init, last);
      RecordsSnoc(keys, init, last);
      RecordsAppend(keys, a, init);
    }
  }

  /** Every record has exactly the header keys. */
  lemma {:induction false} RecordsKeys(keys: seq<string>, recs: seq<seq<string>>)
    ensures forall i :: 0 <= i < |Records(keys, recs)| ==>
      Records(keys, recs)[i].Keys == set c | 0 <= c < |keys| :: keys[c]
    decreases |recs|
  {
    if recs != [] {
      RecordsKeys(keys, recs[..|recs| - 1]);
    }
  }

  lemma RecordsSnoc(keys: seq<string>, recs: seq<seq<string>>, rec: seq<string>)
    ensures Records(keys, recs + [rec])
            == Records(keys, recs) + (if Blank(rec) then [] else [RowOf(keys, rec)])
  {
    assert (recs + [rec])[..|recs|] == recs;
  }

  /** The inner loop of `rowsFromCSV`: one object from one data line. */
  method BuildRow(keys: seq<string>, rec: seq<string>) returns (row: CsvRow)
    ensures row == RowOf(keys, rec)
  {
    row := map[];
    var c := 0;
    while c < |keys|
      invariant 0 <= c <= |keys|
      invariant row == RowOf(keys[..c], rec)
    {
      assert keys[..c + 1][..c] == keys[..c];
      row := row[keys[c] := Cell(rec, c)];
      c := c + 1;
    }
    assert keys[..c] == keys;
  }

  /** The outer loop of `rowsFromCSV`: one object per data line that is not blank. */
  method CollectRecords(keys: seq<string>, raw: seq<seq<string>>) returns (out: seq<CsvRow>)
    requires |raw| > 0
    ensures out == Records(keys, raw[1..])
  {
    out := [];
    var r := 1;
    while r < |raw|
      invariant 1 <= r <= |raw|
      invariant out == Records(keys, raw[1..r])
    {
      var rec := raw[r];
      assert raw[1..r + 1] == raw[1..r] + [rec];
      RecordsSnoc(keys, raw[1..r], rec);
      if !Blank(rec) {
        var row := BuildRow(keys, rec);
        out := out + [row];
      }
      r := r + 1;
    }
    assert raw[1..r] == raw[1..];
  }

  /** `rowsFromCSV(csvText)`. */
  method RowsFromCsv(csvText: string) returns (out: seq<CsvRow>)
    ensures out == RowsOf(CsvParse.Parse(Trim(csvText)))
  {
    var raw := CsvParse.ParseCsv(Trim(csvText));
    if |raw| == 0 {
      return [];
    }
    var keys := HeaderKeys(raw[0]);
    out := CollectRecords(keys, raw);
  }

  /**
   * Rows of plain fields written as CSV text come back as the records of their
   * data lines, keyed by the canonical header names.
   */
  lemma RowsOfText(rows: seq<seq<string>>)
    requires CsvParse.PlainRows(rows) && |rows| > 0 && rows[|rows| - 1] != [""]
    requires Trim(CsvParse.Text(rows)) == CsvParse.Text(rows)
    ensures RowsOf(CsvParse.Parse(Trim(CsvParse.Text(rows)))) == Records(HeaderKeys(rows[0]), rows[1..])
  {
    CsvParse.TextRoundTrip(rows);
  }
}
