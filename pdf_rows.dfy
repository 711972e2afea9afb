// The row of the proposal table ("forma de movimientos") and the three ways the
// proposal route builds one: from a stored schedule record (`horarioToRow`),
// from a professor record when a worker has no schedule (the template row of
// `groupRowsByCarreraFromRedis`), and from a CSV record (`rowCsvToHorarioRow`).
module PdfRows {
  import opened JsValues
  import opened Normalize

  /**
   * One table row. Text cells hold the text the table prints for them
   * (`String(value)`); the three hour cells are numbers.
   */
  datatype Row = Row(
    mov: string, causa: string, cat: string,
    iD: string, iM: string, iA: string,
    tD: string, tM: string, tA: string,
    plan: string, cve: string, asig: string, grupo: string,
    teo: int, pra: int, tot: int,
    hor: string, salon: string)

  /** A string with no white space at either end, as `trim()` leaves it. */
  predicate Tidy(s: string) {
    s == [] || (!IsSpace(s[0]) && !IsSpace(s[|s| - 1]))
  }

  /** `(v ?? "").toString().trim()`. */
  function TrimmedText(v: Value): (t: string)
    ensures Tidy(t) && t == Trim(TextOf(v))
    ensures v.Str? && Tidy(v.s) ==> t == v.s
  {
    if v.Str? && Tidy(v.s) then TrimOfTrimmed(v.s); v.s else Trim(TextOf(v))
  }

  /** The three hour cells: theory, practice, and the total, which defaults to their sum. */
  function Hours(teo: Value, pra: Value, tot: Value): (r: (int, int, int))
    ensures r.0 == ToIntStrict(teo, 0) && r.1 == ToIntStrict(pra, 0)
    ensures IsNullish(tot) ==> r.2 == r.0 + r.1
    ensures tot.Num? && tot.x.Finite? ==> r.2 == tot.x.n
  {
    var t := ToIntStrict(teo, 0);
    var p := ToIntStrict(pra, 0);
    (t, p, ToIntStrict(tot, t + p))
  }

  /** The movement cell: the given type, or "A" when it is empty. */
  function MovementOr(mov: string): (m: string)
    ensures m != [] && (mov != "" ==> m == mov)
    ensures Tidy(mov) ==> Tidy(m)
  {
    if mov == "" then "A" else mov
  }

  // ---------------------------------------------------------------------------
  // Stored schedule record

  /** `horarioToRow`: a stored schedule record as a table row. */
  function HorarioToRow(h: Record): (r: Row)
    ensures r.mov != [] && Tidy(r.mov)
  {
    var hours := Hours(Get(h, "horasTeoricas"), Get(h, "horasPracticas"), Get(h, "horasTotal"));
    Row(
      MovementOr(TrimmedText(Get(h, "tipo"))),
      TrimmedText(Get(h, "causa")),
      TrimmedText(Get(h, "categoria")),
      Pad2(Get(h, "diaIni")), Pad2(Get(h, "mesIni")), Pad2(Get(h, "anoIni")),
      Pad2(Get(h, "diaFin")), Pad2(Get(h, "mesFin")), Pad2(Get(h, "anoFin")),
      TextOf(Get(h, "planEstudios")),
      NormalizeCve(Coalesce(Get(h, "cveAsignatura"), Get(h, "claveAsignatura"))),
      TrimmedText(Get(h, "nombreAsignatura")),
      TextOf(Get(h, "grupo")),
      hours.0, hours.1, hours.2,
      TrimmedText(Get(h, "horario")),
      TrimmedText(Get(h, "salon")))
  }

  /** The text cells come out trimmed; plan and group are printed as given. */
  lemma HorarioTextCells(h: Record)
    ensures var r := HorarioToRow(h);
      Tidy(r.causa) && Tidy(r.cat) && Tidy(r.asig) && Tidy(r.hor) && Tidy(r.salon)
    ensures HorarioToRow(h).plan == TextOf(Get(h, "planEstudios"))
    ensures HorarioToRow(h).grupo == TextOf(Get(h, "grupo"))
  {
  }

  /** Every date cell has at least two characters. */
  lemma HorarioDateCells(h: Record)
    ensures var r := HorarioToRow(h);
      |r.iD| >= 2 && |r.iM| >= 2 && |r.iA| >= 2 && |r.tD| >= 2 && |r.tM| >= 2 && |r.tA| >= 2
  {
    var r := HorarioToRow(h);
    assert r.iD == Pad2(Get(h, "diaIni")) && r.iM == Pad2(Get(h, "mesIni")) && r.iA == Pad2(Get(h, "anoIni"));
    assert r.tD == Pad2(Get(h, "diaFin")) && r.tM == Pad2(Get(h, "mesFin")) && r.tA == Pad2(Get(h, "anoFin"));
  }

  /** A day number below 100 prints as the two digits that read back as that number. */
  lemma HorarioDayDigits(h: Record, n: nat)
    requires n < 100 && Get(h, "diaIni") == Num(Finite(n))
    ensures |HorarioToRow(h).iD| == 2 && AllDigits(HorarioToRow(h).iD) && DigitsValue(HorarioToRow(h).iD) == n
  {
    assert HorarioToRow(h).iD == Pad2(Num(Finite(n)));
    Pad2RoundTrip(n);
  }

  /** The subject code is empty or at least four characters long. */
  lemma HorarioCodeWidth(h: Record)
    ensures HorarioToRow(h).cve == [] || |HorarioToRow(h).cve| >= 4
  {
    assert HorarioToRow(h).cve == NormalizeCve(Coalesce(Get(h, "cveAsignatura"), Get(h, "claveAsignatura")));
  }

  /** A missing or null total makes the row's total the sum of its theory and practice hours. */
  lemma HorarioTotalDefault(h: Record)
    requires IsNullish(Get(h, "horasTotal"))
    ensures HorarioToRow(h).tot == HorarioToRow(h).teo + HorarioToRow(h).pra
  {
  }

  /** A blank movement type becomes "A". */
  lemma HorarioDefaultMovement(h: Record)
    requires Trim(TextOf(Get(h, "tipo"))) == ""
    ensures HorarioToRow(h).mov == "A"
  {
    assert TrimmedText(Get(h, "tipo")) == "";
  }

  /** The old key `claveAsignatura` is read only when `cveAsignatura` is missing or null. */
  lemma HorarioSubjectCode(h: Record)
    ensures !IsNullish(Get(h, "cveAsignatura")) ==> HorarioToRow(h).cve == NormalizeCve(Get(h, "cveAsignatura"))
    ensures IsNullish(Get(h, "cveAsignatura")) ==> HorarioToRow(h).cve == NormalizeCve(Get(h, "claveAsignatura"))
  {
  }

  // ---------------------------------------------------------------------------
  // Template row from a professor record

  /**
   * The row `groupRowsByCarreraFromRedis` synthesises for a career when the
   * worker has no schedule: like `horarioToRow`, but the movement type is
   * `p.tipo ?? "A"` and the text cells are `(x ?? "") + ""`, not trimmed.
   */
  function TemplateRow(p: Record): (r: Row)
    ensures r.mov == (if IsNullish(Get(p, "tipo")) then "A" else ToStr(Get(p, "tipo")))
    ensures r.causa == TextOf(Get(p, "causa")) && r.asig == TextOf(Get(p, "nombreAsignatura"))
  {
    var hours := Hours(Get(p, "horasTeoricas"), Get(p, "horasPracticas"), Get(p, "horasTotal"));
    Row(
      ToStr(Coalesce(Get(p, "tipo"), Str("A"))),
      TextOf(Get(p, "causa")),
      TextOf(Get(p, "categoria")),
      Pad2(Get(p, "diaIni")), Pad2(Get(p, "mesIni")), Pad2(Get(p, "anoIni")),
      Pad2(Get(p, "diaFin")), Pad2(Get(p, "mesFin")), Pad2(Get(p, "anoFin")),
      TextOf(Get(p, "planEstudios")),
      NormalizeCve(Coalesce(Get(p, "cveAsignatura"), Get(p, "claveAsignatura"))),
      TextOf(Get(p, "nombreAsignatura")),
      TextOf(Get(p, "grupo")),
      hours.0, hours.1, hours.2,
      TextOf(Get(p, "horario")),
      TextOf(Get(p, "salon")))
  }

  /** A text field that is a string with no surrounding white space, or absent. */
  predicate TidyField(r: Record, key: string) {
    var v := Get(r, key);
    IsNullish(v) || (v.Str? && Tidy(v.s))
  }

  /**
   * On a professor record whose text fields are already trimmed and whose
   * movement type is a non-empty string, the template row is the row
   * `horarioToRow` would build from the same record.
   */
  lemma TemplateAgreesWithHorario(p: Record)
    requires Get(p, "tipo").Str? && Get(p, "tipo").s != [] && Tidy(Get(p, "tipo").s)
    requires TidyField(p, "causa") && TidyField(p, "categoria") && TidyField(p, "nombreAsignatura")
    requires TidyField(p, "horario") && TidyField(p, "salon")
    ensures TemplateRow(p) == HorarioToRow(p)
  {
    var t, r := TemplateRow(p), HorarioToRow(p);
    assert t.mov == r.mov;
    assert t.causa == r.causa && t.cat == r.cat && t.asig == r.asig;
    assert t.hor == r.hor && t.salon == r.salon;
  }

  /** The two paths differ on an empty movement type: the template keeps it blank. */
  lemma TemplateKeepsBlankMovement(p: Record)
    requires Get(p, "tipo") == Str("")
    ensures TemplateRow(p).mov == "" && HorarioToRow(p).mov == "A"
  {
    assert Trim("") == "";
  }

  // ---------------------------------------------------------------------------
  // CSV record

  /** A record built by `rowsFromCSV`: every cell is a string. */
  type CsvRow = map<string, string>

  /** A cell `first` accepts: its trimmed text is neither empty nor "-". */
  predicate Usable(s: string) {
    !IsBlankOrDash(Trim(s))
  }

  /** `first(...keys)`: the first present, usable cell among the keys, or "". */
  function First(row: CsvRow, keys: seq<string>): (v: string)
    ensures v == "" <==> forall i :: 0 <= i < |keys| ==> keys[i] !in row || !Usable(row[keys[i]])
    ensures v != "" ==> exists i :: 0 <= i < |keys| && keys[i] in row && row[keys[i]] == v && Usable(v)
                          && forall j :: 0 <= j < i ==> keys[j] !in row || !Usable(row[keys[j]])
  {
    if keys == [] then ""
    else if keys[0] in row && Usable(row[keys[0]]) then
      assert Trim(row[keys[0]]) != [];
      row[keys[0]]
    else
      var v := First(row, keys[1..]);
      assert forall j :: 1 <= j < |keys| ==> keys[j] == keys[1..][j - 1];
      v
  }

  /** When the first key holds a usable cell, that cell is taken. */
  lemma FirstPrefersEarlier(row: CsvRow, keys: seq<string>)
    requires keys != [] && keys[0] in row && Usable(row[keys[0]])
    ensures First(row, keys) == row[keys[0]]
  {
  }

  /** `rowCsvToHorarioRow`: a CSV record as a table row, each cell read through its aliases. */
  function RowCsvToHorarioRow(row: CsvRow): (r: Row)
    ensures r.mov != []
    ensures r.cve == [] || |r.cve| >= 4
    ensures |r.iD| >= 2 && |r.iM| >= 2 && |r.iA| >= 2 && |r.tD| >= 2 && |r.tM| >= 2 && |r.tA| >= 2
  {
    var hours := Hours(Str(First(row, ["horasTeoricas", "horas_teoricas", "teo"])),
                       Str(First(row, ["horasPracticas", "horas_practicas", "pra"])),
                       Str(First(row, ["horasTotal", "horas_total", "tot"])));
    Row(
      MovementOr(First(row, ["tipo", "mov"])),
      First(row, ["causa"]),
      First(row, ["categoria", "cat"]),
      Pad2(Str(First(row, ["diaIni", "dia_ini", "diaini", "diainicio"]))),
      Pad2(Str(First(row, ["mesIni", "mes_ini", "mesini", "mesinicio"]))),
      Pad2(Str(First(row, ["anoIni", "anioIni", "ano_ini", "anoini"]))),
      Pad2(Str(First(row, ["diaFin", "dia_fin"]))),
      Pad2(Str(First(row, ["mesFin", "mes_fin"]))),
      Pad2(Str(First(row, ["anoFin", "anioFin", "ano_fin", "anofin"]))),
      First(row, ["planEstudios", "plan_estudios", "plan"]),
      NormalizeCve(Str(First(row, ["cveAsignatura", "cve_asignatura", "clave", "cve"]))),
      First(row, ["nombreAsignatura", "nombre_asignatura", "asignatura", "nombre", "asig"]),
      First(row, ["grupo"]),
      hours.0, hours.1, hours.2,
      First(row, ["horario", "hor"]),
      First(row, ["salon", "aula"]))
  }

  /** A total cell that is blank or "-" under every alias makes the total theory plus practice. */
  lemma CsvTotalDefault(row: CsvRow)
    requires forall k :: k in ["horasTotal", "horas_total", "tot"] && k in row ==> !Usable(row[k])
    ensures RowCsvToHorarioRow(row).tot == RowCsvToHorarioRow(row).teo + RowCsvToHorarioRow(row).pra
  {
    var keys := ["horasTotal", "horas_total", "tot"];
    assert First(row, keys) == "" by {
      forall i | 0 <= i < |keys|
        ensures keys[i] !in row || !Usable(row[keys[i]])
      {
        assert keys[i] in keys;
      }
    }
    assert Trim("") == "";
  }

  /** The record's string fields as a stored record. */
  function Lift(row: CsvRow): (h: Record)
    ensures forall k :: k in row ==> Get(h, k) == Str(row[k])
    ensures forall k :: k !in row ==> Get(h, k) == Undefined
  {
    map k | k in row :: Str(row[k])
  }

  /** The record holds a usable, trimmed cell under the key. */
  predicate Filled(row: CsvRow, key: string) {
    key in row && Usable(row[key]) && Tidy(row[key])
  }

  /** Every field `horarioToRow` reads, under its canonical name, holds trimmed, usable text. */
  predicate FilledCanonical(row: CsvRow) {
    && Filled(row, "tipo") && Filled(row, "causa") && Filled(row, "categoria")
    && Filled(row, "diaIni") && Filled(row, "mesIni") && Filled(row, "anoIni")
    && Filled(row, "diaFin") && Filled(row, "mesFin") && Filled(row, "anoFin")
    && Filled(row, "planEstudios") && Filled(row, "cveAsignatura") && Filled(row, "nombreAsignatura")
    && Filled(row, "grupo") && Filled(row, "horasTeoricas") && Filled(row, "horasPracticas")
    && Filled(row, "horasTotal") && Filled(row, "horario") && Filled(row, "salon")
  }

  /** A filled canonical cell is what both paths read for that field. */
  lemma FilledCell(row: CsvRow, keys: seq<string>)
    requires keys != [] && Filled(row, keys[0])
    ensures First(row, keys) == row[keys[0]]
    ensures Get(Lift(row), keys[0]) == Str(row[keys[0]])
    ensures TrimmedText(Get(Lift(row), keys[0])) == row[keys[0]]
    ensures TextOf(Get(Lift(row), keys[0])) == row[keys[0]]
  {
  }

  lemma CsvAgreesOnText(row: CsvRow)
    requires FilledCanonical(row)
    ensures var r, q := RowCsvToHorarioRow(row), HorarioToRow(Lift(row));
      r.mov == q.mov && r.causa == q.causa && r.cat == q.cat && r.asig == q.asig
      && r.hor == q.hor && r.salon == q.salon && r.plan == q.plan && r.grupo == q.grupo
  {
    FilledCell(row, ["tipo", "mov"]);
    FilledCell(row, ["causa"]);
    FilledCell(row, ["categoria", "cat"]);
    FilledCell(row, ["nombreAsignatura", "nombre_asignatura", "asignatura", "nombre", "asig"]);
    FilledCell(row, ["horario", "hor"]);
    FilledCell(row, ["salon", "aula"]);
    FilledCell(row, ["planEstudios", "plan_estudios", "plan"]);
    FilledCell(row, ["grupo"]);
  }

  lemma CsvAgreesOnDates(row: CsvRow)
    requires FilledCanonical(row)
    ensures var r, q := RowCsvToHorarioRow(row), HorarioToRow(Lift(row));
      r.iD == q.iD && r.iM == q.iM && r.iA == q.iA && r.tD == q.tD && r.tM == q.tM && r.tA == q.tA
  {
    FilledCell(row, ["diaIni", "dia_ini", "diaini", "diainicio"]);
    FilledCell(row, ["mesIni", "mes_ini", "mesini", "mesinicio"]);
    FilledCell(row, ["anoIni", "anioIni", "ano_ini", "anoini"]);
    FilledCell(row, ["diaFin", "dia_fin"]);
    FilledCell(row, ["mesFin", "mes_fin"]);
    FilledCell(row, ["anoFin", "anioFin", "ano_fin", "anofin"]);
  }

  lemma CsvAgreesOnCode(row: CsvRow)
    requires FilledCanonical(row)
    ensures RowCsvToHorarioRow(row).cve == HorarioToRow(Lift(row)).cve
  {
    var keys := ["cveAsignatura", "cve_asignatura", "clave", "cve"];
    FilledCell(row, keys);
    var h := Lift(row);
    assert Coalesce(Get(h, "cveAsignatura"), Get(h, "claveAsignatura")) == Str(First(row, keys));
  }

  lemma CsvAgreesOnHours(row: CsvRow)
    requires FilledCanonical(row)
    ensures var r, q := RowCsvToHorarioRow(row), HorarioToRow(Lift(row));
      r.teo == q.teo && r.pra == q.pra && r.tot == q.tot
  {
    FilledCell(row, ["horasTeoricas", "horas_teoricas", "teo"]);
    FilledCell(row, ["horasPracticas", "horas_practicas", "pra"]);
    FilledCell(row, ["horasTotal", "horas_total", "tot"]);
  }

  /**
   * The CSV path and the stored-record path build the same row from a record
   * that fills every canonical field with trimmed, usable text.
   */
  lemma CsvAgreesWithHorario(row: CsvRow)
    requires FilledCanonical(row)
    ensures RowCsvToHorarioRow(row) == HorarioToRow(Lift(row))
  {
    CsvAgreesOnText(row);
    CsvAgreesOnDates(row);
    CsvAgreesOnCode(row);
    CsvAgreesOnHours(row);
  }
}
