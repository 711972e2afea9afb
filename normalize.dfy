// Field normalisation: the value-coercion helpers of the proposal route
// (src/routes/propuesta-pdf.js) and of the workload ledger route
// (src/routes/horario-general.js).
module Normalize {
  import opened JsValues

  // ---------------------------------------------------------------------------
  // pad2 and the two toInt variants

  /** `String(n ?? "").padStart(2, "0")`. */
  function Pad2(v: Value): (r: string)
    ensures |r| >= 2
    ensures |TextOf(v)| >= 2 ==> r == TextOf(v)
    ensures |TextOf(v)| < 2 ==> |r| == 2 && r[2 - |TextOf(v)|..] == TextOf(v) && r[0] == '0'
  {
    PadStart(TextOf(v), 2, '0')
  }

  lemma {:induction false} LeadingZeroValue(s: string)
    requires AllDigits(s)
    ensures AllDigits("0" + s) && DigitsValue("0" + s) == DigitsValue(s)
    decreases |s|
  {
    var z := "0" + s;
    if s != [] {
      assert z[..|z| - 1] == "0" + s[..|s| - 1];
      LeadingZeroValue(s[..|s| - 1]);
    }
  }

  /** A two-digit field read back as digits gives the number that was padded. */
  lemma Pad2RoundTrip(n: nat)
    requires n < 100
    ensures |Pad2(Num(Finite(n)))| == 2
    ensures AllDigits(Pad2(Num(Finite(n)))) && DigitsValue(Pad2(Num(Finite(n)))) == n
  {
    var t := NatToString(n);
    assert TextOf(Num(Finite(n))) == t;
    NatToStringRoundTrip(n);
    if n < 10 {
      assert Pad2(Num(Finite(n))) == "0" + t;
      LeadingZeroValue(t);
    } else {
      assert |t| == 2 by { assert |NatToString(n / 10)| == 1; }
    }
  }

  predicate IsBlankOrDash(t: string) {
    t == "" || t == "-"
  }

  /**
   * `toInt(v, def)` of the proposal route: null, undefined, a blank or "-"
   * string and anything that is not a finite number give `def`.
   */
  function ToIntStrict(v: Value, def: int): (r: int)
    ensures r != def ==> ToNumber(v) == Finite(r)
    ensures IsNullish(v) ==> r == def
    ensures v.Num? ==> r == (if v.x.Finite? then v.x.n else def)
    ensures v.Str? && !IsBlankOrDash(Trim(v.s)) && ToNumber(v).Finite? ==> r == ToNumber(v).n
    ensures v.Str? && IsBlankOrDash(Trim(v.s)) ==> r == def
  {
    match v
    case Undefined => def
    case Null => def
    case Num(x) => if x.Finite? then x.n else def
    case Str(s) =>
      var t := Trim(s);
      if IsBlankOrDash(t) then def
      else
        var x := StringToNumber(t);
        TrimIdempotent(s);
        if x.Finite? then x.n else def
  }

  /**
   * `toInt(v)` of the ledger route: like the proposal route's with default 0,
   * except that a number is returned as it is, NaN and the infinities included.
   */
  function ToIntLoose(v: Value): (r: JsNumber)
    ensures v.Num? ==> r == v.x
    ensures !v.Num? ==> r.Finite?
  {
    match v
    case Undefined => Finite(0)
    case Null => Finite(0)
    case Num(x) => x
    case Str(s) =>
      var t := Trim(s);
      if IsBlankOrDash(t) then Finite(0)
      else
        var x := StringToNumber(t);
        if x.Finite? then x else Finite(0)
  }

  /** The two toInt variants agree everywhere except on non-finite numbers, which only the proposal route rejects. */
  lemma ToIntVariants(v: Value)
    ensures (v.Num? && !v.x.Finite?) <==> ToIntLoose(v) != Finite(ToIntStrict(v, 0))
  {
  }

  // ---------------------------------------------------------------------------
  // Subject code, year, period

  /** `normalizeCve`: a subject code, left-padded with '0' to four characters. */
  function NormalizeCve(v: Value): (r: string)
    ensures Trim(TextOf(v)) == "" <==> r == ""
    ensures |Trim(TextOf(v))| >= 4 ==> r == Trim(TextOf(v))
    ensures 0 < |Trim(TextOf(v))| < 4 ==>
              |r| == 4 && r[4 - |Trim(TextOf(v))|..] == Trim(TextOf(v))
              && forall i :: 0 <= i < 4 - |Trim(TextOf(v))| ==> r[i] == '0'
  {
    var raw := Trim(TextOf(v));
    if raw == "" then "" else if |raw| >= 4 then raw else PadStart(raw, 4, '0')
  }

  lemma NormalizeCveIdempotent(v: Value)
    ensures NormalizeCve(Str(NormalizeCve(v))) == NormalizeCve(v)
  {
    var raw := Trim(TextOf(v));
    var r := NormalizeCve(v);
    TrimIdempotent(TextOf(v));
    if 0 < |raw| < 4 {
      assert r[3] == raw[|raw| - 1];
      TrimOfTrimmed(r);
    }
  }

  lemma NormalizeCveExample()
    ensures NormalizeCve(Str("17")) == "0017"
  {
    TrimOfTrimmed("17");
    assert Repeat('0', 2) == "00";
    assert PadStart("17", 4, '0') == "00" + "17" == "0017";
    assert TextOf(Str("17")) == "17";
    assert NormalizeCve(Str("17")) == PadStart("17", 4, '0');
  }

  /** `normalizeYear`: two-digit years 0..79 are 20xx and 80..99 are 19xx. */
  function NormalizeYear(v: Value): (r: int)
    ensures r >= 1900
  {
    var y := ToIntStrict(v, 0);
    if y >= 1900 then y
    else if 0 <= y <= 79 then 2000 + y
    else if 80 <= y <= 99 then 1900 + y
    else 2000
  }

  lemma NormalizeYearCases(v: Value)
    ensures var y := ToIntStrict(v, 0);
      && (y >= 1900 ==> NormalizeYear(v) == y)
      && (0 <= y <= 79 ==> NormalizeYear(v) == 2000 + y)
      && (80 <= y <= 99 ==> NormalizeYear(v) == 1900 + y)
      && ((y < 0 || 100 <= y < 1900) ==> NormalizeYear(v) == 2000)
      && (!ToNumber(v).Finite? ==> NormalizeYear(v) == 2000)
  {
  }

  lemma NormalizeYearIdempotent(v: Value)
    ensures NormalizeYear(Num(Finite(NormalizeYear(v)))) == NormalizeYear(v)
  {
  }

  function Half(first: bool): string {
    if first then "I" else "II"
  }

  /**
   * `inferPeriodo`: the year of the end date (or of the start date when the end
   * year is missing) and the half of its month (1..6 is the first half; a
   * missing month counts as January).
   */
  function InferPeriodo(r: Record): string {
    var y := NormalizeYear(Coalesce(Get(r, "anoFin"), Get(r, "anoIni")));
    var m := ToIntStrict(Coalesce(Get(r, "mesFin"), Get(r, "mesIni")), 1);
    IntToString(y) + "-" + Half(1 <= m <= 6)
  }

  /** An end year overrides any start year, and an end month any start month. */
  lemma InferPeriodoEndFirst(r: Record, v: Value)
    ensures !IsNullish(Get(r, "anoFin")) ==> InferPeriodo(r["anoIni" := v]) == InferPeriodo(r)
    ensures !IsNullish(Get(r, "mesFin")) ==> InferPeriodo(r["mesIni" := v]) == InferPeriodo(r)
  {
    assert Get(r["anoIni" := v], "anoFin") == Get(r, "anoFin") by { assert "anoIni"[3] != "anoFin"[3]; }
    assert Get(r["anoIni" := v], "mesFin") == Get(r, "mesFin") by { assert "anoIni"[0] != "mesFin"[0]; }
    assert Get(r["anoIni" := v], "mesIni") == Get(r, "mesIni") by { assert "anoIni"[0] != "mesIni"[0]; }
    assert Get(r["mesIni" := v], "mesFin") == Get(r, "mesFin") by { assert "mesIni"[3] != "mesFin"[3]; }
    assert Get(r["mesIni" := v], "anoFin") == Get(r, "anoFin") by { assert "mesIni"[0] != "anoFin"[0]; }
    assert Get(r["mesIni" := v], "anoIni") == Get(r, "anoIni") by { assert "mesIni"[0] != "anoIni"[0]; }
  }

  /**
   * The year and the month are chosen independently: an end year with only a
   * start month reads as a start-only record of that year and month.
   */
  lemma InferPeriodoMixed(r: Record)
    requires !IsNullish(Get(r, "anoFin")) && IsNullish(Get(r, "mesFin"))
    ensures InferPeriodo(r) == InferPeriodo(map["anoIni" := Get(r, "anoFin"), "mesIni" := Get(r, "mesIni")])
  {
    var s: Record := map["anoIni" := Get(r, "anoFin"), "mesIni" := Get(r, "mesIni")];
    assert "anoFin" !in s && "mesFin" !in s by {
      assert "anoFin"[3] != "anoIni"[3] && "anoFin"[0] != "mesIni"[0];
      assert "mesFin"[0] != "anoIni"[0] && "mesFin"[3] != "mesIni"[3];
    }
  }

  // ---------------------------------------------------------------------------
  // Ledger semester labels

  /** The year rule of `semesterLabelFromStart`: every year below 100 gets 2000 added. */
  function SemesterYear(ano: Value): (y: int)
    ensures ToNumber(ano).Finite? && ToNumber(ano).n < 100 ==> y == 2000 + ToNumber(ano).n
    ensures ToNumber(ano).Finite? && ToNumber(ano).n >= 100 ==> y == ToNumber(ano).n
    ensures !ToNumber(ano).Finite? ==> y == 2000
  {
    var y := match ToNumber(ano) case Finite(n) => n case _ => 0;
    if y < 100 then 2000 + y else y
  }

  /** `(Number(mes) || 1) >= 7`: NaN and 0 count as January. */
  predicate SecondHalf(mes: Value)
  {
    match ToNumber(mes)
    case Finite(n) => n != 0 && n >= 7
    case NaN => false
    case Infinity(p) => p
  }

  /** `semesterLabelFromStart`; the day does not take part. */
  function SemesterLabelFromStart(dia: Value, mes: Value, ano: Value): string {
    IntToString(SemesterYear(ano)) + "-" + Half(!SecondHalf(mes))
  }

  // ---------------------------------------------------------------------------
  // The two period rules compared

  /** `toInt(v, def)` reads the number `Number(v)` gives, except that null and blank text give `def` where `Number` gives 0. */
  lemma StrictReadsNumber(v: Value, def: int)
    ensures ToNumber(v).Finite? ==>
      ToIntStrict(v, def) == ToNumber(v).n || (ToNumber(v).n == 0 && ToIntStrict(v, def) == def)
    ensures !ToNumber(v).Finite? ==> ToIntStrict(v, def) == def
  {
    if v.Str? && Trim(v.s) == "-" {
      assert ParseNumeral("-") == NaN by {
        assert "-" != "Infinity" && "-" != "+Infinity" && "-" != "-Infinity";
        assert !IsDigit('-');
      }
    }
  }

  /** Years on which the proposal's and the ledger's year rules agree: non-numeric, 0..79, or 1900 and later. */
  predicate YearRulesAgree(ano: Value) {
    var y := ToIntStrict(ano, 0);
    0 <= y <= 79 || y >= 1900
  }

  /** Months on which the two half-year rules agree: missing, non-numeric, or 1 and later, but not +Infinity. */
  predicate MonthRulesAgree(mes: Value) {
    ToIntStrict(mes, 1) >= 1 && ToNumber(mes) != Infinity(true)
  }

  lemma YearRules(ano: Value)
    ensures NormalizeYear(ano) == SemesterYear(ano) <==> YearRulesAgree(ano)
  {
    StrictReadsNumber(ano, 0);
  }

  lemma MonthRules(mes: Value)
    ensures (1 <= ToIntStrict(mes, 1) <= 6) == !SecondHalf(mes) <==> MonthRulesAgree(mes)
  {
    StrictReadsNumber(mes, 1);
  }

  /** A label determines its year and its half. */
  lemma LabelInjective(y1: int, f1: bool, y2: int, f2: bool)
    ensures IntToString(y1) + "-" + Half(f1) == IntToString(y2) + "-" + Half(f2) <==> y1 == y2 && f1 == f2
  {
    var a, b := IntToString(y1), IntToString(y2);
    var s1, s2 := a + "-" + Half(f1), b + "-" + Half(f2);
    if s1 == s2 {
      assert s1[|s1| - 2] == s2[|s2| - 2];
      assert |a| == |b|;
      assert a == s1[..|a|] && b == s2[..|b|];
      NumberToStringRoundTrip(Finite(y1));
      NumberToStringRoundTrip(Finite(y2));
    }
  }

  /**
   * On a record with only start fields, the proposal's `inferPeriodo` and the
   * ledger's `semesterLabelFromStart` give the same label exactly when the year
   * is non-numeric, 0..79 or at least 1900 and the month is missing,
   * non-numeric or at least 1 (but not +Infinity): two-digit years from 80,
   * years 100..1899, negative years, and months 0 and below tell them apart.
   */
  lemma PeriodRulesCompare(r: Record)
    requires IsNullish(Get(r, "anoFin")) && IsNullish(Get(r, "mesFin"))
    ensures InferPeriodo(r) == SemesterLabelFromStart(Get(r, "diaIni"), Get(r, "mesIni"), Get(r, "anoIni"))
            <==> YearRulesAgree(Get(r, "anoIni")) && MonthRulesAgree(Get(r, "mesIni"))
  {
    var ano, mes := Get(r, "anoIni"), Get(r, "mesIni");
    YearRules(ano);
    MonthRules(mes);
    LabelInjective(NormalizeYear(ano), 1 <= ToIntStrict(mes, 1) <= 6, SemesterYear(ano), !SecondHalf(mes));
  }

  lemma SemesterLabelExample()
    ensures SemesterLabelFromStart(Undefined, Num(Finite(8)), Num(Finite(24))) == "2024-II"
  {
    assert SemesterYear(Num(Finite(24))) == 2024;
    assert SecondHalf(Num(Finite(8)));
    assert IntToString(2024) == "2024";
  }

  /** The ledger and the proposal routes read a two-digit year differently from 80 on. */
  lemma YearRulesDisagree()
    ensures NormalizeYear(Num(Finite(85))) == 1985
    ensures SemesterYear(Num(Finite(85))) == 2085
  {
  }

  // ---------------------------------------------------------------------------
  // Appointment title

  /** A quoted capital `"X"` starts at index i of s. */
  predicate QuotedCapitalAt(s: string, i: int) {
    0 <= i && i + 3 <= |s| && s[i] == '"' && 'A' <= s[i + 1] <= 'Z' && s[i + 2] == '"'
  }

  /** The capital of the leftmost match of `/"([A-Z])"/`. */
  function FirstQuotedCapital(s: string): (r: Option<char>)
    ensures r.None? <==> forall i :: 0 <= i < |s| ==> !QuotedCapitalAt(s, i)
    ensures r.Some? ==> exists i :: QuotedCapitalAt(s, i) && s[i + 1] == r.value
                          && forall j :: 0 <= j < i ==> !QuotedCapitalAt(s, j)
    decreases |s|
  {
    if |s| < 3 then None
    else if QuotedCapitalAt(s, 0) then Some(s[1])
    else
      var r := FirstQuotedCapital(s[1..]);
      assert forall i :: 1 <= i < |s| ==> (QuotedCapitalAt(s, i) <==> QuotedCapitalAt(s[1..], i - 1));
      if r.Some? then
        ghost var i :| QuotedCapitalAt(s[1..], i) && s[1..][i + 1] == r.value
                       && forall j :: 0 <= j < i ==> !QuotedCapitalAt(s[1..], j);
        assert QuotedCapitalAt(s, i + 1);
        r
      else r
  }

  /** `pat` occurs in `s` at index i, ignoring the case of ASCII letters (pat is upper case). */
  predicate MatchesAt(s: string, pat: string, i: int) {
    0 <= i && i + |pat| <= |s| && UpperAsciiString(s[i..i + |pat|]) == pat
  }

  /** `/pat/i.test(s)` for an upper-case literal pattern. */
  function ContainsIgnoringCase(s: string, pat: string): (b: bool)
    ensures b <==> exists i :: MatchesAt(s, pat, i)
    decreases |s|
  {
    if |s| < |pat| then
      assert forall i :: !MatchesAt(s, pat, i);
      false
    else if UpperAsciiString(s[..|pat|]) == pat then
      assert MatchesAt(s, pat, 0);
      true
    else
      var b := ContainsIgnoringCase(s[1..], pat);
      assert !MatchesAt(s, pat, 0);
      if b then
        ghost var i :| MatchesAt(s[1..], pat, i);
        MatchesShift(s, pat, i + 1);
        b
      else
        forall i | 1 <= i
          ensures !MatchesAt(s, pat, i)
        {
          MatchesShift(s, pat, i);
        }
        b
  }

  /** A match past the first character of s is a match in the rest of s. */
  lemma MatchesShift(s: string, pat: string, i: int)
    requires |s| > 0 && 1 <= i
    ensures MatchesAt(s, pat, i) <==> MatchesAt(s[1..], pat, i - 1)
  {
    if i + |pat| <= |s| {
      var rest := s[1..];
      var a, b := s[i..i + |pat|], rest[i - 1..i - 1 + |pat|];
      assert forall k :: 0 <= k < |pat| ==> a[k] == b[k];
      assert a == b;
    }
  }

  /** A parameter with the JavaScript default `""`: only `undefined` takes the default. */
  function ArgText(v: Value): string {
    if v.Undefined? then "" else ToStr(v)
  }

  /** The interim flag of `buildNombramiento`. */
  predicate Interim(categoria: Value, causa: Value) {
    ContainsIgnoringCase(ArgText(categoria), "INT")
    || ContainsIgnoringCase(ArgText(causa), "INTER")
    || ContainsIgnoringCase(ArgText(causa), "OTRO NOMB")
  }

  /** `buildNombramiento(categoria, tipo, causa)`; `tipo` takes no part. */
  function BuildNombramiento(categoria: Value, tipo: Value, causa: Value): (r: string)
  {
    var level := match FirstQuotedCapital(ArgText(categoria)) case Some(c) => c case None => 'A';
    var suffix := if Interim(categoria, causa) then "INTERINO" else "";
    Trim("PROFESOR DE ASIGNATURA \"" + [level] + "\" " + suffix)
  }

  lemma TrimDropsOneTrailingSpace(s: string)
    requires |s| > 0 && !IsSpace(s[0]) && !IsSpace(s[|s| - 1])
    ensures Trim(s + " ") == s
  {
    var t := s + " ";
    assert TrimStart(t) == t;
    assert t[..|t| - 1] == s;
    assert TrimEnd(s) == s;
  }

  lemma TitleTrim(head: string, interim: bool)
    requires |head| > 0 && head[0] == 'P' && head[|head| - 1] == '"'
    ensures Trim(head + " " + (if interim then "INTERINO" else ""))
            == head + (if interim then " INTERINO" else "")
  {
    if interim {
      var t := head + " INTERINO";
      assert head + " " + "INTERINO" == t;
      assert t[|t| - 1] == 'O';
      TrimOfTrimmed(t);
    } else {
      assert head + " " + "" == head + " ";
      TrimDropsOneTrailingSpace(head);
    }
  }

  /**
   * The title is `PROFESOR DE ASIGNATURA "X"` with X the first quoted capital of
   * the category (A when there is none), followed by ` INTERINO` exactly when
   * the category mentions INT or the cause INTER or OTRO NOMB, in any case.
   */
  lemma NombramientoShape(categoria: Value, tipo: Value, causa: Value)
    ensures var level := match FirstQuotedCapital(ArgText(categoria)) case Some(c) => c case None => 'A';
      BuildNombramiento(categoria, tipo, causa)
        == "PROFESOR DE ASIGNATURA \"" + [level] + "\"" + (if Interim(categoria, causa) then " INTERINO" else "")
  {
    var level := match FirstQuotedCapital(ArgText(categoria)) case Some(c) => c case None => 'A';
    var head := "PROFESOR DE ASIGNATURA \"" + [level] + "\"";
    assert "PROFESOR DE ASIGNATURA \"" + [level] + "\" " == head + " ";
    TitleTrim(head, Interim(categoria, causa));
  }
}
