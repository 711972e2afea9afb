// The JavaScript value semantics the report routes rely on: record fields that
// may be missing, null, numbers or strings; `String(v)`, `Number(v)`, `??`,
// truthiness, `trim()`, `padStart` and case/accent folding.
//
// Numbers are restricted to integers; the non-finite numbers are kept because
// the routes treat them differently (see Normalize.ToIntStrict / ToIntLoose).
module JsValues {

  datatype Option<T> = None | Some(value: T)

  /** A JavaScript number: an integer, NaN, or one of the two infinities. */
  datatype JsNumber = Finite(n: int) | NaN | Infinity(positive: bool)

  /** A field of a record read from storage, from a request body or from CSV. */
  datatype Value = Undefined | Null | Num(x: JsNumber) | Str(s: string)

  /** A plain JavaScript object: a missing key reads as `undefined`. */
  type Record = map<string, Value>

  function Get(r: Record, key: string): (v: Value)
    ensures key !in r ==> v == Undefined
  {
    if key in r then r[key] else Undefined
  }

  predicate IsNullish(v: Value) {
    v.Undefined? || v.Null?
  }

  /** `a ?? b`: the right operand only for null and undefined. */
  function Coalesce(a: Value, b: Value): (r: Value)
    ensures IsNullish(a) ==> r == b
    ensures !IsNullish(a) ==> r == a
  {
    if IsNullish(a) then b else a
  }

  /** `a || b` on strings. */
  function Or(a: string, b: string): (r: string)
    ensures r == a || r == b
    ensures b != "" ==> r != ""
  {
    if a != "" then a else b
  }

  /** JavaScript truthiness of a value. */
  predicate Truthy(v: Value) {
    match v
    case Undefined => false
    case Null => false
    case Num(x) => x != Finite(0) && x != NaN
    case Str(s) => s != ""
  }

  /** Addition of JavaScript numbers (on integers it is exact). */
  function Add(a: JsNumber, b: JsNumber): JsNumber {
    if a.NaN? || b.NaN? then NaN
    else if a.Finite? && b.Finite? then Finite(a.n + b.n)
    else if a.Infinity? && b.Infinity? then (if a.positive == b.positive then a else NaN)
    else if a.Infinity? then a
    else b
  }

  /** `x || 0` on a number: NaN and 0 both read as 0. */
  function OrZero(x: JsNumber): (r: JsNumber)
    ensures r != NaN
    ensures x != NaN ==> r == x
  {
    if x == NaN || x == Finite(0) then Finite(0) else x
  }

  lemma ZeroAdd(x: JsNumber)
    requires x != NaN
    ensures Add(Finite(0), x) == x
  {
  }

  /** `Math.max` and `Math.min` on numbers. */
  function Max(a: real, b: real): real {
    if a >= b then a else b
  }

  function Min(a: real, b: real): real {
    if a <= b then a else b
  }

  lemma AddCommutes(a: JsNumber, b: JsNumber)
    ensures Add(a, b) == Add(b, a)
  {
  }

  lemma AddAssociates(a: JsNumber, b: JsNumber, c: JsNumber)
    ensures Add(Add(a, b), c) == Add(a, Add(b, c))
  {
  }

  // ---------------------------------------------------------------------------
  // Whitespace and trim()

  /** The characters `String.prototype.trim` and the regular expression `\s` treat as white space. */
  predicate IsSpace(c: char) {
    c == ' ' || c == '\t' || c == '\n' || c == '\r' || c == '\U{000B}' || c == '\U{000C}'
    || c == '\U{00A0}' || c == '\U{1680}' || ('\U{2000}' <= c <= '\U{200A}')
    || c == '\U{2028}' || c == '\U{2029}' || c == '\U{202F}' || c == '\U{205F}'
    || c == '\U{3000}' || c == '\U{FEFF}'
  }

  function TrimStart(s: string): (r: string)
    ensures |r| <= |s|
    ensures r == [] || !IsSpace(r[0])
  {
    if s != [] && IsSpace(s[0]) then TrimStart(s[1..]) else s
  }

  function TrimEnd(s: string): (r: string)
    ensures |r| <= |s|
    ensures r == [] || !IsSpace(r[|r| - 1])
    ensures r != [] ==> r[0] == s[0]
  {
    if s != [] && IsSpace(s[|s| - 1]) then TrimEnd(s[..|s| - 1]) else s
  }

  /** `s.trim()`: the longest infix that neither starts nor ends with white space. */
  function Trim(s: string): (r: string)
    ensures |r| <= |s|
    ensures r == [] || (!IsSpace(r[0]) && !IsSpace(r[|r| - 1]))
  {
    TrimEnd(TrimStart(s))
  }

  lemma TrimOfTrimmed(s: string)
    requires s == [] || (!IsSpace(s[0]) && !IsSpace(s[|s| - 1]))
    ensures Trim(s) == s
  {
  }

  /** trimStart removes a prefix made of white space only. */
  lemma {:induction false} TrimStartRemovesSpaces(s: string)
    ensures var r := TrimStart(s);
      r == s[|s| - |r|..] && forall i :: 0 <= i < |s| - |r| ==> IsSpace(s[i])
  {
    if s != [] && IsSpace(s[0]) {
      TrimStartRemovesSpaces(s[1..]);
    }
  }

  /** trimEnd removes a suffix made of white space only. */
  lemma {:induction false} TrimEndRemovesSpaces(s: string)
    ensures var r := TrimEnd(s);
      r == s[..|r|] && forall i :: |r| <= i < |s| ==> IsSpace(s[i])
  {
    if s != [] && IsSpace(s[|s| - 1]) {
      TrimEndRemovesSpaces(s[..|s| - 1]);
    }
  }

  lemma TrimIdempotent(s: string)
    ensures Trim(Trim(s)) == Trim(s)
  {
    TrimOfTrimmed(Trim(s));
  }

  // ---------------------------------------------------------------------------
  // Decimal digits

  function DigitChar(d: nat): (c: char)
    requires d < 10
    ensures '0' <= c <= '9'
  {
    ['0', '1', '2', '3', '4', '5', '6', '7', '8', '9'][d]
  }

  predicate IsDigit(c: char) {
    '0' <= c <= '9'
  }

  function DigitValue(c: char): (d: nat)
    requires IsDigit(c)
    ensures d < 10
  {
    (c as int - '0' as int) as nat
  }

  lemma DigitRoundTrip(d: nat)
    requires d < 10
    ensures DigitValue(DigitChar(d)) == d
  {
  }

  /** The shortest decimal numeral of `n`. */
  function NatToString(n: nat): (s: string)
    ensures |s| > 0 && forall i :: 0 <= i < |s| ==> IsDigit(s[i])
    decreases n
  {
    if n < 10 then [DigitChar(n)] else NatToString(n / 10) + [DigitChar(n % 10)]
  }

  /** The value of a non-empty run of decimal digits. */
  function DigitsValue(s: string): (n: nat)
    requires forall i :: 0 <= i < |s| ==> IsDigit(s[i])
    decreases |s|
  {
    if s == [] then 0 else DigitsValue(s[..|s| - 1]) * 10 + DigitValue(s[|s| - 1])
  }

  predicate AllDigits(s: string) {
    forall i :: 0 <= i < |s| ==> IsDigit(s[i])
  }

  lemma {:induction false} NatToStringRoundTrip(n: nat)
    ensures DigitsValue(NatToString(n)) == n
    decreases n
  {
    if n < 10 {
      DigitRoundTrip(n);
    } else {
      var s := NatToString(n);
      assert s[..|s| - 1] == NatToString(n / 10);
      NatToStringRoundTrip(n / 10);
      DigitRoundTrip(n % 10);
    }
  }

  /** `String(n)` for an integer. */
  function IntToString(n: int): (s: string)
    ensures |s| > 0
  {
    if n < 0 then "-" + NatToString(-n) else NatToString(n)
  }

  /** `String(x)` for a number. */
  function NumberToString(x: JsNumber): (s: string)
    ensures |s| > 0
  {
    match x
    case Finite(n) => IntToString(n)
    case NaN => "NaN"
    case Infinity(p) => if p then "Infinity" else "-Infinity"
  }

  /**
   * `Number(t)` for a trimmed, non-empty string: an optional sign followed by
   * decimal digits, or a signed `Infinity`; anything else is NaN.
   */
  function ParseNumeral(t: string): JsNumber {
    if t == "Infinity" || t == "+Infinity" then Infinity(true)
    else if t == "-Infinity" then Infinity(false)
    else if |t| > 1 && t[0] == '-' && AllDigits(t[1..]) then Finite(-(DigitsValue(t[1..]) as int))
    else if |t| > 1 && t[0] == '+' && AllDigits(t[1..]) then Finite(DigitsValue(t[1..]))
    else if |t| > 0 && AllDigits(t) then Finite(DigitsValue(t))
    else NaN
  }

  /** `Number(s)` for a string: surrounding white space is ignored and a blank string is 0. */
  function StringToNumber(s: string): JsNumber {
    var t := Trim(s);
    if t == "" then Finite(0) else ParseNumeral(t)
  }

  lemma ParseDigits(t: string)
    requires |t| > 0 && AllDigits(t)
    ensures ParseNumeral(t) == Finite(DigitsValue(t))
  {
    assert t[0] != "Infinity"[0] && t[0] != "+Infinity"[0] && t[0] != "-Infinity"[0];
  }

  lemma ParseNegativeDigits(d: string)
    requires |d| > 0 && AllDigits(d)
    ensures ParseNumeral("-" + d) == Finite(-(DigitsValue(d) as int))
  {
    var t := "-" + d;
    assert t[0] == '-' && t[1] == d[0] && IsDigit(d[0]);
    assert t != "Infinity" && t != "+Infinity" by { assert t[0] != 'I' && t[0] != '+'; }
    assert t != "-Infinity" by { assert "-Infinity"[1] == 'I'; }
    assert t[1..] == d;
  }

  lemma NonNegativeRoundTrip(n: nat)
    ensures StringToNumber(IntToString(n)) == Finite(n)
  {
    var s := NatToString(n);
    TrimOfTrimmed(s);
    NatToStringRoundTrip(n);
    ParseDigits(s);
  }

  lemma NegativeRoundTrip(n: int)
    requires n < 0
    ensures StringToNumber(IntToString(n)) == Finite(n)
  {
    var d := NatToString(-n);
    NatToStringRoundTrip(-n);
    ParseNegativeDigits(d);
    var s := "-" + d;
    assert s[|s| - 1] == d[|d| - 1];
    TrimOfTrimmed(s);
  }

  lemma WordRoundTrip(w: string, x: JsNumber)
    requires w == NumberToString(x) && !x.Finite?
    ensures StringToNumber(w) == x
  {
    assert ParseNumeral(w) == x;
    assert Trim(w) == w by { TrimOfTrimmed(w); }
  }

  /** `Number(String(x)) == x`: printing a number and reading it back loses nothing. */
  lemma {:induction false} NumberToStringRoundTrip(x: JsNumber)
    ensures StringToNumber(NumberToString(x)) == x
  {
    match x
    case Finite(n) =>
      if n < 0 { NegativeRoundTrip(n); } else { NonNegativeRoundTrip(n); }
    case _ =>
      WordRoundTrip(NumberToString(x), x);
  }

  /** `Number(v)`. */
  function ToNumber(v: Value): JsNumber {
    match v
    case Undefined => NaN
    case Null => Finite(0)
    case Num(x) => x
    case Str(s) => StringToNumber(s)
  }

  /** `String(v)`. */
  function ToStr(v: Value): string {
    match v
    case Undefined => "undefined"
    case Null => "null"
    case Num(x) => NumberToString(x)
    case Str(s) => s
  }

  /** `(v ?? "").toString()`. */
  function TextOf(v: Value): (s: string)
    ensures IsNullish(v) ==> s == ""
    ensures v.Str? ==> s == v.s
  {
    ToStr(Coalesce(v, Str("")))
  }

  // ---------------------------------------------------------------------------
  // padStart, case and accent folding

  function Repeat(c: char, n: nat): (s: string)
    ensures |s| == n && forall i :: 0 <= i < n ==> s[i] == c
  {
    if n == 0 then [] else [c] + Repeat(c, n - 1)
  }

  /** `s.padStart(n, [c])`. */
  function PadStart(s: string, n: nat, c: char): (r: string)
    ensures |s| >= n ==> r == s
    ensures |s| < n ==> |r| == n && r[n - |s|..] == s
    ensures forall i :: 0 <= i < |r| - |s| ==> r[i] == c
  {
    if |s| >= n then s else Repeat(c, n - |s|) + s
  }

  /** ASCII upper-casing, the case folding a `/.../i` regular expression applies to ASCII letters. */
  function UpperAscii(c: char): (u: char)
    ensures !('a' <= c <= 'z') ==> u == c
    ensures 'a' <= c <= 'z' ==> 'A' <= u <= 'Z'
  {
    if 'a' <= c <= 'z' then (c as int - 32) as char else c
  }

  function UpperAsciiString(s: string): (r: string)
    ensures |r| == |s| && forall i :: 0 <= i < |s| ==> r[i] == UpperAscii(s[i])
  {
    if s == [] then [] else [UpperAscii(s[0])] + UpperAsciiString(s[1..])
  }

  /** `toLowerCase()` on ASCII letters and on the accented Latin capitals of the accent table. */
  function Lower(c: char): char {
    if 'A' <= c <= 'Z' then (c as int + 32) as char
    else if '\U{00C0}' <= c <= '\U{00DE}' && c != '\U{00D7}' then (c as int + 32) as char
    else c
  }

  /** A combining diacritical mark, U+0300 to U+036F. */
  predicate IsCombining(c: char) {
    '\U{0300}' <= c <= '\U{036F}'
  }

  /**
   * The base letter canonical decomposition (NFD) leaves once its combining marks
   * are removed, for the accented Latin letters Spanish text uses.
   */
  function BaseLetter(c: char): (b: char)
    ensures !IsCombining(b)
  {
    if c < '\U{00C0}' then c
    else if c in "áàâäã" then 'a' else if c in "ÁÀÂÄÃ" then 'A'
    else if c in "éèêë" then 'e' else if c in "ÉÈÊË" then 'E'
    else if c in "íìîï" then 'i' else if c in "ÍÌÎÏ" then 'I'
    else if c in "óòôöõ" then 'o' else if c in "ÓÒÔÖÕ" then 'O'
    else if c in "úùûü" then 'u' else if c in "ÚÙÛÜ" then 'U'
    else if c == 'ñ' then 'n' else if c == 'Ñ' then 'N'
    else if c == 'ç' then 'c' else if c == 'Ç' then 'C'
    else if IsCombining(c) then ' ' else c
  }

  /** `s.normalize("NFD").replace(/[̀-ͯ]/g, "")`. */
  function StripAccents(s: string): (r: string)
    ensures |r| <= |s|
    ensures forall i :: 0 <= i < |r| ==> !IsCombining(r[i])
  {
    if s == [] then []
    else if IsCombining(s[0]) then StripAccents(s[1..])
    else [BaseLetter(s[0])] + StripAccents(s[1..])
  }

  lemma {:induction false} StripAccentsAppend(a: string, b: string)
    ensures StripAccents(a + b) == StripAccents(a) + StripAccents(b)
    decreases |a|
  {
    if a != [] {
      assert (a + b)[0] == a[0] && (a + b)[1..] == a[1..] + b;
      StripAccentsAppend(a[1..], b);
    } else {
      assert a + b == b;
    }
  }
}
