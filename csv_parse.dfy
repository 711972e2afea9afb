// `parseCSV` of the proposal route (src/routes/propuesta-pdf.js): a
// character-level state machine for comma-separated text with the quoting
// rules of section 2 of RFC 4180, read tolerantly (LF ends a record, CR is
// dropped outside quotes, an unclosed quote runs to the end of the input).
module CsvParse {

  /** The scanner's variables: finished rows, the record and field being built, the quote flag. */
  datatype ScanState = ScanState(rows: seq<seq<string>>, record: seq<string>, field: string, inQuotes: bool)

  const Init := ScanState([], [], "", false)

  /** `pushField`: the field joins the record and starts over. */
  function PushField(st: ScanState): ScanState {
    st.(record := st.record + [st.field], field := "")
  }

  /** `pushRecord`: the record joins the rows and starts over. */
  function PushRecord(st: ScanState): ScanState {
    st.(rows := st.rows + [st.record], record := [])
  }

  /** The state after the scanner has read all of s. */
  function Consume(s: string, st: ScanState): ScanState
    decreases |s|
  {
    if s == [] then st
    else
      var ch := s[0];
      if st.inQuotes then
        if ch == '"' then
          if |s| > 1 && s[1] == '"' then Consume(s[2..], st.(field := st.field + "\""))
          else Consume(s[1..], st.(inQuotes := false))
        else Consume(s[1..], st.(field := st.field + [ch]))
      else if ch == '"' then Consume(s[1..], st.(inQuotes := true))
      else if ch == ',' then Consume(s[1..], PushField(st))
      else if ch == '\n' then Consume(s[1..], PushRecord(PushField(st)))
      else if ch == '\r' then Consume(s[1..], st)
      else Consume(s[1..], st.(field := st.field + [ch]))
  }

  /** The final flush: a pending field or record is pushed, an empty one is not. */
  function Finish(st: ScanState): seq<seq<string>> {
    if |st.field| > 0 || |st.record| > 0 then PushRecord(PushField(st)).rows else st.rows
  }

  /** What `parseCSV` returns for text. */
  function Parse(text: string): seq<seq<string>> {
    Finish(Consume(text, Init))
  }

  /** `parseCSV`. */
  method ParseCsv(text: string) returns (rows: seq<seq<string>>)
    ensures rows == Parse(text)
  {
    rows := [];
    var i := 0;
    var field := "";
    var record: seq<string> := [];
    var inQuotes := false;
    while i < |text|
      invariant 0 <= i <= |text|
      invariant Consume(text[i..], ScanState(rows, record, field, inQuotes)) == Consume(text, Init)
    {
      var ch := text[i];
      if inQuotes {
        if ch == '"' {
          if i + 1 < |text| && text[i + 1] == '"' {
            field := field + "\"";
            i := i + 1;
          } else {
            inQuotes := false;
          }
        } else {
          field := field + [ch];
        }
      } else {
        if ch == '"' {
          inQuotes := true;
        } else if ch == ',' {
          record := record + [field];
          field := "";
        } else if ch == '\n' {
          record := record + [field];
          field := "";
          rows := rows + [record];
          record := [];
        } else if ch == '\r' {
        } else {
          field := field + [ch];
        }
      }
      i := i + 1;
    }
    if |field| > 0 || |record| > 0 {
      record := record + [field];
      field := "";
      rows := rows + [record];
      record := [];
    }
  }

  // ---------------------------------------------------------------------------
  // Splitting the input

  /**
   * Reading a then b is reading a + b, unless b starts with a quote (the
   * scanner peeks one character past a closing quote).
   */
  lemma {:induction false} ConsumeAppend(a: string, b: string, st: ScanState)
    requires b == [] || b[0] != '"'
    ensures Consume(a + b, st) == Consume(b, Consume(a, st))
    decreases |a|
  {
    if a == [] {
      assert a + b == b;
    } else {
      var ab := a + b;
      assert ab[0] == a[0];
      assert ab[1..] == a[1..] + b;
      if |a| > 1 {
        assert ab[1] == a[1];
        assert ab[2..] == a[2..] + b;
      }
      var ch := a[0];
      if st.inQuotes {
        if ch == '"' {
          if |a| > 1 && a[1] == '"' {
            ConsumeAppend(a[2..], b, st.(field := st.field + "\""));
          } else {
            ConsumeAppend(a[1..], b, st.(inQuotes := false));
          }
        } else {
          ConsumeAppend(a[1..], b, st.(field := st.field + [ch]));
        }
      } else if ch == '"' {
        ConsumeAppend(a[1..], b, st.(inQuotes := true));
      } else if ch == ',' {
        ConsumeAppend(a[1..], b, PushField(st));
      } else if ch == '\n' {
        ConsumeAppend(a[1..], b, PushRecord(PushField(st)));
      } else if ch == '\r' {
        ConsumeAppend(a[1..], b, st);
      } else {
        ConsumeAppend(a[1..], b, st.(field := st.field + [ch]));
      }
    }
  }

  // ---------------------------------------------------------------------------
  // Quoted fields

  /** A field written between quotes, each quote inside doubled. */
  function Escape(f: string): (e: string)
    ensures |e| >= |f|
  {
    if f == [] then []
    else if f[0] == '"' then "\"\"" + Escape(f[1..])
    else [f[0]] + Escape(f[1..])
  }

  function Quoted(f: string): string {
    "\"" + Escape(f) + "\""
  }

  lemma {:induction false} ConsumeEscaped(f: string, s: string, st: ScanState)
    requires st.inQuotes
    requires s == [] || s[0] != '"'
    ensures Consume(Escape(f) + "\"" + s, st)
            == Consume(s, st.(field := st.field + f, inQuotes := false))
    decreases |f|
  {
    var t := Escape(f) + "\"" + s;
    if f == [] {
      assert t == "\"" + s;
      assert t[1..] == s;
      assert st.field + f == st.field;
    } else if f[0] == '"' {
      assert t == "\"\"" + (Escape(f[1..]) + "\"" + s);
      assert t[2..] == Escape(f[1..]) + "\"" + s;
      ConsumeEscaped(f[1..], s, st.(field := st.field + "\""));
      assert st.field + "\"" + f[1..] == st.field + f;
    } else {
      assert t == [f[0]] + (Escape(f[1..]) + "\"" + s);
      assert t[1..] == Escape(f[1..]) + "\"" + s;
      ConsumeEscaped(f[1..], s, st.(field := st.field + [f[0]]));
      assert st.field + [f[0]] + f[1..] == st.field + f;
    }
  }

  /**
   * A quoted field reads back as its content: doubled quotes give one quote,
   * and commas, CR and LF inside the quotes stay in the field.
   */
  lemma QuotedFieldContent(f: string, s: string, st: ScanState)
    requires !st.inQuotes
    requires s == [] || s[0] != '"'
    ensures Consume(Quoted(f) + s, st) == Consume(s, st.(field := st.field + f))
  {
    var u := Escape(f) + "\"" + s;
    AppendAssoc("\"" + Escape(f), "\"", s);
    AppendAssoc("\"", Escape(f), "\"" + s);
    AppendAssoc(Escape(f), "\"", s);
    assert Quoted(f) + s == "\"" + u;
    assert ("\"" + u)[1..] == u;
    ConsumeEscaped(f, s, st.(inQuotes := true));
  }

  lemma AppendAssoc<T>(a: seq<T>, b: seq<T>, c: seq<T>)
    ensures (a + b) + c == a + (b + c)
  {
  }

  /** A whole input that is one quoted field parses to that field (nothing, when it is empty). */
  lemma QuotedFieldAlone(f: string)
    ensures Parse(Quoted(f)) == if f == [] then [] else [[f]]
  {
    QuotedFieldContent(f, "", Init);
    assert Quoted(f) + "" == Quoted(f);
    var st := Init.(field := f);
    assert Consume("", st) == st;
    assert "" + f == f;
    if f != [] {
      var p := PushField(st);
      assert p.record == [f];
      assert PushRecord(p).rows == [[f]];
    }
  }

  /** An unclosed quote takes the rest of the input as the field. */
  lemma {:induction false} UnclosedQuote(f: string, st: ScanState)
    requires st.inQuotes
    requires forall k :: 0 <= k < |f| ==> f[k] != '"'
    ensures Consume(f, st) == st.(field := st.field + f)
    decreases |f|
  {
    if f != [] {
      UnclosedQuote(f[1..], st.(field := st.field + [f[0]]));
      assert st.field + [f[0]] + f[1..] == st.field + f;
    }
  }

  lemma UnclosedQuoteFlushed(f: string)
    requires forall k :: 0 <= k < |f| ==> f[k] != '"'
    ensures Parse("\"" + f) == if f == [] then [] else [[f]]
  {
    var t := "\"" + f;
    assert t[1..] == f;
    UnclosedQuote(f, Init.(inQuotes := true));
    var st := Init.(inQuotes := true, field := f);
    assert Consume(t, Init) == st;
    assert "" + f == f;
    if f != [] {
      var p := PushField(st);
      assert p.record == [f];
      assert PushRecord(p).rows == [[f]];
    }
  }

  // ---------------------------------------------------------------------------
  // Plain rows

  /** A field that needs no quoting. */
  predicate Plain(f: string) {
    forall k :: 0 <= k < |f| ==> f[k] != '"' && f[k] != ',' && f[k] != '\r' && f[k] != '\n'
  }

  predicate PlainRows(rows: seq<seq<string>>) {
    forall r :: 0 <= r < |rows| ==> |rows[r]| > 0 && forall c :: 0 <= c < |rows[r]| ==> Plain(rows[r][c])
  }

  /** The fields of one record joined by commas. */
  function Line(fs: seq<string>): string
    requires |fs| > 0
  {
    if |fs| == 1 then fs[0] else fs[0] + "," + Line(fs[1..])
  }

  /** Records joined by LF, no line end after the last. */
  function Text(rows: seq<seq<string>>): string
    requires |rows| > 0 && forall r :: 0 <= r < |rows| ==> |rows[r]| > 0
  {
    if |rows| == 1 then Line(rows[0]) else Line(rows[0]) + "\n" + Text(rows[1..])
  }

  /** Records joined by a line end: `"\n"` or `"\r\n"`, after every record. */
  function Lines(rows: seq<seq<string>>, eol: string): string
    requires forall r :: 0 <= r < |rows| ==> |rows[r]| > 0
  {
    if rows == [] then "" else Line(rows[0]) + eol + Lines(rows[1..], eol)
  }

  lemma {:induction false} ConsumePlain(f: string, s: string, st: ScanState)
    requires !st.inQuotes && Plain(f)
    ensures Consume(f + s, st) == Consume(s, st.(field := st.field + f))
    decreases |f|
  {
    if f == [] {
      assert f + s == s;
      assert st.field + f == st.field;
    } else {
      var t := f + s;
      assert t[0] == f[0] && t[1..] == f[1..] + s;
      ConsumePlain(f[1..], s, st.(field := st.field + [f[0]]));
      assert st.field + [f[0]] + f[1..] == st.field + f;
    }
  }

  /** A plain field and its comma: the field is pushed and scanning goes on after the comma. */
  lemma ConsumeFieldComma(f: string, t: string, st: ScanState)
    requires !st.inQuotes && Plain(f)
    ensures Consume(f + "," + t, st) == Consume(t, PushField(st.(field := st.field + f)))
  {
    var rest := "," + t;
    AppendAssoc(f, ",", t);
    ConsumePlain(f, rest, st);
    assert rest[0] == ',' && rest[1..] == t;
  }

  lemma {:induction false} ConsumeLine(fs: seq<string>, s: string, st: ScanState)
    requires |fs| > 0 && !st.inQuotes && st.field == ""
    requires forall c :: 0 <= c < |fs| ==> Plain(fs[c])
    ensures Consume(Line(fs) + s, st)
            == Consume(s, st.(record := st.record + fs[..|fs| - 1], field := fs[|fs| - 1]))
    decreases |fs|
  {
    if |fs| == 1 {
      ConsumePlain(fs[0], s, st);
      assert fs[..0] == [];
      assert st.record + fs[..0] == st.record;
      assert st.(field := st.field + fs[0]) == st.(record := st.record + fs[..0], field := fs[0]);
    } else {
      var tail := fs[1..];
      AppendAssoc(fs[0] + ",", Line(tail), s);
      ConsumeFieldComma(fs[0], Line(tail) + s, st);
      assert st.field + fs[0] == fs[0];
      var st2 := PushField(st.(field := fs[0]));
      ConsumeLine(tail, s, st2);
      assert st2.record == st.record + [fs[0]];
      assert tail[..|tail| - 1] == fs[1..|fs| - 1];
      AppendAssoc(st.record, [fs[0]], fs[1..|fs| - 1]);
      assert [fs[0]] + fs[1..|fs| - 1] == fs[..|fs| - 1];
      assert tail[|tail| - 1] == fs[|fs| - 1];
    }
  }

  lemma ConsumeRecord(fs: seq<string>, eol: string, s: string, st: ScanState)
    requires |fs| > 0 && !st.inQuotes && st.field == "" && st.record == []
    requires eol == "\n" || eol == "\r\n"
    requires forall c :: 0 <= c < |fs| ==> Plain(fs[c])
    ensures Consume(Line(fs) + eol + s, st) == Consume(s, st.(rows := st.rows + [fs]))
  {
    var rest := eol + s;
    AppendAssoc(Line(fs), eol, s);
    ConsumeLine(fs, rest, st);
    var st1 := st.(record := fs[..|fs| - 1], field := fs[|fs| - 1]);
    assert st.record + fs[..|fs| - 1] == fs[..|fs| - 1];
    SplitLast(fs);
    assert PushField(st1).record == fs;
    assert PushRecord(PushField(st1)) == st.(rows := st.rows + [fs]);
    if eol == "\n" {
      assert rest[0] == '\n' && rest[1..] == s;
    } else {
      assert rest[0] == '\r' && rest[1..] == "\n" + s;
      assert Consume(rest, st1) == Consume("\n" + s, st1);
      assert ("\n" + s)[1..] == s;
    }
  }

  lemma {:induction false} ConsumeLines(rows: seq<seq<string>>, eol: string, st: ScanState)
    requires PlainRows(rows) && (eol == "\n" || eol == "\r\n")
    requires !st.inQuotes && st.field == "" && st.record == []
    ensures Consume(Lines(rows, eol), st) == st.(rows := st.rows + rows)
    decreases |rows|
  {
    if rows != [] {
      ConsumeRecord(rows[0], eol, Lines(rows[1..], eol), st);
      ConsumeLines(rows[1..], eol, st.(rows := st.rows + [rows[0]]));
      assert st.rows + [rows[0]] + rows[1..] == st.rows + rows;
    }
  }

  /**
   * Rows of plain fields written with a line end after every record, LF or
   * CRLF, parse back unchanged.
   */
  lemma LinesRoundTrip(rows: seq<seq<string>>, eol: string)
    requires PlainRows(rows) && (eol == "\n" || eol == "\r\n")
    ensures Parse(Lines(rows, eol)) == rows
  {
    ConsumeLines(rows, eol, Init);
  }

  lemma {:induction false} TextSplit(rows: seq<seq<string>>)
    requires |rows| > 0 && forall r :: 0 <= r < |rows| ==> |rows[r]| > 0
    ensures Text(rows) == Lines(rows[..|rows| - 1], "\n") + Line(rows[|rows| - 1])
    decreases |rows|
  {
    if |rows| > 1 {
      TextSplit(rows[1..]);
      assert rows[1..][..|rows| - 2] == rows[..|rows| - 1][1..];
    }
  }

  lemma SplitLast<T>(xs: seq<T>)
    requires |xs| > 0
    ensures xs[..|xs| - 1] + [xs[|xs| - 1]] == xs
  {
  }

  /** A line of plain fields does not start with a quote. */
  lemma {:induction false} LineHead(fs: seq<string>)
    requires |fs| > 0 && forall c :: 0 <= c < |fs| ==> Plain(fs[c])
    ensures Line(fs) == [] || Line(fs)[0] != '"'
    decreases |fs|
  {
    if |fs| > 1 {
      var rest := "," + Line(fs[1..]);
      assert Line(fs) == fs[0] + rest;
      if fs[0] == [] {
        assert Line(fs)[0] == ',';
      } else {
        assert Line(fs)[0] == fs[0][0];
      }
    }
  }

  /** The last line, without a line end, is flushed unless it is a lone empty field. */
  lemma LastLine(fs: seq<string>, st: ScanState)
    requires |fs| > 0 && fs != [""] && forall c :: 0 <= c < |fs| ==> Plain(fs[c])
    requires !st.inQuotes && st.field == "" && st.record == []
    ensures Finish(Consume(Line(fs), st)) == st.rows + [fs]
  {
    ConsumeLine(fs, "", st);
    assert Line(fs) + "" == Line(fs);
    var st1 := st.(record := fs[..|fs| - 1], field := fs[|fs| - 1]);
    assert Consume("", st1) == st1;
    assert Consume(Line(fs), st) == st1;
    if |fs| == 1 {
      assert fs[0] != "";
    } else {
      assert |st1.record| > 0;
    }
    SplitLast(fs);
    var st2 := PushField(st1);
    assert st2.record == fs;
    assert Finish(st1) == PushRecord(st2).rows;
  }

  /**
   * Rows of plain fields joined by LF parse back unchanged, provided the last
   * record is not a lone empty field (an empty last line is no record).
   */
  lemma TextRoundTrip(rows: seq<seq<string>>)
    requires PlainRows(rows) && |rows| > 0
    requires rows[|rows| - 1] != [""]
    ensures Parse(Text(rows)) == rows
  {
    var init := rows[..|rows| - 1];
    var last := rows[|rows| - 1];
    TextSplit(rows);
    assert PlainRows(init);
    var a := Lines(init, "\n");
    var b := Line(last);
    LineHead(last);
    ConsumeAppend(a, b, Init);
    ConsumeLines(init, "\n", Init);
    var st := Init.(rows := init);
    assert Consume(a, Init) == st;
    LastLine(last, st);
    calc {
      Parse(Text(rows));
      Finish(Consume(a + b, Init));
      Finish(Consume(b, st));
      init + [last];
      { SplitLast(rows); }
      rows;
    }
  }

  /** A trailing LF after a non-empty last line adds no empty record. */
  lemma TrailingNewline(text: string)
    requires var st := Consume(text, Init); !st.inQuotes && (|st.field| > 0 || |st.record| > 0)
    ensures Parse(text + "\n") == Parse(text)
  {
    ConsumeAppend(text, "\n", Init);
  }

  /** Outside quotes a CR is read as if it were not there. */
  lemma {:induction false} CarriageReturnDropped(a: string, b: string, st: ScanState)
    requires !Consume(a, st).inQuotes
    requires b == [] || b[0] != '"'
    ensures Consume(a + "\r" + b, st) == Consume(a + b, st)
  {
    ConsumeAppend(a + "\r", b, st);
    ConsumeAppend(a, "\r", st);
    ConsumeAppend(a, b, st);
    assert ("\r")[1..] == [];
  }
}
