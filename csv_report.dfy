/**
 * The CSV writer of the audit report test: every field is quoted, with its
 * quotes doubled, the fields of a row are joined by commas and each row is
 * ended by a line feed.  A decoder for records as section 2 of RFC 4180
 * defines them (with LF as the line break, as the writer emits) shows that
 * the writer's output reads back as the rows it was given.
 */
module CsvReport {
  import opened Options
  import opened Text

  /** `s.replace("\"", "\"\"")`. */
  function DoubleQuotes(s: string): (r: string)
    ensures |r| == |s| + Occurrences(s, '"')
  {
    if s == [] then ""
    else (if s[0] == '"' then "\"\"" else [s[0]]) + DoubleQuotes(s[1..])
  }

  /** `"\"" + field.replace("\"", "\"\"") + "\""`. */
  function EscapeField(f: string): (e: string)
    ensures |e| >= 2 && e[0] == '"' && e[|e| - 1] == '"'
  {
    "\"" + DoubleQuotes(f) + "\""
  }

  /** The `escapedRow` array of one row. */
  function EscapeAll(row: seq<string>): (es: seq<string>)
    ensures |es| == |row|
    ensures forall i :: 0 <= i < |row| ==> es[i] == EscapeField(row[i])
  {
    seq(|row|, i requires 0 <= i < |row| => EscapeField(row[i]))
  }

  /** `String.join(",", escapedRow)` followed by `"\n"`. */
  function EncodeRow(row: seq<string>): string {
    Join(EscapeAll(row), ",") + "\n"
  }

  /** The whole file: one line per row, in row order. */
  function EncodeReport(data: seq<seq<string>>): string
    decreases |data|
  {
    if data == [] then "" else EncodeRow(data[0]) + EncodeReport(data[1..])
  }

  /** The inner loop of `writeReportToCSV`: the `escapedRow` array. */
  method EscapeRow(row: seq<string>) returns (escapedRow: array<string>)
    ensures fresh(escapedRow)
    ensures escapedRow[..] == EscapeAll(row)
  {
    escapedRow := new string[|row|];
    for i := 0 to |row|
      invariant forall j :: 0 <= j < i ==> escapedRow[j] == EscapeField(row[j])
    {
      escapedRow[i] := "\"" + DoubleQuotes(row[i]) + "\"";
    }
  }

  /** `writeReportToCSV`, writing into a string instead of a file. */
  method WriteReportToCsv(data: seq<seq<string>>) returns (written: string)
    ensures written == EncodeReport(data)
  {
    written := "";
    var k := 0;
    while k < |data|
      invariant 0 <= k <= |data|
      invariant written + EncodeReport(data[k..]) == EncodeReport(data)
    {
      var escapedRow := EscapeRow(data[k]);
      assert data[k..] == [data[k]] + data[k + 1..];
      written := written + Join(escapedRow[..], ",") + "\n";
      k := k + 1;
    }
  }

  // ---- Decoding, after section 2 of RFC 4180 ----

  /** The inside of an escaped field, just after its opening quote: every
      character up to the closing quote, a doubled quote standing for one
      quote (rules 5-7); the text after the closing quote comes back too. */
  function Escaped(s: string): (r: Option<(string, string)>)
    ensures r.Some? ==> |r.value.1| < |s|
    decreases |s|
  {
    if s == [] then None
    else if s[0] == '"' then
      if |s| >= 2 && s[1] == '"' then
        match Escaped(s[2..])
        case None => None
        case Some(p) => Some(("\"" + p.0, p.1))
      else Some(("", s[1..]))
    else
      match Escaped(s[1..])
      case None => None
      case Some(p) => Some(([s[0]] + p.0, p.1))
  }

  /** A character allowed in a field that is not escaped (`TEXTDATA`). */
  predicate IsTextData(c: char) {
    c != ',' && c != '"' && c != '\n' && c != '\r'
  }

  /** Length of the run of `TEXTDATA` at the start of `s`. */
  function TextEnd(s: string): (k: nat)
    ensures k <= |s|
    ensures forall t :: 0 <= t < k ==> IsTextData(s[t])
    ensures k == |s| || !IsTextData(s[k])
  {
    if s != [] && IsTextData(s[0]) then 1 + TextEnd(s[1..]) else 0
  }

  /** One field at the start of `s`, and the text after it. */
  function Field(s: string): (r: Option<(string, string)>)
    ensures r.Some? ==> |r.value.1| <= |s|
  {
    if s != [] && s[0] == '"' then Escaped(s[1..])
    else Some((s[..TextEnd(s)], s[TextEnd(s)..]))
  }

  /** The fields of one record and the text after its line break:
      `field *(COMMA field) LF`. */
  function Record(s: string): (r: Option<(seq<string>, string)>)
    ensures r.Some? ==> |r.value.0| >= 1 && |r.value.1| < |s|
    decreases |s|
  {
    match Field(s)
    case None => None
    case Some(p) =>
      var rest := p.1;
      if rest != [] && rest[0] == '\n' then Some(([p.0], rest[1..]))
      else if rest != [] && rest[0] == ',' then
        match Record(rest[1..])
        case None => None
        case Some(q) => Some(([p.0] + q.0, q.1))
      else None
  }

  /** A file of records, each ended by a line break. */
  function DecodeReport(s: string): Option<seq<seq<string>>>
    decreases |s|
  {
    if s == [] then Some([])
    else
      match Record(s)
      case None => None
      case Some(p) =>
        match DecodeReport(p.1)
        case None => None
        case Some(rows) => Some([p.0] + rows)
  }

  /** A doubled quote inside an escaped field stands for one quote. */
  lemma EscapedQuote(tail: string)
    requires Escaped(tail).Some?
    ensures Escaped("\"\"" + tail) == Some(("\"" + Escaped(tail).value.0, Escaped(tail).value.1))
  {
    assert ("\"\"" + tail)[2..] == tail;
  }

  /** Any other character inside an escaped field stands for itself. */
  lemma EscapedChar(c: char, tail: string)
    requires c != '"' && Escaped(tail).Some?
    ensures Escaped([c] + tail) == Some(([c] + Escaped(tail).value.0, Escaped(tail).value.1))
  {
    assert ([c] + tail)[1..] == tail;
  }

  /** The closing quote of an escaped field. */
  lemma EscapedClose(rest: string)
    requires rest == [] || rest[0] != '"'
    ensures Escaped("\"" + rest) == Some(("", rest))
  {
    assert ("\"" + rest)[1..] == rest;
  }

  /** Regrouping a concatenation of four pieces. */
  lemma Regroup(a: string, b: string, c: string, d: string)
    ensures a + b + c + d == a + (b + c + d)
  {
  }

  /** An escaped field reads back as the field when what follows its closing
      quote is not another quote. */
  lemma {:induction false} EscapedRoundTrip(f: string, rest: string)
    requires rest == [] || rest[0] != '"'
    ensures Escaped(DoubleQuotes(f) + "\"" + rest) == Some((f, rest))
    decreases |f|
  {
    if f == [] {
      assert DoubleQuotes(f) + "\"" + rest == "\"" + rest;
      EscapedClose(rest);
    } else {
      EscapedRoundTrip(f[1..], rest);
      var tail := DoubleQuotes(f[1..]) + "\"" + rest;
      var head := if f[0] == '"' then "\"\"" else [f[0]];
      Regroup(head, DoubleQuotes(f[1..]), "\"", rest);
      if f[0] == '"' {
        EscapedQuote(tail);
        assert "\"" + f[1..] == f;
      } else {
        EscapedChar(f[0], tail);
        assert [f[0]] + f[1..] == f;
      }
    }
  }

  /** A field as the writer emits it, before `c`, reads back as the field. */
  lemma FieldRoundTrip(f: string, c: char, rest: string)
    requires c == ',' || c == '\n'
    ensures Field(EscapeField(f) + [c] + rest) == Some((f, [c] + rest))
  {
    var s := EscapeField(f) + [c] + rest;
    assert s[1..] == DoubleQuotes(f) + "\"" + ([c] + rest);
    EscapedRoundTrip(f, [c] + rest);
  }

  /** An encoded row reads back as its fields, whatever follows it. */
  lemma {:induction false} RecordRoundTrip(row: seq<string>, rest: string)
    requires |row| >= 1
    ensures Record(EncodeRow(row) + rest) == Some((row, rest))
    decreases |row|
  {
    var es := EscapeAll(row);
    var s := EncodeRow(row) + rest;
    if |row| == 1 {
      assert s == EscapeField(row[0]) + "\n" + rest;
      FieldRoundTrip(row[0], '\n', rest);
      assert ("\n" + rest)[1..] == rest;
      assert Record(s).value.0 == [row[0]] == row;
    } else {
      var tail := EncodeRow(row[1..]) + rest;
      assert EscapeAll(row)[1..] == EscapeAll(row[1..]);
      assert s == EscapeField(row[0]) + "," + tail;
      FieldRoundTrip(row[0], ',', tail);
      assert ("," + tail)[1..] == tail;
      RecordRoundTrip(row[1..], rest);
      assert Record(s).value.0 == [row[0]] + row[1..] == row;
    }
  }

  /** The writer's output reads back as the rows it was given, fields with
      commas, quotes and line breaks included, provided no row is empty (an
      empty row is written as a bare line break, which reads back as one
      empty field). */
  lemma {:induction false} ReportRoundTrip(data: seq<seq<string>>)
    requires forall k :: 0 <= k < |data| ==> |data[k]| >= 1
    ensures DecodeReport(EncodeReport(data)) == Some(data)
    decreases |data|
  {
    if data != [] {
      RecordRoundTrip(data[0], EncodeReport(data[1..]));
      ReportRoundTrip(data[1..]);
      assert [data[0]] + data[1..] == data;
    }
  }

  /** The empty row is the one row that does not read back. */
  lemma EmptyRowReadsAsOneField()
    ensures EncodeReport([[]]) == "\n"
    ensures DecodeReport("\n") == Some([[""]])
  {
    assert EncodeReport([[]]) == EncodeRow([]) + "";
    assert Join(EscapeAll([]), ",") == "";
    assert TextEnd("\n") == 0;
    assert "\n"[..0] == "" && "\n"[0..] == "\n" && "\n"[1..] == "";
    assert Record("\n") == Some(([""], ""));
    assert DecodeReport("\n").value == [[""]];
  }

  /** Output lines follow the rows: the file is the concatenation of the
      rows' lines. */
  lemma {:induction false} EncodeReportAppend(a: seq<seq<string>>, b: seq<seq<string>>)
    ensures EncodeReport(a + b) == EncodeReport(a) + EncodeReport(b)
    decreases |a|
  {
    if a != [] {
      assert (a + b)[1..] == a[1..] + b;
      EncodeReportAppend(a[1..], b);
    } else {
      assert a + b == b;
    }
  }
}
