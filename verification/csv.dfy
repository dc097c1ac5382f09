/** `parseCSV`: a header line followed by comma-separated rows of ten fields,
    with no quoting; rows with a missing or empty field are dropped. */
module Csv {
  import opened Wrappers
  import opened JsValue
  import opened Text
  import opened Records
  import opened Seqs

  /** The value a destructuring pattern binds to position `k` of the split
      line: the piece, or `undefined` past the end. */
  function Cell(pieces: seq<string>, k: nat): Value {
    if k < |pieces| then Text(pieces[k]) else Undefined
  }

  /** One data line: destructure its first ten comma-separated pieces and keep
      the record only when all ten are truthy. */
  function ParseRow(line: string): (r: Option<Record>)
    ensures r.Some? <==>
      |Split(line, ',')| >= FieldCount &&
      forall k :: 0 <= k < FieldCount ==> Split(line, ',')[k] != ""
    ensures r.Some? ==> Complete(r.value)
    ensures r.Some? ==>
      forall k :: 0 <= k < FieldCount ==> Fields(r.value)[k] == Text(Split(line, ',')[k])
  {
    var pieces := Split(line, ',');
    var cells := seq(FieldCount, k requires 0 <= k < FieldCount => Cell(pieces, k));
    if forall k :: 0 <= k < FieldCount ==> Truthy(cells[k]) then
      Some(FromFields(cells))
    else
      assert |pieces| < FieldCount ==> !Truthy(cells[|pieces|]);
      None
  }

  predicate Parses(line: string) {
    ParseRow(line).Some?
  }

  /** The records of the data lines that parse, in file order. */
  function ParseLines(rows: seq<string>): (recs: seq<Record>)
    ensures |recs| <= |rows|
    ensures forall k :: 0 <= k < |recs| ==> Complete(recs[k])
  {
    var recs := FilterMap(rows, ParseRow);
    FilterMapSelects(rows, ParseRow, Parses);
    recs
  }

  /** `parseCSV(data)`: split into lines, skip the header line, parse the rest. */
  function ParseCsv(text: string): (recs: seq<Record>)
    ensures |recs| <= |Split(text, '\n')| - 1
    ensures forall k :: 0 <= k < |recs| ==> Complete(recs[k])
  {
    ParseLines(Split(text, '\n')[1..])
  }

  /** The output of `ParseLines` is exactly the records of the lines at
      `Positions(rows, Parses)`: an order-preserving subsequence that misses no
      line that parses. */
  lemma ParseLinesSelects(rows: seq<string>)
    ensures var pos := Positions(rows, Parses);
      ParseLines(rows) ==
        seq(|pos|, k requires 0 <= k < |pos| => ParseRow(rows[pos[k]]).value)
  {
    FilterMapSelects(rows, ParseRow, Parses);
  }

  /** Empty input has no data lines. */
  lemma EmptyInput()
    ensures ParseCsv("") == []
  {
  }

  /** Text without a line break is a header only and yields nothing. */
  lemma HeaderOnly(text: string)
    requires '\n' !in text
    ensures ParseCsv(text) == []
  {
    SplitSingle(text, '\n');
  }

  /** Whatever the header line says, the records come from the lines after it. */
  lemma HeaderIgnored(header: string, body: string)
    requires '\n' !in header
    ensures ParseCsv(header + "\n" + body) == ParseLines(Split(body, '\n'))
  {
    SplitAround(header, '\n', body);
    SplitSingle(header, '\n');
    assert Split(header + "\n" + body, '\n')[1..] == Split(body, '\n');
  }

  /** Pieces after the tenth do not matter. */
  lemma ExtraPiecesIgnored(line: string, extra: string)
    requires |Split(line, ',')| >= FieldCount
    ensures ParseRow(line + "," + extra) == ParseRow(line)
  {
    SplitAround(line, ',', extra);
    var p := Split(line, ',');
    var q := Split(line + "," + extra, ',');
    assert q[..FieldCount] == p[..FieldCount];
    assert forall k :: 0 <= k < FieldCount ==> q[k] == p[k];
    if ParseRow(line).Some? {
      assert Fields(ParseRow(line + "," + extra).value) == Fields(ParseRow(line).value);
      FromFieldsOfFields(ParseRow(line).value);
      FromFieldsOfFields(ParseRow(line + "," + extra).value);
    }
  }

  /** A line starting with a comma has an empty first field and is dropped. */
  lemma LeadingCommaDropped(rest: string)
    ensures ParseRow("," + rest) == None
  {
    SplitAround("", ',', rest);
    assert "" + "," + rest == "," + rest;
  }

  /** The string of a field: its text, or the empty string for `null`/`undefined`. */
  function TextOf(v: Value): string {
    if v.Text? then v.s else ""
  }

  /** A record that a CSV line can carry: every field non-empty and free of
      commas and line breaks. */
  predicate Clean(r: Record) {
    Complete(r) &&
    forall k :: 0 <= k < FieldCount ==> ',' !in TextOf(Fields(r)[k]) && '\n' !in TextOf(Fields(r)[k])
  }

  /** The CSV line of a record: its fields joined by commas. */
  function FormatRow(r: Record): string {
    Join(seq(FieldCount, k requires 0 <= k < FieldCount => TextOf(Fields(r)[k])), ',')
  }

  /** A CSV file: the header line, then one line per record. */
  function FormatCsv(header: string, recs: seq<Record>): string {
    Join([header] + seq(|recs|, k requires 0 <= k < |recs| => FormatRow(recs[k])), '\n')
  }

  /** Parsing the line of a clean record gives back the record. */
  lemma FormatRowParses(r: Record)
    requires Clean(r)
    ensures ParseRow(FormatRow(r)) == Some(r)
  {
    var cells := seq(FieldCount, k requires 0 <= k < FieldCount => TextOf(Fields(r)[k]));
    SplitJoin(cells, ',');
    var p := ParseRow(FormatRow(r));
    assert p.Some?;
    assert Fields(p.value) == Fields(r);
    FromFieldsOfFields(r);
    FromFieldsOfFields(p.value);
  }

  /** The line of a clean record has no line break. */
  lemma FormatRowSingleLine(r: Record)
    requires Clean(r)
    ensures '\n' !in FormatRow(r)
  {
    var cells := seq(FieldCount, k requires 0 <= k < FieldCount => TextOf(Fields(r)[k]));
    JoinAvoids(cells, ',', '\n');
  }

  lemma ParseFormattedLines(recs: seq<Record>)
    requires forall k :: 0 <= k < |recs| ==> Clean(recs[k])
    ensures ParseLines(seq(|recs|, k requires 0 <= k < |recs| => FormatRow(recs[k]))) == recs
  {
    var rows := seq(|recs|, k requires 0 <= k < |recs| => FormatRow(recs[k]));
    forall k | 0 <= k < |rows| ensures ParseRow(rows[k]) == Some(recs[k]) {
      FormatRowParses(recs[k]);
    }
    FilterMapTotal(rows, ParseRow);
  }

  /** Round trip: a header without line breaks followed by the lines of clean
      records parses back to exactly those records. */
  lemma ParseFormatCsv(header: string, recs: seq<Record>)
    requires '\n' !in header
    requires forall k :: 0 <= k < |recs| ==> Clean(recs[k])
    ensures ParseCsv(FormatCsv(header, recs)) == recs
  {
    var rows := seq(|recs|, k requires 0 <= k < |recs| => FormatRow(recs[k]));
    var lines := [header] + rows;
    forall k | 0 <= k < |recs| ensures '\n' !in rows[k] {
      FormatRowSingleLine(recs[k]);
    }
    SplitJoin(lines, '\n');
    assert lines[1..] == rows;
    ParseFormattedLines(recs);
  }

  /** The lines after a header, for a two-line body. */
  lemma TwoLineBody(header: string, first: string, second: string)
    requires '\n' !in header && '\n' !in first && '\n' !in second
    ensures ParseCsv(header + "\n" + (first + "\n" + second)) == FilterMap([first, second], ParseRow)
  {
    HeaderIgnored(header, first + "\n" + second);
    SplitAround(first, '\n', second);
    SplitSingle(first, '\n');
    SplitSingle(second, '\n');
    assert Split(first + "\n" + second, '\n') == [first, second];
    assert ParseLines([first, second]) == FilterMap([first, second], ParseRow);
  }

  /** A header, the line of a clean record and a line whose first field is
      empty (such as `,,,,,,,,,`) give exactly that one record. */
  lemma OneGoodOneEmptyLine(header: string, w: Record, rest: string)
    requires '\n' !in header && '\n' !in rest
    requires Clean(w)
    ensures ParseCsv(header + "\n" + (FormatRow(w) + "\n" + ("," + rest))) == [w]
  {
    var good := FormatRow(w);
    var bad := "," + rest;
    FormatRowSingleLine(w);
    assert '\n' !in bad;
    TwoLineBody(header, good, bad);
    FormatRowParses(w);
    LeadingCommaDropped(rest);
    var rows := [good, bad];
    assert rows[..1] == [good];
    assert [good][..0] == [];
  }
}
