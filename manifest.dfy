/** The manifest: `write_csv` and the CSV branch of `PathIterator.__init__`
    (lab2/main.py, lab2/crawler.py), over the text that Python's `csv` module
    writes and reads with `delimiter=";"`. */
module Manifest {
  import opened Wrappers
  import opened Text
  import opened Scanner

  /** The header row `["absolute_path", "relative_path"]`. */
  const Header: Pair := Pair("absolute_path", "relative_path")

  // ---------------------------------------------------------------------------
  // The text layer: `csv.writer` (QUOTE_MINIMAL, line terminator "\r\n") and
  // `csv.reader` over a file opened with `newline=""`
  // ---------------------------------------------------------------------------

  /** A field the writer emits as it is: no delimiter, quote or line break. */
  predicate Clean(f: string) {
    forall i :: 0 <= i < |f| ==> f[i] != ';' && f[i] != '"' && !IsBreak(f[i])
  }

  function DoubleQuotes(f: string): string {
    if f == [] then [] else (if f[0] == '"' then "\"\"" else [f[0]]) + DoubleQuotes(f[1..])
  }

  /** A field as `csv.writer` emits it: quoted, with inner quotes doubled, when
      it holds a delimiter, a quote or a line break. */
  function EncodeField(f: string): (r: string)
    ensures Clean(f) ==> r == f
  {
    if Clean(f) then f else "\"" + DoubleQuotes(f) + "\""
  }

  /** `writer.writerow([a, b])`. */
  function EncodeRecord(p: Pair): string {
    EncodeField(p.abs) + ";" + EncodeField(p.rel) + "\r\n"
  }

  function EncodeRecords(records: seq<Pair>): string {
    if records == [] then "" else EncodeRecord(records[0]) + EncodeRecords(records[1..])
  }

  predicate IsBreak(c: char) {
    c == '\r' || c == '\n'
  }

  /** Where the first line of `t` ends: its first `\r` or `\n`, or its length. */
  function LineEnd(t: string): (i: nat)
    ensures i <= |t|
    ensures i < |t| ==> IsBreak(t[i])
    ensures forall j :: 0 <= j < i ==> !IsBreak(t[j])
  {
    if t == [] || IsBreak(t[0]) then 0 else 1 + LineEnd(t[1..])
  }

  /** The lines of a file opened with `newline=""`: split after `\r\n`, `\r` or
      `\n`, with the terminators dropped; no empty line after a final terminator. */
  function Lines(t: string): (lines: seq<string>)
    ensures forall k :: 0 <= k < |lines| ==> forall j :: 0 <= j < |lines[k]| ==> !IsBreak(lines[k][j])
    decreases |t|
  {
    if t == [] then []
    else
      var i := LineEnd(t);
      if i == |t| then [t]
      else if t[i] == '\r' && i + 1 < |t| && t[i + 1] == '\n' then [t[..i]] + Lines(t[i + 2..])
      else [t[..i]] + Lines(t[i + 1..])
  }

  /** The row `csv.reader` makes of one line: `[]` for a blank line, otherwise
      the `;`-separated fields. */
  function DecodeLine(line: string): seq<string> {
    if line == "" then [] else Split(line, ';')
  }

  function DecodeLines(lines: seq<string>): (rows: seq<seq<string>>)
    ensures |rows| == |lines|
  {
    if lines == [] then [] else [DecodeLine(lines[0])] + DecodeLines(lines[1..])
  }

  /** The rows `csv.reader(f, delimiter=";")` yields for the text of a file. */
  function DecodeRows(text: string): seq<seq<string>> {
    DecodeLines(Lines(text))
  }

  lemma {:induction false} LineEndOfRecord(x: string, rest: string)
    requires forall j :: 0 <= j < |x| ==> !IsBreak(x[j])
    ensures LineEnd(x + "\r\n" + rest) == |x|
  {
    if x != [] {
      assert (x + "\r\n" + rest)[1..] == x[1..] + "\r\n" + rest;
      LineEndOfRecord(x[1..], rest);
    }
  }

  lemma LinesOfRecord(x: string, rest: string)
    requires forall j :: 0 <= j < |x| ==> !IsBreak(x[j])
    ensures Lines(x + "\r\n" + rest) == [x] + Lines(rest)
  {
    var t := x + "\r\n" + rest;
    LineEndOfRecord(x, rest);
    assert t[..|x|] == x;
    assert t[|x| + 2..] == rest;
  }

  lemma DecodeRecord(p: Pair)
    requires Clean(p.abs) && Clean(p.rel)
    ensures Lines(EncodeRecord(p))[0] == p.abs + ";" + p.rel
    ensures DecodeLine(p.abs + ";" + p.rel) == [p.abs, p.rel]
  {
    var line := p.abs + ";" + p.rel;
    assert forall j :: 0 <= j < |line| ==> !IsBreak(line[j]) by {
      forall j | 0 <= j < |line| ensures !IsBreak(line[j]) {
        if j < |p.abs| { assert line[j] == p.abs[j]; }
        else if j > |p.abs| { assert line[j] == p.rel[j - |p.abs| - 1]; }
      }
    }
    assert EncodeRecord(p) == line + "\r\n" + "";
    LinesOfRecord(line, "");
    assert [p.abs, p.rel][1..] == [p.rel];
    assert Join([p.abs, p.rel], ';') == line;
    JoinThenSplit([p.abs, p.rel], ';');
    assert line != "";
  }

  /** Each record as the row of its two fields. */
  function FieldRows(records: seq<Pair>): (rows: seq<seq<string>>)
    ensures |rows| == |records|
  {
    if records == [] then [] else [[records[0].abs, records[0].rel]] + FieldRows(records[1..])
  }

  /** Reading back the text of clean records gives each record's two fields. */
  lemma {:induction false} DecodeEncodedRecords(records: seq<Pair>)
    requires forall k :: 0 <= k < |records| ==> Clean(records[k].abs) && Clean(records[k].rel)
    ensures DecodeRows(EncodeRecords(records)) == FieldRows(records)
  {
    if records != [] {
      var p := records[0];
      var line := p.abs + ";" + p.rel;
      DecodeRecord(p);
      assert forall j :: 0 <= j < |line| ==> !IsBreak(line[j]) by {
        assert Lines(EncodeRecord(p))[0] == line;
      }
      assert EncodeRecords(records) == line + "\r\n" + EncodeRecords(records[1..]);
      LinesOfRecord(line, EncodeRecords(records[1..]));
      DecodeEncodedRecords(records[1..]);
    }
  }

  // ---------------------------------------------------------------------------
  // `write_csv`
  // ---------------------------------------------------------------------------

  /** A row handed to `write_csv`: an iterable of strings, or an object with no
      `__iter__`. */
  datatype InRow = Fields(fields: seq<string>) | Scalar

  predicate Writable(row: InRow) {
    row.Fields? && |row.fields| >= 2
  }

  predicate AllWritable(rows: seq<InRow>) {
    forall j :: 0 <= j < |rows| ==> rows[j].Fields? && |rows[j].fields| >= 2
  }

  /** The position of the first row `write_csv` refuses, or the row count. */
  function FirstBadRow(rows: seq<InRow>): (k: nat)
    ensures k <= |rows|
    ensures AllWritable(rows[..k])
    ensures k < |rows| ==> !Writable(rows[k])
  {
    if rows == [] then 0
    else if !Writable(rows[0]) then 0
    else 1 + FirstBadRow(rows[1..])
  }

  /** The exception for a refused row. */
  function RowError(row: InRow): Error {
    if row.Scalar? then RowNotIterable else RowTooShort
  }

  /** The first two fields of each row. */
  function FirstTwo(rows: seq<InRow>): (r: seq<Pair>)
    requires AllWritable(rows)
    ensures |r| == |rows|
    ensures forall j :: 0 <= j < |rows| ==> r[j] == Pair(rows[j].fields[0], rows[j].fields[1])
  {
    if rows == [] then [] else [Pair(rows[0].fields[0], rows[0].fields[1])] + FirstTwo(rows[1..])
  }

  /** `write_csv(csv_path, pairs)`: the text the file holds afterwards and the
      exception, if any.  The header goes first; each row adds its first two
      fields; the first refused row stops the writing with its exception, so
      the rows before it are already in the file. */
  method WriteCsv(rows: seq<InRow>) returns (text: string, err: Option<Error>)
    ensures var k := FirstBadRow(rows);
      text == EncodeRecords([Header] + FirstTwo(rows[..k])) &&
      err == (if k < |rows| then Some(RowError(rows[k])) else None)
  {
    var head := EncodeRecord(Header);
    var body := "";
    var i := 0;
    while i < |rows|
      invariant 0 <= i <= |rows|
      invariant AllWritable(rows[..i])
      invariant body == EncodeRecords(FirstTwo(rows[..i]))
    {
      var row := rows[i];
      if row.Scalar? || |row.fields| < 2 {
        WrittenSoFar(rows, i);
        return head + body, Some(RowError(row));
      }
      WrittenStep(rows, i);
      body := body + EncodeRecord(Pair(row.fields[0], row.fields[1]));
      i := i + 1;
    }
    WrittenSoFar(rows, i);
    return head + body, None;
  }

  /** The text after the first `i` rows, when they were all accepted. */
  lemma WrittenSoFar(rows: seq<InRow>, i: nat)
    requires i <= |rows| && AllWritable(rows[..i])
    requires i < |rows| ==> !Writable(rows[i])
    ensures FirstBadRow(rows) == i
    ensures EncodeRecords([Header] + FirstTwo(rows[..i])) == EncodeRecord(Header) + EncodeRecords(FirstTwo(rows[..i]))
  {
    FirstBadRowAt(rows, i);
    assert ([Header] + FirstTwo(rows[..i]))[1..] == FirstTwo(rows[..i]);
  }

  lemma {:induction false} FirstBadRowAt(rows: seq<InRow>, i: nat)
    requires i <= |rows| && AllWritable(rows[..i])
    requires i < |rows| ==> !Writable(rows[i])
    ensures FirstBadRow(rows) == i
  {
    if i > 0 {
      assert rows[1..][..i - 1] == rows[1..i];
      assert Writable(rows[..i][0]);
      FirstBadRowAt(rows[1..], i - 1);
    }
  }

  lemma WrittenStep(rows: seq<InRow>, i: nat)
    requires i < |rows| && AllWritable(rows[..i]) && Writable(rows[i])
    ensures AllWritable(rows[..i + 1])
    ensures EncodeRecords(FirstTwo(rows[..i + 1])) ==
      EncodeRecords(FirstTwo(rows[..i])) + EncodeRecord(Pair(rows[i].fields[0], rows[i].fields[1]))
  {
    var p := Pair(rows[i].fields[0], rows[i].fields[1]);
    assert rows[..i + 1] == rows[..i] + [rows[i]];
    FirstTwoSnoc(rows[..i], rows[i]);
    EncodeRecordsAppend(FirstTwo(rows[..i]), p);
  }

  lemma FirstTwoSnoc(rows: seq<InRow>, row: InRow)
    requires AllWritable(rows) && Writable(row)
    ensures AllWritable(rows + [row])
    ensures FirstTwo(rows + [row]) == FirstTwo(rows) + [Pair(row.fields[0], row.fields[1])]
  {
    var all := rows + [row];
    assert AllWritable(all);
    var lhs, rhs := FirstTwo(all), FirstTwo(rows) + [Pair(row.fields[0], row.fields[1])];
    assert |lhs| == |rhs|;
    forall j | 0 <= j < |all| ensures lhs[j] == rhs[j] {
    }
  }

  lemma {:induction false} EncodeRecordsAppend(records: seq<Pair>, p: Pair)
    ensures EncodeRecords(records + [p]) == EncodeRecords(records) + EncodeRecord(p)
  {
    if records != [] {
      assert (records + [p])[1..] == records[1..] + [p];
      EncodeRecordsAppend(records[1..], p);
    } else {
      assert EncodeRecords([p]) == EncodeRecord(p) + EncodeRecords([]);
    }
  }

  // ---------------------------------------------------------------------------
  // The CSV branch of `PathIterator.__init__`
  // ---------------------------------------------------------------------------

  /** The header test: at least two fields, the first two equal to the labels
      once stripped and lower-cased. */
  predicate IsHeaderRow(row: seq<string>) {
    |row| >= 2 && Lower(Strip(row[0])) == Header.abs && Lower(Strip(row[1])) == Header.rel
  }

  /** Every row with at least two fields, cut to its first two; shorter rows
      are dropped. */
  function Records(rows: seq<seq<string>>): (r: seq<Pair>)
    ensures |r| <= |rows|
  {
    if rows == [] then []
    else
      var row := rows[|rows| - 1];
      Records(rows[..|rows| - 1]) + (if |row| >= 2 then [Pair(row[0], row[1])] else [])
  }

  /** The items read from the rows of a manifest: the first row is skipped when
      it is a header, and only the first row. */
  function ReadItems(rows: seq<seq<string>>): seq<Pair> {
    if |rows| > 0 && IsHeaderRow(rows[0]) then Records(rows[1..]) else Records(rows)
  }

  /** The reading loop with its `first` flag. */
  method LoadRows(rows: seq<seq<string>>) returns (items: seq<Pair>)
    ensures items == ReadItems(rows)
  {
    items := [];
    var first := true;
    var i := 0;
    while i < |rows|
      invariant 0 <= i <= |rows|
      invariant first <==> i == 0
      invariant items == ReadItems(rows[..i])
    {
      var row := rows[i];
      if first && IsHeaderRow(row) {
        first := false;
        HeaderAloneReadsNothing(rows);
        i := i + 1;
        continue;
      }
      first := false;
      if |row| >= 2 {
        items := items + [Pair(row[0], row[1])];
      }
      ReadItemsStep(rows, i);
      i := i + 1;
    }
    assert rows[..i] == rows;
  }

  lemma HeaderAloneReadsNothing(rows: seq<seq<string>>)
    requires |rows| > 0 && IsHeaderRow(rows[0])
    ensures ReadItems(rows[..1]) == []
  {
    assert rows[..1][1..] == [];
  }

  lemma ReadItemsStep(rows: seq<seq<string>>, i: nat)
    requires i < |rows|
    requires i == 0 ==> !IsHeaderRow(rows[0])
    ensures var row := rows[i];
      ReadItems(rows[..i + 1]) == ReadItems(rows[..i]) + (if |row| >= 2 then [Pair(row[0], row[1])] else [])
  {
    assert rows[..i + 1] == rows[..i] + [rows[i]];
    RecordsSnoc(rows[..i], rows[i], i == 0);
  }

  lemma RecordsSnoc(rows: seq<seq<string>>, row: seq<string>, noRows: bool)
    requires noRows <==> rows == []
    requires noRows ==> !IsHeaderRow(row)
    ensures ReadItems(rows + [row]) == ReadItems(rows) + (if |row| >= 2 then [Pair(row[0], row[1])] else [])
  {
    var all := rows + [row];
    if rows == [] {
      assert all == [] + [row];
      RecordsAppend([], row);
    } else if IsHeaderRow(rows[0]) {
      assert all[0] == rows[0];
      assert all[1..] == rows[1..] + [row];
      RecordsAppend(rows[1..], row);
    } else {
      assert all[0] == rows[0];
      RecordsAppend(rows, row);
    }
  }

  lemma RecordsAppend(rows: seq<seq<string>>, row: seq<string>)
    ensures Records(rows + [row]) == Records(rows) + (if |row| >= 2 then [Pair(row[0], row[1])] else [])
  {
    var all := rows + [row];
    assert all[..|all| - 1] == rows;
  }

  /** A row that looks like the header is data anywhere but first. */
  lemma LaterHeaderIsData(rows: seq<seq<string>>, row: seq<string>)
    requires rows != [] && |row| >= 2
    ensures ReadItems(rows + [row]) == ReadItems(rows) + [Pair(row[0], row[1])]
  {
    RecordsSnoc(rows, row, false);
  }

  /** A text that neither starts nor ends with whitespace is its own strip. */
  lemma StripUnpadded(s: string)
    requires s != [] && !IsSpace(s[0]) && !IsSpace(s[|s| - 1])
    ensures Strip(s) == s
  {
    assert StripLeft(s) == s;
  }

  lemma AbsLabelIsStripped()
    ensures Strip(Header.abs) == Header.abs
  {
    var a := Header.abs;
    StripUnpadded(a);
  }

  lemma RelLabelIsStripped()
    ensures Strip(Header.rel) == Header.rel
  {
    var b := Header.rel;
    StripUnpadded(b);
  }

  lemma AbsLabelIsLowerCase()
    ensures Lower(Header.abs) == Header.abs
  {
  }

  lemma RelLabelIsLowerCase()
    ensures Lower(Header.rel) == Header.rel
  {
  }

  /** The labels `write_csv` writes pass the header test. */
  lemma HeaderIsHeader()
    ensures IsHeaderRow([Header.abs, Header.rel])
  {
    AbsLabelIsStripped();
    AbsLabelIsLowerCase();
    RelLabelIsStripped();
    RelLabelIsLowerCase();
  }

  lemma {:induction false} FieldRowsSnoc(records: seq<Pair>, p: Pair)
    ensures FieldRows(records + [p]) == FieldRows(records) + [[p.abs, p.rel]]
  {
    if records != [] {
      assert (records + [p])[1..] == records[1..] + [p];
      FieldRowsSnoc(records[1..], p);
    } else {
      assert FieldRows([p]) == [[p.abs, p.rel]] + FieldRows([]);
    }
  }

  lemma {:induction false} RecordsOfPairs(records: seq<Pair>)
    ensures Records(FieldRows(records)) == records
  {
    if records != [] {
      var shorter, p := records[..|records| - 1], records[|records| - 1];
      assert records == shorter + [p];
      FieldRowsSnoc(shorter, p);
      var rows := FieldRows(records);
      assert rows[..|rows| - 1] == FieldRows(shorter);
      RecordsOfPairs(shorter);
    }
  }

  lemma HeaderRowSkipped(row: seq<string>, rest: seq<seq<string>>)
    requires IsHeaderRow(row)
    ensures ReadItems([row] + rest) == Records(rest)
  {
    assert ([row] + rest)[1..] == rest;
  }

  lemma DecodeHeadedRecords(h: Pair, pairs: seq<Pair>)
    requires Clean(h.abs) && Clean(h.rel)
    requires forall k :: 0 <= k < |pairs| ==> Clean(pairs[k].abs) && Clean(pairs[k].rel)
    ensures DecodeRows(EncodeRecords([h] + pairs)) == [[h.abs, h.rel]] + FieldRows(pairs)
  {
    var records := [h] + pairs;
    assert forall k :: 0 <= k < |records| ==> Clean(records[k].abs) && Clean(records[k].rel) by {
      forall k | 0 <= k < |records| ensures Clean(records[k].abs) && Clean(records[k].rel) {
        if k > 0 { assert records[k] == pairs[k - 1]; }
      }
    }
    DecodeEncodedRecords(records);
    assert records[1..] == pairs;
  }

  lemma AbsLabelIsClean()
    ensures Clean(Header.abs)
  {
  }

  lemma RelLabelIsClean()
    ensures Clean(Header.rel)
  {
  }

  lemma HeaderIsClean()
    ensures Clean(Header.abs) && Clean(Header.rel)
  {
    AbsLabelIsClean();
    RelLabelIsClean();
  }

  /** The written header row is skipped when read back. */
  lemma HeaderSkipped(rest: seq<seq<string>>)
    ensures ReadItems([[Header.abs, Header.rel]] + rest) == Records(rest)
  {
    HeaderIsHeader();
    HeaderRowSkipped([Header.abs, Header.rel], rest);
  }

  /** The manifest round trip: reading back what `write_csv` wrote for clean
      pairs gives those pairs, in order. */
  lemma ManifestRoundTrip(pairs: seq<Pair>)
    requires forall k :: 0 <= k < |pairs| ==> Clean(pairs[k].abs) && Clean(pairs[k].rel)
    ensures ReadItems(DecodeRows(EncodeRecords([Header] + pairs))) == pairs
  {
    HeaderIsClean();
    DecodeHeadedRecords(Header, pairs);
    HeaderSkipped(FieldRows(pairs));
    RecordsOfPairs(pairs);
  }

  /** Reading back what `write_csv` wrote for rows it accepts, with clean first
      two fields, gives the first two fields of every row. */
  lemma WriteThenRead(rows: seq<InRow>)
    requires AllWritable(rows)
    requires forall j :: 0 <= j < |rows| ==> Clean(rows[j].fields[0]) && Clean(rows[j].fields[1])
    ensures FirstBadRow(rows) == |rows|
    ensures ReadItems(DecodeRows(EncodeRecords([Header] + FirstTwo(rows)))) == FirstTwo(rows)
  {
    var k := FirstBadRow(rows);
    if k < |rows| {
      assert false;
    } else {
      var pairs := FirstTwo(rows);
      ManifestRoundTrip(pairs);
    }
  }
}
