/** The orientation rule of lab4/processing.py over a data frame of manifest
    rows: a column classifying each image by its height and width, a filter on
    that column and a sort by a column.  Image decoding is an oracle that
    gives the height and width of a readable file. */
module Orientation {
  import opened Wrappers

  // ---------------------------------------------------------------------------
  // The classification
  // ---------------------------------------------------------------------------

  datatype Orientation = Horizontal | Vertical | Square

  /** The text the column holds for each orientation. */
  function Name(o: Orientation): string {
    match o
    case Horizontal => "Horizontal"
    case Vertical => "Vertical"
    case Square => "Square"
  }

  /** Taller than wide is vertical, wider than tall is horizontal, and equal
      sides are square. */
  function Classify(h: nat, w: nat): Orientation {
    if h > w then Vertical else if h < w then Horizontal else Square
  }

  lemma ClassifyIff(h: nat, w: nat)
    ensures Classify(h, w) == Vertical <==> h > w
    ensures Classify(h, w) == Horizontal <==> h < w
    ensures Classify(h, w) == Square <==> h == w
  {
  }

  lemma NamesDiffer()
    ensures Name(Horizontal)[0] == 'H' && Name(Vertical)[0] == 'V' && Name(Square)[0] == 'S'
  {
  }

  /** Different orientations have different texts. */
  lemma NameInjective(a: Orientation, b: Orientation)
    ensures Name(a) == Name(b) <==> a == b
  {
    NamesDiffer();
    if Name(a) == Name(b) {
      assert Name(a)[0] == Name(b)[0];
    } else {
    }
  }

  // ---------------------------------------------------------------------------
  // Data frames
  // ---------------------------------------------------------------------------

  /** A cell: a text, or a missing value. */
  datatype Cell = Text(s: string) | Null

  /** A row maps each column name to its cell. */
  type Row = map<string, Cell>

  /** A data frame: its column names, in order, and its rows. */
  datatype Frame = Frame(columns: seq<string>, rows: seq<Row>)

  /** Every row has a cell for every column and for nothing else. */
  predicate WellFormed(df: Frame) {
    forall i :: 0 <= i < |df.rows| ==>
      (forall c :: c in df.columns ==> c in df.rows[i]) && (forall c :: c in df.rows[i] ==> c in df.columns)
  }

  /** The height and width of the image a path names, or `None` when the file
      cannot be opened or decoded. */
  type Dims = string -> Option<(nat, nat)>

  /** `str(p)` for a cell of the path column; a missing value prints as `nan`. */
  function PathText(c: Cell): string {
    match c
    case Text(s) => s
    case Null => "nan"
  }

  /** The entry `add_orientation_column` appends for one path. */
  function OrientationCell(c: Cell, dims: Dims): Cell {
    match dims(PathText(c))
    case None => Null
    case Some(hw) => Text(Name(Classify(hw.0, hw.1)))
  }

  /** The new column: one entry per row, in row order. */
  function Orientations(rows: seq<Row>, col: string, dims: Dims): (values: seq<Cell>)
    requires forall i :: 0 <= i < |rows| ==> col in rows[i]
    ensures |values| == |rows|
  {
    if rows == [] then []
    else
      var n := |rows| - 1;
      Orientations(rows[..n], col, dims) + [OrientationCell(rows[n][col], dims)]
  }

  /** The entry of each row is missing exactly when its file did not open, and
      is otherwise the text of its classification. */
  lemma {:induction false} OrientationsPerRow(rows: seq<Row>, col: string, dims: Dims)
    requires forall i :: 0 <= i < |rows| ==> col in rows[i]
    ensures var values := Orientations(rows, col, dims);
      |values| == |rows| &&
      forall i :: 0 <= i < |rows| ==>
        (values[i] == Null <==> dims(PathText(rows[i][col])).None?) &&
        (dims(PathText(rows[i][col])).Some? ==>
          var hw := dims(PathText(rows[i][col])).value;
          values[i] == Text(Name(Classify(hw.0, hw.1))))
  {
    if rows == [] {
    } else {
      var n := |rows| - 1;
      var shorter := rows[..n];
      OrientationsPerRow(shorter, col, dims);
      assert forall i :: 0 <= i < n ==> shorter[i] == rows[i];
    }
  }

  /** `df_new[new_col] = values` on a copy: the column is replaced if it
      exists and appended otherwise. */
  function WithColumn(df: Frame, col: string, values: seq<Cell>): Frame
    requires |values| == |df.rows|
  {
    Frame(if col in df.columns then df.columns else df.columns + [col],
          seq(|df.rows|, i requires 0 <= i < |df.rows| => df.rows[i][col := values[i]]))
  }

  /** The copy has the same rows in the same order, each with the new entry
      under `col` and every other cell as before; the old columns keep their
      order and `col` is among them afterwards. */
  lemma WithColumnKeepsRest(df: Frame, col: string, values: seq<Cell>)
    requires WellFormed(df) && |values| == |df.rows|
    ensures var r := WithColumn(df, col, values);
      WellFormed(r) &&
      |r.rows| == |df.rows| &&
      col in r.columns &&
      |df.columns| <= |r.columns| && r.columns[..|df.columns|] == df.columns &&
      forall i :: 0 <= i < |df.rows| ==>
        r.rows[i][col] == values[i] &&
        forall c :: c != col ==>
          (c in r.rows[i] <==> c in df.rows[i]) && (c in df.rows[i] ==> r.rows[i][c] == df.rows[i][c])
  {
  }

  /** One more row adds its entry at the end. */
  lemma OrientationsStep(rows: seq<Row>, col: string, dims: Dims, i: nat)
    requires forall j :: 0 <= j < |rows| ==> col in rows[j]
    requires i < |rows|
    ensures Orientations(rows[..i + 1], col, dims) == Orientations(rows[..i], col, dims) + [OrientationCell(rows[i][col], dims)]
  {
    assert rows[..i + 1][..i] == rows[..i];
  }

  /** The loop of `add_orientation_column`: read the path column (a `KeyError`
      if there is none), classify each file, then attach the column to a copy. */
  method AddOrientationColumn(df: Frame, absCol: string, newCol: string, dims: Dims) returns (r: Result<Frame>)
    requires WellFormed(df)
    ensures absCol !in df.columns ==> r == Err(MissingColumn)
    ensures absCol in df.columns ==> r == Ok(WithColumn(df, newCol, Orientations(df.rows, absCol, dims)))
  {
    if absCol !in df.columns {
      return Err(MissingColumn);
    }
    assert forall j :: 0 <= j < |df.rows| ==> absCol in df.rows[j];
    var values: seq<Cell> := [];
    var i := 0;
    while i < |df.rows|
      invariant 0 <= i <= |df.rows|
      invariant values == Orientations(df.rows[..i], absCol, dims)
    {
      var cell := df.rows[i][absCol];
      var value: Cell;
      match dims(PathText(cell)) {
        case None =>
          value := Null;
        case Some(hw) =>
          var h, w := hw.0, hw.1;
          value := Text(Name(Classify(h, w)));
      }
      OrientationsStep(df.rows, absCol, dims, i);
      values := values + [value];
      i := i + 1;
    }
    assert df.rows[..i] == df.rows;
    return Ok(WithColumn(df, newCol, values));
  }

  // ---------------------------------------------------------------------------
  // `filter_by_orientation`
  // ---------------------------------------------------------------------------

  /** Whether a row is kept: its cell under `col` equals the orientation's
      text (a missing value equals nothing). */
  predicate Matches(row: Row, col: string, o: Orientation) {
    col in row && row[col] == Text(Name(o))
  }

  /** The rows whose cell under `col` equals the orientation's text, in their
      original order. */
  function KeepMatching(rows: seq<Row>, col: string, o: Orientation): (kept: seq<Row>)
    ensures |kept| <= |rows|
  {
    if rows == [] then []
    else
      var n := |rows| - 1;
      KeepMatching(rows[..n], col, o) + (if Matches(rows[n], col, o) then [rows[n]] else [])
  }

  /** `df[df[col] == orientation].copy()`: a `KeyError` without the column, and
      otherwise the same columns with only the matching rows. */
  function FilterByOrientation(df: Frame, o: Orientation, col: string): Result<Frame> {
    if col !in df.columns then Err(MissingColumn)
    else Ok(Frame(df.columns, KeepMatching(df.rows, col, o)))
  }

  /** Each matching row is kept as often as it occurs, and no other row is
      kept. */
  lemma {:induction false} KeepMatchingExactly(rows: seq<Row>, col: string, o: Orientation)
    ensures var kept := KeepMatching(rows, col, o);
      forall row :: multiset(kept)[row] == if Matches(row, col, o) then multiset(rows)[row] else 0
  {
    if rows == [] {
    } else {
      var n := |rows| - 1;
      var shorter, last := rows[..n], rows[n];
      KeepMatchingExactly(shorter, col, o);
      assert rows == shorter + [last];
      var kept := KeepMatching(rows, col, o);
      var before := KeepMatching(shorter, col, o);
      forall row
        ensures multiset(kept)[row] == if Matches(row, col, o) then multiset(rows)[row] else 0
      {
        if Matches(last, col, o) {
          assert multiset(kept) == multiset(before) + multiset{last};
        } else {
          assert kept == before;
        }
      }
    }
  }

  /** A row is kept exactly when it is in the input and matches. */
  lemma KeepMatchingMembers(rows: seq<Row>, col: string, o: Orientation)
    ensures forall row :: row in KeepMatching(rows, col, o) <==> row in rows && Matches(row, col, o)
  {
    var kept := KeepMatching(rows, col, o);
    KeepMatchingExactly(rows, col, o);
    forall row ensures row in kept <==> row in rows && Matches(row, col, o) {
      assert row in kept <==> row in multiset(kept);
      assert row in rows <==> row in multiset(rows);
    }
  }

  /** Filtering keeps the relative order: filtering a concatenation is
      concatenating the filtered parts. */
  lemma {:induction false} KeepMatchingAppend(a: seq<Row>, b: seq<Row>, col: string, o: Orientation)
    ensures KeepMatching(a + b, col, o) == KeepMatching(a, col, o) + KeepMatching(b, col, o)
  {
    if b == [] {
      assert a + b == a;
    } else {
      var n := |b| - 1;
      assert (a + b)[..|a + b| - 1] == a + b[..n];
      KeepMatchingAppend(a, b[..n], col, o);
    }
  }

  /** The filter is idempotent: filtering the result again changes nothing. */
  lemma {:induction false} KeepMatchingIdempotent(rows: seq<Row>, col: string, o: Orientation)
    ensures KeepMatching(KeepMatching(rows, col, o), col, o) == KeepMatching(rows, col, o)
  {
    if rows == [] {
    } else {
      var n := |rows| - 1;
      var shorter := rows[..n];
      var before := KeepMatching(shorter, col, o);
      KeepMatchingIdempotent(shorter, col, o);
      var tail := if Matches(rows[n], col, o) then [rows[n]] else [];
      KeepMatchingAppend(before, tail, col, o);
      if tail == [] {
        assert before + tail == before;
      } else {
        assert tail[..0] == [];
      }
    }
  }

  /** The filtered frame has the columns of the input and exactly its matching
      rows, each as often as before, in order; without the column it is a
      `KeyError`. */
  lemma FilterByOrientationSpec(df: Frame, o: Orientation, col: string)
    requires WellFormed(df)
    ensures FilterByOrientation(df, o, col).Err? <==> col !in df.columns
    ensures FilterByOrientation(df, o, col).Err? ==> FilterByOrientation(df, o, col).error == MissingColumn
    ensures FilterByOrientation(df, o, col).Ok? ==>
      var r := FilterByOrientation(df, o, col).value;
      r.columns == df.columns && WellFormed(r) &&
      (forall row :: row in r.rows <==> row in df.rows && Matches(row, col, o)) &&
      (forall row :: multiset(r.rows)[row] == if Matches(row, col, o) then multiset(df.rows)[row] else 0)
  {
    if col in df.columns {
      KeepMatchingMembers(df.rows, col, o);
      KeepMatchingExactly(df.rows, col, o);
      var kept := KeepMatching(df.rows, col, o);
      forall i | 0 <= i < |kept|
        ensures (forall c :: c in df.columns ==> c in kept[i]) && (forall c :: c in kept[i] ==> c in df.columns)
      {
        assert kept[i] in kept;
        var j :| 0 <= j < |df.rows| && df.rows[j] == kept[i];
      }
    } else {
    }
  }

  /** Classifying and then filtering keeps exactly the rows whose file opened
      with that orientation. */
  lemma FilterAfterClassify(df: Frame, absCol: string, newCol: string, dims: Dims, o: Orientation, i: nat)
    requires WellFormed(df) && absCol in df.columns
    requires i < |df.rows|
    ensures var values := Orientations(df.rows, absCol, dims);
      var r := WithColumn(df, newCol, values);
      newCol in r.rows[i] &&
      (Matches(r.rows[i], newCol, o) <==>
        dims(PathText(df.rows[i][absCol])).Some? &&
        var hw := dims(PathText(df.rows[i][absCol])).value;
        Classify(hw.0, hw.1) == o)
  {
    assert forall j :: 0 <= j < |df.rows| ==> absCol in df.rows[j];
    var values := Orientations(df.rows, absCol, dims);
    OrientationsPerRow(df.rows, absCol, dims);
    WithColumnKeepsRest(df, newCol, values);
    var hw := dims(PathText(df.rows[i][absCol]));
    if hw.Some? {
      NameInjective(Classify(hw.value.0, hw.value.1), o);
    } else {
    }
  }

  // ---------------------------------------------------------------------------
  // `sort_by`
  // ---------------------------------------------------------------------------

  /** Python's string order: code point by code point, a proper prefix first. */
  predicate TextLe(a: string, b: string) {
    a == [] || (b != [] && (a[0] < b[0] || (a[0] == b[0] && TextLe(a[1..], b[1..]))))
  }

  lemma {:induction false} TextLeTotal(a: string, b: string)
    ensures TextLe(a, b) || TextLe(b, a)
  {
    if a == [] || b == [] {
    } else {
      TextLeTotal(a[1..], b[1..]);
    }
  }

  lemma {:induction false} TextLeTransitive(a: string, b: string, c: string)
    requires TextLe(a, b) && TextLe(b, c)
    ensures TextLe(a, c)
  {
    if a == [] || b == [] || c == [] {
    } else if a[0] == b[0] && b[0] == c[0] {
      TextLeTransitive(a[1..], b[1..], c[1..]);
    } else {
    }
  }

  /** The order of `sort_values`: texts by Python's string order, missing
      values last. */
  predicate CellLe(x: Cell, y: Cell) {
    match (x, y)
    case (Text(a), Text(b)) => TextLe(a, b)
    case (Text(_), Null) => true
    case (Null, Text(_)) => false
    case (Null, Null) => true
  }

  lemma CellLeTotal(x: Cell, y: Cell)
    ensures CellLe(x, y) || CellLe(y, x)
  {
    if x.Text? && y.Text? {
      TextLeTotal(x.s, y.s);
    } else {
    }
  }

  lemma CellLeTransitive(x: Cell, y: Cell, z: Cell)
    requires CellLe(x, y) && CellLe(y, z)
    ensures CellLe(x, z)
  {
    if x.Text? && y.Text? && z.Text? {
      TextLeTransitive(x.s, y.s, z.s);
    } else {
    }
  }

  /** The orientation texts sort as Horizontal, Square, Vertical, and before
      missing values. */
  lemma OrientationOrder()
    ensures CellLe(Text(Name(Horizontal)), Text(Name(Square)))
    ensures CellLe(Text(Name(Square)), Text(Name(Vertical)))
    ensures !CellLe(Text(Name(Square)), Text(Name(Horizontal)))
    ensures !CellLe(Text(Name(Vertical)), Text(Name(Square)))
    ensures CellLe(Text(Name(Vertical)), Null) && !CellLe(Null, Text(Name(Vertical)))
  {
    NamesDiffer();
  }

  /** Non-decreasing under `col`, for every pair of positions. */
  predicate SortedBy(rows: seq<Row>, col: string)
    requires forall i :: 0 <= i < |rows| ==> col in rows[i]
  {
    forall i, j :: 0 <= i < j < |rows| ==> CellLe(rows[i][col], rows[j][col])
  }

  /** Insert a row into rows sorted under `col`, after the rows not above it. */
  function Insert(row: Row, rows: seq<Row>, col: string): (r: seq<Row>)
    requires col in row && forall i :: 0 <= i < |rows| ==> col in rows[i]
    ensures |r| == |rows| + 1
    ensures forall i :: 0 <= i < |r| ==> col in r[i]
    ensures multiset(r) == multiset(rows) + multiset{row}
  {
    if rows == [] then [row]
    else if CellLe(row[col], rows[0][col]) then [row] + rows
    else
      assert rows == [rows[0]] + rows[1..];
      [rows[0]] + Insert(row, rows[1..], col)
  }

  /** A row not above any row of a sorted sequence can go in front of it. */
  lemma SortedCons(row: Row, rows: seq<Row>, col: string)
    requires col in row && forall i :: 0 <= i < |rows| ==> col in rows[i]
    requires SortedBy(rows, col)
    requires forall j :: 0 <= j < |rows| ==> CellLe(row[col], rows[j][col])
    ensures SortedBy([row] + rows, col)
  {
    var r := [row] + rows;
    forall i, j | 0 <= i < j < |r| ensures CellLe(r[i][col], r[j][col]) {
      if i == 0 {
        assert r[j] == rows[j - 1];
      } else {
        assert r[i] == rows[i - 1] && r[j] == rows[j - 1];
      }
    }
  }

  /** A lower bound of the row and of every row stays a lower bound after the
      insertion. */
  lemma {:induction false} InsertLowerBound(row: Row, rows: seq<Row>, col: string, lo: Cell)
    requires col in row && forall i :: 0 <= i < |rows| ==> col in rows[i]
    requires CellLe(lo, row[col]) && forall j :: 0 <= j < |rows| ==> CellLe(lo, rows[j][col])
    ensures forall j :: 0 <= j < |Insert(row, rows, col)| ==> CellLe(lo, Insert(row, rows, col)[j][col])
  {
    if rows == [] {
    } else if CellLe(row[col], rows[0][col]) {
      var r := [row] + rows;
      assert forall j :: 1 <= j < |r| ==> r[j] == rows[j - 1];
    } else {
      var rest := rows[1..];
      assert forall j :: 0 <= j < |rest| ==> rest[j] == rows[j + 1];
      InsertLowerBound(row, rest, col, lo);
      var r := [rows[0]] + Insert(row, rest, col);
      assert forall j :: 1 <= j < |r| ==> r[j] == Insert(row, rest, col)[j - 1];
    }
  }

  lemma {:induction false} InsertSorted(row: Row, rows: seq<Row>, col: string)
    requires col in row && forall i :: 0 <= i < |rows| ==> col in rows[i]
    requires SortedBy(rows, col)
    ensures SortedBy(Insert(row, rows, col), col)
  {
    if rows == [] {
    } else if CellLe(row[col], rows[0][col]) {
      forall j | 0 <= j < |rows| ensures CellLe(row[col], rows[j][col]) {
        if j > 0 {
          CellLeTransitive(row[col], rows[0][col], rows[j][col]);
        } else {
        }
      }
      SortedCons(row, rows, col);
    } else {
      var rest := rows[1..];
      assert forall j :: 0 <= j < |rest| ==> rest[j] == rows[j + 1];
      InsertSorted(row, rest, col);
      CellLeTotal(row[col], rows[0][col]);
      InsertLowerBound(row, rest, col, rows[0][col]);
      SortedCons(rows[0], Insert(row, rest, col), col);
    }
  }

  /** Insertion sort under `col`. */
  function SortRows(rows: seq<Row>, col: string): (r: seq<Row>)
    requires forall i :: 0 <= i < |rows| ==> col in rows[i]
    ensures |r| == |rows|
    ensures forall i :: 0 <= i < |r| ==> col in r[i]
    ensures multiset(r) == multiset(rows)
  {
    if rows == [] then []
    else
      var n := |rows| - 1;
      assert rows == rows[..n] + [rows[n]];
      Insert(rows[n], SortRows(rows[..n], col), col)
  }

  lemma {:induction false} SortRowsSorted(rows: seq<Row>, col: string)
    requires forall i :: 0 <= i < |rows| ==> col in rows[i]
    ensures SortedBy(SortRows(rows, col), col)
  {
    if rows == [] {
    } else {
      var n := |rows| - 1;
      var shorter := rows[..n];
      assert forall i :: 0 <= i < n ==> col in shorter[i];
      SortRowsSorted(shorter, col);
      var sorted := SortRows(shorter, col);
      InsertSorted(rows[n], sorted, col);
      assert SortRows(rows, col) == Insert(rows[n], sorted, col);
    }
  }

  /** `df.sort_values(by=col)`: a `KeyError` without the column, and otherwise
      the same columns with the rows reordered under `col`. */
  function SortBy(df: Frame, col: string): Result<Frame>
    requires WellFormed(df)
  {
    if col !in df.columns then Err(MissingColumn)
    else Ok(Frame(df.columns, SortRows(df.rows, col)))
  }

  /** The sorted frame holds the same rows, each as often as before, ordered
      non-decreasingly under `col`; the order among equal cells is not
      promised. */
  lemma SortBySpec(df: Frame, col: string)
    requires WellFormed(df)
    ensures SortBy(df, col).Err? <==> col !in df.columns
    ensures SortBy(df, col).Err? ==> SortBy(df, col).error == MissingColumn
    ensures SortBy(df, col).Ok? ==>
      var r := SortBy(df, col).value;
      r.columns == df.columns && WellFormed(r) &&
      multiset(r.rows) == multiset(df.rows) &&
      (forall i :: 0 <= i < |r.rows| ==> col in r.rows[i]) &&
      SortedBy(r.rows, col)
  {
    if col in df.columns {
      assert forall i :: 0 <= i < |df.rows| ==> col in df.rows[i];
      SortRowsSorted(df.rows, col);
      var sorted := SortRows(df.rows, col);
      forall i | 0 <= i < |sorted|
        ensures (forall c :: c in df.columns ==> c in sorted[i]) && (forall c :: c in sorted[i] ==> c in df.columns)
      {
        assert sorted[i] in multiset(df.rows);
        var j :| 0 <= j < |df.rows| && df.rows[j] == sorted[i];
      }
    } else {
    }
  }
}
