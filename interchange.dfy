/** The rows both table-producing commands build, and the four-key objects
    the run command prints in machine-readable mode and the parallelize
    command reads back from each child process. */
module Interchange {

  datatype Option<+T> = None | Some(value: T)

  /** One table cell, or one JSON value. `Seconds(v)` stands for the text
      `number_format(v, 3).' seconds'` and `Percent(v)` for
      `number_format(v, 3).' %'`; the digits themselves are not modelled. */
  datatype Cell = Null | Text(text: string) | Seconds(seconds: real) | Percent(percent: real)

  /** A table row: four cells, or a TableSeparator. */
  datatype Row = Data(fileName: Cell, testName: Cell, duration: Cell, percentTotal: Cell) | Separator

  /** A decoded JSON object: an associative array with string keys. */
  type Object = map<string, Cell>

  const FileNameKey: string := "file_name"
  const TestNameKey: string := "test_name"
  const DurationKey: string := "duration"
  const PercentTotalKey: string := "percent_total"

  /** The rows of `rows` that are not separators, in order. */
  function DataRows(rows: seq<Row>): (r: seq<Row>)
    ensures |r| <= |rows|
    ensures forall k :: 0 <= k < |r| ==> r[k].Data?
  {
    if rows == [] then []
    else if rows[|rows| - 1].Separator? then DataRows(rows[..|rows| - 1])
    else DataRows(rows[..|rows| - 1]) + [rows[|rows| - 1]]
  }

  lemma {:induction false} DataRowsAppend(a: seq<Row>, b: seq<Row>)
    ensures DataRows(a + b) == DataRows(a) + DataRows(b)
  {
    if b != [] {
      assert (a + b)[..|a + b| - 1] == a + b[..|b| - 1];
      DataRowsAppend(a, b[..|b| - 1]);
    } else {
      assert a + b == a;
    }
  }

  function CountSeparators(rows: seq<Row>): (n: nat)
    ensures n <= |rows|
  {
    if rows == [] then 0
    else CountSeparators(rows[..|rows| - 1]) + (if rows[|rows| - 1].Separator? then 1 else 0)
  }

  lemma {:induction false} CountSeparatorsAppend(a: seq<Row>, b: seq<Row>)
    ensures CountSeparators(a + b) == CountSeparators(a) + CountSeparators(b)
  {
    if b != [] {
      assert (a + b)[..|a + b| - 1] == a + b[..|b| - 1];
      CountSeparatorsAppend(a, b[..|b| - 1]);
    } else {
      assert a + b == a;
    }
  }

  /** Every row is either a data row or a separator. */
  lemma {:induction false} RowsSplit(rows: seq<Row>)
    ensures |DataRows(rows)| + CountSeparators(rows) == |rows|
  {
    if rows != [] {
      RowsSplit(rows[..|rows| - 1]);
    }
  }

  /** The run command's second `array_map` closure: a separator becomes
      `null`, any other row an object with exactly the four keys. */
  function Encode(row: Row): (r: Option<Object>)
    ensures r.None? <==> row.Separator?
    ensures r.Some? ==> r.value.Keys == {FileNameKey, TestNameKey, DurationKey, PercentTotalKey}
  {
    match row
    case Separator => None
    case Data(f, t, d, p) =>
      Some(map[FileNameKey := f, TestNameKey := t, DurationKey := d, PercentTotalKey := p])
  }

  /** `isset($o[$key])`: the key is present and its value is not null. */
  predicate IsSet(o: Object, key: string) {
    key in o && o[key] != Null
  }

  /** The parallelize command's test on one decoded line: `file_name`,
      `duration` and `percent_total` must be set; `test_name` is not
      checked. A line that is not an object (None) never passes. */
  predicate IsComplete(line: Option<Object>) {
    line.Some? && IsSet(line.value, FileNameKey) && IsSet(line.value, DurationKey)
    && IsSet(line.value, PercentTotalKey)
  }

  /** The row the parallelize command builds from a complete line; a
      missing `test_name` reads as null. */
  function Decode(line: Option<Object>): (r: Option<Row>)
    ensures r.Some? <==> IsComplete(line)
    ensures r.Some? ==> r.value.Data? && r.value.fileName != Null && r.value.duration != Null
                        && r.value.percentTotal != Null
  {
    if !IsComplete(line) then None
    else
      var o := line.value;
      Some(Data(o[FileNameKey], if TestNameKey in o then o[TestNameKey] else Null, o[DurationKey],
                o[PercentTotalKey]))
  }

  /** A data row whose file name, duration and percentage are all set. */
  predicate Complete(row: Row) {
    row.Data? && row.fileName != Null && row.duration != Null && row.percentTotal != Null
  }

  /** A data row whose file name, duration and percentage are not null comes
      back unchanged through encoding and decoding; a row with one of them
      null, and every separator, is refused. */
  lemma DecodeEncode(row: Row)
    ensures Complete(row) ==> Decode(Encode(row)) == Some(row)
    ensures !Complete(row) ==> Decode(Encode(row)) == None
  {
    if row.Data? {
      var o := Encode(row).value;
      assert o[FileNameKey] == row.fileName;
      assert o[TestNameKey] == row.testName;
      assert o[DurationKey] == row.duration;
      assert o[PercentTotalKey] == row.percentTotal;
    }
  }
}
