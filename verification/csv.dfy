/** What `csv.DictWriter` puts in a file: a header line, then one line per
    row holding the row's values in header order. Quoting and bytes are not
    modelled. */
module Csv {
  import opened Wrappers
  import opened Json

  /** A row as the writer sees it: (column, value) pairs in the order the writer's fieldnames give. */
  type Row = seq<(string, Json)>

  datatype CsvFile = CsvFile(header: seq<string>, lines: seq<seq<Json>>)

  /** Outcome of writing rows one at a time: what reached the file, and whether every row was written. */
  datatype CsvWrite = CsvWrite(file: CsvFile, completed: bool)

  /** `row` has exactly the columns of `header`, in the same order. */
  predicate HasHeader(row: Row, header: seq<string>)
  {
    |row| == |header| && forall i :: 0 <= i < |row| ==> row[i].0 == header[i]
  }

  /** The values `writerow` emits for a row. */
  function Line(row: Row): seq<Json>
  {
    seq(|row|, i requires 0 <= i < |row| => row[i].1)
  }

  /** The line written for a row laid out in `header` order holds, under
      column `header[j]`, that row's value for the column. */
  lemma LineUnderHeader(row: Row, header: seq<string>, j: int)
    requires HasHeader(row, header) && 0 <= j < |header|
    ensures |Line(row)| == |header| && row[j].0 == header[j] && Line(row)[j] == row[j].1
  {
  }

  /** `writerow` called on each row in turn, under `header`: the lines of the rows
      before the first one that raises, and whether every row was written. */
  function WriteRows(header: seq<string>, rows: seq<Result<Row>>): (w: CsvWrite)
    ensures w.file.header == header
    ensures |w.file.lines| <= |rows|
    ensures forall i :: 0 <= i < |w.file.lines| ==> rows[i].Ok? && w.file.lines[i] == Line(rows[i].value)
    ensures w.completed <==> forall i :: 0 <= i < |rows| ==> rows[i].Ok?
    ensures w.completed ==> |w.file.lines| == |rows|
    ensures !w.completed ==> rows[|w.file.lines|].Err?
  {
    if rows == [] then CsvWrite(CsvFile(header, []), true)
    else
      match rows[0]
      case Err => CsvWrite(CsvFile(header, []), false)
      case Ok(row) =>
        var rest := WriteRows(header, rows[1..]);
        assert forall i :: 1 <= i < |rows| ==> rows[i] == rows[1..][i - 1];
        CsvWrite(CsvFile(header, [Line(row)] + rest.file.lines), rest.completed)
  }

  /** Arithmetic step shared by the line-count lemmas: `n` pages of `size` rows
      are `n - 1` such pages and one more. */
  lemma PagesStep(n: nat, size: nat)
    requires n > 0
    ensures (n - 1) * size + size == n * size
  {
  }
}
