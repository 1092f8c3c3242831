/**
 * The output CSV file as a sequence of lines: the header line of the nine column
 * names, and one record line per appended row. A zero-length file is the empty
 * sequence.
 */
module Csv {
  import opened Wrappers
  import opened Records

  datatype Line = Header(names: seq<string>) | Record(row: Row)

  type CsvFile = seq<Line>

  /** One header line first, record lines after it; or nothing at all. */
  predicate WellFormed(f: CsvFile) {
    f == [] || (f[0] == Header(Columns) && forall i :: 1 <= i < |f| ==> f[i].Record?)
  }

  /** Number of header lines in the file. */
  function HeaderCount(f: CsvFile): nat {
    if |f| == 0 then 0 else HeaderCount(f[..|f| - 1]) + (if f[|f| - 1].Header? then 1 else 0)
  }

  /**
   * The constructor's set-up: a file that does not exist yet is created holding the
   * header line; an existing file, even an empty one, is left as it is.
   */
  function InitCsv(existing: Option<CsvFile>): (f: CsvFile)
    ensures existing.None? ==> WellFormed(f) && HeaderCount(f) == 1 && |f| == 1
    ensures existing.Some? ==> f == existing.value
  {
    match existing
    case None => [Header(Columns)]
    case Some(f) => f
  }

  /**
   * `append_parsed_resume`'s write: the row goes at the end, preceded by the header
   * exactly when the file is zero-length at that moment.
   */
  function AppendRow(f: CsvFile, row: Row): (g: CsvFile)
    ensures |g| == |f| + 1 + (if |f| == 0 then 1 else 0)
    ensures g[..|f|] == f
    ensures g[|g| - 1] == Record(row)
    ensures |f| == 0 ==> g[0] == Header(Columns)
    ensures HeaderCount(g) == HeaderCount(f) + (if |f| == 0 then 1 else 0)
  {
    if |f| == 0 then
      assert [Header(Columns), Record(row)][..1] == [Header(Columns)];
      [Header(Columns), Record(row)]
    else
      assert (f + [Record(row)])[..|f|] == f;
      f + [Record(row)]
  }

  /** Appending keeps the file well formed: one header, at the top, and rows after it. */
  lemma AppendKeepsWellFormed(f: CsvFile, row: Row)
    requires WellFormed(f)
    ensures WellFormed(AppendRow(f, row))
    ensures HeaderCount(AppendRow(f, row)) <= 1
  {
    var g := AppendRow(f, row);
    if |f| > 0 {
      WellFormedHeaderCount(f);
      forall i | 1 <= i < |g| ensures g[i].Record? {
        if i < |f| { assert g[i] == g[..|f|][i] == f[i]; }
      }
    }
  }

  lemma {:induction false} WellFormedHeaderCount(f: CsvFile)
    requires WellFormed(f)
    ensures HeaderCount(f) == (if f == [] then 0 else 1)
    decreases |f|
  {
    if |f| > 1 {
      var p := f[..|f| - 1];
      assert p[0] == f[0];
      assert forall i :: 1 <= i < |p| ==> p[i] == f[i];
      WellFormedHeaderCount(p);
    } else if |f| == 1 {
      assert f[..0] == [];
    }
  }

  /** The record lines of a sequence of rows, in order. */
  function RecordLines(rows: seq<Row>): seq<Line> {
    seq(|rows|, i requires 0 <= i < |rows| => Record(rows[i]))
  }

  /** The file after appending `rows` one by one, in closed form. */
  function AppendedFile(f: CsvFile, rows: seq<Row>): CsvFile {
    f + (if |f| == 0 && |rows| > 0 then [Header(Columns)] else []) + RecordLines(rows)
  }

  /** Appending one more row to the closed form is the closed form with that row. */
  lemma AppendedFileStep(f: CsvFile, rows: seq<Row>, row: Row)
    ensures AppendRow(AppendedFile(f, rows), row) == AppendedFile(f, rows + [row])
  {
    assert RecordLines(rows + [row]) == RecordLines(rows) + [Record(row)];
    if |f| == 0 && |rows| == 0 {
      assert AppendedFile(f, rows) == [];
      assert AppendedFile(f, rows + [row]) == [Header(Columns), Record(row)];
    }
  }
}
