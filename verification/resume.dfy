/**
 * The résumé extractor's per-image parse and its folder loop. The language model's
 * reply and `json.loads` are inputs: the reply arrives as a `Result` (an error stands
 * for any exception while opening the image or calling the model) and the JSON
 * decoder is a function parameter.
 */
module Resume {
  import opened Wrappers
  import opened Text
  import opened Phone
  import opened Fences
  import opened Records
  import opened Csv

  const JsonErrorPrefix := "Failed to parse JSON response: "
  const OtherErrorPrefix := "Error processing resume: "

  /** The result dictionary of `parse_resume_from_image`. */
  datatype ParseResult =
    | Parsed(filename: string, data: Fields)
    | Failed(filename: string, error: string)

  /**
   * The parsed phone number is replaced by its normalised form; a missing number
   * is normalised from the empty text, which adds the key with value "".
   */
  function NormaliseNumber(data: Fields): (r: Fields)
    ensures r.Keys == data.Keys + {"number"}
    ensures forall k :: k in data && k != "number" ==> r[k] == data[k]
    ensures "number" !in data ==> r["number"] == ""
    ensures "number" in data ==> r["number"] == FormatNumber(data["number"])
  {
    data["number" := FormatNumber(Lookup(data, "number", ""))]
  }

  /** Normalising the number twice is normalising it once. */
  lemma NormaliseNumberIdempotent(data: Fields)
    ensures NormaliseNumber(NormaliseNumber(data)) == NormaliseNumber(data)
  {
    FormatNumberIdempotent(Lookup(data, "number", ""));
  }

  /**
   * `parse_resume_from_image` after the model call: strip the fence from the reply,
   * decode it, normalise the number. Every failure becomes a `Failed` result carrying
   * the file name; nothing is raised.
   */
  function ParseResume(filename: string, reply: Result<string>, decode: string -> Result<Fields>): (p: ParseResult)
    ensures p.filename == filename
    ensures p.Parsed? <==> reply.Ok? && decode(StripFence(reply.value)).Ok?
    ensures p.Parsed? ==> p.data == NormaliseNumber(decode(StripFence(reply.value)).value)
    ensures reply.Err? ==> p == Failed(filename, OtherErrorPrefix + reply.error)
    ensures reply.Ok? && decode(StripFence(reply.value)).Err? ==>
      p == Failed(filename, JsonErrorPrefix + decode(StripFence(reply.value)).error)
  {
    match reply
    case Err(e) => Failed(filename, OtherErrorPrefix + e)
    case Ok(text) =>
      match decode(StripFence(text))
      case Err(e) => Failed(filename, JsonErrorPrefix + e)
      case Ok(data) => Parsed(filename, NormaliseNumber(data))
  }

  /** A successful parse stores a number that `format_number` leaves unchanged. */
  lemma ParsedNumberIsNormal(filename: string, reply: Result<string>, decode: string -> Result<Fields>)
    requires ParseResume(filename, reply, decode).Parsed?
    ensures var d := ParseResume(filename, reply, decode).data;
      "number" in d && FormatNumber(d["number"]) == d["number"]
  {
    var data := decode(StripFence(reply.value)).value;
    FormatNumberIdempotent(Lookup(data, "number", ""));
  }

  // ---------------------------------------------------------------------------
  // process_resume_folder
  // ---------------------------------------------------------------------------

  /** One image of the folder: its path and the outcome of parsing it. */
  datatype Item = Item(source: string, result: ParseResult)

  datatype ProcessedFile = ProcessedFile(source: string, output: string, name: string)

  datatype FailedFile = FailedFile(source: string, error: string)

  /** The `results` dictionary. */
  datatype Summary = Summary(
    total: nat,
    successful: nat,
    failed: nat,
    processedFiles: seq<ProcessedFile>,
    failedFiles: seq<FailedFile>)

  /** The CSV row one item contributes: its completed row on success, none on failure. */
  function RowsOf(item: Item): seq<Row> {
    match item.result
    case Parsed(fn, data) => [CompleteRow(fn, data)]
    case Failed(_, _) => []
  }

  /** The `processed_files` entry one item contributes. */
  function EntriesOf(csvPath: string, item: Item): seq<ProcessedFile> {
    match item.result
    case Parsed(_, data) => [ProcessedFile(item.source, csvPath, Lookup(data, "name", "Unknown"))]
    case Failed(_, _) => []
  }

  /** The `failed_files` entry one item contributes. */
  function FailuresOf(item: Item): seq<FailedFile> {
    match item.result
    case Parsed(_, _) => []
    case Failed(_, err) => [FailedFile(item.source, err)]
  }

  /** The CSV rows the items contribute: one per successful parse, in input order. */
  function SuccessRows(items: seq<Item>): seq<Row> {
    if |items| == 0 then []
    else SuccessRows(items[..|items| - 1]) + RowsOf(items[|items| - 1])
  }

  /** The `processed_files` entries, one per successful parse, in input order. */
  function ProcessedEntries(csvPath: string, items: seq<Item>): seq<ProcessedFile> {
    if |items| == 0 then []
    else ProcessedEntries(csvPath, items[..|items| - 1]) + EntriesOf(csvPath, items[|items| - 1])
  }

  /** The `failed_files` entries, one per failed parse, in input order. */
  function FailureEntries(items: seq<Item>): seq<FailedFile> {
    if |items| == 0 then []
    else FailureEntries(items[..|items| - 1]) + FailuresOf(items[|items| - 1])
  }

  /**
   * The folder loop: every item is handled in order; a success appends its row to
   * the file (with the header first if the file is zero-length) and is listed in
   * `processedFiles`, a failure is listed in `failedFiles` and writes nothing.
   */
  method ProcessFolder(csvPath: string, file: CsvFile, items: seq<Item>) returns (s: Summary, out: CsvFile)
    ensures s.total == |items|
    ensures s.successful + s.failed == s.total
    ensures |s.processedFiles| == s.successful && |s.failedFiles| == s.failed
    ensures s.successful == |SuccessRows(items)|
    ensures s.processedFiles == ProcessedEntries(csvPath, items)
    ensures s.failedFiles == FailureEntries(items)
    ensures out == file + (if |file| == 0 && s.successful > 0 then [Header(Columns)] else [])
                   + RecordLines(SuccessRows(items))
  {
    s := Summary(|items|, 0, 0, [], []);
    out := file;
    var i := 0;
    while i < |items|
      invariant 0 <= i <= |items|
      invariant s == SummaryOf(|items|, csvPath, items[..i])
      invariant out == AppendedFile(file, SuccessRows(items[..i]))
    {
      HandleItemStep(csvPath, file, items, i);
      var next := HandleItem(csvPath, s, out, items[i]);
      s, out := next.0, next.1;
      i := i + 1;
    }
    assert items[..|items|] == items;
    FoldCounts(csvPath, items);
  }

  /** The summary after handling the items `done`, out of `total` images. */
  function SummaryOf(total: nat, csvPath: string, done: seq<Item>): Summary {
    Summary(total, |SuccessRows(done)|, |FailureEntries(done)|,
            ProcessedEntries(csvPath, done), FailureEntries(done))
  }

  /**
   * The loop body for one image: a success appends its completed row and is listed
   * in `processedFiles` under the data's "name" (default "Unknown"); a failure is
   * listed in `failedFiles` with its error.
   */
  function HandleItem(csvPath: string, s: Summary, out: CsvFile, item: Item): (Summary, CsvFile) {
    match item.result
    case Parsed(fn, data) =>
      (s.(successful := s.successful + 1,
          processedFiles := s.processedFiles + [ProcessedFile(item.source, csvPath, Lookup(data, "name", "Unknown"))]),
       AppendRow(out, CompleteRow(fn, data)))
    case Failed(_, err) =>
      (s.(failed := s.failed + 1, failedFiles := s.failedFiles + [FailedFile(item.source, err)]),
       out)
  }

  /** Handling item `i` after the first `i` moves the closed forms on by one item. */
  lemma HandleItemStep(csvPath: string, file: CsvFile, items: seq<Item>, i: nat)
    requires i < |items|
    ensures HandleItem(csvPath, SummaryOf(|items|, csvPath, items[..i]),
                       AppendedFile(file, SuccessRows(items[..i])), items[i])
         == (SummaryOf(|items|, csvPath, items[..i + 1]), AppendedFile(file, SuccessRows(items[..i + 1])))
  {
    var item := items[i];
    if item.result.Parsed? {
      FoldStepParsed(csvPath, items, i);
      AppendedFileStep(file, SuccessRows(items[..i]), CompleteRow(item.result.filename, item.result.data));
    } else {
      FoldStepFailed(csvPath, items, i);
    }
  }

  /** Every item is either a success with one row and one entry, or a failure with one entry. */
  lemma {:induction false} FoldCounts(csvPath: string, items: seq<Item>)
    ensures |SuccessRows(items)| + |FailureEntries(items)| == |items|
    ensures |ProcessedEntries(csvPath, items)| == |SuccessRows(items)|
    decreases |items|
  {
    if |items| > 0 {
      FoldCounts(csvPath, items[..|items| - 1]);
    }
  }

  /** Handling a successful item adds its row and its entry, and no failure. */
  lemma FoldStepParsed(csvPath: string, items: seq<Item>, i: nat)
    requires i < |items| && items[i].result.Parsed?
    ensures SuccessRows(items[..i + 1])
      == SuccessRows(items[..i]) + [CompleteRow(items[i].result.filename, items[i].result.data)]
    ensures ProcessedEntries(csvPath, items[..i + 1]) == ProcessedEntries(csvPath, items[..i])
      + [ProcessedFile(items[i].source, csvPath, Lookup(items[i].result.data, "name", "Unknown"))]
    ensures FailureEntries(items[..i + 1]) == FailureEntries(items[..i])
  {
    var p := items[..i + 1];
    assert p[..i] == items[..i] && p[i] == items[i];
    assert FailureEntries(items[..i]) + [] == FailureEntries(items[..i]);
  }

  /** Handling a failed item adds its failure entry, and no row. */
  lemma FoldStepFailed(csvPath: string, items: seq<Item>, i: nat)
    requires i < |items| && items[i].result.Failed?
    ensures SuccessRows(items[..i + 1]) == SuccessRows(items[..i])
    ensures ProcessedEntries(csvPath, items[..i + 1]) == ProcessedEntries(csvPath, items[..i])
    ensures FailureEntries(items[..i + 1])
      == FailureEntries(items[..i]) + [FailedFile(items[i].source, items[i].result.error)]
  {
    var p := items[..i + 1];
    assert p[..i] == items[..i] && p[i] == items[i];
    assert SuccessRows(items[..i]) + [] == SuccessRows(items[..i]);
    assert ProcessedEntries(csvPath, items[..i]) + [] == ProcessedEntries(csvPath, items[..i]);
  }

  lemma {:induction false} SuccessRowsAppend(a: seq<Item>, b: seq<Item>)
    ensures SuccessRows(a + b) == SuccessRows(a) + SuccessRows(b)
    decreases |b|
  {
    if |b| == 0 {
      assert a + b == a;
    } else {
      var b' := b[..|b| - 1];
      assert (a + b)[..|a + b| - 1] == a + b';
      assert (a + b)[|a + b| - 1] == b[|b| - 1];
      SuccessRowsAppend(a, b');
    }
  }

  /** The rows a single item contributes. */
  lemma SuccessRowsSingle(item: Item)
    ensures item.result.Failed? ==> SuccessRows([item]) == []
    ensures item.result.Parsed? ==>
      SuccessRows([item]) == [CompleteRow(item.result.filename, item.result.data)]
  {
    assert [item][..0] == [];
  }

  /** A failed image contributes no row: dropping it from the folder leaves the rows as they are. */
  lemma FailedItemWritesNoRow(before: seq<Item>, item: Item, after: seq<Item>)
    requires item.result.Failed?
    ensures SuccessRows(before + [item] + after) == SuccessRows(before + after)
  {
    SuccessRowsAppend(before + [item], after);
    SuccessRowsAppend(before, [item]);
    SuccessRowsSingle(item);
    SuccessRowsAppend(before, after);
  }

  /** A successful image contributes exactly its completed row, at its place in the order. */
  lemma ParsedItemWritesItsRow(before: seq<Item>, item: Item, after: seq<Item>)
    requires item.result.Parsed?
    ensures SuccessRows(before + [item] + after) ==
      SuccessRows(before) + [CompleteRow(item.result.filename, item.result.data)] + SuccessRows(after)
  {
    SuccessRowsAppend(before + [item], after);
    SuccessRowsAppend(before, [item]);
    SuccessRowsSingle(item);
  }

  lemma {:induction false} AppendedFileWellFormed(f: CsvFile, rows: seq<Row>)
    requires WellFormed(f)
    ensures WellFormed(AppendedFile(f, rows))
    decreases |rows|
  {
    if |rows| == 0 {
      assert AppendedFile(f, rows) == f;
    } else {
      var rows' := rows[..|rows| - 1];
      AppendedFileWellFormed(f, rows');
      AppendedFileStep(f, rows', rows[|rows| - 1]);
      assert rows' + [rows[|rows| - 1]] == rows;
      AppendKeepsWellFormed(AppendedFile(f, rows'), rows[|rows| - 1]);
    }
  }

  /**
   * A file set up by the constructor and then fed by the folder loop holds exactly one
   * header, at the top, followed only by record lines.
   */
  method FreshFileRun(csvPath: string, items: seq<Item>) returns (s: Summary, out: CsvFile)
    ensures WellFormed(out) && HeaderCount(out) == 1
    ensures |out| == 1 + s.successful
  {
    var file := InitCsv(None);
    s, out := ProcessFolder(csvPath, file, items);
    AppendedFileWellFormed(file, SuccessRows(items));
    WellFormedHeaderCount(out);
  }
}
