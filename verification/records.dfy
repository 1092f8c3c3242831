/** The fixed nine-column résumé record and the completion of a parsed reply into a row. */
module Records {

  /** A parsed reply: field name to text. */
  type Fields = map<string, string>

  /** One CSV row: (column, value) pairs in column order. */
  type Row = seq<(string, string)>

  /** The stable column order of the output file. */
  const Columns: seq<string> := [
    "filename", "name", "email", "number", "education",
    "work_experience", "projects", "certifications", "skills"
  ]

  /** `m.get(k, default)`. */
  function Lookup(m: Fields, k: string, default: string): string {
    if k in m then m[k] else default
  }

  /**
   * The row of `append_parsed_resume`: `{"filename": filename, **data}` cut down to the
   * nine columns in order, a missing column becoming "". A "filename" key inside
   * `data` wins over the outer filename, as the later entry of the merge.
   */
  function CompleteRow(filename: string, data: Fields): (row: Row)
    ensures |row| == |Columns|
    ensures forall i :: 0 <= i < |row| ==> row[i].0 == Columns[i]
    ensures forall i :: 0 <= i < |row| && Columns[i] in data ==> row[i].1 == data[Columns[i]]
    ensures forall i :: 1 <= i < |row| && Columns[i] !in data ==> row[i].1 == ""
    ensures "filename" !in data ==> row[0].1 == filename
  {
    var merged := map["filename" := filename] + data;
    seq(|Columns|, i requires 0 <= i < |Columns| => (Columns[i], Lookup(merged, Columns[i], "")))
  }

  /** Only the nine column keys of the parsed reply matter: extra keys are dropped. */
  lemma CompleteRowDropsExtraKeys(filename: string, d1: Fields, d2: Fields)
    requires forall i :: 0 <= i < |Columns| ==> (Columns[i] in d1 <==> Columns[i] in d2)
    requires forall i :: 0 <= i < |Columns| && Columns[i] in d1 ==> d1[Columns[i]] == d2[Columns[i]]
    ensures CompleteRow(filename, d1) == CompleteRow(filename, d2)
  {
    var r1 := CompleteRow(filename, d1);
    var r2 := CompleteRow(filename, d2);
    forall i | 0 <= i < |Columns| ensures r1[i] == r2[i] {
      if i == 0 && Columns[0] !in d1 {
        assert Columns[0] == "filename";
      }
    }
  }
}
