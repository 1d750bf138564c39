/** The three-column table every dataset script writes: `context`, `question`,
    `answer`. A CSV file that may or may not exist yet is an optional sequence
    of rows. */
module QaRows {
  import opened Results

  datatype QaRow = QaRow(context: string, question: string, answer: string)

  /** The "append to the CSV if it exists, else create it" step of the HTML and
      Markdown scripts: read the existing rows (if any) and add `row` last. */
  function AppendRow(existing: Option<seq<QaRow>>, row: QaRow): (rows: seq<QaRow>)
    ensures |rows| == |existing.GetOr([])| + 1
    ensures rows[..|rows| - 1] == existing.GetOr([])
    ensures rows[|rows| - 1] == row
    ensures existing.None? ==> rows == [row]
  {
    match existing
    case None => [row]
    case Some(table) => table + [row]
  }

  /** Writing the table back and reading it again before the next append. */
  function AppendAll(existing: Option<seq<QaRow>>, rows: seq<QaRow>): Option<seq<QaRow>>
    decreases |rows|
  {
    if |rows| == 0 then existing
    else AppendAll(Some(AppendRow(existing, rows[0])), rows[1..])
  }

  /** Appending rows one file at a time to a table that does not exist yet
      (the Markdown script deletes the CSV first) yields exactly those rows, in
      processing order; appending to an existing table keeps it as a prefix. */
  lemma {:induction false} AppendAllBuildsTable(existing: Option<seq<QaRow>>, rows: seq<QaRow>)
    ensures |rows| > 0 ==> AppendAll(existing, rows) == Some(existing.GetOr([]) + rows)
    ensures |rows| == 0 ==> AppendAll(existing, rows) == existing
    decreases |rows|
  {
    if |rows| > 0 {
      var next := AppendRow(existing, rows[0]);
      AppendAllBuildsTable(Some(next), rows[1..]);
      if |rows| == 1 {
        assert existing.GetOr([]) + rows == next;
      } else {
        assert next + rows[1..] == existing.GetOr([]) + rows;
      }
    }
  }
}
