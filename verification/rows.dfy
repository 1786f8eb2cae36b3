/** One stored check-in and the column layout of the response file. */
module Rows {

  /** One check-in as stored: every field is text. `timestamp` is an opaque
      ISO-8601 string supplied by the caller. */
  datatype Row = Row(timestamp: string, feeling: string, detail: string, comment: string, turma: string)

  /** The five columns a row has, in the order a new file's header lists
      them and the order an appended record's cells follow. */
  const Columns: seq<string> := ["timestamp", "feeling", "detail", "comment", "turma"]

  /** The value a row holds in a named column ("" for a column it lacks). */
  function Field(r: Row, column: string): string {
    if column == "timestamp" then r.timestamp
    else if column == "feeling" then r.feeling
    else if column == "detail" then r.detail
    else if column == "comment" then r.comment
    else if column == "turma" then r.turma
    else ""
  }

  /** A row's cells in `Columns` order: what one CSV record of it holds. */
  function Cells(r: Row): (cells: seq<string>)
    ensures |cells| == |Columns|
    ensures forall k :: 0 <= k < |Columns| ==> cells[k] == Field(r, Columns[k])
  {
    [r.timestamp, r.feeling, r.detail, r.comment, r.turma]
  }

  /** The row whose named columns hold the given values: the inverse of
      `Cells`. */
  function FromFields(get: string -> string): (r: Row)
    ensures forall k :: 0 <= k < |Columns| ==> Field(r, Columns[k]) == get(Columns[k])
  {
    Row(get("timestamp"), get("feeling"), get("detail"), get("comment"), get("turma"))
  }
}
