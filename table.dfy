/**
 * The raw movie table as read from the CSV file: a header of column names
 * and rows of optional cells (an absent cell is pandas NaN; a row shorter
 * than the header reads as absent in its missing places).
 * Column names are compared after stripping (imdb/imdb.py:40).
 */
module Table {

  import opened Wrappers
  import opened Text

  datatype RawTable = RawTable(header: seq<string>, rows: seq<seq<Option<string>>>)

  /** The cell of `row` in column `k`. */
  function Cell(row: seq<Option<string>>, k: nat): Option<string>
  {
    if k < |row| then row[k] else None
  }

  /** First position at or after `i` whose stripped name is `name`. */
  function ColumnFrom(header: seq<string>, name: string, i: nat): (r: Option<nat>)
    requires i <= |header|
    ensures r.Some? ==> i <= r.value < |header| && Strip(header[r.value]) == name
    ensures r.Some? ==> forall j :: i <= j < r.value ==> Strip(header[j]) != name
    ensures r.None? ==> forall j :: i <= j < |header| ==> Strip(header[j]) != name
    decreases |header| - i
  {
    if i == |header| then None
    else if Strip(header[i]) == name then Some(i)
    else ColumnFrom(header, name, i + 1)
  }

  /** `name in df.columns` after the header is stripped, and where. */
  function ColumnIndex(header: seq<string>, name: string): (r: Option<nat>)
    ensures r.None? <==> forall j :: 0 <= j < |header| ==> Strip(header[j]) != name
    ensures r.Some? ==> r.value < |header| && Strip(header[r.value]) == name
    ensures r.Some? ==> forall j :: 0 <= j < r.value ==> Strip(header[j]) != name
  {
    ColumnFrom(header, name, 0)
  }

  predicate HasColumn(t: RawTable, name: string)
  {
    ColumnIndex(t.header, name).Some?
  }

  /** The cells of column `k` in row order, or all absent when there is no column. */
  function ColumnCells(t: RawTable, k: Option<nat>): (c: seq<Option<string>>)
    ensures |c| == |t.rows|
    ensures k.None? ==> forall i :: 0 <= i < |c| ==> c[i].None?
    ensures k.Some? ==> forall i :: 0 <= i < |c| ==> c[i] == Cell(t.rows[i], k.value)
  {
    seq(|t.rows|, i requires 0 <= i < |t.rows| =>
      match k case None => None case Some(j) => Cell(t.rows[i], j))
  }

  /** The cells of the column named `name`; a missing column reads as absent. */
  function Column(t: RawTable, name: string): (c: seq<Option<string>>)
    ensures |c| == |t.rows|
    ensures !HasColumn(t, name) ==> forall i :: 0 <= i < |c| ==> c[i].None?
  {
    ColumnCells(t, ColumnIndex(t.header, name))
  }

  /** The source column of `runtime_min`: `runtime` if present, else
      `Runtime`, else none. */
  function RuntimeColumn(header: seq<string>): (r: Option<nat>)
    ensures r.None? <==> ColumnIndex(header, "runtime").None? && ColumnIndex(header, "Runtime").None?
    ensures ColumnIndex(header, "runtime").Some? ==> r == ColumnIndex(header, "runtime")
    ensures ColumnIndex(header, "runtime").None? ==> r == ColumnIndex(header, "Runtime")
    ensures r.Some? ==> r.value < |header| && (Strip(header[r.value]) == "runtime" || Strip(header[r.value]) == "Runtime")
  {
    var lower := ColumnIndex(header, "runtime");
    if lower.Some? then lower else ColumnIndex(header, "Runtime")
  }
}
