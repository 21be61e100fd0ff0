/**
 * `clean_data` as a whole (imdb/imdb.py:37-98): every raw row becomes a
 * cleaned movie, column by column, and the cleaned rows are deduplicated
 * and renumbered.
 */
module Movies {

  import opened Wrappers
  import opened Text
  import opened Seqs
  import opened Table
  import opened Cleaning
  import opened Dedup

  /** One cleaned row. A field whose source column the table lacks holds
      its default (`""`, absent or `[]`); the table's flags say which
      columns exist. */
  datatype Movie = Movie(
    title: string,
    year: Option<int>,
    rating: Option<real>,
    runtimeMin: RuntimeCell,
    genreList: seq<string>,
    director: string,
    imdbID: Option<string>)

  /** A `runtime_min` cell. It holds the minutes extracted from `runtime` or
      `Runtime` (absent is NaN). When the table has neither of those columns
      but already has a `runtime_min` column, the cell is that column's raw
      cell, left as it was. */
  datatype RuntimeCell = Minutes(minutes: Option<nat>) | Kept(raw: Option<string>)

  /** The cleaned table. `rating`, `runtime_min` and `genre_list` always
      exist after cleaning; the other columns only when the input had them.
      Positions in `movies` are the renumbered row index. `runtimeText`
      says that `runtime_min` is a kept text column (`RuntimeKeptAsText`). */
  datatype CleanTable = CleanTable(
    hasTitle: bool,
    hasYear: bool,
    hasDirector: bool,
    hasId: bool,
    runtimeText: bool,
    movies: seq<Movie>)

  /** pandas' `KeyError` for columns a step needs and the table lacks, and
      the `TypeError` of a mean taken over a text column. */
  datatype CleanError = MissingColumns(names: seq<string>) | NotNumeric(column: string)

  /** The raw cell of row `i` in the column named `name`; absent when the
      column is missing. */
  function Named(t: RawTable, i: nat, name: string): Option<string>
    requires i < |t.rows|
  {
    Column(t, name)[i]
  }

  /** Row `i` after the per-column rules of `clean_data`. */
  function CleanRow(t: RawTable, i: nat): Movie
    requires i < |t.rows|
  {
    Movie(
      title := if HasColumn(t, "title") then CleanTitle(Named(t, i, "title")) else "",
      year := ParseYear(Named(t, i, "year")),
      rating := CleanRating(Named(t, i, "rating")),
      runtimeMin :=
        if RuntimeColumn(t.header).Some? then Minutes(CleanRuntime(ColumnCells(t, RuntimeColumn(t.header))[i]))
        else if HasColumn(t, "runtime_min") then Kept(Named(t, i, "runtime_min"))
        else Minutes(None),
      genreList := GenreList(Named(t, i, "genre")),
      director := FillDirector(Named(t, i, "director")),
      imdbID := Named(t, i, "imdbID"))
  }

  /** `read_csv` leaves a column as text when one of its present cells is
      not a number. For `runtime_min` this matters only when the column is
      kept, that is when the table has neither `runtime` nor `Runtime`. */
  predicate RuntimeKeptAsText(t: RawTable)
  {
    && RuntimeColumn(t.header).None?
    && HasColumn(t, "runtime_min")
    && exists i :: 0 <= i < |t.rows| && Column(t, "runtime_min")[i].Some? && ParseFloatLiteral(Column(t, "runtime_min")[i].value).None?
  }

  /** Every row, cleaned, before deduplication. */
  function CleanRows(t: RawTable): (ms: seq<Movie>)
    ensures |ms| == |t.rows|
  {
    seq(|t.rows|, i requires 0 <= i < |t.rows| => CleanRow(t, i))
  }

  /** A missing `rating` column is a column of NaN; with none of `runtime`,
      `Runtime` and `runtime_min`, `runtime_min` is NaN; a missing `genre` column gives
      every row an empty genre list; a missing `director` column behaves
      as all-empty names. */
  lemma MissingColumnsDegrade(t: RawTable, i: nat)
    requires i < |t.rows|
    ensures !HasColumn(t, "rating") ==> CleanRows(t)[i].rating.None?
    ensures !HasColumn(t, "runtime") && !HasColumn(t, "Runtime") && !HasColumn(t, "runtime_min") ==> CleanRows(t)[i].runtimeMin == Minutes(None)
    ensures !HasColumn(t, "genre") ==> CleanRows(t)[i].genreList == []
    ensures !HasColumn(t, "director") ==> CleanRows(t)[i].director == ""
    ensures !HasColumn(t, "year") ==> CleanRows(t)[i].year.None?
  {
    var m := CleanRow(t, i);
    assert CleanRows(t)[i] == m;
    assert !HasColumn(t, "rating") ==> Named(t, i, "rating").None?;
    assert !HasColumn(t, "genre") ==> Named(t, i, "genre").None?;
    assert !HasColumn(t, "director") ==> Named(t, i, "director").None?;
    assert !HasColumn(t, "year") ==> Named(t, i, "year").None?;
    GenreListOfAbsent();
  }

  /** `runtime_min` comes from `runtime` when the table has it, else from
      `Runtime`; with neither, an existing `runtime_min` column is kept. */
  lemma RuntimeColumnChoice(t: RawTable, i: nat)
    requires i < |t.rows|
    ensures HasColumn(t, "runtime") ==> CleanRows(t)[i].runtimeMin == Minutes(CleanRuntime(Column(t, "runtime")[i]))
    ensures !HasColumn(t, "runtime") && HasColumn(t, "Runtime") ==> CleanRows(t)[i].runtimeMin == Minutes(CleanRuntime(Column(t, "Runtime")[i]))
    ensures !HasColumn(t, "runtime") && !HasColumn(t, "Runtime") && HasColumn(t, "runtime_min") ==> CleanRows(t)[i].runtimeMin == Kept(Column(t, "runtime_min")[i])
  {
    assert CleanRows(t)[i] == CleanRow(t, i);
  }

  /** A table whose only column is `runtime_min` keeps its cell: `"90"` stays
      the text `"90"`. */
  lemma KeptRuntimeExample(t: RawTable)
    requires t.header == ["runtime_min"] && t.rows == [[Some("90")]]
    ensures CleanRows(t)[0].runtimeMin == Kept(Some("90"))
  {
    OnlyRuntimeMin(t);
    RuntimeColumnChoice(t, 0);
  }

  lemma OnlyRuntimeMin(t: RawTable)
    requires t.header == ["runtime_min"]
    ensures !HasColumn(t, "runtime") && !HasColumn(t, "Runtime") && RuntimeColumn(t.header).None?
    ensures ColumnIndex(t.header, "runtime_min") == Some(0)
  {
    StripOfTrimmed(t.header[0]);
  }

  /** A kept `runtime_min` cell `"90 min"` is not a number, so the column
      stays text. */
  lemma KeptRuntimeTextExample(t: RawTable)
    requires t.header == ["runtime_min"] && t.rows == [[Some("90 min")]]
    ensures CleanRows(t)[0].runtimeMin == Kept(Some("90 min"))
    ensures RuntimeKeptAsText(t)
  {
    OnlyRuntimeMin(t);
    RuntimeColumnChoice(t, 0);
    var c := Column(t, "runtime_min")[0];
    assert c == Cell(t.rows[0], 0) == Some("90 min");
    NotANumber(c.value);
  }

  /** `"90 min"` is not a number literal. */
  lemma NotANumber(s: string)
    requires s == "90 min"
    ensures ParseFloatLiteral(s).None?
  {
    ParseFloatRejects(s, 3);
  }

  /** The other columns are cleaned cell by cell from their own column. */
  lemma CleanRowOfColumns(t: RawTable, i: nat)
    requires i < |t.rows|
    ensures CleanRows(t)[i].rating == CleanRating(Column(t, "rating")[i])
    ensures CleanRows(t)[i].genreList == GenreList(Column(t, "genre")[i])
    ensures Column(t, "director")[i].Some? ==> CleanRows(t)[i].director == Column(t, "director")[i].value
    ensures HasColumn(t, "title") ==> CleanRows(t)[i].title == CleanTitle(Column(t, "title")[i])
    ensures HasColumn(t, "title") ==> NoEdgeWhitespace(CleanRows(t)[i].title)
    ensures CleanRows(t)[i].year == ParseYear(Column(t, "year")[i])
    ensures CleanRows(t)[i].imdbID == Column(t, "imdbID")[i]
  {
  }

  // ---------------------------------------------------------------- deduplication

  /** The deduplication key: `imdbID` when the table has that column,
      otherwise the cleaned title and year. Absent ids are equal to one
      another, as NaN keys are in `drop_duplicates`. */
  datatype DedupKey = ById(id: Option<string>) | ByTitleYear(title: string, year: Option<int>)

  function KeyOf(hasId: bool): Movie -> DedupKey
  {
    if hasId then (m: Movie) => ById(m.imdbID) else (m: Movie) => ByTitleYear(m.title, m.year)
  }

  /** Columns of the `(title, year)` key the table lacks, in that order. */
  function MissingKeyColumns(t: RawTable): (names: seq<string>)
    ensures names == [] <==> HasColumn(t, "title") && HasColumn(t, "year")
    ensures forall x :: x in names <==> (x == "title" && !HasColumn(t, "title")) || (x == "year" && !HasColumn(t, "year"))
  {
    (if HasColumn(t, "title") then [] else ["title"]) + (if HasColumn(t, "year") then [] else ["year"])
  }

  /** The rows `clean_data` returns: the first cleaned row of every key. */
  function Deduplicated(t: RawTable): seq<Movie>
  {
    var rows := CleanRows(t);
    Select(rows, FirstIndices(Keys(rows, KeyOf(HasColumn(t, "imdbID")))))
  }

  /** `clean_data`: clean every column, then drop rows whose key was seen
      before and renumber. Without an `imdbID` column the `(title, year)`
      key needs both columns, and pandas raises `KeyError` otherwise, except
      on a table without rows, which `drop_duplicates` returns before it
      looks at the key columns. */
  method CleanData(t: RawTable) returns (r: Result<CleanTable, CleanError>)
    ensures r.Failure? <==> |t.rows| > 0 && !HasColumn(t, "imdbID") && MissingKeyColumns(t) != []
    ensures r.Failure? ==> r.error == MissingColumns(MissingKeyColumns(t))
    ensures |t.rows| == 0 ==> r.Success? && r.value.movies == []
    ensures r.Success? ==> r.value == CleanTable(
      HasColumn(t, "title"), HasColumn(t, "year"), HasColumn(t, "director"), HasColumn(t, "imdbID"),
      RuntimeKeptAsText(t), Deduplicated(t))
  {
    var hasId := HasColumn(t, "imdbID");
    var text := RuntimeKeptAsText(t);
    var rows := CleanRows(t);
    if |t.rows| == 0 {
      assert Keys(rows, KeyOf(hasId)) == [];
      return Success(CleanTable(HasColumn(t, "title"), HasColumn(t, "year"), HasColumn(t, "director"), hasId,
        text, []));
    }
    if !hasId && MissingKeyColumns(t) != [] {
      return Failure(MissingColumns(MissingKeyColumns(t)));
    }
    var kept, origin := DropDuplicates(rows, KeyOf(hasId));
    assert kept == Select(rows, origin);
    r := Success(CleanTable(HasColumn(t, "title"), HasColumn(t, "year"), HasColumn(t, "director"), hasId,
      text, kept));
  }
}
