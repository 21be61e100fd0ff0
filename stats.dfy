/**
 * The row count and the year range of `basic_stats` (imdb/imdb.py:100-104).
 */
module Stats {

  import opened Wrappers
  import opened Movies

  predicate NoYear(ms: seq<Movie>)
  {
    forall k :: 0 <= k < |ms| ==> ms[k].year.None?
  }

  /** The smallest present year, absent when no year is present. */
  function MinYear(ms: seq<Movie>): (r: Option<int>)
    ensures r.None? <==> NoYear(ms)
    ensures r.Some? ==> exists k :: 0 <= k < |ms| && ms[k].year == r
    ensures r.Some? ==> forall k :: 0 <= k < |ms| && ms[k].year.Some? ==> r.value <= ms[k].year.value
  {
    if ms == [] then None
    else
      var n := |ms| - 1;
      var rest := MinYear(ms[..n]);
      assert forall k :: 0 <= k < n ==> ms[..n][k] == ms[k];
      match (rest, ms[n].year)
      case (None, y) => y
      case (Some(a), None) => Some(a)
      case (Some(a), Some(b)) => Some(if b < a then b else a)
  }

  /** The largest present year, absent when no year is present. */
  function MaxYear(ms: seq<Movie>): (r: Option<int>)
    ensures r.None? <==> NoYear(ms)
    ensures r.Some? ==> exists k :: 0 <= k < |ms| && ms[k].year == r
    ensures r.Some? ==> forall k :: 0 <= k < |ms| && ms[k].year.Some? ==> ms[k].year.value <= r.value
  {
    if ms == [] then None
    else
      var n := |ms| - 1;
      var rest := MaxYear(ms[..n]);
      assert forall k :: 0 <= k < n ==> ms[..n][k] == ms[k];
      match (rest, ms[n].year)
      case (None, y) => y
      case (Some(a), None) => Some(a)
      case (Some(a), Some(b)) => Some(if b > a then b else a)
  }

  /** Some row holds a present `runtime_min` cell kept from the input. */
  predicate KeptRuntimePresent(ms: seq<Movie>)
  {
    exists k :: 0 <= k < |ms| && ms[k].runtimeMin.Kept? && ms[k].runtimeMin.raw.Some?
  }

  /** `years_range`: the smallest and the largest present year. */
  function YearsRange(ms: seq<Movie>): (Option<int>, Option<int>)
  {
    (MinYear(ms), MaxYear(ms))
  }

  datatype BasicStats = BasicStats(numMovies: nat, yearsRange: (Option<int>, Option<int>))

  /** `basic_stats` without the values of its float statistics. Reading
      the `year` column of a table that has none raises `KeyError`. After
      the year range, `runtime_min.mean()` raises `TypeError` on a text
      column once one of its cells is present. */
  function BasicStatsOf(t: CleanTable): (r: Result<BasicStats, CleanError>)
    ensures r.Failure? <==> !t.hasYear || (t.runtimeText && KeptRuntimePresent(t.movies))
    ensures !t.hasYear ==> r == Failure(MissingColumns(["year"]))
    ensures t.hasYear && r.Failure? ==> r.error == NotNumeric("runtime_min")
    ensures r.Success? ==> r.value.numMovies == |t.movies|
    ensures r.Success? ==> r.value.yearsRange == YearsRange(t.movies)
    ensures r.Success? ==> (r.value.yearsRange.0.None? <==> NoYear(t.movies))
    ensures r.Success? ==> (r.value.yearsRange.1.None? <==> NoYear(t.movies))
  {
    if !t.hasYear then Failure(MissingColumns(["year"]))
    else if t.runtimeText && KeptRuntimePresent(t.movies) then Failure(NotNumeric("runtime_min"))
    else Success(BasicStats(|t.movies|, YearsRange(t.movies)))
  }

  /** With a year column, a kept text `runtime_min` holding `"90 min"`
      makes `basic_stats` raise `TypeError`. */
  lemma TextRuntimeRaises(t: CleanTable)
    requires t.hasYear && t.runtimeText && |t.movies| == 1 && t.movies[0].runtimeMin == Kept(Some("90 min"))
    ensures BasicStatsOf(t) == Failure(NotNumeric("runtime_min"))
  {
    assert KeptRuntimePresent(t.movies) by {
      assert t.movies[0].runtimeMin.Kept? && t.movies[0].runtimeMin.raw.Some?;
    }
  }

  /** When a year is present the range is ordered and every present year
      lies inside it; otherwise both ends are absent. */
  lemma YearsRangeBounds(ms: seq<Movie>)
    ensures var r := YearsRange(ms);
      && (r.0.None? <==> r.1.None?)
      && (r.0.Some? ==> r.0.value <= r.1.value)
      && (forall k :: 0 <= k < |ms| && ms[k].year.Some? ==>
            r.0.value <= ms[k].year.value <= r.1.value)
  {
    var r := YearsRange(ms);
    if r.0.Some? {
      var k :| 0 <= k < |ms| && ms[k].year == r.0;
    }
  }
}
