/**
 * The three rankings over the cleaned table: `top_genres`,
 * `top_directors_by_count` and `top_directors_by_rating`
 * (imdb/imdb.py:111-130).
 */
module Aggregate {

  import opened Wrappers
  import opened Seqs
  import opened Ranking
  import opened Cleaning
  import opened Movies

  // ---------------------------------------------------------------- genres

  /** Every row's genre list, one after another. */
  function AllGenres(ms: seq<Movie>): seq<string>
  {
    if ms == [] then [] else AllGenres(ms[..|ms| - 1]) + ms[|ms| - 1].genreList
  }

  lemma AllGenresSnoc(ms: seq<Movie>, i: nat)
    requires i < |ms|
    ensures AllGenres(ms[..i + 1]) == AllGenres(ms[..i]) + ms[i].genreList
  {
    assert ms[..i + 1][..i] == ms[..i];
  }

  /** The genres counted are genre tokens taken from the rows. */
  lemma {:induction false} AllGenresAreTokens(ms: seq<Movie>)
    requires forall k :: 0 <= k < |ms| ==> forall g :: g in ms[k].genreList ==> IsGenreToken(g)
    ensures forall g :: g in AllGenres(ms) ==> IsGenreToken(g) && exists k :: 0 <= k < |ms| && g in ms[k].genreList
  {
    if ms != [] {
      var n := |ms| - 1;
      assert forall k :: 0 <= k < n ==> ms[..n][k] == ms[k];
      AllGenresAreTokens(ms[..n]);
    }
  }

  /** One `(value, count)` pair per key the counter holds, in insertion order. */
  function Items(order: seq<string>, counts: map<string, nat>): seq<(string, nat)>
    requires forall g :: g in order ==> g in counts
  {
    seq(|order|, k requires 0 <= k < |order| => (order[k], counts[order[k]]))
  }

  /** The counter's map after counting `xs` one value at a time. */
  function CountMap(xs: seq<string>): map<string, nat>
  {
    if xs == [] then map[]
    else
      Bump(CountMap(xs[..|xs| - 1]), xs[|xs| - 1])
  }

  /** The counter's map after one more `g`: a new key counts 1, a known
      key one more. */
  function Bump(counts: map<string, nat>, g: string): map<string, nat>
  {
    counts[g := if g in counts then counts[g] + 1 else 1]
  }

  /** The counter's key order after one more `g`: a new key goes last. */
  function Enlist(order: seq<string>, counts: map<string, nat>, g: string): seq<string>
  {
    if g in counts then order else order + [g]
  }

  lemma CountMapSnoc(xs: seq<string>, g: string)
    ensures CountMap(xs + [g]) == Bump(CountMap(xs), g)
  {
    assert (xs + [g])[..|xs|] == xs;
  }

  /** The counter holds exactly the values counted, each with its number
      of occurrences. */
  lemma {:induction false} CountMapSpec(xs: seq<string>)
    ensures forall g :: g in CountMap(xs) <==> g in xs
    ensures forall g :: g in CountMap(xs) ==> CountMap(xs)[g] == CountOf(xs, g)
  {
    if xs != [] {
      var n := |xs| - 1;
      var pre := xs[..n];
      assert xs == pre + [xs[n]];
      CountMapSpec(pre);
      CountMapSnoc(pre, xs[n]);
      forall g ensures CountOf(xs, g) == CountOf(pre, g) + (if xs[n] == g then 1 else 0) {
        CountOfSnoc(pre, xs[n], g);
      }
      if xs[n] !in pre {
        assert CountOf(pre, xs[n]) == 0;
      }
    }
  }

  lemma CountMapHas(xs: seq<string>, g: string)
    ensures g in CountMap(xs) <==> g in xs
  {
    CountMapSpec(xs);
  }

  /** The counter's items in insertion order are the tally of what it counted. */
  lemma CountsAreTally(seen: seq<string>, order: seq<string>, counts: map<string, nat>)
    requires IsCounterOf(seen, counts, order)
    ensures forall g :: g in order ==> g in counts
    ensures Items(order, counts) == Tally(seen)
  {
    CountMapSpec(seen);
    DistinctSpec(seen);
  }

  /** `counts` and `order` are the counter after counting `xs`: its map,
      and its keys in insertion order. */
  predicate IsCounterOf(xs: seq<string>, counts: map<string, nat>, order: seq<string>)
  {
    counts == CountMap(xs) && order == Distinct(xs)
  }

  /** Counting one more value `g`: insert it with count 1 at the end of the
      key order, or add one to its count. */
  lemma CounterStep(done: seq<string>, g: string, counts: map<string, nat>, order: seq<string>)
    requires IsCounterOf(done, counts, order)
    ensures IsCounterOf(done + [g], Bump(counts, g), Enlist(order, counts, g))
  {
    CountMapSnoc(done, g);
    DistinctSnoc(done, g);
    CountMapHas(done, g);
  }

  /** `CounterStep` for the next value of `lst` after its first `j`. */
  lemma CounterStepAt(seen: seq<string>, lst: seq<string>, j: nat, counts: map<string, nat>, order: seq<string>)
    requires j < |lst| && IsCounterOf(seen + lst[..j], counts, order)
    ensures IsCounterOf(seen + lst[..j + 1], Bump(counts, lst[j]), Enlist(order, counts, lst[j]))
  {
    CounterStep(seen + lst[..j], lst[j], counts, order);
    AppendTakeSnoc(seen, lst, j);
  }

  /** `Counter.update(lst)`: count every value of `lst`, one after another.
      `seen` is what the counter has counted so far. */
  method CounterUpdate(counts: map<string, nat>, order: seq<string>, lst: seq<string>, ghost seen: seq<string>)
    returns (counts': map<string, nat>, order': seq<string>)
    requires IsCounterOf(seen, counts, order)
    ensures IsCounterOf(seen + lst, counts', order')
  {
    counts', order' := counts, order;
    var j := 0;
    assert seen + lst[..j] == seen;
    while j < |lst|
      invariant 0 <= j <= |lst|
      invariant IsCounterOf(seen + lst[..j], counts', order')
    {
      var g := lst[j];
      CounterStepAt(seen, lst, j, counts', order');
      counts', order' := Bump(counts', g), Enlist(order', counts', g);
      j := j + 1;
    }
    assert lst[..j] == lst;
  }

  /** `top_genres`: a `Counter` updated with every row's genre list, then
      `most_common(n)`. The map is the counter; `order` is the order in
      which its keys were first inserted. */
  method TopGenres(ms: seq<Movie>, n: int) returns (r: seq<(string, nat)>)
    ensures r == MostCommon(Tally(AllGenres(ms)), n)
  {
    var counts: map<string, nat> := map[];
    var order: seq<string> := [];
    var i := 0;
    while i < |ms|
      invariant 0 <= i <= |ms|
      invariant IsCounterOf(AllGenres(ms[..i]), counts, order)
    {
      counts, order := CounterUpdate(counts, order, ms[i].genreList, AllGenres(ms[..i]));
      AllGenresSnoc(ms, i);
      i := i + 1;
    }
    assert ms[..i] == ms;
    CountsAreTally(AllGenres(ms), order, counts);
    r := MostCommon(Items(order, counts), n);
  }

  /** What `top_genres(n)` returns: at most `n` genre tokens, each with the
      number of times it occurs over all rows, most frequent first. */
  lemma TopGenresEntries(ms: seq<Movie>, n: int)
    requires forall k :: 0 <= k < |ms| ==> forall g :: g in ms[k].genreList ==> IsGenreToken(g)
    ensures var r := MostCommon(Tally(AllGenres(ms)), n);
      && |r| == TakeCount(n, |Distinct(AllGenres(ms))|)
      && (forall p :: 0 <= p < |r| ==> IsGenreToken(r[p].0) && r[p].1 == CountOf(AllGenres(ms), r[p].0) && r[p].1 > 0)
      && (forall p, q :: 0 <= p < q < |r| ==> r[p].1 >= r[q].1 && r[p].0 != r[q].0)
  {
    var all := AllGenres(ms);
    AllGenresAreTokens(ms);
    MostCommonOfTallyEntries(all, n);
    MostCommonOfTallyOrder(all, n);
  }

  // ---------------------------------------------------------------- directors by count

  function DirectorsOf(ms: seq<Movie>): (ds: seq<string>)
    ensures |ds| == |ms| && forall k :: 0 <= k < |ms| ==> ds[k] == ms[k].director
  {
    seq(|ms|, k requires 0 <= k < |ms| => ms[k].director)
  }

  /** `names[names != '']`. */
  function NonEmpty(xs: seq<string>): (r: seq<string>)
    ensures "" !in r
    ensures forall x :: x in r <==> x in xs && x != ""
  {
    if xs == [] then []
    else
      var n := |xs| - 1;
      assert xs == xs[..n] + [xs[n]];
      NonEmpty(xs[..n]) + (if xs[n] == "" then [] else [xs[n]])
  }

  /** Dropping empty names keeps every other name's count. */
  lemma {:induction false} CountOfNonEmpty(xs: seq<string>, d: string)
    requires d != ""
    ensures CountOf(NonEmpty(xs), d) == CountOf(xs, d)
  {
    if xs != [] {
      var n := |xs| - 1;
      CountOfNonEmpty(xs[..n], d);
      assert xs[..n] + [xs[n]] == xs;
      CountOfSnoc(xs[..n], xs[n], d);
      if xs[n] != "" {
        CountOfSnoc(NonEmpty(xs[..n]), xs[n], d);
      } else {
        assert NonEmpty(xs[..n]) + [] == NonEmpty(xs[..n]);
      }
    }
  }

  /** `top_directors_by_count`: no director column gives `[]`; otherwise
      the non-empty names are counted and the `n` most common returned. */
  function TopDirectorsByCount(t: CleanTable, n: int): seq<(string, nat)>
  {
    if !t.hasDirector then [] else MostCommon(Tally(NonEmpty(DirectorsOf(t.movies))), n)
  }

  /** Each entry is a non-empty director with the number of rows that name
      them; counts descend and no director repeats. */
  lemma TopDirectorsByCountEntries(t: CleanTable, n: int)
    ensures !t.hasDirector ==> TopDirectorsByCount(t, n) == []
    ensures var r := TopDirectorsByCount(t, n);
      && (t.hasDirector ==> |r| == TakeCount(n, |Distinct(NonEmpty(DirectorsOf(t.movies)))|))
      && (forall p :: 0 <= p < |r| ==>
            r[p].0 != "" && r[p].0 in DirectorsOf(t.movies) && r[p].1 == CountOf(DirectorsOf(t.movies), r[p].0))
      && (forall p, q :: 0 <= p < q < |r| ==> r[p].1 >= r[q].1 && r[p].0 != r[q].0)
  {
    if t.hasDirector {
      var names := NonEmpty(DirectorsOf(t.movies));
      MostCommonOfTallyEntries(names, n);
      MostCommonOfTallyOrder(names, n);
      var r := TopDirectorsByCount(t, n);
      forall p | 0 <= p < |r| ensures r[p].1 == CountOf(DirectorsOf(t.movies), r[p].0) {
        CountOfNonEmpty(DirectorsOf(t.movies), r[p].0);
      }
    }
  }

  // ---------------------------------------------------------------- directors by rating

  /** One row of `top_directors_by_rating`: the mean of the director's
      present ratings (NaN when there is none) and how many there are. */
  datatype DirectorRating = DirectorRating(director: string, ratingMean: Score, count: nat)

  /** The present ratings of the rows of director `d`, in row order. */
  function RatingsOf(ms: seq<Movie>, d: string): (rs: seq<real>)
    ensures |rs| <= CountOf(DirectorsOf(ms), d)
  {
    if ms == [] then []
    else
      var n := |ms| - 1;
      var rest := RatingsOf(ms[..n], d);
      assert DirectorsOf(ms) == DirectorsOf(ms[..n]) + [ms[n].director];
      CountOfSnoc(DirectorsOf(ms[..n]), ms[n].director, d);
      rest + (if ms[n].director == d && ms[n].rating.Some? then [ms[n].rating.value] else [])
  }

  function Sum(xs: seq<real>): real
  {
    if xs == [] then 0.0 else Sum(xs[..|xs| - 1]) + xs[|xs| - 1]
  }

  /** The exact mean, NaN for no values. */
  function Mean(xs: seq<real>): (m: Score)
    ensures m.NaN? <==> xs == []
  {
    if xs == [] then NaN else Num(Sum(xs) / (|xs| as real))
  }

  /** `groupby('director').agg({'rating': ['mean', 'count']})` over the
      rows whose director is not empty. */
  function Groups(ms: seq<Movie>): (gs: seq<DirectorRating>)
    ensures |gs| == |Distinct(NonEmpty(DirectorsOf(ms)))|
  {
    var ds := Distinct(NonEmpty(DirectorsOf(ms)));
    seq(|ds|, k requires 0 <= k < |ds| => DirectorRating(ds[k], Mean(RatingsOf(ms, ds[k])), |RatingsOf(ms, ds[k])|))
  }

  /** `agg[agg['count'] >= min_movies]`. */
  function AtLeast(gs: seq<DirectorRating>, minMovies: int): (r: seq<DirectorRating>)
    ensures forall g :: g in r <==> g in gs && g.count >= minMovies
  {
    if gs == [] then []
    else
      var n := |gs| - 1;
      assert gs == gs[..n] + [gs[n]];
      var rest := AtLeast(gs[..n], minMovies);
      if gs[n].count >= minMovies then
        assert forall p :: 0 <= p < |rest| ==> rest[p] in gs[..n];
        rest + [gs[n]]
      else rest
  }

  /** Filtering keeps directors distinct. */
  lemma {:induction false} AtLeastDistinct(gs: seq<DirectorRating>, minMovies: int)
    requires forall p, q :: 0 <= p < q < |gs| ==> gs[p].director != gs[q].director
    ensures forall p, q :: 0 <= p < q < |AtLeast(gs, minMovies)| ==> AtLeast(gs, minMovies)[p].director != AtLeast(gs, minMovies)[q].director
  {
    if gs != [] {
      var n := |gs| - 1;
      assert forall p :: 0 <= p < n ==> gs[..n][p] == gs[p];
      AtLeastDistinct(gs[..n], minMovies);
      var rest := AtLeast(gs[..n], minMovies);
      assert gs == gs[..n] + [gs[n]];
      if gs[n].count >= minMovies {
        var r := rest + [gs[n]];
        assert AtLeast(gs, minMovies) == r;
        forall p, q | 0 <= p < q < |r| ensures r[p].director != r[q].director {
          assert r[p] == rest[p];
          if q < |rest| {
            assert r[q] == rest[q];
          } else {
            assert rest[p] in gs[..n];
            var k :| 0 <= k < n && gs[..n][k] == rest[p];
            assert gs[k] == rest[p];
          }
        }
      } else {
        assert AtLeast(gs, minMovies) == rest;
      }
    }
  }

  function MeanScores(gs: seq<DirectorRating>): (sc: seq<Score>)
    ensures |sc| == |gs| && forall k :: 0 <= k < |gs| ==> sc[k] == gs[k].ratingMean
  {
    seq(|gs|, k requires 0 <= k < |gs| => gs[k].ratingMean)
  }

  /** The groups that pass the `min_movies` filter. */
  function Qualified(ms: seq<Movie>, minMovies: int): seq<DirectorRating>
  {
    AtLeast(Groups(ms), minMovies)
  }

  /** The groups by mean rating, highest first and NaN last, then `head(n)`. */
  function HeadByMean(gs: seq<DirectorRating>, n: int): seq<DirectorRating>
  {
    var o := RankOrder(MeanScores(gs));
    Select(gs, o[..HeadCount(n, |gs|)])
  }

  /** The `head(n)` of the ranking: its length, groups of `gs` only, and
      means that never increase. */
  lemma HeadByMeanSpec(gs: seq<DirectorRating>, n: int)
    ensures && |HeadByMean(gs, n)| == HeadCount(n, |gs|)
      && (forall p :: 0 <= p < |HeadByMean(gs, n)| ==> HeadByMean(gs, n)[p] in gs)
      && (forall p, q :: 0 <= p < q < |HeadByMean(gs, n)| ==> !Above(HeadByMean(gs, n)[q].ratingMean, HeadByMean(gs, n)[p].ratingMean))
  {
    var sc := MeanScores(gs);
    var m := HeadCount(n, |gs|);
    RankOrderTop(sc, m);
    var o := RankOrder(sc);
    var r := HeadByMean(gs, n);
    forall p | 0 <= p < |r| ensures r[p] in gs {
      assert r[p] == gs[o[p]];
    }
    forall p, q | 0 <= p < q < |r| ensures !Above(r[q].ratingMean, r[p].ratingMean) {
      BeforeIsStrict(sc, o[p], o[q]);
    }
  }

  lemma HeadByMeanDistinct(gs: seq<DirectorRating>, n: int)
    requires forall p, q :: 0 <= p < q < |gs| ==> gs[p].director != gs[q].director
    ensures forall p, q :: 0 <= p < q < |HeadByMean(gs, n)| ==> HeadByMean(gs, n)[p].director != HeadByMean(gs, n)[q].director
  {
    var sc := MeanScores(gs);
    var m := HeadCount(n, |gs|);
    RankOrderTop(sc, m);
    var o := RankOrder(sc);
    var r := HeadByMean(gs, n);
    forall p, q | 0 <= p < q < |r| ensures r[p].director != r[q].director {
      BeforeIsStrict(sc, o[p], o[q]);
      assert r[p] == gs[o[p]] && r[q] == gs[o[q]];
    }
  }

  /** A group the `head(n)` leaves out: the head was full, and the group's
      mean ranks no higher than the last mean taken. */
  lemma HeadByMeanComplete(gs: seq<DirectorRating>, n: int, g: DirectorRating)
    requires g in gs
    requires g !in HeadByMean(gs, n)
    ensures && |HeadByMean(gs, n)| < |gs|
      && (|HeadByMean(gs, n)| > 0 ==> !Above(g.ratingMean, HeadByMean(gs, n)[|HeadByMean(gs, n)| - 1].ratingMean))
  {
    var sc := MeanScores(gs);
    var m := HeadCount(n, |gs|);
    RankOrderTop(sc, m);
    var o := RankOrder(sc);
    var r := HeadByMean(gs, n);
    var i :| 0 <= i < |gs| && gs[i] == g;
    forall p | 0 <= p < m ensures o[..m][p] != i {
      assert r[p] == gs[o[p]];
      assert r[p] in r;
    }
    assert i !in o[..m];
    if m > 0 {
      BeforeIsStrict(sc, o[m - 1], i);
      assert r[m - 1] == gs[o[m - 1]];
    }
  }

  /** `top_directors_by_rating`: no director column gives an empty frame;
      otherwise the qualified groups by mean rating, highest first and NaN
      last, then `head(n)`. */
  function TopDirectorsByRating(t: CleanTable, n: int, minMovies: int): seq<DirectorRating>
  {
    if !t.hasDirector then []
    else
      HeadByMean(Qualified(t.movies, minMovies), n)
  }

  lemma GroupsSpec(ms: seq<Movie>)
    ensures && (forall p, q :: 0 <= p < q < |Groups(ms)| ==> Groups(ms)[p].director != Groups(ms)[q].director)
      && (forall g :: g in Groups(ms) <==>
            g.director != "" && g.director in DirectorsOf(ms)
            && g.count == |RatingsOf(ms, g.director)| && g.ratingMean == Mean(RatingsOf(ms, g.director)))
  {
    var names := NonEmpty(DirectorsOf(ms));
    var ds := Distinct(names);
    DistinctSpec(names);
    var gs := Groups(ms);
    forall g: DirectorRating | g.director != "" && g.director in DirectorsOf(ms)
        && g.count == |RatingsOf(ms, g.director)| && g.ratingMean == Mean(RatingsOf(ms, g.director))
      ensures g in gs
    {
      assert g.director in ds;
      var k :| 0 <= k < |ds| && ds[k] == g.director;
      assert gs[k] == g;
    }
  }

  /** A qualified group is a non-empty director of the table with at
      least `min_movies` present ratings, and its count and mean are those
      of its present ratings. */
  lemma QualifiedEntry(ms: seq<Movie>, minMovies: int, g: DirectorRating)
    requires g in Qualified(ms, minMovies)
    ensures g.director != "" && g.director in DirectorsOf(ms) && g.count >= minMovies
    ensures g.count == |RatingsOf(ms, g.director)| && g.ratingMean == Mean(RatingsOf(ms, g.director))
  {
    GroupsSpec(ms);
  }

  /** Each returned row is a non-empty director of the table with at least
      `min_movies` present ratings, whose count and mean are those of its
      present ratings; no director repeats, and `head(n)` fixes the length. */
  lemma TopDirectorsByRatingEntries(t: CleanTable, n: int, minMovies: int)
    ensures !t.hasDirector ==> TopDirectorsByRating(t, n, minMovies) == []
    ensures var r := TopDirectorsByRating(t, n, minMovies);
      && (t.hasDirector ==> |r| == HeadCount(n, |Qualified(t.movies, minMovies)|))
      && (n >= 0 ==> |r| <= n)
      && (forall p :: 0 <= p < |r| ==>
            && r[p].director != "" && r[p].director in DirectorsOf(t.movies)
            && r[p].count >= minMovies
            && r[p].count == |RatingsOf(t.movies, r[p].director)|
            && r[p].ratingMean == Mean(RatingsOf(t.movies, r[p].director)))
      && (forall p, q :: 0 <= p < q < |r| ==> r[p].director != r[q].director)
  {
    if t.hasDirector {
      var gs := Qualified(t.movies, minMovies);
      var r := HeadByMean(gs, n);
      GroupsSpec(t.movies);
      AtLeastDistinct(Groups(t.movies), minMovies);
      HeadByMeanSpec(gs, n);
      HeadByMeanDistinct(gs, n);
      forall p | 0 <= p < |r|
        ensures && r[p].director != "" && r[p].director in DirectorsOf(t.movies)
                && r[p].count >= minMovies
                && r[p].count == |RatingsOf(t.movies, r[p].director)|
                && r[p].ratingMean == Mean(RatingsOf(t.movies, r[p].director))
      {
        QualifiedEntry(t.movies, minMovies, r[p]);
      }
    }
  }

  /** Means never increase down the result, and a NaN mean comes after
      every number. */
  lemma TopDirectorsByRatingOrder(t: CleanTable, n: int, minMovies: int)
    ensures var r := TopDirectorsByRating(t, n, minMovies);
      forall p, q :: 0 <= p < q < |r| ==>
        && (r[p].ratingMean.NaN? ==> r[q].ratingMean.NaN?)
        && (r[p].ratingMean.Num? && r[q].ratingMean.Num? ==> r[p].ratingMean.v >= r[q].ratingMean.v)
  {
    if t.hasDirector {
      HeadByMeanSpec(Qualified(t.movies, minMovies), n);
    }
  }

  /** A director who qualifies and is left out: the result was full, and
      that director's mean ranks no higher than the last mean returned. */
  lemma TopDirectorsByRatingComplete(t: CleanTable, n: int, minMovies: int, g: DirectorRating)
    requires t.hasDirector
    requires g in Qualified(t.movies, minMovies)
    requires g !in TopDirectorsByRating(t, n, minMovies)
    ensures var r := TopDirectorsByRating(t, n, minMovies);
      && |r| < |Qualified(t.movies, minMovies)|
      && (|r| > 0 ==> !Above(g.ratingMean, r[|r| - 1].ratingMean))
  {
    var gs := Qualified(t.movies, minMovies);
    assert TopDirectorsByRating(t, n, minMovies) == HeadByMean(gs, n);
    HeadByMeanComplete(gs, n, g);
  }
}
