# IMDb movie table: cleaning and rankings, in Dafny

This project models the data-cleaning and ranking core of `imdb/imdb.py`, a
script that analyses a CSV export of IMDb movies. The model covers:

- `clean_data`, with its per-value normalisers:
  - the rating parser;
  - the runtime extractor;
  - the genre splitter;
  - director fill and title trim;
  - the choice of the runtime column.
- `clean_data`'s deduplication and renumbering of rows.
- The row count and year range of `basic_stats`.
- `top_genres`, `top_directors_by_count` and `top_directors_by_rating`.

The pandas table is modelled as plain sequences:

- **Raw table:** a header and rows of optional text cells. An absent cell is pandas `NaN`.
- **Cleaned table:** a sequence of `Movie` records, plus flags that say which optional columns exist.

Modules:

- `Wrappers`: `Option` and `Result`.
- `Text`: ASCII whitespace stripping, upper-casing and digit runs. It also characterises the leftmost match of `\d+(\.\d+)?` and proves that stripping and upper-casing never move it.
- `Cleaning`: the per-value rules of `clean_data`.
- `Seqs`: counting, first occurrences and distinct values in first-seen order.
- `Ranking`: a stable descending sort with NaN last. This is exactly what `Counter.most_common` does. For `sort_values(ascending=False)`, whose default sort is not stable, it is one admissible outcome. It also covers `most_common(n)` and `head(n)`.
- `Table`: the raw table, column lookup by stripped name, and the runtime column choice.
- `Dedup`: keep-first deduplication, written as a loop over a set of seen keys.
- `Movies`: the row-by-row cleaning, the deduplication key and `clean_data` itself.
- `Stats`: the count and year range of `basic_stats`.
- `Aggregate`: the three rankings. `top_genres` is a loop that fills a counter map.

Behaviours of the code that a reader might not expect, and that the model keeps:

- **Missing columns can raise.** Without an `imdbID` column, `drop_duplicates(subset=['title','year'])` (imdb/imdb.py:95) raises `KeyError` when `title` or `year` is missing and the table has rows. pandas returns an empty table from `drop_duplicates` before it looks at the key columns. `basic_stats` reads `df['year']` unconditionally (imdb/imdb.py:103-104) and raises `KeyError` without it. Both are modelled as `Failure(MissingColumns(...))`.
- **A kept text runtime column raises.** When `runtime_min` is an input column kept as it was (imdb/imdb.py:67-68), `read_csv` leaves it as text if one of its present cells is not a number. Once a present cell remains, `df['runtime_min'].mean()` (imdb/imdb.py:107) then raises `TypeError`. The model returns `Failure(NotNumeric("runtime_min"))`.
- **Runtime column names.** The code tries exactly `runtime`, then exactly `Runtime` (imdb/imdb.py:63-66). A column named `RUNTIME` is not used. With neither, an input column already named `runtime_min` is kept with its raw cells, and only a table without one gets NaN (imdb/imdb.py:67-68). `Movies.RuntimeCell` holds either the extracted minutes or that kept cell.
- **Director counts.** In `top_directors_by_rating`, the `count` aggregation of the `rating` column (imdb/imdb.py:127) counts present ratings, not rows. The model counts present ratings.
- **Absent titles.** An absent title becomes the text `"nan"` (`astype(str)`, imdb/imdb.py:89) before trimming. It does not stay absent.
- **Two kinds of whitespace.** `str.strip()` (imdb/imdb.py:40, 47, 80, 89) removes the ASCII blanks and the information separators U+001C to U+001F. `float(x)` (imdb/imdb.py:44) skips only the blanks, so a separator next to a number makes it fail. The model's `Text.Strip` uses the first set and `Text.NumericTrim` the second.

One more observation: the sentinel test of `clean_rating` never changes the result. No sentinel label contains a digit, so the regex search would yield NaN for it anyway. `Cleaning.NonNumericRating` proves this.

## Model

| member | source | states |
|---|---|---|
| Text.Strip | imdb/imdb.py:47 | the result is the input minus leading and trailing whitespace (ASCII blanks and the separators U+001C to U+001F), and has no whitespace at either end |
| Text.StripOfSeparators | imdb/imdb.py:89 | `"\x1cA\x1f"` strips to `"A"`: the separators count as whitespace for `str.strip()` |
| Text.NumericTrim | imdb/imdb.py:44 | the result is the input minus the leading and trailing ASCII blanks that `float` skips, and has none at either end; separators are kept |
| Text.NumericTrimKeeps | imdb/imdb.py:44 | a character that is not a blank survives the numeric trim |
| Text.StripIdempotent | imdb/imdb.py:89 | stripping twice is stripping once |
| Text.StripOfTrimmed | imdb/imdb.py:80 | text with no whitespace at its ends is unchanged by strip |
| Text.FirstDigitRun | imdb/imdb.py:61 | absent exactly when the text has no digit; otherwise the leftmost maximal run of digits |
| Text.FirstDecimal | imdb/imdb.py:50 | definition of the leftmost `\d+(\.\d+)?` search; its result is characterised by Text.FirstDecimalSpec and Text.DecimalMatchIsFirstDecimal |
| Text.FirstDecimalSpec | imdb/imdb.py:50 | the leftmost `\d+(\.\d+)?` match is absent exactly when the text has no digit; otherwise it starts at the first digit, takes the whole digit run, and takes the fraction when a dot and a digit follow |
| Text.DecimalMatchIsFirstDecimal | imdb/imdb.py:50 | any match that is leftmost, with maximal digit runs and the fraction taken when present, is the one returned (the match is unique) |
| Text.DecimalMatchText | imdb/imdb.py:50-51 | `m.group(1)` is the text of the string at the match position: the whole digits, then `.` and the fraction digits when the group matched |
| Text.FirstDecimalOfUpper | imdb/imdb.py:47-50 | upper-casing the text does not change the leftmost decimal match |
| Text.FirstDecimalOfStrip | imdb/imdb.py:47-50 | stripping the text does not change the leftmost decimal match |
| Text.Upper | imdb/imdb.py:47 | definition of `.upper()`; Text.FirstDecimalOfUpper and Text.HasDigitOfUpper state what it keeps, and Cleaning.RatingNotRated shows it at work |
| Text.HasDigitOfUpper | imdb/imdb.py:47 | upper-casing neither adds nor removes digits |
| Cleaning.ParseFloatLiteral | imdb/imdb.py:44 | definition of the model's literal parser standing for `float(x)`; its properties are Cleaning.ParseFloatNeedsDigit and Cleaning.ParseFloatRejects |
| Cleaning.ParseFloatNeedsDigit | imdb/imdb.py:44 | text accepted by the model's literal parser has a digit |
| Cleaning.ParseFloatRejects | imdb/imdb.py:44 | text holding a character that is neither a digit, a dot, a sign nor an ASCII blank fails the model's literal parser (a separator U+001C to U+001F is such a character) |
| Cleaning.CleanRating | imdb/imdb.py:42-51 | an absent rating stays absent |
| Cleaning.RatingSentinels | imdb/imdb.py:48 | the seven upper-cased labels of the sentinel tuple; Cleaning.SentinelsHaveNoDigit and Cleaning.SentinelRatingIsAbsent state their effect |
| Cleaning.SentinelsHaveNoDigit | imdb/imdb.py:48 | no sentinel label contains a digit |
| Cleaning.SentinelRatingIsAbsent | imdb/imdb.py:45-49 | a rating whose trimmed, upper-cased text is a sentinel label is absent |
| Cleaning.NonNumericRating | imdb/imdb.py:45-51 | a rating that fails the numeric parse is the value of the leftmost `\d+(\.\d+)?` match, and absent exactly when it has no digit |
| Cleaning.RatingSevenHalfOutOfTen | imdb/imdb.py:50-51 | `"7.5/10"` cleans to 7.5 |
| Cleaning.RatingRatedEight | imdb/imdb.py:50-51 | `"Rated 8"` cleans to 8 |
| Cleaning.RatingSixOutOfTen | imdb/imdb.py:50-51 | `"6/10"` cleans to 6 |
| Cleaning.RatingSevenDot | imdb/imdb.py:44 | `"7."` cleans to 7 |
| Cleaning.RatingEightPointOne | imdb/imdb.py:44 | `"8.1"` cleans to 8.1 |
| Cleaning.RatingAfterSeparator | imdb/imdb.py:44-51 | `"\x1c8"` fails the direct parse, because the separator is not skipped, and the regex path gives 8 |
| Cleaning.RatingNotRated | imdb/imdb.py:47-49 | `"Not Rated"` cleans to absent |
| Cleaning.CleanRuntime | imdb/imdb.py:58-62 | absent exactly when the input is absent or has no digit; otherwise the value of the first maximal digit run |
| Cleaning.RuntimeWithUnit | imdb/imdb.py:58-62 | `"142 min"` and `"142"` clean to 142 |
| Cleaning.RuntimeUnknown | imdb/imdb.py:58-62 | `"unknown"` cleans to absent |
| Cleaning.SplitGenres | imdb/imdb.py:80 | at least one piece, and no piece contains a delimiter |
| Cleaning.JoinSplitGenres | imdb/imdb.py:80 | joining the pieces with the text's delimiters, in order, gives the text back |
| Cleaning.SplitGenresAppend | imdb/imdb.py:80 | splitting `a`, a delimiter, then `b` gives the pieces of `a` followed by those of `b` |
| Cleaning.Tokens | imdb/imdb.py:80 | every kept token is non-empty, trimmed and delimiter-free |
| Cleaning.GenreList | imdb/imdb.py:79-82 | every genre of a row is a non-empty, trimmed, delimiter-free token |
| Cleaning.GenreListAppend | imdb/imdb.py:80 | genres keep source order across a delimiter |
| Cleaning.GenreListOfDelimiterFree | imdb/imdb.py:80 | text without a delimiter is one genre (its trimmed self) or none if blank |
| Cleaning.GenreListOfAbsent | imdb/imdb.py:80-82 | an absent or empty genre gives no genres |
| Cleaning.GenreListExample | imdb/imdb.py:80 | `"Action, Drama/Thriller"` gives `["Action", "Drama", "Thriller"]` |
| Cleaning.FillDirector | imdb/imdb.py:85-86 | a present director is kept; the result is empty exactly when absent or empty |
| Cleaning.CleanTitle | imdb/imdb.py:88-89 | the title (absent rendered as `"nan"`) trimmed, with no whitespace at either end |
| Cleaning.ParseYear | imdb/imdb.py:71-72 | a year is present only for a present cell with a digit (never a silent 0) |
| Cleaning.ParseYearOfDigits | imdb/imdb.py:71-72 | a non-empty run of digits is read as its decimal value |
| Cleaning.ParseYearOfNegative | imdb/imdb.py:71-72 | a minus sign before the digits reads as the negated value |
| Table.ColumnIndex | imdb/imdb.py:40 | the first column whose stripped name is the one asked for, or none when no column has it |
| Table.Column | imdb/imdb.py:52-55 | one cell per row; every cell absent when the column is missing |
| Table.RuntimeColumn | imdb/imdb.py:63-66 | `runtime` when present, else `Runtime`, else none |
| Seqs.CountOf | imdb/imdb.py:114 | the count is at most the length, and positive exactly when the value occurs |
| Seqs.IndexOf | imdb/imdb.py:115 | the first position holding the value |
| Seqs.FirstIndices | imdb/imdb.py:93-95 | increasing positions, each the first occurrence of its value, and every first occurrence is listed |
| Seqs.DistinctSpec | imdb/imdb.py:113-114 | the distinct values are exactly the values of the input, without repeats, in first-seen order |
| Seqs.FirstIndicesOfDistinct | imdb/imdb.py:93-95 | a sequence without repeats keeps every position |
| Ranking.Insert | imdb/imdb.py:115 | inserting one position keeps the ranking order and adds exactly that position |
| Ranking.RankPrefix | imdb/imdb.py:115 | every position below `m`, once each, in ranking order |
| Ranking.RankOrderTop | imdb/imdb.py:129 | the first `m` ranked positions are in order, and every position left out ranks after the last one taken |
| Ranking.Tally | imdb/imdb.py:111-114 | definition of the counter's items in insertion order; Ranking.TallyTotal and Ranking.MostCommonOfTallyEntries state its properties |
| Ranking.TakeCount | imdb/imdb.py:115 | how many entries `most_common(n)` returns: none for `n <= 0`, else at most `n` and at most the number of candidates; Ranking.MostCommonRanked and Ranking.MostCommonOfTallyEntries state the resulting length |
| Ranking.HeadCount | imdb/imdb.py:129 | how many rows `head(n)` keeps: `n` (at most all) for `n >= 0`, otherwise all but the last `-n`; Aggregate.HeadByMeanSpec states the resulting length |
| Ranking.MostCommon | imdb/imdb.py:115 | definition of `most_common(n)`; Ranking.MostCommonRanked, Ranking.MostCommonOfTallyOrder and Ranking.MostCommonOfTallyComplete state its properties |
| Ranking.MostCommonRanked | imdb/imdb.py:115 | `most_common(n)` has `n` entries (none for `n <= 0`, all when `n` exceeds them), counts descending, ties in counter order, later entries rank no higher |
| Ranking.MostCommonOfTallyEntries | imdb/imdb.py:112-115 | each entry is a value of the input with its true number of occurrences; the length is `min(n, distinct values)` |
| Ranking.MostCommonOfTallyOrder | imdb/imdb.py:115 | counts never increase, equal counts keep first-seen order, and no value repeats |
| Ranking.MostCommonOfTallyComplete | imdb/imdb.py:115 | a value left out only when `n` entries were returned, and it ranks after the last one |
| Ranking.TallyTotal | imdb/imdb.py:112-114 | the counter's counts add up to the number of values counted |
| Ranking.MostCommonTotal | imdb/imdb.py:111-115 | when `n` covers every distinct value the returned counts add up to the number of values counted |
| Dedup.DropDuplicates | imdb/imdb.py:92-96 | the loop over a seen-key set keeps exactly the first row of every key, renumbered in order |
| Dedup.KeptRows | imdb/imdb.py:92-96 | the kept rows are an order-preserving selection, each the first of its key, no key twice, and every key of the input present |
| Dedup.DropDuplicatesIdempotent | imdb/imdb.py:92-96 | deduplicating the kept rows again keeps them all |
| Movies.CleanRow | imdb/imdb.py:37-89 | definition of one cleaned row; Movies.MissingColumnsDegrade, Movies.RuntimeColumnChoice and Movies.CleanRowOfColumns state what each field is |
| Movies.KeyOf | imdb/imdb.py:92-95 | the deduplication key: `imdbID` when the table has that column, otherwise `(title, year)`; Movies.Deduplicated and Dedup.KeptRows state what deduplicating by it keeps |
| Movies.Deduplicated | imdb/imdb.py:92-96 | definition of the rows `clean_data` keeps; Movies.CleanData computes it with Dedup.DropDuplicates, and Dedup.KeptRows states its properties |
| Movies.CleanRows | imdb/imdb.py:37-89 | one cleaned movie per raw row |
| Movies.MissingColumnsDegrade | imdb/imdb.py:52-86 | with no rating column every row's rating is absent; with none of `runtime`, `Runtime` and `runtime_min`, its runtime is the NaN minutes; with no genre column it has no genres; with no director column the director is empty; with no year column the year is absent |
| Movies.RuntimeColumnChoice | imdb/imdb.py:63-68 | `runtime_min` holds the minutes of `runtime` when that column exists, otherwise those of `Runtime`; with neither, an existing `runtime_min` column's raw cell is kept |
| Movies.KeptRuntimeExample | imdb/imdb.py:63-68 | a table whose only column is `runtime_min`, with one row `"90"`, keeps that input cell |
| Movies.RuntimeKeptAsText | imdb/imdb.py:63-68 | a kept `runtime_min` column is text when one of its present cells is not a number (the column's `read_csv` type); Movies.KeptRuntimeTextExample is an instance |
| Movies.KeptRuntimeTextExample | imdb/imdb.py:63-68 | a table whose only column is `runtime_min`, with one row `"90 min"`, keeps the cell, and the column is text |
| Movies.CleanRowOfColumns | imdb/imdb.py:52-89 | rating, genres, year, title and id are each the cleaning of their own column's cell; a present director is kept; the title has no whitespace at either end |
| Movies.MissingKeyColumns | imdb/imdb.py:95 | lists exactly the missing ones among `title` and `year` |
| Movies.CleanData | imdb/imdb.py:37-98 | fails exactly when the table has rows, there is no `imdbID` column, and `title` or `year` is missing; a table without rows cleans to no rows; otherwise the deduplicated cleaned rows with the table's column flags and whether `runtime_min` is kept text |
| Stats.MinYear | imdb/imdb.py:103 | absent exactly when no year is present; otherwise a present year no larger than any other |
| Stats.MaxYear | imdb/imdb.py:104 | absent exactly when no year is present; otherwise a present year no smaller than any other |
| Stats.BasicStatsOf | imdb/imdb.py:100-108 | fails exactly when there is no year column (`KeyError`), or when `runtime_min` is kept text and a row's cell in it is present (`TypeError`); otherwise the row count and Stats.YearsRange, whose ends are absent exactly when no year is present |
| Stats.TextRuntimeRaises | imdb/imdb.py:107 | with a year column, one row whose kept text `runtime_min` is `"90 min"` gives the `TypeError` |
| Stats.YearsRange | imdb/imdb.py:102-104 | definition of `years_range` from Stats.MinYear and Stats.MaxYear; Stats.YearsRangeBounds states its properties |
| Stats.YearsRangeBounds | imdb/imdb.py:103-104 | for any rows, the range ends are both present or both absent, ordered, and enclose every present year |
| Aggregate.AllGenres | imdb/imdb.py:113-114 | every row's genre list in row order, the sequence the `cnt.update` loop feeds; Aggregate.AllGenresAreTokens and Aggregate.TopGenres state what is counted |
| Aggregate.AllGenresAreTokens | imdb/imdb.py:113-114 | every genre counted is a genre token taken from some row |
| Aggregate.CounterUpdate | imdb/imdb.py:114 | `Counter.update` counts one more list: the counter afterwards is that of everything seen plus the list |
| Aggregate.CounterStep | imdb/imdb.py:114 | one increment, or an insertion with count 1 at the end of the key order, keeps the counter equal to the counts of what it has seen |
| Aggregate.CountMapSpec | imdb/imdb.py:114 | the counter's map holds exactly the values counted, each with its number of occurrences |
| Aggregate.CountsAreTally | imdb/imdb.py:115 | the counter's items in insertion order are the distinct values with their counts |
| Aggregate.TopGenres | imdb/imdb.py:111-115 | the loop's result is `most_common(n)` of the counts of all rows' genres |
| Aggregate.TopGenresEntries | imdb/imdb.py:111-115 | `min(n, distinct genres)` entries, each a genre token with its total count over all rows, counts non-increasing, no genre twice |
| Aggregate.NonEmpty | imdb/imdb.py:121 | exactly the non-empty names |
| Aggregate.CountOfNonEmpty | imdb/imdb.py:121 | dropping empty names keeps every other name's count |
| Aggregate.TopDirectorsByCount | imdb/imdb.py:117-122 | definition of `top_directors_by_count`; Aggregate.TopDirectorsByCountEntries states its properties |
| Aggregate.TopDirectorsByCountEntries | imdb/imdb.py:117-122 | empty with no director column; otherwise each entry is a non-empty director with the number of rows that name them, counts non-increasing, no director twice |
| Aggregate.RatingsOf | imdb/imdb.py:127 | a director has no more present ratings than rows |
| Aggregate.Mean | imdb/imdb.py:127 | the mean is NaN exactly when there is no rating |
| Aggregate.Groups | imdb/imdb.py:127-128 | definition of the per-director groups; Aggregate.GroupsSpec states its properties |
| Aggregate.GroupsSpec | imdb/imdb.py:127-128 | one group per non-empty director, with the count and mean of that director's present ratings |
| Aggregate.AtLeast | imdb/imdb.py:129 | exactly the groups with at least `min_movies` counted ratings |
| Aggregate.Qualified | imdb/imdb.py:126-129 | the groups that pass `count >= min_movies`; Aggregate.QualifiedEntry states what each one is |
| Aggregate.HeadByMean | imdb/imdb.py:129 | definition of `sort_values('rating_mean', ascending=False).head(n)`; Aggregate.HeadByMeanSpec and Aggregate.HeadByMeanComplete state its properties |
| Aggregate.HeadByMeanSpec | imdb/imdb.py:129 | `head(n)` of the ranking by mean: its length, groups of the input only, means in non-increasing order |
| Aggregate.HeadByMeanComplete | imdb/imdb.py:129 | a group left out only when the head is full, and it ranks no higher than the last one taken |
| Aggregate.QualifiedEntry | imdb/imdb.py:127-129 | a qualified group is a non-empty director of the table with at least `min_movies` present ratings and their true mean |
| Aggregate.TopDirectorsByRating | imdb/imdb.py:124-130 | definition of `top_directors_by_rating`; Aggregate.TopDirectorsByRatingEntries, Aggregate.TopDirectorsByRatingOrder and Aggregate.TopDirectorsByRatingComplete state its properties |
| Aggregate.TopDirectorsByRatingEntries | imdb/imdb.py:124-130 | empty with no director column; otherwise `head(n)` rows (at most `n` for `n >= 0`), each a non-empty director with at least `min_movies` present ratings, true count and mean, no director twice |
| Aggregate.TopDirectorsByRatingOrder | imdb/imdb.py:129 | means never increase down the result and NaN means come last |
| Aggregate.TopDirectorsByRatingComplete | imdb/imdb.py:129-130 | a qualifying director left out only when the result is full, with a mean no higher than the last one returned |

## Left out

- `load_data`, `pd.read_csv` and the `os.makedirs` call (imdb/imdb.py:29-35) are file I/O. The raw table is a parameter. `read_csv`'s type inference (for example numeric `imdbID` values) is not modelled; every cell is text or absent. The one exception is whether a kept `runtime_min` column is text (`Movies.RuntimeKeptAsText`), which decides a `TypeError`. There, the model's literal parser stands in for `read_csv`'s number recognition.
- The `print` calls are console output.
- The plots, the Markdown report, the CSV sample and `main` (imdb/imdb.py:132-259) are rendering and file output.
- The `lastupdated` conversion with `pd.to_datetime` (imdb/imdb.py:75-76) is left out: it follows pandas' date-parsing heuristics.
- The values of the mean and median statistics of `basic_stats` (imdb/imdb.py:105-108) are floating-point statistics. Only the `TypeError` of line 107 is modelled.
- Stats.BasicStatsOf: follows pandas 2, where the mean of a text column raises even when every remaining cell looks like a number. pandas 1 instead converted the concatenated text to a number when it could.
- Cleaning.ParseFloatLiteral, Cleaning.ParseFloatNeedsDigit and Cleaning.ParseFloatRejects: the parser accepts only an optional sign with `\d+`, `\d+\.\d*` or `\.\d+`, between ASCII blanks. Python's `float` also accepts `nan`, `inf`, exponents, `_` separators and surrounding Unicode whitespace such as U+00A0. In the model such text takes the regex path instead. The two lemmas are facts about this parser, not about `float`: `float("inf")` has no digit, and `float("1e3")` holds a letter.
- Ratings and means are exact rationals, not IEEE doubles, so rounding is not modelled.
- Text.Strip, Text.NumericTrim, Text.Upper and Text.IsDigit: ASCII only. Python's `strip`, `float`'s trimming, `upper` and `\d` also cover Unicode whitespace (for example U+00A0 and U+3000), letters and digits.
- Cleaning.ParseYear: accepts only an optionally signed integer literal between the same ASCII blanks that `float` skips. Which whitespace `pd.to_numeric` skips is not modelled beyond that. `pd.to_numeric(...).astype('Int64')` also accepts forms such as `1994.0` and raises on a fractional year.
- Table.ColumnIndex: when two columns have the same stripped name, the first one is used. pandas would return both.
- Aggregate.TopDirectorsByRatingOrder: states only that means never increase. It says nothing about the order among equal means, because pandas' default sort is not stable. The model puts ties in first-seen order. It also ignores the lexicographic group order of `groupby`, which matters only for those ties.
- Idempotence of the whole cleaner is left out: the cleaned table has typed columns, not raw text. What is proved instead is that the parts you would rerun are stable:
  - deduplication (`Dedup.DropDuplicatesIdempotent`);
  - stripping (`Text.StripIdempotent`);
  - a cleaned genre token re-splitting to itself (`Cleaning.GenreListOfDelimiterFree`).
- Cleaning a column whose values are not text (`astype(str)` of numbers) is not modelled. Cells are text.
