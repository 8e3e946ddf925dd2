# Greatest movies: a verified model

`src/movies.js` is a small library of queries over an in-memory list of movie
records (title, year, director, duration string, genre list, optional score).
This project models its eight queries and the unexported `getUniqueDirectors`
in Dafny, and proves what each one computes:

- `movie.dfy` (`MovieRecord`): the record, the `Duration` that is first a
  string and later a number of minutes, the drama test, and `filter`.
- `directors.dfy` (`Directors`): `getAllDirectors`; `getUniqueDirectors` as
  `[...new Set(...)]`, which keeps each value at its first occurrence.
- `scores.dfy` (`Scores`): `howManyMovies`, `scoresAverage` and
  `dramaMoviesScore`.
- `ordering.dfy` (`Ordering`): `orderByYear` copies the list into an array and
  sorts it in place with an insertion sort. `orderAlphabetically` sorts the
  titles and keeps the first 20.
- `duration.dfy` (`Duration`): `turnHoursToMinutes`. The regular expressions
  `/(\d+)h/` and `/(\d+)min/` are modelled as a leftmost search. Also a
  formatter for "<N>h <M>min" strings and the proof that parsing inverts it.
- `best_year.dfy` (`BestYear`): `bestYearAvg`. One method builds the
  `{ sum, count }` table keyed by the year's string, as `reduce` does. Another
  runs the `for...in` selection loop over the keys in any order. The choice is
  proved to be the best key, and the same whatever the visiting order.
- `string_order.dfy` (`StringOrder`): lexicographic order on strings. On
  strings with no character above U+FFFF, year keys among them, it is
  JavaScript's `<` on strings. It is also this model's `localeCompare`.
- `decimal.dfy` (`Decimal`): `parseInt` of a run of digits, and writing a
  number in decimal (`YearKey` uses it for object keys).
- `wrappers.dfy` (`Wrappers`): `Option` for `undefined` scores and `null` results.

Two behaviours of the code are modelled as written:

- `bestYearAvg` adds `movie.score` without `|| 0`. A record without a score
  therefore makes its year's sum NaN, and such a year is never chosen
  (`BestYear.TallySumIsNaN`).
- The selection starts from `bestYear = ''` and `bestAvg = 0`. When no year's
  average is above 0, the result keeps those starting values
  (`BestYear.IsBest`).

## Model

| member | source | states |
|---|---|---|
| `MovieRecord.Filter` | src/movies.js:17 | the kept records are the input records that pass the test, all of them, and no more than the input |
| `MovieRecord.FilterAppend` | src/movies.js:29 | filtering a concatenation filters each part, so the filter keeps the original order |
| `Directors.GetAllDirectors` | src/movies.js:4-6 | same length as the input, and element i is the director of movie i |
| `Directors.GetAllDirectorsAppend` | src/movies.js:5 | the projection commutes with concatenation |
| `Directors.Dedup` | src/movies.js:12 | spreading a Set built from a list gives no duplicates and exactly the list's values |
| `Directors.DedupKeepsFirstOccurrenceOrder` | src/movies.js:12 | the values appear in the order of their first occurrences in the list |
| `Directors.GetUniqueDirectors` | src/movies.js:10-13 | no duplicates, and a name is in it exactly when it is in `getAllDirectors` |
| `Scores.HowManyMovies` | src/movies.js:16-18 | the count never exceeds the number of movies |
| `Scores.HowManyMoviesCountsPositions` | src/movies.js:16-18 | the count equals the number of positions holding a "Steven Spielberg" movie whose genres include "Drama" |
| `Scores.ScoresAverage` | src/movies.js:21-25 | 0 for an empty list; otherwise the average times the number of movies is the total score |
| `Scores.ScoresAverageBounds` | src/movies.js:21-25 | the average lies between the smallest and largest counted score |
| `Scores.MissingScoreCountsAsZero` | src/movies.js:23 | a record without a score changes the average exactly as a score of 0 would |
| `Scores.ScoresAverageExample` | src/movies.js:21-25 | scores 8 and 6 average to 7 |
| `Scores.DramaMoviesScore` | src/movies.js:28-31 | `scoresAverage` of the drama records, in their original order; 0 when no movie is a drama |
| `Scores.DramaMoviesScoreIgnoresOthers` | src/movies.js:28-31 | adding a non-drama movie at either end leaves `dramaMoviesScore` unchanged |
| `Ordering.YearTitleLeMeaning` | src/movies.js:35-40 | the comparator orders by year, and equal years by title |
| `Ordering.SortByYear` | src/movies.js:35-40 | the array sorted in place is ordered by the comparator and is a permutation of the original |
| `Ordering.InsertIntoPrefix` | src/movies.js:35-40 | one insertion pass extends the sorted prefix by one, keeps the same movies, and leaves the positions after it unchanged |
| `Ordering.OrderByYear` | src/movies.js:34-41 | the result is ordered by year, then title, and is a permutation of the input; the input is a value and unchanged |
| `Ordering.SortTitles` | src/movies.js:45 | the sorted titles are in ascending order and are a permutation of the titles |
| `Ordering.SortedTitlesUnique` | src/movies.js:45 | any two sorted permutations of the same titles are equal, so the sort algorithm does not matter |
| `Ordering.OrderAlphabetically` | src/movies.js:44-47 | min(20, n) titles, in ascending order, drawn from the movies' titles |
| `Ordering.OrderAlphabeticallyKeepsSmallest` | src/movies.js:44-47 | the result is a prefix of the fully sorted title list, and every title left out sorts at or after every title kept |
| `Duration.RunEnd` | src/movies.js:55-56 | the end of the maximal digit run from a position: digits up to it, a non-digit or the end at it |
| `Duration.FindMatch` | src/movies.js:55-56 | the leftmost position where digits followed by the suffix match, or none when no position matches |
| `Duration.LeftmostMatchStartsRun` | src/movies.js:55-56 | the leftmost match starts a maximal run of digits, so the capture is the whole run |
| `Duration.DurationMinutes` | src/movies.js:52-63 | hours * 60 plus minutes read from one string; with no "h" match it is the minutes alone, with no "min" match the hours * 60 alone |
| `Duration.TurnHoursToMinutes` | src/movies.js:50-66 | same length; every field but the duration is unchanged; the duration becomes hours * 60 + minutes as read from the string |
| `Duration.DurationRoundTrip` | src/movies.js:52-63 | reading "<N>h <M>min", "<N>h", "<M>min" or "" gives N * 60 + M, with a missing part counting 0 |
| `Duration.NoDigitsGivesZero` | src/movies.js:53-62 | a string with no digit converts to 0 |
| `Duration.HoursAndMinutesExample` | src/movies.js:50-66 | "2h 22min" converts to 142 |
| `Duration.HoursOnlyExample` | src/movies.js:50-66 | "1h" converts to 60 |
| `Duration.MinutesOnlyExample` | src/movies.js:50-66 | "45min" converts to 45 |
| `Decimal.DigitsValueOfDecimal` | src/movies.js:58 | parsing a number's decimal rendering gives back the number |
| `BestYear.YearKeyInjective` | src/movies.js:72 | distinct years become distinct object keys |
| `BestYear.TallyScores` | src/movies.js:71-76 | the reduce loop builds exactly the table of the specification function |
| `BestYear.TallyCountsSumToLength` | src/movies.js:71-76 | the counts in the table, over its keys, add up to the number of movies |
| `BestYear.TallyCountPerYear` | src/movies.js:71-76 | a year has an entry exactly when it occurs, and its count is the number of its movies |
| `BestYear.TallySumPerYear` | src/movies.js:71-76 | a year's sum, when it is not NaN, is the total score of that year's movies |
| `BestYear.TallySumIsNaN` | src/movies.js:73 | a year's sum is NaN exactly when one of its movies has no score |
| `BestYear.ConsiderKeepsBest` | src/movies.js:79-85 | one turn of the selection loop keeps the running choice the best among the keys seen |
| `BestYear.SelectBest` | src/movies.js:77-85 | the loop ends on the key with the largest average, ties to the smaller key string; it keeps '' and 0 when no average is positive |
| `BestYear.BestIsUnique` | src/movies.js:79-85 | the choice is determined by the table, so the key visiting order does not matter |
| `BestYear.BestYearAvg` | src/movies.js:69-85 | null exactly for an empty list; otherwise the best year of the table built from the movies |
| `BestYear.BestYearExample` | src/movies.js:69-87 | movies from 2000 scored 5 and from 2001 scored 9 give year "2001" with average 9 |
| `StringOrder.LessTrichotomy` | src/movies.js:81 | any two strings are ordered one way or the other, or are equal |
| `StringOrder.LessTransitive` | src/movies.js:81 | the string order is transitive |

## Left out

- The data load (src/movies.js:1) and the `module.exports` block (src/movies.js:92-103) are module plumbing.
- ScoresAverage: returns the exact mean. The rounding to two decimals with `toFixed(2)` and `parseFloat` depends on IEEE doubles and number formatting.
- DramaMoviesScore: the same rounding is left out, since it is `scoresAverage` of the dramas.
- BestYearAvg: returns the chosen year string and its average, not the sentence. The `% 1` test, `toFixed(1)` and the template string are number formatting.
- Scores are exact reals. Sums and averages are not rounded as IEEE doubles, and a score of NaN is not modelled.
- StringOrder.Less: compares whole characters. JavaScript's `<` compares UTF-16 code units, so the two can disagree on strings with characters above U+FFFF; year keys have none.
- `localeCompare` is modelled as lexicographic order by character code. Real collation depends on the locale and ICU.
- OrderByYear, SortByYear, InsertIntoPrefix: do not state stability. The JavaScript sort keeps the input order of movies with equal year and title; the contracts say only that the result is ordered and a permutation, which fixes it up to the order of movies equal in both year and title.
- The `for...in` loop visits keys in an arbitrary order. JavaScript visits array-index keys (0 up to 2^32 - 2) in ascending order and other keys, such as "-5", in insertion order. `BestYear.BestIsUnique` shows the result does not depend on the order.
- TurnHoursToMinutes: requires every duration to be a string. On a number, `match` would throw a TypeError, and that error is not modelled.
- DurationMinutes: `parseInt` is exact on long digit runs. JavaScript loses precision beyond 2^53.
- YearKey: writes every integer year in plain decimal. JavaScript uses exponent notation from 10^21, and fractional years are not modelled.
