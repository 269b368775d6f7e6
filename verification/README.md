# Bikeshare filter-and-aggregate pipeline, modelled in Dafny

This project models the core of an interactive bikeshare explorer (`py/bikeshare.py`):
the user picks a city, a month (January to June, or "all") and a weekday (or "all");
the city's trip records are restricted to that month and day; and four reports are
computed from what is left — popular travel times, popular stations and route, total
and mean trip duration, and user statistics (user types everywhere, gender and birth
year except in Washington).

Modules, in pipeline order:

- `Results` — `Option`, `Result` and the failure conditions (`UnknownCity`, `MissingSource`,
  `UnknownMonth`, `UnknownDay`, `NoDataForFilter`).
- `Text` — ASCII lower-casing of answers.
- `Registry` — the city-to-CSV-file map.
- `Filters` — the accepted answers, canonicalisation, the ask-again loop over a finite
  stream of answers, and the validated `Descriptor`.
- `Trips` — the trip record with month, day-of-week and hour already derived, its columns,
  and the duration sum.
- `Loader` — month and day name to number, order-preserving selection, and `LoadData`.
- `Counting` — occurrence counts, most frequent value, mode (smallest most frequent value),
  minimum, maximum and value-count tables.
- `Durations` — the divmod cascade into days/hours/minutes/seconds and the mean split.
- `Stats` — the four reports.
- `Scenarios` — two worked examples.

Design decisions:

- A raw CSV file is modelled as an already-parsed `seq<Trip>`. `LoadData` takes a map from
  file name to records, so a missing file is an explicit `MissingSource` failure.
- The ask-again loops of `get_filters` are modelled as a finite stream of answers. `Ask`
  consumes answers until one is accepted. `GetFilters` asks city, month and day in turn on
  the same stream. When the stream runs out, the result is `None`.
- The code raises on an empty filtered dataset: `mode()[0]` and `idxmax()` have nothing to
  pick, and `int(NaN)` fails. Each report is therefore a `Result`, with `NoDataForFilter`
  exactly when the code would raise. In the code, `user_stats` for Washington does not fail on an empty dataset,
  because it only counts user types. So `UserStats` returns `Ok` there too.
- Tie-breaks: `mode()[0]` returns the smallest of the most frequent values, which is
  `Counting.Mode`. `value_counts().idxmax()` and `groupby(...).size().idxmax()` return
  some most frequent value. `Counting.MostFrequent` promises only that, and picks the one
  that occurs first in row order.

## Model

| member | source | states |
|---|---|---|
| `Registry.CitiesAreKeys` | py/bikeshare.py:6-8 | the registry's keys are exactly the three cities the city prompt accepts |
| `Text.Lower` | py/bikeshare.py:21 | lower-casing keeps the length, turns each upper-case ASCII letter into its lower-case letter, leaves every other character alone and leaves no upper-case letter |
| `Text.LowerIdempotent` | py/bikeshare.py:21-36 | lower-casing an already lower-cased answer changes nothing |
| `Filters.ChoicesAreLower` | py/bikeshare.py:22-34 | every accepted city, month and day answer is lower-case |
| `Filters.ValidCityHasSource` | py/bikeshare.py:54 | every accepted city is a key of the registry, so the file lookup cannot fail |
| `Filters.Canonicalise` | py/bikeshare.py:21-22 | an answer is accepted exactly when its lower-cased form is one of the allowed values, and is then returned lower-cased |
| `Filters.CanonicaliseIgnoresCase` | py/bikeshare.py:21-36 | an answer and its lower-cased form are accepted or rejected alike, with the same value |
| `Filters.CanonicaliseIdempotent` | py/bikeshare.py:21-36 | resolving an accepted value again yields the same value |
| `Filters.Ask` | py/bikeshare.py:21-24 | the accepted value is the first answer in the stream that is allowed, all earlier answers were rejected, and `None` means no answer was allowed |
| `Filters.AskSkipsRejected` | py/bikeshare.py:22-24 | a rejected answer in front of the stream only adds one to the number of answers used up |
| `Filters.GetFilters` | py/bikeshare.py:10-39 | the returned city is the first accepted city answer, the month the first accepted month answer after it, and the day the first accepted day answer after that; `None` exactly when one of the three runs out of answers; any returned value is lower-case, in its allowed set, and the city is a registry key |
| `Filters.GetFiltersAcceptsValidAnswers` | py/bikeshare.py:21-39 | three acceptable answers are returned lower-cased, without asking again |
| `Trips.TotalDuration` | py/bikeshare.py:163 | the sum is at least each trip's duration, is zero exactly when every duration is zero, and is the duration itself for one trip |
| `Trips.Present` | py/bikeshare.py:193-199 | the recorded cells of an optional column, each value kept exactly as often as it is recorded; empty cells are skipped, as `value_counts`, `min`, `max` and `mode` skip them |
| `Trips.TotalDurationAppend` | py/bikeshare.py:163 | the total duration of two record sets laid end to end is the sum of their totals |
| `Loader.IndexOf` | py/bikeshare.py:89 | the position returned holds the value, and no earlier position does |
| `Loader.MonthIndex` | py/bikeshare.py:88-89 | a month name maps to a number in 1..6 whose entry in January..June is that name |
| `Loader.DayIndex` | py/bikeshare.py:96-97 | a weekday name maps to a number in 0..6 whose entry in Monday..Sunday is that name |
| `Loader.MonthIndexRoundTrip` | py/bikeshare.py:88-89 | the month number of the name of month m is m, so the mapping is a bijection onto 1..6 |
| `Loader.DayIndexRoundTrip` | py/bikeshare.py:96-97 | the day number of the name of day d is d, so the mapping is a bijection onto 0..6 |
| `Loader.MonthNamedAt` | py/bikeshare.py:88-89 | a month number equals a name's number exactly when the name sits at that position of January..June |
| `Loader.DayNamedAt` | py/bikeshare.py:96-97 | a day number equals a name's number exactly when the name sits at that position of Monday..Sunday |
| `Loader.Select` | py/bikeshare.py:91-99 | a boolean-mask filter keeps no more rows than it is given, and every kept row satisfies the criterion |
| `Loader.SelectExact` | py/bikeshare.py:91 | every record that satisfies the criterion is kept as often as it occurs, and a record that does not is never kept |
| `Loader.SelectIsSubsequence` | py/bikeshare.py:86-99 | the kept records are a subsequence of the input, in the original order |
| `Loader.SubsequenceMultiset` | py/bikeshare.py:86-99 | a subsequence holds no record more often than the input does |
| `Loader.SelectUnique` | py/bikeshare.py:91-99 | any subsequence of the input made of matching records that drops no matching record is the selection |
| `Loader.SelectConjunction` | py/bikeshare.py:86-99 | selecting by month and then by day equals one selection by both criteria |
| `Loader.SelectCommutes` | py/bikeshare.py:86-99 | the order of the month and day selections does not matter |
| `Loader.SelectKeepsAll` | py/bikeshare.py:86-101 | a selection that every record passes returns the input unchanged |
| `Loader.Matches` | py/bikeshare.py:86-99 | a record passes exactly when its month is the named month (or month is "all") and its weekday is the named day (or day is "all"), stated through the name lists rather than the index functions |
| `Loader.Restrict` | py/bikeshare.py:85-99 | the month-then-day cascade keeps only matching records, and keeps every matching record as often as it occurs |
| `Loader.RestrictIsSelect` | py/bikeshare.py:85-99 | the month-then-day restriction, each skipped for "all", is one selection by the matching predicate |
| `Loader.LoadData` | py/bikeshare.py:41-101 | fails with `UnknownCity` exactly for non-registry cities, with `MissingSource` exactly for absent files, with `UnknownMonth` exactly for a bad month after those, and with `UnknownDay` exactly for a bad day after that; succeeds exactly for valid selections; the result is an order-preserving subsequence of the city's records, all matching, none dropped |
| `Loader.LoadDataAllIsIdentity` | py/bikeshare.py:86-101 | with month and day "all", the city's records come back unchanged |
| `Loader.LoadDataOrderIrrelevant` | py/bikeshare.py:85-99 | filtering by day first and month second gives the same records |
| `Counting.MostFrequent` | py/bikeshare.py:141 | the result occurs in the column and no value occurs more often |
| `Counting.StrictWinnerIsMostFrequent` | py/bikeshare.py:149 | a value that occurs strictly more often than every other value is the one reported |
| `Counting.Mode` | py/bikeshare.py:114 | the result is most frequent and is the smallest of the most frequent values |
| `Counting.ModeUnique` | py/bikeshare.py:114 | at most one value has the mode property, so `Mode` is the column's only mode |
| `Counting.Min` | py/bikeshare.py:197 | the result occurs in the column and is at most every value |
| `Counting.Max` | py/bikeshare.py:198 | the result occurs in the column and is at least every value |
| `Counting.MinModeMax` | py/bikeshare.py:197-199 | earliest <= most common <= most recent |
| `Counting.Tally` | py/bikeshare.py:185 | each table row counts one value exactly, every value of the column has a row, and rows are distinct |
| `Counting.TallyTotal` | py/bikeshare.py:185 | the counts of a value-count table add up to the number of rows counted |
| `Durations.DivMod` | py/bikeshare.py:164 | quotient times divisor plus remainder is the dividend, and the remainder is below the divisor |
| `Durations.Decompose` | py/bikeshare.py:163-166 | d*86400 + h*3600 + m*60 + s is the total, with h < 24, m < 60 and s < 60 |
| `Durations.NormalUnique` | py/bikeshare.py:164-166 | two normal day/hour/minute/second splits of the same total are equal |
| `Durations.DecomposeToSeconds` | py/bikeshare.py:164-166 | decomposing the seconds of a normal split gives that split back |
| `Durations.MeanSplit` | py/bikeshare.py:170-171 | minutes*60 + seconds is the mean duration, with 0 <= seconds < 60 |
| `Durations.MeanSplitMinutesAreFloor` | py/bikeshare.py:171 | the minutes are the whole number of minutes in the mean |
| `Stats.TimeStats` | py/bikeshare.py:103-128 | fails exactly on an empty dataset; reports the month mode only for "all" months and the day mode only for "all" days; always reports the hour mode |
| `Stats.TimeStatsInRange` | py/bikeshare.py:113-127 | on well-formed records the reported month is in 1..12, the day in 0..6 and the hour in 0..23 |
| `Stats.StationStats` | py/bikeshare.py:133-150 | fails exactly on an empty dataset; otherwise the start station, end station and route are each most frequent in their column |
| `Stats.PopularRouteIsATrip` | py/bikeshare.py:149 | the reported route is the start and end station of some trip |
| `Stats.TripDurationStats` | py/bikeshare.py:155-172 | fails exactly on an empty dataset; otherwise the total split round-trips to the duration sum, and the mean split adds up to sum / count with seconds below 60 |
| `Stats.UserStats` | py/bikeshare.py:177-200 | the user-type table lists every user type once with its exact, positive count, and the counts sum to the number of trips; Washington gets no gender or birth-year statistics; elsewhere it fails exactly when no birth year is recorded, and otherwise the gender table lists every recorded gender once with its exact count, and earliest <= most common <= most recent |
| `Scenarios.JanuaryMondays` | py/bikeshare.py:86-171 | three January Monday trips of 120, 300 and 600 s, filtered to January: Monday is the most popular day, the total is 0 d 0 h 17 min 0 s and the mean is 5 min 40 s |
| `Scenarios.SharedRoute` | py/bikeshare.py:149 | two trips on one route and a third on another: the shared route is the most popular |

## Left out

- Console I/O: the prompts and messages, the `main` restart loop (lines 206-219) and the elapsed-time reports. The ask-again loops are modelled over a finite stream of answers, and the reports are returned as values.
- The raw-data preview (lines 56-76). It is console-only, and as written it shows nothing: line 72 evaluates the undefined name `row_index_start` before anything is printed, so `load_data` raises NameError unless the first raw-data answer, lower-cased, is exactly "no". An answer corrected by `checkRawDataInput` (lines 60-66) is lost too, because that function never returns it. `LoadData` models only the path where the first raw-data answer is "no".
- CSV reading and date-time parsing (`read_csv`, `to_datetime`, `.dt.month`, `.dt.dayofweek`, `.dt.hour`). A trip carries its derived month, day-of-week and hour. `WellFormed` states their ranges.
- Text.Lower: only ASCII A-Z are lower-cased. Python's `str.lower` also maps other characters, e.g. the Kelvin sign to `k`, so it would accept "new yor" followed by a Kelvin sign as "new york". Unicode case mapping is not modelled.
- Floating point: durations are natural numbers of seconds and the mean is an exact real. `round(s, 2)` and the `int(...)` display casts are not modelled.
- Display: the `calendar.month_name` and `calendar.day_name` lookups for the popular month and day, and the print at line 146, which shows the start station where the end station is meant. `StationStats` computes the end station correctly.
- Missing cells in the user-type column. `value_counts` would skip them, so a user-type column with empty cells would not sum to the number of trips. The model's user type is always present. Gender and birth year are optional per trip, and only recorded cells are counted.
- Counting.Tally: the rows come in order of first occurrence in the column, whereas `value_counts` (lines 185, 193) lists them by descending count; `IsValueCounts` promises no row order, because that order is a detail of the pandas library.
- Stats.UserStats: the user-type and gender tables inherit `Tally`'s first-occurrence row order, whereas `value_counts` (lines 185, 193) lists them by descending count; `IsValueCounts` promises no row order.
- Counting.MostFrequent: the pandas tie orders are not modelled; the contract promises only "a most frequent value", and the function picks the one met first in row order. `value_counts().idxmax()` (lines 141, 145) picks whichever tied value pandas' count sort puts first. `groupby(["Start Station", "End Station"]).size().idxmax()` (line 149) picks the smallest (start, end) key among the most frequent routes, because groupby sorts its keys.
