# TryHackMe yearly-activity plotter, modelled in Dafny

This project models the computational core of `app.py`, a command-line tool.
The tool looks up a TryHackMe user, fetches that user's daily activity counts
for one or more years, and plots them as a single daily series. The model covers
what happens between the command line and the plot:

- **Years** (`years.dfy`): `resolve_year` and `parse_years`. A comma-separated
  `--years` list, an inclusive `--year-start`/`--year-end` range and a single
  `--year` are merged into one ascending list without repeats. A non-numeric
  item is an error. With nothing requested, the current year is used.
- **Username** (`username.dfy`): `resolve_username`. `--username` wins over the
  positional input. Failing both, the prompt is used. A profile URL
  (`https://host/p/<name>`) is cut down to its user segment.
- **Series** (`series.dfy`): `build_date_series`, `build_combined_series` and the
  end of `main`:
  - Sparse `{date, count}` records become a map from day to count. The
    single-year builder keeps the last record for a day. The combined builder,
    the one `main` calls, adds every record's count, within one year's list as
    well as across years.
  - The walk then emits one entry per calendar day, from Jan 1 of the first year
    to `min(today, Dec 31 of the last year)`, with the mapped count or 0.
  - `main` keeps the years whose fetch returned a list and builds the combined
    series over them. It labels the chart `"2024"` or `"2023-2025"`.
- **Calendar** (`calendar.dfy`) and **Text** (`text.dfy`) model the Python
  library behaviour the core relies on:
  - `datetime.date`: validity, comparison, `toordinal`, `+ timedelta(days=1)`,
    and `fromisoformat`/`isoformat` on `YYYY-MM-DD`;
  - `str.strip`, `str.rstrip`, `str.split`, `list.index`, `int()` and `str()`.

The program's outside world enters as parameters:

- today's date;
- the current year;
- the line the user would type at the prompt;
- the outcome of each yearly fetch: `None` for an HTTP 404, or the record list.

Errors the source raises as `ValueError` become `Failure` values of a
`Result`. The `OverflowError` of stepping past 9999-12-31 appears only in
`Series.WalkAsWritten`. The builders use the corrected walk; see "## Findings".

## Model

| member | source | states |
|---|---|---|
| `Text.TrimMeaning` | app.py:49 | `strip()` leaves the slice of the text between its leading and trailing whitespace runs (Python's `isspace` set), and that slice neither starts nor ends with whitespace |
| `Text.TrimIdempotent` | app.py:70-73 | stripping an already stripped candidate again changes nothing |
| `Text.StripTrailing` | app.py:75 | `rstrip("/")` is a prefix of the text, everything it drops is a slash, and it does not end in a slash |
| `Text.FirstIndex` | app.py:76-77 | `"p" in parts` fails exactly when `"p"` is absent; otherwise `parts.index("p")` is the first position holding it |
| `Text.Split` | app.py:48 | `split(sep)` yields at least one part, no part contains the separator, and joining the parts with it gives the text back |
| `Text.SplitJoin` | app.py:75 | splitting a join of separator-free parts gives the same parts back |
| `Text.IntToStringRoundTrip` | app.py:228 | `int(str(n)) == n` for every integer |
| `Text.IntToStringDigits` | app.py:230 | the printed form of a non-negative year is all digits, so it contains no `-` |
| `Calendar.MinDate` | app.py:125 | `min(today, end_of_year)` is no later than either argument and is one of them |
| `Calendar.Succ` | app.py:136 | the next day is a valid date strictly later than the current one |
| `Calendar.BeforeOrdinal` | app.py:133 | comparing dates by `(year, month, day)` agrees with comparing their day numbers |
| `Calendar.OrdinalInjective` | app.py:120 | two valid dates share a day number only when they are equal, so each map key is one day |
| `Calendar.SuccOrdinal` | app.py:136 | adding one day adds one to the day number, across month, year and leap-day ends |
| `Calendar.SuccIsNext` | app.py:133-136 | no date lies strictly between a date and its next day |
| `Calendar.YearLength` | app.py:122-124 | Jan 1 to Dec 31 of a year spans 365 days, or 366 in a leap year |
| `Calendar.ParseIsoDate` | app.py:117 | a date that `fromisoformat` accepts lies in years 1..9999 and is a real calendar day |
| `Calendar.ParseFormat` | app.py:117 | every representable date reads back from its ISO text |
| `Calendar.FormatParse` | app.py:117 | every accepted text is exactly the ISO text of its date, so each day has one accepted spelling |
| `Years.ResolveYear` | app.py:39-42 | no value, or blank text, gives the current year; an integer comes back unchanged; other text gives `int()` of the stripped text, and fails exactly when that text is not an integer |
| `Years.ListedYearsMeaning` | app.py:47-52 | the comma loop fails exactly when some stripped, non-blank item is not an integer; otherwise it yields exactly the years the items name, skipping blank items |
| `Years.Range` | app.py:59 | `range(start, end + 1)` holds exactly the years from start to end, `end - start + 1` of them |
| `Years.SortedUnique` | app.py:64 | `sorted(set(years))` is strictly ascending and holds exactly the input's values |
| `Years.StrictlyIncreasingUnique` | app.py:64 | two strictly ascending lists with the same values are equal, so the result is fixed by the set of requested years |
| `Years.ParseYears` | app.py:45-65 | fails exactly when a comma item is not an integer; otherwise the result is strictly ascending and non-empty. A year is in it exactly when a comma item names it, or it lies within the (possibly swapped) range, or neither source asks for anything and it is `--year` (or the current year) |
| `Years.NothingListedCollectsNothing` | app.py:61 | with no bad item, the comma list contributes nothing exactly when every item is blank |
| `Years.ParseYearsSwapBounds` | app.py:57-58 | exchanging `--year-start` and `--year-end` does not change the result |
| `Years.ParseYearsFallback` | app.py:61-62 | with no listed year and no range bound, the result is `[--year]`, or `[current year]` without it |
| `Years.ParseYearsReversedRangeExample` | app.py:54-59 | start 2022 with end 2020 gives `[2020, 2021, 2022]` |
| `Username.ProfileSegment` | app.py:75-80 | the result contains no slash; after the first `p` segment that is not last it is the next segment, otherwise it is the last segment |
| `Username.ResolveUsername` | app.py:68-82 | text that is not an `http(s)://` URL comes back stripped and otherwise unchanged. A URL gives the segment after its first `p` segment, or else its last segment, and that result has no slash |
| `Username.StripTrailingRepeat` | app.py:75 | `rstrip("/")` removes exactly the trailing slashes appended to a profile URL |
| `Username.ProfileUrlIsUrl` | app.py:73-74 | a profile URL needs no stripping and counts as an HTTP URL |
| `Username.ProfileUrlSegments` | app.py:75 | a profile URL splits into the scheme, an empty segment, the host, `p` and the name |
| `Username.ProfileUrlRoundTrip` | app.py:73-79 | `http(s)://host/p/<name>` gives back `<name>` for any number of trailing slashes |
| `Username.PlainNameKept` | app.py:73-82 | a non-blank name that is not a URL resolves to itself, stripped |
| `Username.UsernamePrecedence` | app.py:69-71 | a non-blank `--username` decides alone; an empty one counts as absent; a whitespace-only one is truthy, so the positional input is skipped and the prompt answers instead |
| `Series.LastWinsMeaning` | app.py:113-120 | in the single-year map, a day's count is the count of the last record whose date parses to that day, and the day is absent (count 0) when no record does |
| `Series.AddEntriesMeaning` | app.py:146-153 | in the combined map, each year's records raise a day's count by the sum of their counts for that day |
| `Series.AddYearsMeaning` | app.py:143-153 | a day's combined count is the total of its records over every listed year; a year without data adds nothing |
| `Series.Walk` | app.py:130-137 | the loop emits `end - start + 1` valid days when start is not after end, and nothing otherwise; the k-th entry is k days after the start |
| `Series.WalkSpan` | app.py:130-137 | the walk starts at the start, ends at the end, advances one day per entry, is strictly ascending, and holds exactly the valid days in between |
| `Series.Dense` | app.py:166-173 | the series has one count per day of the span; each count is the map's entry for that day, or 0 |
| `Series.BuildDateSeries` | app.py:109-137 | fails with an out-of-range year outside 1..9999, and with "Year is in the future" exactly when today is before Jan 1. Otherwise, using the corrected walk, it covers Jan 1 to `min(today, Dec 31)` day by day, and each count is the last record's count for that day, or 0 |
| `Series.LastWinsCounts` | app.py:120-135 | a series read from the single-year map carries each day's last record count, and 0 for days without records |
| `Series.MinOf` | app.py:158 | `min(years)` is one of the years and no larger than any of them |
| `Series.MaxOf` | app.py:160 | `max(years)` is one of the years and no smaller than any of them |
| `Series.BuildCombinedSeries` | app.py:140-174 | fails with "No years" on an empty list; with an out-of-range error naming `min(years)` when that is outside 1..9999, else naming `max(years)` when that is above 9999; and otherwise with "Year range is in the future" exactly when today is before Jan 1 of the earliest year. Otherwise, using the corrected walk, it covers that Jan 1 to `min(today, Dec 31 of the latest year)` day by day, and each count is the day's total over all listed years |
| `Series.SummedCounts` | app.py:153-171 | a series read from the combined map carries each day's total over all listed years |
| `Series.FullYear` | app.py:122-137 | once a year is over, its series has `DaysInYear` entries, ends on Dec 31 and, in a leap year, includes Feb 29 |
| `Series.LastWinsOverwrites` | app.py:113-120 | two records for the same day with counts 5 then 3 give 3 in the single-year series |
| `Series.CombinedAdds` | app.py:144-153 | the same two records in two different years' lists total 8 in the combined map |
| `Series.UniqueTotal` | app.py:120-153 | with at most one record per day, summing and last-write-wins give the same count |
| `Series.CombinedOfOneYear` | app.py:109-174 | the combined builder over one year succeeds exactly when the single-year builder does. With at most one record per day it returns the same series |
| `Series.WalkAsWrittenOverflow` | app.py:133-136 | the loop as written raises `OverflowError` exactly when its span ends on 9999-12-31, and otherwise returns the same days as `Walk` |
| `Series.WalkAsWrittenLastDay` | app.py:133-136 | on the span 9999-12-31 to 9999-12-31, the loop as written overflows, while the corrected walk returns that one day |
| `Series.YearLabelRoundTrip` | app.py:227-231 | one year's label parses back to that year; a longer list's label splits at the dash into exactly the first and the last year |
| `Series.FetchedYears` | app.py:213-220 | a year is kept exactly when one of its fetches returned a list |
| `Series.ByYear` | app.py:212-220 | `activities_by_year` has a key exactly for each year whose fetch returned a list |
| `Series.NothingFetched` | app.py:221 | the map is empty exactly when no fetch returned a list |
| `Series.PlanChart` | app.py:212-231 | there is nothing to plot exactly when every fetch came back empty-handed (404) |
| `Series.PlanChartStart` | app.py:225-226 | a plotted series starts on Jan 1 of the earliest year whose fetch returned a list |

## Left out

- Network access: `fetch_user_id` and `fetch_yearly_activity` are not modelled.
  Each yearly fetch enters `Series.PlanChart` as a parameter: `None` for a 404,
  or the record list. `raise_for_status`, the JSON shape checks and
  `requests.RequestException` are outside the model.
- `parse_args`: `Years.YearArgs` holds what the argument parser produces.
  argparse's own rejection of a non-integer `--year` is not modelled.
- `prompt_if_missing` and `input()`: the line the user types is the `prompted`
  parameter of `Username.ResolveUsername`.
- `plot_activity` (matplotlib) is not modelled. Nor are `main`'s messages and
  exit codes; its `ValueError` paths appear as `Failure` results.
- `dt.date.today()` is the `today` parameter (a date in years 1..9999). The
  current year is a parameter too.
- `date.fromisoformat`: only the `YYYY-MM-DD` form is modelled. Newer Python
  versions also accept forms such as `YYYYMMDD` or week dates. The model rejects
  those, as the Python versions that read only `YYYY-MM-DD` do.
- `int()` on text: the model takes an optional sign and ASCII digits.
  Underscore separators and non-ASCII decimal digits are not modelled.
- Record fields:
  - A count is an optional integer. An absent, null or zero count gives 0, as
    `int(x or 0)` does. String, float and boolean counts, and the errors `int()`
    raises on them, are not modelled.
  - A missing date is read as `""`. A non-string date value would go through
    `str()` first; it is left out because no such value is an ISO date, so both
    are skipped alike.
- One might expect a whitespace-only `--username` to count as absent, so that
  the positional input is used. In the code it is truthy in
  `username or raw_input`, so the positional input is skipped and the prompt
  answers. The model follows the code; see `Username.UsernamePrecedence`.
- Series.BuildDateSeries: it uses the corrected walk (`Series.Walk`), so for year
  9999 with today 9999-12-31 it returns the series. At that input the source
  raises `OverflowError` at app.py:136, which `main` does not catch; see
  "## Findings".
- Series.BuildCombinedSeries: it uses the corrected walk too, so when the span
  ends on 9999-12-31 it returns the series. The source raises `OverflowError`
  there at app.py:172.
- Series.PlanChart: its contract covers only the empty case. The start day is
  stated by `Series.PlanChartStart`. The label and the summed counts follow from
  `Series.YearLabelRoundTrip` and `Series.BuildCombinedSeries`, and are not
  repeated there.
- Text.Trim, Text.ParseInt: these carry no contract of their own. Their meaning
  is stated by `Text.TrimMeaning`, `Text.TrimIdempotent` and
  `Text.IntToStringRoundTrip`.

## Findings

| source | as written | input that shows it | evidently intended | confidence | as-written member | corrected member |
|---|---|---|---|---|---|---|
| app.py:133-136 (likewise 169-172) | the cursor is advanced after every appended day, including the last one, so `cursor += timedelta(days=1)` steps past `date.max` when the span ends on 9999-12-31 and raises `OverflowError`, losing the series | year 9999 (or a combined range ending in 9999) with today 9999-12-31 | stop after the last day and return every day through 9999-12-31 | not executed | `Series.WalkAsWritten` (shown by `Series.WalkAsWrittenOverflow`, `Series.WalkAsWrittenLastDay`) | `Series.Walk` (proved by `Series.WalkSpan`) |
