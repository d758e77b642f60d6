/** The dense daily series (`build_date_series`, `build_combined_series`) and the
    part of `main` that turns the fetched years into a chart: sparse `{date, count}`
    records are folded into a map from day to count, then every calendar day from
    Jan 1 of the first year to `min(today, Dec 31 of the last year)` gets the
    map's count or 0. `today` is a parameter. */
module Series {
  import opened Wrappers
  import opened Text
  import opened Calendar
  import Years

  /** One entry of the yearly-activity payload: `date` is `None` when the key is
      absent, `count` is `None` when it is absent or null. */
  datatype Record = Record(date: Option<string>, count: Option<int>)

  /** The `ValueError`s the builders raise (`YearOutOfRange` is the one raised by
      `dt.date(year, ...)` itself) and the `OverflowError` of stepping past
      `date.max`. */
  datatype SeriesError =
    | YearOutOfRange(year: int)
    | FutureYear
    | FutureRange
    | NoYears
    | DateOverflow

  /** The parallel `dates` and `counts` lists the builders return. */
  datatype DateSeries = DateSeries(dates: seq<Date>, counts: seq<int>)

  /** `dt.date.fromisoformat(str(entry.get("date", "")))`, `None` when it raises. */
  function RecordDate(r: Record): Option<Date> {
    ParseIsoDate(r.date.GetOr(""))
  }

  /** `int(entry.get("count", 0) or 0)`. */
  function RecordCount(r: Record): int {
    r.count.GetOr(0)
  }

  /** A record as the loops see it once its fields are read: the day it names, if
      its date parses, and its count. */
  datatype Entry = Entry(day: Option<Date>, count: int)

  function Entries(records: seq<Record>): (es: seq<Entry>)
    ensures |es| == |records|
    ensures forall i :: 0 <= i < |records| ==> es[i] == Entry(RecordDate(records[i]), RecordCount(records[i]))
  {
    seq(|records|, i requires 0 <= i < |records| => Entry(RecordDate(records[i]), RecordCount(records[i])))
  }

  /** `activity_map.get(d, 0)`. */
  function Lookup(m: map<Date, int>, d: Date): int {
    if d in m then m[d] else 0
  }

  // ---------------------------------------------------------------------------
  // Folding records into a map

  /** The single-year fold: each entry with a day overwrites that day's count. */
  function LastWins(es: seq<Entry>): map<Date, int> {
    if es == [] then map[]
    else
      var m := LastWins(es[..|es| - 1]);
      var e := es[|es| - 1];
      if e.day.Some? then m[e.day.value := e.count] else m
  }

  /** Entry `i` is the last one, in input order, for day `d`. */
  ghost predicate LastEntryFor(es: seq<Entry>, d: Date, i: int) {
    && 0 <= i < |es|
    && es[i].day == Some(d)
    && forall j :: i < j < |es| ==> es[j].day != Some(d)
  }

  /** No entry is for day `d`. */
  ghost predicate NoEntryFor(es: seq<Entry>, d: Date) {
    forall i :: 0 <= i < |es| ==> es[i].day != Some(d)
  }

  /** Last write wins: a day's count is the count of the last entry for that day,
      and 0 when there is none. */
  lemma {:induction false} LastWinsMeaning(es: seq<Entry>, d: Date)
    ensures NoEntryFor(es, d) ==> Lookup(LastWins(es), d) == 0
    ensures forall i :: LastEntryFor(es, d, i) ==> Lookup(LastWins(es), d) == es[i].count
  {
    if es != [] {
      var n := |es| - 1;
      var init := es[..n];
      LastWinsMeaning(init, d);
      if es[n].day == Some(d) {
        forall i | LastEntryFor(es, d, i)
          ensures i == n
        {
        }
      } else {
        assert Lookup(LastWins(es), d) == Lookup(LastWins(init), d);
        forall i | LastEntryFor(es, d, i)
          ensures LastEntryFor(init, d, i)
        {
          assert i < n;
          assert init[i] == es[i];
        }
        if NoEntryFor(es, d) {
          assert forall i :: 0 <= i < |init| ==> init[i] == es[i];
        }
      }
    }
  }

  /** The counts of the entries for day `d`, added up. */
  function TotalFor(es: seq<Entry>, d: Date): int {
    if es == [] then 0
    else (if es[0].day == Some(d) then es[0].count else 0) + TotalFor(es[1..], d)
  }

  /** The combined fold over one year's entries: each entry with a day adds its
      count to that day's entry. */
  function AddEntries(m: map<Date, int>, es: seq<Entry>): map<Date, int>
    decreases |es|
  {
    if es == [] then m
    else
      var e := es[0];
      var next := if e.day.Some? then m[e.day.value := Lookup(m, e.day.value) + e.count] else m;
      AddEntries(next, es[1..])
  }

  /** Summing, not overwriting: a day's count grows by the total of its entries. */
  lemma {:induction false} AddEntriesMeaning(m: map<Date, int>, es: seq<Entry>, d: Date)
    ensures Lookup(AddEntries(m, es), d) == Lookup(m, d) + TotalFor(es, d)
    decreases |es|
  {
    if es != [] {
      var e := es[0];
      var next := if e.day.Some? then m[e.day.value := Lookup(m, e.day.value) + e.count] else m;
      AddEntriesMeaning(next, es[1..], d);
    }
  }

  /** `activities_by_year.get(year, [])`, read into entries. */
  function EntriesOf(byYear: map<int, seq<Record>>, y: int): seq<Entry> {
    if y in byYear then Entries(byYear[y]) else []
  }

  /** The outer loop of `build_combined_series`: every listed year's records, in
      the order the years are listed. */
  function AddYears(m: map<Date, int>, years: seq<int>, byYear: map<int, seq<Record>>): map<Date, int>
    decreases |years|
  {
    if years == [] then m
    else AddYears(AddEntries(m, EntriesOf(byYear, years[0])), years[1..], byYear)
  }

  /** The total for `d` over the records of every listed year; a year missing from
      the map adds nothing, a year listed twice counts twice. */
  function YearsTotal(years: seq<int>, byYear: map<int, seq<Record>>, d: Date): int {
    if years == [] then 0
    else TotalFor(EntriesOf(byYear, years[0]), d) + YearsTotal(years[1..], byYear, d)
  }

  lemma {:induction false} AddYearsMeaning(m: map<Date, int>, years: seq<int>, byYear: map<int, seq<Record>>, d: Date)
    ensures Lookup(AddYears(m, years, byYear), d) == Lookup(m, d) + YearsTotal(years, byYear, d)
    decreases |years|
  {
    if years != [] {
      var next := AddEntries(m, EntriesOf(byYear, years[0]));
      AddEntriesMeaning(m, EntriesOf(byYear, years[0]), d);
      AddYearsMeaning(next, years[1..], byYear, d);
    }
  }

  // ---------------------------------------------------------------------------
  // Walking the days

  /** The `while cursor <= end_date` loop: one entry per day, each one day number
      after the previous. */
  function Walk(cursor: Date, end: Date): (dates: seq<Date>)
    requires Valid(cursor) && Valid(end)
    ensures NotAfter(cursor, end) ==> |dates| == Ordinal(end) - Ordinal(cursor) + 1
    ensures !NotAfter(cursor, end) ==> dates == []
    ensures forall i :: 0 <= i < |dates| ==> Valid(dates[i]) && Ordinal(dates[i]) == Ordinal(cursor) + i
    decreases Ordinal(end) - Ordinal(cursor)
  {
    NotAfterOrdinal(cursor, end);
    if NotAfter(cursor, end) then
      SuccOrdinal(cursor);
      [cursor] + Walk(Succ(cursor), end)
    else []
  }

  /** Each date is the next day after the one before it. */
  ghost predicate Contiguous(dates: seq<Date>) {
    && (forall i :: 0 <= i < |dates| ==> Valid(dates[i]))
    && (forall i :: 0 <= i < |dates| - 1 ==> Valid(dates[i]) && dates[i + 1] == Succ(dates[i]))
  }

  ghost predicate Ascending(dates: seq<Date>) {
    forall i, j :: 0 <= i < j < |dates| ==> Before(dates[i], dates[j])
  }

  /** The dates run from `start` to `end`, one per day, with no gap, no repeat and
      nothing outside, and there is one count per date. */
  ghost predicate DenseOver(s: DateSeries, start: Date, end: Date) {
    && Valid(start) && Valid(end) && NotAfter(start, end)
    && |s.dates| == |s.counts| == Ordinal(end) - Ordinal(start) + 1
    && |s.dates| >= 1
    && s.dates[0] == start
    && s.dates[|s.dates| - 1] == end
    && Contiguous(s.dates)
    && Ascending(s.dates)
    && (forall d :: Valid(d) ==> (d in s.dates <==> NotAfter(start, d) && NotAfter(d, end)))
  }

  /** The walk from `start` to `end` starts at `start`, ends at `end`, steps one day
      at a time, ascends strictly, and holds exactly the days in between. */
  lemma WalkSpan(start: Date, end: Date)
    requires Valid(start) && Valid(end) && NotAfter(start, end)
    ensures var dates := Walk(start, end);
            && |dates| == Ordinal(end) - Ordinal(start) + 1
            && dates[0] == start
            && dates[|dates| - 1] == end
            && Contiguous(dates)
            && Ascending(dates)
            && (forall d :: Valid(d) ==> (d in dates <==> NotAfter(start, d) && NotAfter(d, end)))
  {
    var dates := Walk(start, end);
    NotAfterOrdinal(start, end);
    OrdinalInjective(dates[0], start);
    OrdinalInjective(dates[|dates| - 1], end);
    forall i | 0 <= i < |dates| - 1
      ensures dates[i + 1] == Succ(dates[i])
    {
      SuccOrdinal(dates[i]);
      OrdinalInjective(dates[i + 1], Succ(dates[i]));
    }
    forall i, j | 0 <= i < j < |dates|
      ensures Before(dates[i], dates[j])
    {
      BeforeOrdinal(dates[i], dates[j]);
    }
    forall d | Valid(d)
      ensures d in dates <==> NotAfter(start, d) && NotAfter(d, end)
    {
      NotAfterOrdinal(start, d);
      NotAfterOrdinal(d, end);
      if NotAfter(start, d) && NotAfter(d, end) {
        var k := Ordinal(d) - Ordinal(start);
        OrdinalInjective(dates[k], d);
      }
      if d in dates {
        var k :| 0 <= k < |dates| && dates[k] == d;
      }
    }
  }

  /** One entry per day of the span, the count being the map's entry or 0. */
  function Dense(start: Date, end: Date, m: map<Date, int>): (s: DateSeries)
    requires Valid(start) && Valid(end) && NotAfter(start, end)
    ensures DenseOver(s, start, end)
    ensures forall k :: 0 <= k < |s.dates| ==> s.counts[k] == Lookup(m, s.dates[k])
  {
    WalkSpan(start, end);
    var dates := Walk(start, end);
    DateSeries(dates, seq(|dates|, k requires 0 <= k < |dates| => Lookup(m, dates[k])))
  }

  // ---------------------------------------------------------------------------
  // The builders

  /** `build_date_series(year, activity)` with `dt.date.today()` as `today`. */
  function BuildDateSeries(year: int, records: seq<Record>, today: Date): (r: Result<DateSeries, SeriesError>)
    requires Representable(today)
    ensures r.Failure? <==> !(MinYear <= year <= MaxYear) || Before(today, Jan1(year))
    ensures !(MinYear <= year <= MaxYear) ==> r == Failure(YearOutOfRange(year))
    ensures r.Failure? && MinYear <= year <= MaxYear ==> r == Failure(FutureYear)
    ensures r.Success? ==> DenseOver(r.value, Jan1(year), MinDate(today, Dec31(year)))
    ensures r.Success? ==>
              forall k, i :: 0 <= k < |r.value.dates| && LastEntryFor(Entries(records), r.value.dates[k], i)
                             ==> r.value.counts[k] == RecordCount(records[i])
    ensures r.Success? ==>
              forall k :: 0 <= k < |r.value.dates| && NoEntryFor(Entries(records), r.value.dates[k])
                          ==> r.value.counts[k] == 0
  {
    var m := LastWins(Entries(records));
    if !(MinYear <= year <= MaxYear) then Failure(YearOutOfRange(year))
    else
      var start := Jan1(year);
      var end := MinDate(today, Dec31(year));
      if Before(end, start) then Failure(FutureYear)
      else
        var s := Dense(start, end, m);
        LastWinsCounts(Entries(records), s);
        Success(s)
  }

  /** A series counted from `LastWins(es)` gives each day its last entry's count. */
  lemma LastWinsCounts(es: seq<Entry>, s: DateSeries)
    requires |s.counts| == |s.dates|
    requires forall k :: 0 <= k < |s.dates| ==> s.counts[k] == Lookup(LastWins(es), s.dates[k])
    ensures forall k, i :: 0 <= k < |s.dates| && LastEntryFor(es, s.dates[k], i) ==> s.counts[k] == es[i].count
    ensures forall k :: 0 <= k < |s.dates| && NoEntryFor(es, s.dates[k]) ==> s.counts[k] == 0
  {
    forall k | 0 <= k < |s.dates|
      ensures forall i :: LastEntryFor(es, s.dates[k], i) ==> s.counts[k] == es[i].count
      ensures NoEntryFor(es, s.dates[k]) ==> s.counts[k] == 0
    {
      LastWinsMeaning(es, s.dates[k]);
    }
  }

  /** `min(years)`. */
  function MinOf(s: seq<int>): (m: int)
    requires |s| >= 1
    ensures m in s && forall x :: x in s ==> m <= x
  {
    if |s| == 1 then s[0]
    else
      var t := MinOf(s[1..]);
      assert forall x :: x in s ==> x == s[0] || x in s[1..];
      if s[0] <= t then s[0] else t
  }

  /** `max(years)`. */
  function MaxOf(s: seq<int>): (m: int)
    requires |s| >= 1
    ensures m in s && forall x :: x in s ==> x <= m
  {
    if |s| == 1 then s[0]
    else
      var t := MaxOf(s[1..]);
      assert forall x :: x in s ==> x == s[0] || x in s[1..];
      if s[0] >= t then s[0] else t
  }

  /** `build_combined_series(years, activities_by_year)` with `today` given. */
  function BuildCombinedSeries(years: seq<int>, byYear: map<int, seq<Record>>, today: Date): (r: Result<DateSeries, SeriesError>)
    requires Representable(today)
    ensures years == [] ==> r == Failure(NoYears)
    ensures years != [] ==>
              (r.Failure? <==> !(MinYear <= MinOf(years)) || !(MaxOf(years) <= MaxYear)
                               || Before(today, Jan1(MinOf(years))))
    ensures years != [] && !(MinYear <= MinOf(years) <= MaxYear) ==> r == Failure(YearOutOfRange(MinOf(years)))
    ensures years != [] && MinYear <= MinOf(years) <= MaxYear && !(MaxOf(years) <= MaxYear)
            ==> r == Failure(YearOutOfRange(MaxOf(years)))
    ensures years != [] && r.Failure? && MinYear <= MinOf(years) && MaxOf(years) <= MaxYear
            ==> r == Failure(FutureRange)
    ensures r.Success? ==> DenseOver(r.value, Jan1(MinOf(years)), MinDate(today, Dec31(MaxOf(years))))
    ensures r.Success? ==>
              forall k :: 0 <= k < |r.value.dates| ==> r.value.counts[k] == YearsTotal(years, byYear, r.value.dates[k])
  {
    var m := AddYears(map[], years, byYear);
    if years == [] then Failure(NoYears)
    else
      var lo := MinOf(years);
      var hi := MaxOf(years);
      if !(MinYear <= lo <= MaxYear) then Failure(YearOutOfRange(lo))
      else if !(MinYear <= hi <= MaxYear) then Failure(YearOutOfRange(hi))
      else
        var start := Jan1(lo);
        var end := MinDate(today, Dec31(hi));
        if Before(end, start) then Failure(FutureRange)
        else
          var s := Dense(start, end, m);
          SummedCounts(years, byYear, s);
          Success(s)
  }

  /** A series counted from the combined map gives each day the total over all
      listed years. */
  lemma SummedCounts(years: seq<int>, byYear: map<int, seq<Record>>, s: DateSeries)
    requires |s.counts| == |s.dates|
    requires forall k :: 0 <= k < |s.dates| ==> s.counts[k] == Lookup(AddYears(map[], years, byYear), s.dates[k])
    ensures forall k :: 0 <= k < |s.dates| ==> s.counts[k] == YearsTotal(years, byYear, s.dates[k])
  {
    forall k | 0 <= k < |s.dates|
      ensures s.counts[k] == YearsTotal(years, byYear, s.dates[k])
    {
      AddYearsMeaning(map[], years, byYear, s.dates[k]);
    }
  }

  // ---------------------------------------------------------------------------
  // Properties of the builders

  /** A year that is over has one entry per day of the year, leap day included. */
  lemma FullYear(year: int, records: seq<Record>, today: Date)
    requires Representable(today) && MinYear <= year <= MaxYear
    requires NotAfter(Dec31(year), today)
    ensures BuildDateSeries(year, records, today).Success?
    ensures var s := BuildDateSeries(year, records, today).value;
            && |s.dates| == DaysInYear(year)
            && s.dates[|s.dates| - 1] == Dec31(year)
            && (IsLeap(year) ==> Date(year, 2, 29) in s.dates)
  {
    YearLength(year);
    var s := BuildDateSeries(year, records, today).value;
    assert MinDate(today, Dec31(year)) == Dec31(year);
    assert IsLeap(year) ==> Valid(Date(year, 2, 29));
  }

  /** The single-year builder overwrites a repeated day: two records for the same
      day with counts 5 then 3 give 3. */
  lemma LastWinsOverwrites(text: string, today: Date)
    requires Representable(today)
    requires ParseIsoDate(text).Some? && NotAfter(ParseIsoDate(text).value, today)
    ensures var d := ParseIsoDate(text).value;
            var s := BuildDateSeries(d.year, [Record(Some(text), Some(5)), Record(Some(text), Some(3))], today);
            s.Success? && d in s.value.dates
            && forall k :: 0 <= k < |s.value.dates| && s.value.dates[k] == d ==> s.value.counts[k] == 3
  {
    var d := ParseIsoDate(text).value;
    var recs := [Record(Some(text), Some(5)), Record(Some(text), Some(3))];
    assert Entries(recs) == [Entry(Some(d), 5), Entry(Some(d), 3)];
    assert LastEntryFor(Entries(recs), d, 1);
    assert NotAfter(Jan1(d.year), d) && NotAfter(d, MinDate(today, Dec31(d.year)));
  }

  /** The combined builder adds instead: the same two records coming from two
      different years' lists give 8. */
  lemma CombinedAdds(text: string, y1: int, y2: int)
    requires ParseIsoDate(text).Some? && y1 != y2
    ensures var byYear := map[y1 := [Record(Some(text), Some(5))], y2 := [Record(Some(text), Some(3))]];
            YearsTotal([y1, y2], byYear, ParseIsoDate(text).value) == 8
  {
    var d := ParseIsoDate(text).value;
    var byYear := map[y1 := [Record(Some(text), Some(5))], y2 := [Record(Some(text), Some(3))]];
    assert EntriesOf(byYear, y1) == [Entry(Some(d), 5)];
    assert EntriesOf(byYear, y2) == [Entry(Some(d), 3)];
    assert [Entry(Some(d), 5)][1..] == [] && [Entry(Some(d), 3)][1..] == [];
    assert [y1, y2][1..] == [y2] && [y2][1..] == [];
    assert TotalFor(EntriesOf(byYear, y1), d) == 5;
    assert TotalFor(EntriesOf(byYear, y2), d) == 3;
    assert YearsTotal([y2], byYear, d) == 3;
  }

  /** Listing one year in the combined builder gives the same days as the
      single-year builder, and the same counts whenever no day has two records. */
  lemma CombinedOfOneYear(year: int, records: seq<Record>, today: Date)
    requires Representable(today)
    requires UniqueDays(Entries(records))
    ensures var single := BuildDateSeries(year, records, today);
            var combined := BuildCombinedSeries([year], map[year := records], today);
            single.Success? <==> combined.Success?
    ensures var single := BuildDateSeries(year, records, today);
            var combined := BuildCombinedSeries([year], map[year := records], today);
            single.Success? ==> single.value == combined.value
  {
    var single := BuildDateSeries(year, records, today);
    var combined := BuildCombinedSeries([year], map[year := records], today);
    assert MinOf([year]) == year && MaxOf([year]) == year;
    if single.Success? {
      var a := single.value;
      var b := combined.value;
      assert a.dates == b.dates;
      forall k | 0 <= k < |a.dates|
        ensures a.counts[k] == b.counts[k]
      {
        var d := a.dates[k];
        assert EntriesOf(map[year := records], year) == Entries(records);
        assert [year][1..] == [];
        assert b.counts[k] == YearsTotal([year], map[year := records], d);
        assert b.counts[k] == TotalFor(Entries(records), d);
        UniqueTotal(Entries(records), d);
      }
      assert a.counts == b.counts;
    }
  }

  /** No two entries are for the same day. */
  ghost predicate UniqueDays(es: seq<Entry>) {
    forall i, j :: 0 <= i < j < |es| && es[i].day.Some? ==> es[i].day != es[j].day
  }

  /** With at most one entry per day, the total for a day is that entry's count,
      the same as last-write-wins gives. */
  lemma {:induction false} UniqueTotal(es: seq<Entry>, d: Date)
    requires UniqueDays(es)
    ensures NoEntryFor(es, d) ==> TotalFor(es, d) == 0
    ensures forall i :: LastEntryFor(es, d, i) ==> TotalFor(es, d) == es[i].count
  {
    if es != [] {
      var tail := es[1..];
      assert UniqueDays(tail) by {
        forall i, j | 0 <= i < j < |tail| && tail[i].day.Some?
          ensures tail[i].day != tail[j].day
        {
          assert tail[i] == es[i + 1] && tail[j] == es[j + 1];
        }
      }
      UniqueTotal(tail, d);
      if es[0].day == Some(d) {
        assert NoEntryFor(tail, d) by {
          forall i | 0 <= i < |tail|
            ensures tail[i].day != Some(d)
          {
            assert tail[i] == es[i + 1];
          }
        }
        forall i | LastEntryFor(es, d, i)
          ensures i == 0
        {
        }
      } else {
        forall i | LastEntryFor(es, d, i)
          ensures LastEntryFor(tail, d, i - 1)
        {
          assert i > 0;
        }
        if NoEntryFor(es, d) {
          assert forall i :: 0 <= i < |tail| ==> tail[i] == es[i + 1];
        }
      }
    }
  }

  // ---------------------------------------------------------------------------
  // Stepping past date.max, as the source does it

  /** `d + timedelta(days=1)` as Python evaluates it: past `date.max` it raises. */
  function AddOneDay(d: Date): (r: Result<Date, SeriesError>)
    requires Valid(d)
  {
    var next := Succ(d);
    if next.year > MaxYear then Failure(DateOverflow) else Success(next)
  }

  /** The day loop exactly as written: the cursor is stepped after every entry,
      including the last one. */
  function WalkAsWritten(cursor: Date, end: Date): Result<seq<Date>, SeriesError>
    requires Valid(cursor) && Valid(end)
    decreases Ordinal(end) - Ordinal(cursor)
  {
    NotAfterOrdinal(cursor, end);
    if NotAfter(cursor, end) then
      SuccOrdinal(cursor);
      match AddOneDay(cursor)
      case Failure(e) => Failure(e)
      case Success(next) =>
        match WalkAsWritten(next, end)
        case Failure(e) => Failure(e)
        case Success(rest) => Success([cursor] + rest)
    else Success([])
  }

  /** The loop as written raises `OverflowError` exactly when its span ends on
      9999-12-31, and otherwise agrees with `Walk`. */
  lemma {:induction false} WalkAsWrittenOverflow(cursor: Date, end: Date)
    requires Valid(cursor) && Representable(end) && NotAfter(cursor, end)
    ensures WalkAsWritten(cursor, end)
            == if end == Dec31(MaxYear) then Failure(DateOverflow) else Success(Walk(cursor, end))
    decreases Ordinal(end) - Ordinal(cursor)
  {
    NotAfterOrdinal(cursor, end);
    SuccOrdinal(cursor);
    var next := Succ(cursor);
    SuccIsNext(cursor, end);
    if cursor == end {
      assert !NotAfter(next, end);
    } else {
      assert Before(cursor, end);
      assert next.year <= end.year;
      WalkAsWrittenOverflow(next, end);
    }
  }

  /** The smallest span that shows it: the single day 9999-12-31, which the loop as
      written loses to the overflow and the corrected walk returns. */
  lemma WalkAsWrittenLastDay()
    ensures WalkAsWritten(Dec31(MaxYear), Dec31(MaxYear)) == Failure(DateOverflow)
    ensures Walk(Dec31(MaxYear), Dec31(MaxYear)) == [Dec31(MaxYear)]
  {
    WalkAsWrittenOverflow(Dec31(MaxYear), Dec31(MaxYear));
  }

  // ---------------------------------------------------------------------------
  // The chart in main

  /** The chart title's year part: `str(y)` for one year, `"first-last"` for more. */
  function YearLabel(years: seq<int>): string
    requires |years| >= 1
  {
    if |years| == 1 then IntToString(years[0])
    else IntToString(years[0]) + "-" + IntToString(years[|years| - 1])
  }

  /** The label reads back: one year parses to itself, and two or more split at
      the dash into the first and the last year. */
  lemma YearLabelRoundTrip(years: seq<int>)
    requires |years| >= 1
    requires forall i :: 0 <= i < |years| ==> years[i] >= 0
    ensures |years| == 1 ==> ParseInt(YearLabel(years)) == Some(years[0])
    ensures |years| > 1 ==>
              var parts := Split(YearLabel(years), '-');
              |parts| == 2 && ParseInt(parts[0]) == Some(years[0]) && ParseInt(parts[1]) == Some(years[|years| - 1])
  {
    var first := years[0];
    var last := years[|years| - 1];
    IntToStringRoundTrip(first);
    IntToStringRoundTrip(last);
    if |years| > 1 {
      IntToStringDigits(first);
      IntToStringDigits(last);
      var parts := [IntToString(first), IntToString(last)];
      assert Join(parts, '-') == YearLabel(years);
      SplitJoin(parts, '-');
    }
  }

  /** What `main` ends with: nothing to plot, or a label and a series. */
  datatype Chart = NoData | Plot(title: string, series: DateSeries)

  /** The years whose fetch returned a list (`activities_by_year.keys()`). */
  function FetchedYears(years: seq<int>, fetched: seq<Option<seq<Record>>>): (r: seq<int>)
    requires |fetched| == |years|
    ensures forall y :: y in r <==> exists i :: 0 <= i < |years| && fetched[i].Some? && years[i] == y
  {
    if years == [] then []
    else
      var n := |years| - 1;
      var rest := FetchedYears(years[..n], fetched[..n]);
      assert forall i :: 0 <= i < n ==> years[..n][i] == years[i] && fetched[..n][i] == fetched[i];
      if fetched[n].Some? then rest + [years[n]] else rest
  }

  /** `activities_by_year`: each year whose fetch returned a list, mapped to the
      list of the last such fetch. */
  function ByYear(years: seq<int>, fetched: seq<Option<seq<Record>>>): (m: map<int, seq<Record>>)
    requires |fetched| == |years|
    ensures forall y :: y in m <==> y in FetchedYears(years, fetched)
  {
    if years == [] then map[]
    else
      var n := |years| - 1;
      var m := ByYear(years[..n], fetched[..n]);
      if fetched[n].Some? then m[years[n] := fetched[n].value] else m
  }

  /** The map is empty exactly when no fetch returned a list. */
  lemma NothingFetched(years: seq<int>, fetched: seq<Option<seq<Record>>>)
    requires |fetched| == |years|
    ensures ByYear(years, fetched) == map[] <==> FetchedYears(years, fetched) == []
    ensures FetchedYears(years, fetched) == [] <==> forall i :: 0 <= i < |years| ==> fetched[i].None?
  {
    var m := ByYear(years, fetched);
    var keys := FetchedYears(years, fetched);
    if keys != [] {
      assert keys[0] in m;
    }
    if m != map[] {
      var y :| y in m;
      assert y in keys;
    }
    if exists i :: 0 <= i < |years| && fetched[i].Some? {
      var i :| 0 <= i < |years| && fetched[i].Some?;
      assert years[i] in keys;
    }
  }

  /** Lines 212-231 of `main` without the printing: the years whose fetch returned
      a list (a 404 gives `None`) are plotted together, labelled by the first and
      last of them; when no fetch returned a list there is nothing to plot. */
  function PlanChart(years: seq<int>, fetched: seq<Option<seq<Record>>>, today: Date): (r: Result<Chart, SeriesError>)
    requires |fetched| == |years| && Representable(today)
    ensures r == Success(NoData) <==> forall i :: 0 <= i < |years| ==> fetched[i].None?
  {
    var byYear := ByYear(years, fetched);
    var keys := FetchedYears(years, fetched);
    NothingFetched(years, fetched);
    if byYear == map[] then Success(NoData)
    else
      var combined := Years.SortedUnique(keys);
      assert keys[0] in combined;
      match BuildCombinedSeries(combined, byYear, today)
      case Failure(e) => Failure(e)
      case Success(series) => Success(Plot(YearLabel(combined), series))
  }

  /** A plotted chart starts on Jan 1 of the earliest year whose fetch returned a
      list. */
  lemma PlanChartStart(years: seq<int>, fetched: seq<Option<seq<Record>>>, today: Date)
    requires |fetched| == |years| && Representable(today)
    ensures var r := PlanChart(years, fetched, today);
            r.Success? && r.value.Plot? ==>
              FetchedYears(years, fetched) != []
              && r.value.series.dates[0] == Jan1(MinOf(FetchedYears(years, fetched)))
  {
    var keys := FetchedYears(years, fetched);
    NothingFetched(years, fetched);
    if keys != [] {
      var combined := Years.SortedUnique(keys);
      assert keys[0] in combined;
      var a := MinOf(combined);
      var b := MinOf(keys);
      assert a in keys && b in combined;
      assert a == b;
    }
  }
}
