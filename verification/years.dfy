/** The requested years (`resolve_year`, `parse_years`): a comma list, an
    inclusive start/end range and a single year, merged into one ascending list
    without repeats. The current year is a parameter. */
module Years {
  import opened Wrappers
  import opened Text

  /** The year options as the argument parser leaves them: `--years` is text,
      `--year-start`, `--year-end` and `--year` are already integers. */
  datatype YearArgs = YearArgs(
    years: Option<string>,
    yearStart: Option<int>,
    yearEnd: Option<int>,
    year: Option<int>)

  /** What `resolve_year` accepts besides nothing: an integer or text. */
  datatype YearValue = Number(n: int) | Raw(s: string)

  /** The `ValueError` of `int(token)`, carrying the offending token. */
  datatype YearError = BadYearToken(token: string)

  ghost predicate StrictlyIncreasing(s: seq<int>) {
    forall i, j :: 0 <= i < j < |s| ==> s[i] < s[j]
  }

  /** `resolve_year`: nothing or blank text means the current year, anything
      else goes through `int()`. */
  function ResolveYear(value: Option<YearValue>, currentYear: int): (r: Result<int, YearError>)
    ensures r.Failure? <==> value.Some? && value.value.Raw?
                            && Trim(value.value.s) != [] && ParseInt(Trim(value.value.s)).None?
    ensures value.None? ==> r == Success(currentYear)
    ensures value.Some? && value.value.Number? ==> r == Success(value.value.n)
    ensures value.Some? && value.value.Raw? && Trim(value.value.s) == [] ==> r == Success(currentYear)
    ensures r.Success? && value.Some? && value.value.Raw? && Trim(value.value.s) != []
            ==> ParseInt(Trim(value.value.s)) == Some(r.value)
  {
    match value
    case None => Success(currentYear)
    case Some(Number(n)) => Success(n)
    case Some(Raw(s)) =>
      if Trim(s) == [] then Success(currentYear)
      else match ParseInt(Trim(s))
        case None => Failure(BadYearToken(Trim(s)))
        case Some(n) => Success(n)
  }

  /** The integers of the non-blank comma items, in order; the first item that
      is not an integer fails the whole list (the loop of `parse_years`). */
  function ListedYears(items: seq<string>): Result<seq<int>, YearError> {
    if items == [] then Success([])
    else
      var tail := ListedYears(items[1..]);
      match Classify(items[0])
      case Blank => tail
      case Bad(t) => Failure(BadYearToken(t))
      case Year(y) => if tail.Failure? then tail else Success([y] + tail.value)
  }

  /** The comma loop fails exactly when some item is not an integer, and otherwise
      yields exactly the years the items name. */
  lemma {:induction false} ListedYearsMeaning(items: seq<string>)
    ensures ListedYears(items).Failure? <==> exists i :: 0 <= i < |items| && BadItem(items[i])
    ensures ListedYears(items).Success? ==>
              forall y :: y in ListedYears(items).value <==> exists i :: 0 <= i < |items| && ItemYear(items[i], y)
  {
    if items != [] {
      var tail := items[1..];
      ListedYearsMeaning(tail);
      if exists i :: 0 <= i < |items| && BadItem(items[i]) {
        var i :| 0 <= i < |items| && BadItem(items[i]);
        if i > 0 {
          assert BadItem(tail[i - 1]);
        }
      }
      if exists i :: 0 <= i < |tail| && BadItem(tail[i]) {
        var i :| 0 <= i < |tail| && BadItem(tail[i]);
        assert BadItem(items[i + 1]);
      }
      var r := ListedYears(items);
      if r.Success? {
        forall y
          ensures y in r.value <==> exists i :: 0 <= i < |items| && ItemYear(items[i], y)
        {
          if y in r.value {
            if ItemYear(items[0], y) {
            } else {
              var i :| 0 <= i < |tail| && ItemYear(tail[i], y);
              assert ItemYear(items[i + 1], y);
            }
          }
          if exists i :: 0 <= i < |items| && ItemYear(items[i], y) {
            var i :| 0 <= i < |items| && ItemYear(items[i], y);
            if i > 0 {
              assert ItemYear(tail[i - 1], y);
            }
          }
        }
      }
    }
  }

  /** What one comma item amounts to once stripped. */
  datatype Item = Blank | Year(y: int) | Bad(token: string)

  function Classify(item: string): Item {
    var t := Trim(item);
    if t == [] then Blank
    else match ParseInt(t)
      case None => Bad(t)
      case Some(y) => Year(y)
  }

  /** A comma item that `int()` rejects (a blank item is skipped, not rejected). */
  predicate BadItem(item: string) {
    Classify(item).Bad?
  }

  /** The comma item names year `y`. */
  predicate ItemYear(item: string, y: int) {
    Classify(item) == Year(y)
  }

  /** The items of `--years`, when it is given and not empty. */
  function Items(args: YearArgs): seq<string> {
    if args.years.Some? && args.years.value != [] then Split(args.years.value, ',') else []
  }

  /** `range(lo, hi + 1)`. */
  function Range(lo: int, hi: int): (r: seq<int>)
    ensures forall y :: y in r <==> lo <= y <= hi
    ensures lo <= hi ==> |r| == hi - lo + 1
    decreases hi - lo
  {
    if lo > hi then [] else [lo] + Range(lo + 1, hi)
  }

  predicate HasBounds(args: YearArgs) {
    args.yearStart.Some? || args.yearEnd.Some?
  }

  /** The range's lower and upper bound: a missing bound is the current year, and
      reversed bounds are swapped. */
  function Bounds(args: YearArgs, currentYear: int): (int, int) {
    var start := args.yearStart.GetOr(currentYear);
    var end := args.yearEnd.GetOr(currentYear);
    if start > end then (end, start) else (start, end)
  }

  function RangeYears(args: YearArgs, currentYear: int): seq<int> {
    if HasBounds(args) then Range(Bounds(args, currentYear).0, Bounds(args, currentYear).1) else []
  }

  /** `x` added to an ascending list without repeats. */
  function Insert(x: int, s: seq<int>): (r: seq<int>)
    requires StrictlyIncreasing(s)
    ensures StrictlyIncreasing(r)
    ensures forall y :: y in r <==> y == x || y in s
  {
    if s == [] then [x]
    else if x < s[0] then [x] + s
    else if x == s[0] then s
    else
      var rest := Insert(x, s[1..]);
      assert forall k :: 0 <= k < |rest| ==> s[0] < rest[k] by {
        forall k | 0 <= k < |rest|
          ensures s[0] < rest[k]
        {
          assert rest[k] in rest;
          if rest[k] != x {
            var m :| 0 <= m < |s[1..]| && s[1..][m] == rest[k];
            assert s[m + 1] == rest[k];
          }
        }
      }
      [s[0]] + rest
  }

  /** `sorted(set(s))`. */
  function SortedUnique(s: seq<int>): (r: seq<int>)
    ensures StrictlyIncreasing(r)
    ensures forall y :: y in r <==> y in s
  {
    if s == [] then [] else
      var init := SortedUnique(s[..|s| - 1]);
      assert s == s[..|s| - 1] + [s[|s| - 1]];
      Insert(s[|s| - 1], init)
  }

  /** An ascending list without repeats is fixed by which values it holds. */
  lemma {:induction false} StrictlyIncreasingUnique(a: seq<int>, b: seq<int>)
    requires StrictlyIncreasing(a) && StrictlyIncreasing(b)
    requires forall y :: y in a <==> y in b
    ensures a == b
  {
    assert a != [] ==> a[0] in a;
    assert b != [] ==> b[0] in b;
    if a != [] && b != [] {
      assert a == [a[0]] + a[1..];
      assert b == [b[0]] + b[1..];
      assert a[0] in a && b[0] in b;
      var i :| 0 <= i < |b| && b[i] == a[0];
      var j :| 0 <= j < |a| && a[j] == b[0];
      assert a[0] == b[0];
      forall y
        ensures y in a[1..] <==> y in b[1..]
      {
        if y in a[1..] {
          var k :| 0 <= k < |a[1..]| && a[1..][k] == y;
          assert a[k + 1] == y && a[0] < y;
          assert y in b;
          var m :| 0 <= m < |b| && b[m] == y;
          assert m != 0;
          assert b[1..][m - 1] == y;
        }
        if y in b[1..] {
          var k :| 0 <= k < |b[1..]| && b[1..][k] == y;
          assert b[k + 1] == y && b[0] < y;
          assert y in a;
          var m :| 0 <= m < |a| && a[m] == y;
          assert m != 0;
          assert a[1..][m - 1] == y;
        }
      }
      StrictlyIncreasingUnique(a[1..], b[1..]);
    }
  }

  /** Some comma item is not an integer. */
  ghost predicate HasBadItem(args: YearArgs) {
    exists i :: 0 <= i < |Items(args)| && BadItem(Items(args)[i])
  }

  /** No comma item names a year. */
  ghost predicate NothingListed(args: YearArgs) {
    forall i :: 0 <= i < |Items(args)| ==> Classify(Items(args)[i]).Blank?
  }

  /** Year `y` is asked for: it is a comma item, it lies within the range, or
      neither of those asks for anything and `y` is `--year` (or, without it, the
      current year). */
  ghost predicate Requested(args: YearArgs, currentYear: int, y: int) {
    || (exists i :: 0 <= i < |Items(args)| && ItemYear(Items(args)[i], y))
    || (HasBounds(args) && Bounds(args, currentYear).0 <= y <= Bounds(args, currentYear).1)
    || (NothingListed(args) && !HasBounds(args) && y == args.year.GetOr(currentYear))
  }

  /** `parse_years`: fails exactly when a comma item is not an integer; otherwise
      the requested years, ascending, each once, never none. */
  function ParseYears(args: YearArgs, currentYear: int): (r: Result<seq<int>, YearError>)
    ensures r.Failure? <==> HasBadItem(args)
    ensures r.Success? ==> StrictlyIncreasing(r.value) && |r.value| >= 1
    ensures r.Success? ==> forall y :: y in r.value <==> Requested(args, currentYear, y)
  {
    ListedYearsMeaning(Items(args));
    var listed :- ListedYears(Items(args));
    var collected := listed + RangeYears(args, currentYear);
    var fallback := ResolveYear(if args.year.Some? then Some(Number(args.year.value)) else None, currentYear);
    var years := if collected == [] then [fallback.value] else collected;
    NothingListedCollectsNothing(args, listed);
    assert years[0] in years;
    Success(SortedUnique(years))
  }

  /** With no bad item, the comma list contributes nothing exactly when every
      item is blank. */
  lemma NothingListedCollectsNothing(args: YearArgs, listed: seq<int>)
    requires ListedYears(Items(args)) == Success(listed)
    ensures listed == [] <==> NothingListed(args)
  {
    var items := Items(args);
    ListedYearsMeaning(items);
    if listed != [] {
      assert listed[0] in listed;
      var i :| 0 <= i < |items| && ItemYear(items[i], listed[0]);
    }
    if !NothingListed(args) {
      var i :| 0 <= i < |items| && !Classify(items[i]).Blank?;
      assert !BadItem(items[i]);
      assert ItemYear(items[i], Classify(items[i]).y);
      assert Classify(items[i]).y in listed;
    }
  }

  /** Reversed range bounds give the same years as ordered ones. */
  lemma ParseYearsSwapBounds(args: YearArgs, currentYear: int)
    ensures ParseYears(args.(yearStart := args.yearEnd, yearEnd := args.yearStart), currentYear)
            == ParseYears(args, currentYear)
  {
    var swapped := args.(yearStart := args.yearEnd, yearEnd := args.yearStart);
    assert Items(swapped) == Items(args);
    var a := ParseYears(swapped, currentYear);
    var b := ParseYears(args, currentYear);
    if a.Success? {
      assert forall y :: Requested(swapped, currentYear, y) <==> Requested(args, currentYear, y);
      StrictlyIncreasingUnique(a.value, b.value);
    }
  }

  /** When neither the comma list nor a range asks for anything, the result is
      `--year` alone, or the current year alone without it. */
  lemma ParseYearsFallback(args: YearArgs, currentYear: int)
    requires NothingListed(args) && !HasBounds(args)
    ensures ParseYears(args, currentYear) == Success([args.year.GetOr(currentYear)])
  {
    var r := ParseYears(args, currentYear);
    assert !HasBadItem(args);
    var want := [args.year.GetOr(currentYear)];
    assert forall y :: Requested(args, currentYear, y) <==> y in want;
    StrictlyIncreasingUnique(r.value, want);
  }

  /** `--year-start 2022 --year-end 2020` asks for 2020 through 2022. */
  lemma ParseYearsReversedRangeExample(currentYear: int)
    ensures ParseYears(YearArgs(None, Some(2022), Some(2020), None), currentYear) == Success([2020, 2021, 2022])
  {
    var args := YearArgs(None, Some(2022), Some(2020), None);
    var r := ParseYears(args, currentYear);
    assert forall y :: Requested(args, currentYear, y) <==> y in [2020, 2021, 2022];
    StrictlyIncreasingUnique(r.value, [2020, 2021, 2022]);
  }
}
