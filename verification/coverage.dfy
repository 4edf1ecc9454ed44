/**
 The data-coverage filter of `get_countries_with_enough_data`: each requested
 country is scored by the share of years of a closed window in which it has at
 least one row, and the countries scoring at least a limit are selected.
 */
module Coverage {
  import opened Seqs
  import opened Rounding

  /**
   One row of a per-country yearly time series. `segment` holds the values of
   the grouping columns other than `Country` (sex, age band, ...) that a
   ranking groups by; it is empty when a ranking groups by country alone.
   */
  datatype SeriesRow = SeriesRow(country: string, region2: string, year: int, rate: real, segment: seq<string>)

  /** What `get_countries_with_enough_data` returns: the selected countries and every score. */
  datatype CoverageResult = CoverageResult(selected: seq<string>, scores: map<string, real>)

  /** The distinct years for which `c` has at least one row. */
  function YearsOf(rows: seq<SeriesRow>, c: string): set<int> {
    set r | r in rows && r.country == c :: r.year
  }

  /** The members of `years` inside the closed window [start, end]. */
  function WindowYears(years: set<int>, start: int, end: int): set<int> {
    set y | y in years && start <= y <= end
  }

  /** How many years of the closed window [start, end] are in `years`, counted year by year. */
  function YearsPresent(years: set<int>, start: int, end: int): (n: nat)
    ensures n == |WindowYears(years, start, end)|
    ensures n <= if start <= end then end - start + 1 else 0
    decreases end - start
  {
    if start > end then
      assert WindowYears(years, start, end) == {};
      0
    else
      var rest := YearsPresent(years, start + 1, end);
      if start in years then
        assert WindowYears(years, start, end) == WindowYears(years, start + 1, end) + {start};
        1 + rest
      else
        assert WindowYears(years, start, end) == WindowYears(years, start + 1, end);
        rest
  }

  /** A year-by-year count over a window whose every year is present is the window's length. */
  lemma {:induction false} AllYearsPresent(years: set<int>, start: int, end: int)
    requires start <= end
    requires forall y :: start <= y <= end ==> y in years
    ensures YearsPresent(years, start, end) == end - start + 1
    decreases end - start
  {
    if start < end {
      AllYearsPresent(years, start + 1, end);
    }
  }

  /**
   The coverage score of `c`: the proportion of the years in [start, end] for
   which `c` has at least one row, rounded to two decimals.
   */
  function Score(rows: seq<SeriesRow>, c: string, start: int, end: int): (p: real)
    requires start <= end
    ensures 0.0 <= p <= 1.0
  {
    var n := end - start + 1;
    var k := YearsPresent(YearsOf(rows, c), start, end);
    ProportionInUnitInterval(k, n);
    Round2UnitInterval(k as real / n as real);
    Round2(k as real / n as real)
  }

  /** A count of at most `n` out of `n` is a proportion between 0 and 1. */
  lemma ProportionInUnitInterval(k: nat, n: int)
    requires 0 < n && k <= n
    ensures 0.0 <= k as real / n as real <= 1.0
  {
    var d := n as real;
    var q := k as real / d;
    assert q * d == k as real;
    var e := q - 1.0;
    assert e * d == k as real - d;
    assert e > 0.0 ==> e * d > 0.0;
    assert q < 0.0 ==> q * d < 0.0;
  }

  /** A positive number divided by itself is 1. */
  lemma SelfQuotient(d: real)
    requires d > 0.0
    ensures d / d == 1.0
  {
  }

  /** `c` has at least one row for year `y`. */
  predicate HasRowFor(rows: seq<SeriesRow>, c: string, y: int) {
    exists r :: r in rows && r.country == c && r.year == y
  }

  /** A country with a row for every year of the window scores 1. */
  lemma FullCoverageScoresOne(rows: seq<SeriesRow>, c: string, start: int, end: int)
    requires start <= end
    requires forall y :: start <= y <= end ==> HasRowFor(rows, c, y)
    ensures Score(rows, c, start, end) == 1.0
  {
    var years := YearsOf(rows, c);
    forall y | start <= y <= end ensures y in years {
      assert HasRowFor(rows, c, y);
      var r :| r in rows && r.country == c && r.year == y;
      assert r.year in years;
    }
    AllYearsPresent(years, start, end);
    var n := (end - start + 1) as real;
    SelfQuotient(n);
    Round2UnitInterval(1.0);
  }

  /** A country without any row scores 0. */
  lemma NoRowsScoresZero(rows: seq<SeriesRow>, c: string, start: int, end: int)
    requires start <= end
    requires forall r :: r in rows ==> r.country != c
    ensures Score(rows, c, start, end) == 0.0
  {
    assert YearsOf(rows, c) == {};
    assert WindowYears({}, start, end) == {};
    Round2UnitInterval(0.0);
  }

  /** Rows outside the window never change a score: only the years inside it count. */
  lemma OutsideWindowIrrelevant(rows: seq<SeriesRow>, other: seq<SeriesRow>, c: string, start: int, end: int)
    requires start <= end
    requires forall y :: start <= y <= end ==> (y in YearsOf(rows, c) <==> y in YearsOf(other, c))
    ensures Score(rows, c, start, end) == Score(other, c, start, end)
  {
    assert WindowYears(YearsOf(rows, c), start, end) == WindowYears(YearsOf(other, c), start, end);
  }

  /**
   The model of `get_countries_with_enough_data(df, countries, [start, end], limit)`.
   Scores live in a dictionary, so a country requested twice is scored and
   selected once, at the position of its first request.
   */
  function CountriesWithEnoughData(rows: seq<SeriesRow>, countries: seq<string>, start: int, end: int, limit: real)
    : (r: CoverageResult)
    requires start <= end
    ensures r.scores.Keys == set c | c in countries
    ensures forall c :: c in r.scores ==> r.scores[c] == Score(rows, c, start, end)
    ensures forall c :: c in r.scores ==> 0.0 <= r.scores[c] <= 1.0
    ensures forall c :: c in r.selected <==> c in r.scores && r.scores[c] >= limit
    ensures InFirstOccurrenceOrder(r.selected, countries)
    ensures NoDuplicates(r.selected)
  {
    var scores := map c | c in countries :: Score(rows, c, start, end);
    var selected := Filter(Dedup(countries), c => c in scores && scores[c] >= limit);
    FilterKeepsFirstOccurrenceOrder(Dedup(countries), countries, c => c in scores && scores[c] >= limit);
    FirstOccurrenceOrderHasNoDuplicates(selected, countries);
    CoverageResult(selected, scores)
  }

  /** Lowering the limit never removes a country from the selection. */
  lemma LowerLimitKeepsSelection(rows: seq<SeriesRow>, countries: seq<string>, start: int, end: int, lower: real, upper: real)
    requires start <= end
    requires lower <= upper
    ensures forall c :: c in CountriesWithEnoughData(rows, countries, start, end, upper).selected
                    ==> c in CountriesWithEnoughData(rows, countries, start, end, lower).selected
  {
  }

  /** The requested countries that were not selected, in request order (duplicates kept). */
  function NotSelected(countries: seq<string>, selected: seq<string>): (r: seq<string>)
    ensures forall c :: c in r <==> c in countries && c !in selected
    ensures forall c :: multiset(r)[c] == if c in selected then 0 else multiset(countries)[c]
    ensures SubsequenceOf(r, countries)
  {
    FilterKeepsEveryOccurrence(countries, Unselected(selected));
    Filter(countries, Unselected(selected))
  }

  function Unselected(selected: seq<string>): string -> bool {
    c => c !in selected
  }

  /** Selected and not selected split the requested countries: each is in exactly one of them. */
  lemma SelectionPartitionsRequest(rows: seq<SeriesRow>, countries: seq<string>, start: int, end: int, limit: real)
    requires start <= end
    ensures var sel := CountriesWithEnoughData(rows, countries, start, end, limit).selected;
            var rest := NotSelected(countries, sel);
            && (forall c :: c in countries ==> (c in sel <==> c !in rest))
            && (forall c :: c in sel || c in rest ==> c in countries)
  {
  }
}
