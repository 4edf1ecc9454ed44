/**
 The transformation chain of `process_homicides_data_unodc.main`: keep the
 homicide-victims indicator, inner-join its rate rows with its count rows on
 the eight descriptive columns, derive the population from count and rate,
 round the rate, label `Region_2`, apply the rename tables, sort, and attach
 each row's year-over-year change within its series.
 */
module UnodcProcessing {
  import opened Seqs
  import opened Rounding
  import opened Sorting
  import opened Collation

  const TargetIndicator: string := "Victims of intentional homicide"
  const RateUnit: string := "Rate per 100,000 population"
  const CountUnit: string := "Counts"

  /** Renames of the `Country` column. */
  const CountryRenames: map<string, string> := map[
    "United Kingdom (England and Wales)" := "United Kingdom",
    "Venezuela (Bolivarian Republic of)" := "Venezuela",
    "United States of America" := "USA"
  ]

  /** Renames of the `Category` column. */
  const CategoryRenames: map<string, string> := map[
    "Socio-political homicide - terrorist offences" := "Terrorist homicide"
  ]

  /** Renames applied to `Region_2` after the per-country overrides. */
  const RegionRenames: map<string, string> := map["Americas" := "Latam"]

  /** One row of the UNODC sheet. */
  datatype RawRow = RawRow(
    iso3Code: string, country: string, region: string, subregion: string, indicator: string,
    dimension: string, category: string, sex: string, age: string, year: int,
    unit: string, value: real, source: string)

  /** The eight columns on which rates and counts are joined. */
  datatype JoinKey = JoinKey(
    country: string, region: string, subregion: string, year: int,
    dimension: string, category: string, sex: string, age: string)

  /** A row of the indicator, without `Iso3_code`, `Indicator` and `Source`. */
  datatype Observation = Observation(key: JoinKey, unit: string, value: real)

  /** A rate row joined with a count row of the same key. */
  datatype Joined = Joined(key: JoinKey, rate: real, count: real)

  /** A joined row after population, rounding, labelling and renaming. */
  datatype Record = Record(key: JoinKey, rate: real, count: real, population: Option<int>, region2: string)

  /** An output row: a record and its `homicides_rate_abs_change`. */
  datatype OutRow = OutRow(record: Record, rateAbsChange: Option<real>)

  function RawKey(r: RawRow): JoinKey {
    JoinKey(r.country, r.region, r.subregion, r.year, r.dimension, r.category, r.sex, r.age)
  }

  predicate IsTarget(r: RawRow) {
    r.indicator == TargetIndicator
  }

  function Observe(r: RawRow): Observation {
    Observation(RawKey(r), r.unit, r.value)
  }

  /** The sheet rows of the indicator that become observation `o` once the dropped columns are removed. */
  function ObservedAs(o: Observation): RawRow -> bool {
    r => IsTarget(r) && Observe(r) == o
  }

  /**
   The rows of the target indicator, with the dropped columns removed, in
   sheet order. How often each observation occurs is stated by
   `ObservationsKeepEveryRow`.
   */
  function Observations(raw: seq<RawRow>): (obs: seq<Observation>)
    ensures forall o :: o in obs <==> exists r :: r in raw && IsTarget(r) && Observe(r) == o
  {
    if |raw| == 0 then []
    else
      assert raw == [raw[0]] + raw[1..];
      var rest := Observations(raw[1..]);
      var obs := if IsTarget(raw[0]) then [Observe(raw[0])] + rest else rest;
      assert forall o :: o in obs ==> exists r :: r in raw && IsTarget(r) && Observe(r) == o by {
        forall o | o in obs ensures exists r :: r in raw && IsTarget(r) && Observe(r) == o {
          if !(IsTarget(raw[0]) && o == Observe(raw[0])) {
            var r :| r in raw[1..] && IsTarget(r) && Observe(r) == o;
            assert r in raw;
          }
        }
      }
      obs
  }

  /**
   Every row of the indicator is kept: an observation occurs once for each
   sheet row it comes from, rows that differ only in a dropped column included.
   */
  lemma {:induction false} ObservationsKeepEveryRow(raw: seq<RawRow>)
    ensures |Observations(raw)| == |Filter(raw, IsTarget)|
    ensures forall o :: multiset(Observations(raw))[o] == |Filter(raw, ObservedAs(o))|
  {
    if |raw| > 0 {
      assert raw == [raw[0]] + raw[1..];
      var rest := Observations(raw[1..]);
      ObservationsKeepEveryRow(raw[1..]);
      if IsTarget(raw[0]) {
        assert Observations(raw) == [Observe(raw[0])] + rest;
        assert multiset(Observations(raw)) == multiset{Observe(raw[0])} + multiset(rest);
        forall o ensures multiset(Observations(raw))[o] == |Filter(raw, ObservedAs(o))| {
          assert ObservedAs(o)(raw[0]) <==> o == Observe(raw[0]);
        }
      } else {
        assert Observations(raw) == rest;
        forall o ensures multiset(Observations(raw))[o] == |Filter(raw, ObservedAs(o))| {
          assert !ObservedAs(o)(raw[0]);
        }
      }
    }
  }

  predicate IsRate(o: Observation) {
    o.unit == RateUnit
  }

  predicate IsCount(o: Observation) {
    o.unit == CountUnit
  }

  /** The count rows of key `k`. */
  function HasKey(k: JoinKey): Observation -> bool {
    (y: Observation) => y.key == k
  }

  /** The count rows that, joined with rate row `x`, give the joined row `j`. */
  function JoinsInto(x: Observation, j: Joined): Observation -> bool {
    (y: Observation) => y.key == x.key && Joined(x.key, x.value, y.value) == j
  }

  /** The join of one rate row with every count row of the same key. */
  function MatchCounts(x: Observation, counts: seq<Observation>): (r: seq<Joined>)
    ensures forall j :: j in r <==> exists y :: y in counts && y.key == x.key && j == Joined(x.key, x.value, y.value)
  {
    if |counts| == 0 then []
    else
      assert counts == [counts[0]] + counts[1..];
      (if counts[0].key == x.key then [Joined(x.key, x.value, counts[0].value)] else [])
      + MatchCounts(x, counts[1..])
  }

  /** A rate row yields one joined row per count row of its key. */
  lemma MatchCountsPerCountRow(x: Observation, counts: seq<Observation>)
    ensures |MatchCounts(x, counts)| == |Filter(counts, HasKey(x.key))|
    ensures forall j :: multiset(MatchCounts(x, counts))[j] == |Filter(counts, JoinsInto(x, j))|
  {
    MatchCountsLength(x, counts);
    forall j ensures multiset(MatchCounts(x, counts))[j] == |Filter(counts, JoinsInto(x, j))| {
      MatchCountsCount(x, counts, j);
    }
  }

  lemma {:induction false} MatchCountsLength(x: Observation, counts: seq<Observation>)
    ensures |MatchCounts(x, counts)| == |Filter(counts, HasKey(x.key))|
  {
    if |counts| > 0 {
      assert counts == [counts[0]] + counts[1..];
      MatchCountsLength(x, counts[1..]);
      assert HasKey(x.key)(counts[0]) <==> counts[0].key == x.key;
    }
  }

  lemma {:induction false} MatchCountsCount(x: Observation, counts: seq<Observation>, j: Joined)
    ensures multiset(MatchCounts(x, counts))[j] == |Filter(counts, JoinsInto(x, j))|
  {
    if |counts| > 0 {
      assert counts == [counts[0]] + counts[1..];
      var head := if counts[0].key == x.key then [Joined(x.key, x.value, counts[0].value)] else [];
      var rest := MatchCounts(x, counts[1..]);
      MatchCountsCount(x, counts[1..], j);
      assert MatchCounts(x, counts) == head + rest;
      assert multiset(head + rest) == multiset(head) + multiset(rest);
      assert JoinsInto(x, j)(counts[0]) <==> counts[0].key == x.key && Joined(x.key, x.value, counts[0].value) == j;
    }
  }

  /** The number of (rate row, count row) pairs with equal keys. */
  function JoinSize(rates: seq<Observation>, counts: seq<Observation>): nat {
    if |rates| == 0 then 0
    else |Filter(counts, HasKey(rates[0].key))| + JoinSize(rates[1..], counts)
  }

  /** The number of (rate row, count row) pairs with equal keys whose join is `j`. */
  function JoinMultiplicity(rates: seq<Observation>, counts: seq<Observation>, j: Joined): nat {
    if |rates| == 0 then 0
    else |Filter(counts, JoinsInto(rates[0], j))| + JoinMultiplicity(rates[1..], counts, j)
  }

  /** The inner join of rate rows with count rows on the eight key columns. */
  function InnerJoin(rates: seq<Observation>, counts: seq<Observation>): (r: seq<Joined>)
    ensures forall j :: j in r <==> exists x :: x in rates && j in MatchCounts(x, counts)
  {
    if |rates| == 0 then []
    else
      var head := MatchCounts(rates[0], counts);
      var tail := InnerJoin(rates[1..], counts);
      assert forall j :: j in head + tail ==> exists x :: x in rates && j in MatchCounts(x, counts) by {
        forall j | j in head + tail ensures exists x :: x in rates && j in MatchCounts(x, counts) {
          if j in head {
            assert rates[0] in rates;
          } else {
            var x :| x in rates[1..] && j in MatchCounts(x, counts);
            assert x in rates;
          }
        }
      }
      assert forall j :: (exists x :: x in rates && j in MatchCounts(x, counts)) ==> j in head + tail by {
        forall j, x | x in rates && j in MatchCounts(x, counts) ensures j in head + tail {
          if x != rates[0] {
            assert x in rates[1..];
          }
        }
      }
      head + tail
  }

  /**
   The inner join yields one joined row for every pair of a rate row and a
   count row with equal keys: duplicated rows on either side multiply.
   */
  lemma {:induction false} InnerJoinPerPair(rates: seq<Observation>, counts: seq<Observation>)
    ensures |InnerJoin(rates, counts)| == JoinSize(rates, counts)
    ensures forall j :: multiset(InnerJoin(rates, counts))[j] == JoinMultiplicity(rates, counts, j)
  {
    if |rates| > 0 {
      var head := MatchCounts(rates[0], counts);
      var tail := InnerJoin(rates[1..], counts);
      MatchCountsPerCountRow(rates[0], counts);
      InnerJoinPerPair(rates[1..], counts);
      assert InnerJoin(rates, counts) == head + tail;
      assert multiset(head + tail) == multiset(head) + multiset(tail);
    }
  }

  /** The joined rows of a sheet: rates and counts of the target indicator that share a key. */
  function JoinedRows(raw: seq<RawRow>): seq<Joined> {
    var obs := Observations(raw);
    InnerJoin(Filter(obs, IsRate), Filter(obs, IsCount))
  }

  /**
   `count * 100000 / rate` rounded to an integer when the rate is positive,
   and missing otherwise. The result is the population that makes count and
   rate consistent: it is within half a person of the exact quotient.
   */
  function Population(count: real, rate: real): (p: Option<int>)
    ensures p.Some? <==> rate > 0.0
    ensures p.Some? ==> -rate / 2.0 <= p.value as real * rate - count * 100000.0 <= rate / 2.0
  {
    if rate > 0.0 then
      var exact := count * 100000.0 / rate;
      var n := RoundHalfEven(exact);
      assert exact * rate == count * 100000.0;
      RoundedQuotientIsConsistent(n, exact, rate, count);
      Some(n)
    else None
  }

  /** Multiplying back an integer within one half of `count * 100000 / rate` misses the count by at most half a rate. */
  lemma RoundedQuotientIsConsistent(n: int, exact: real, rate: real, count: real)
    requires rate > 0.0 && exact * rate == count * 100000.0
    requires exact - 0.5 <= n as real <= exact + 0.5
    ensures -rate / 2.0 <= n as real * rate - count * 100000.0 <= rate / 2.0
  {
    var d := n as real - exact;
    var dev := n as real * rate - count * 100000.0;
    assert dev == d * rate;
    var below, above := d + 0.5, 0.5 - d;
    assert below >= 0.0 && above >= 0.0;
    assert below * rate >= 0.0;
    assert above * rate >= 0.0;
    assert above * rate == rate / 2.0 - d * rate;
    assert (d + 0.5) * rate == d * rate + rate / 2.0;
  }

  /** The value mapped by `table`, or `v` itself when the table does not mention it (polars `replace`). */
  function Replace(v: string, table: map<string, string>): string {
    if v in table then table[v] else v
  }

  /** The `Region_2` label before renaming: own labels for Spain and the United States, the region otherwise. */
  function RegionOverride(country: string, region: string): string {
    if country == "Spain" then "Spain"
    else if country == "United States of America" then "USA"
    else region
  }

  /** The `Region_2` label of a row, from its country and region as they are in the sheet. */
  function Region2(country: string, region: string): (r2: string)
    ensures country == "Spain" ==> r2 == "Spain"
    ensures country == "United States of America" ==> r2 == "USA"
    ensures country != "Spain" && country != "United States of America" && region != "Americas" ==> r2 == region
    ensures r2 == "Latam" <==>
            country != "Spain" && country != "United States of America" && (region == "Americas" || region == "Latam")
  {
    Replace(RegionOverride(country, region), RegionRenames)
  }

  /**
   A joined row after the population, rounding, labelling and renaming
   steps: the key columns other than the renamed ones are kept, Country and
   Category go through their rename tables, the rate is rounded to two
   decimals, `Region_2` follows the labelling rules, and the population
   exists exactly for a positive rate and agrees with the count and the rate
   as it was before rounding.
   */
  function Prepare(j: Joined): (r: Record)
    ensures r.key.region == j.key.region && r.key.subregion == j.key.subregion && r.key.year == j.key.year
    ensures r.key.dimension == j.key.dimension && r.key.sex == j.key.sex && r.key.age == j.key.age
    ensures j.key.country !in CountryRenames ==> r.key.country == j.key.country
    ensures j.key.category !in CategoryRenames ==> r.key.category == j.key.category
    ensures j.rate - 0.005 <= r.rate <= j.rate + 0.005
    ensures r.count == j.count
    ensures r.population.Some? <==> j.rate > 0.0
    ensures r.population.Some? ==>
              -j.rate / 2.0 <= r.population.value as real * j.rate - j.count * 100000.0 <= j.rate / 2.0
    ensures j.key.country == "United States of America" ==> r.key.country == "USA" && r.region2 == "USA"
    ensures r.rate == Round2(j.rate)
    ensures r.region2 == Region2(j.key.country, j.key.region)
    ensures r.key.country == Replace(j.key.country, CountryRenames)
    ensures r.key.category == Replace(j.key.category, CategoryRenames)
  {
    var key := j.key.(country := Replace(j.key.country, CountryRenames),
                      category := Replace(j.key.category, CategoryRenames));
    Record(key, Round2(j.rate), j.count, Population(j.count, j.rate), Region2(j.key.country, j.key.region))
  }

  /** The series a record belongs to: Country, Dimension, Category, Sex, Age. */
  function SeriesOf(r: Record): seq<string> {
    [r.key.country, r.key.dimension, r.key.category, r.key.sex, r.key.age]
  }

  /** Output order: by Country, Dimension, Category, Sex, Age, then Year. */
  function SortLe(a: Record, b: Record): bool {
    if SeriesOf(a) == SeriesOf(b) then a.key.year <= b.key.year
    else FieldsLe(SeriesOf(a), SeriesOf(b))
  }

  /** Output order written out column by column, as a multi-column sort compares. */
  predicate ColumnsLe(a: Record, b: Record) {
    if a.key.country != b.key.country then StrLt(a.key.country, b.key.country)
    else if a.key.dimension != b.key.dimension then StrLt(a.key.dimension, b.key.dimension)
    else if a.key.category != b.key.category then StrLt(a.key.category, b.key.category)
    else if a.key.sex != b.key.sex then StrLt(a.key.sex, b.key.sex)
    else if a.key.age != b.key.age then StrLt(a.key.age, b.key.age)
    else a.key.year <= b.key.year
  }

  /** `SortLe` compares Country first, then Dimension, Category, Sex, Age, and Year last. */
  lemma SortLeComparesColumnByColumn(a: Record, b: Record)
    ensures SortLe(a, b) <==> ColumnsLe(a, b)
  {
    var sa, sb := SeriesOf(a), SeriesOf(b);
    if sa != sb {
      LexLeUnfold(sa, sb);
      LexLeUnfold(sa[1..], sb[1..]);
      LexLeUnfold(sa[1..][1..], sb[1..][1..]);
      LexLeUnfold(sa[1..][1..][1..], sb[1..][1..][1..]);
      LexLeUnfold(sa[1..][1..][1..][1..], sb[1..][1..][1..][1..]);
      assert sa[1..] == [a.key.dimension, a.key.category, a.key.sex, a.key.age];
      assert sb[1..] == [b.key.dimension, b.key.category, b.key.sex, b.key.age];
      assert sa[1..][1..] == [a.key.category, a.key.sex, a.key.age];
      assert sb[1..][1..] == [b.key.category, b.key.sex, b.key.age];
      assert sa[1..][1..][1..] == [a.key.sex, a.key.age];
      assert sb[1..][1..][1..] == [b.key.sex, b.key.age];
      assert sa[1..][1..][1..][1..] == [a.key.age];
      assert sb[1..][1..][1..][1..] == [b.key.age];
    }
  }

  /** One step of the lexicographic comparison of two non-empty column lists. */
  lemma LexLeUnfold(a: seq<string>, b: seq<string>)
    requires |a| > 0 && |b| > 0
    ensures FieldsLe(a, b) == if a[0] != b[0] then StrLt(a[0], b[0]) else FieldsLe(a[1..], b[1..])
  {
  }

  /** The output order is total and transitive, so sorting by it is well defined. */
  lemma SortLeIsTotalPreorder()
    ensures TotalPreorder(SortLe)
  {
    StrLtStrictTotal();
    forall a, b ensures SortLe(a, b) || SortLe(b, a) {
      LexLeTotal(SeriesOf(a), SeriesOf(b), StrLt);
    }
    forall a, b, c | SortLe(a, b) && SortLe(b, c) ensures SortLe(a, c) {
      var sa, sb, sc := SeriesOf(a), SeriesOf(b), SeriesOf(c);
      if sa != sb && sb != sc {
        LexLeTransitive(sa, sb, sc, StrLt);
        if sa == sc {
          LexLeAntisymmetric(sa, sb, StrLt);
        }
      }
    }
  }

  /** In a sorted table every series occupies consecutive rows. */
  lemma SeriesAreContiguous(rs: seq<Record>, i: int, j: int, k: int)
    requires SortedBy(rs, SortLe)
    requires 0 <= i < j < k < |rs|
    requires SeriesOf(rs[i]) == SeriesOf(rs[k])
    ensures SeriesOf(rs[j]) == SeriesOf(rs[i])
  {
    StrLtStrictTotal();
    assert SortLe(rs[i], rs[j]) && SortLe(rs[j], rs[k]);
    if SeriesOf(rs[j]) != SeriesOf(rs[i]) {
      LexLeAntisymmetric(SeriesOf(rs[i]), SeriesOf(rs[j]), StrLt);
    }
  }

  /** The last row before position `k` that belongs to series `g`, if any. */
  function LastOfSeries(rs: seq<Record>, g: seq<string>, k: nat): (j: Option<nat>)
    requires k <= |rs|
    ensures j.Some? ==> j.value < k && SeriesOf(rs[j.value]) == g
    ensures j.Some? ==> forall m :: j.value < m < k ==> SeriesOf(rs[m]) != g
    ensures j.None? ==> forall m :: 0 <= m < k ==> SeriesOf(rs[m]) != g
  {
    if k == 0 then None
    else if SeriesOf(rs[k - 1]) == g then Some(k - 1)
    else LastOfSeries(rs, g, k - 1)
  }

  /** Row `j` is the last row before row `i` that belongs to the series of row `i`. */
  predicate PreviousInSeries(rs: seq<Record>, i: nat, j: int)
    requires i < |rs|
  {
    && 0 <= j < i
    && SeriesOf(rs[j]) == SeriesOf(rs[i])
    && forall m :: j < m < i ==> SeriesOf(rs[m]) != SeriesOf(rs[i])
  }

  /**
   `homicides_rate_abs_change` of row `i`: the difference, rounded to two
   decimals, between its rate and the rate of the previous row of the same
   series (a window `diff` over the series); missing on a series' first row.
   */
  function RateChange(rs: seq<Record>, i: nat): (c: Option<real>)
    requires i < |rs|
    ensures c.None? <==> forall m :: 0 <= m < i ==> SeriesOf(rs[m]) != SeriesOf(rs[i])
    ensures c.Some? ==> exists j :: PreviousInSeries(rs, i, j) && c.value == Round2(rs[i].rate - rs[j].rate)
  {
    var last := LastOfSeries(rs, SeriesOf(rs[i]), i);
    if last.None? then None
    else
      var j := last.value;
      assert PreviousInSeries(rs, i, j);
      Some(Round2(rs[i].rate - rs[j].rate))
  }

  function WithRateChanges(rs: seq<Record>): (out: seq<OutRow>)
    ensures |out| == |rs|
    ensures forall i :: 0 <= i < |rs| ==> out[i] == OutRow(rs[i], RateChange(rs, i))
  {
    seq(|rs|, i requires 0 <= i < |rs| => OutRow(rs[i], RateChange(rs, i)))
  }

  function RecordOf(o: OutRow): Record {
    o.record
  }

  /** The model of the processing steps of `main`, from the sheet's rows to the rows written out. */
  function Normalise(raw: seq<RawRow>): (out: seq<OutRow>)
    ensures |out| == |JoinedRows(raw)|
    ensures SortedBy(Map(out, RecordOf), SortLe)
    ensures multiset(Map(out, RecordOf)) == multiset(Map(JoinedRows(raw), Prepare))
  {
    var records := SortedRecords(raw);
    var out := WithRateChanges(records);
    assert Map(out, RecordOf) == records;
    out
  }

  /** The prepared joined rows in output order. */
  function SortedRecords(raw: seq<RawRow>): (rs: seq<Record>)
    ensures |rs| == |JoinedRows(raw)|
    ensures SortedBy(rs, SortLe)
    ensures multiset(rs) == multiset(Map(JoinedRows(raw), Prepare))
  {
    SortLeIsTotalPreorder();
    var prepared := Map(JoinedRows(raw), Prepare);
    var rs := SortBy(prepared, SortLe);
    assert |rs| == |multiset(rs)| == |multiset(prepared)| == |prepared|;
    rs
  }

  /** Only the listed values are renamed, and renaming an already renamed value changes nothing. */
  lemma RenamesTouchOnlyListedValues(v: string)
    ensures Replace(v, CountryRenames) != v ==> v in CountryRenames
    ensures Replace(v, CategoryRenames) != v ==> v in CategoryRenames
    ensures Replace(Replace(v, CountryRenames), CountryRenames) == Replace(v, CountryRenames)
    ensures Replace(Replace(v, CategoryRenames), CategoryRenames) == Replace(v, CategoryRenames)
  {
  }

  /** Where a joined row comes from: a rate row and a count row of the indicator with the same key. */
  lemma JoinedRowOrigin(raw: seq<RawRow>, j: Joined)
    requires j in JoinedRows(raw)
    ensures exists x, y :: (x in raw && y in raw && IsTarget(x) && IsTarget(y)
      && x.unit == RateUnit && y.unit == CountUnit && RawKey(x) == RawKey(y)
      && j == Joined(RawKey(x), x.value, y.value))
  {
    var obs := Observations(raw);
    var rates, counts := Filter(obs, IsRate), Filter(obs, IsCount);
    var xo :| xo in rates && j in MatchCounts(xo, counts);
    var yo :| yo in counts && yo.key == xo.key && j == Joined(xo.key, xo.value, yo.value);
    var x :| x in raw && IsTarget(x) && Observe(x) == xo;
    var y :| y in raw && IsTarget(y) && Observe(y) == yo;
  }

  /** Every rate row and count row of the indicator that share a key are joined. */
  lemma MatchingPairIsJoined(raw: seq<RawRow>, x: RawRow, y: RawRow)
    requires x in raw && y in raw && IsTarget(x) && IsTarget(y)
    requires x.unit == RateUnit && y.unit == CountUnit && RawKey(x) == RawKey(y)
    ensures Joined(RawKey(x), x.value, y.value) in JoinedRows(raw)
  {
    var obs := Observations(raw);
    var rates, counts := Filter(obs, IsRate), Filter(obs, IsCount);
    assert Observe(x) in rates && Observe(y) in counts;
    assert Joined(RawKey(x), x.value, y.value) in MatchCounts(Observe(x), counts);
  }

  /**
   Every output row is the prepared join of a rate row and a count row of
   the homicide-victims indicator with equal values in all eight key columns.
   */
  lemma OutputRowsHaveRateAndCount(raw: seq<RawRow>)
    ensures forall o :: o in Normalise(raw) ==> FromRateAndCount(raw, o.record)
  {
    forall o | o in Normalise(raw) ensures FromRateAndCount(raw, o.record) {
      var i :| 0 <= i < |Normalise(raw)| && Normalise(raw)[i] == o;
      var j := OutputRecordIsPrepared(raw, i);
      JoinedRowOrigin(raw, j);
    }
  }

  /** `rec` is the prepared join of a rate row and a count row of the indicator with equal keys. */
  predicate FromRateAndCount(raw: seq<RawRow>, rec: Record) {
    exists x, y :: (x in raw && y in raw && IsTarget(x) && IsTarget(y)
      && x.unit == RateUnit && y.unit == CountUnit && RawKey(x) == RawKey(y)
      && rec == Prepare(Joined(RawKey(x), x.value, y.value)))
  }

  /** Every rate row and count row of the indicator with equal keys yield an output row. */
  lemma MatchingPairIsOutput(raw: seq<RawRow>, x: RawRow, y: RawRow)
    requires x in raw && y in raw && IsTarget(x) && IsTarget(y)
    requires x.unit == RateUnit && y.unit == CountUnit && RawKey(x) == RawKey(y)
    ensures exists o :: o in Normalise(raw) && o.record == Prepare(Joined(RawKey(x), x.value, y.value))
  {
    var j := Joined(RawKey(x), x.value, y.value);
    MatchingPairIsJoined(raw, x, y);
    var i := PreparedIsOutput(raw, j);
    assert Normalise(raw)[i] in Normalise(raw);
  }

  /** The record of an output row is a prepared joined row. */
  lemma OutputRecordIsPrepared(raw: seq<RawRow>, i: nat) returns (j: Joined)
    requires i < |Normalise(raw)|
    ensures j in JoinedRows(raw) && Normalise(raw)[i].record == Prepare(j)
  {
    var rs := SortedRecords(raw);
    NormalisedRow(raw, i);
    assert rs[i] in multiset(rs);
    var prepared := Map(JoinedRows(raw), Prepare);
    assert rs[i] in multiset(prepared);
    var k :| 0 <= k < |prepared| && prepared[k] == rs[i];
    j := JoinedRows(raw)[k];
  }

  /** Every prepared joined row is the record of an output row. */
  lemma PreparedIsOutput(raw: seq<RawRow>, j: Joined) returns (i: nat)
    requires j in JoinedRows(raw)
    ensures i < |Normalise(raw)| && Normalise(raw)[i].record == Prepare(j)
  {
    var rs := SortedRecords(raw);
    MapMember(JoinedRows(raw), Prepare, j);
    assert Prepare(j) in multiset(rs);
    var k :| 0 <= k < |rs| && rs[k] == Prepare(j);
    NormalisedRow(raw, k);
    i := k;
  }

  /**
   In a sorted table the change of a row is taken against the row right
   above it when that row is of the same series (and then not of a later
   year); the first row of every series has no change.
   */
  lemma RateChangeOfSortedRecords(rs: seq<Record>, i: nat)
    requires SortedBy(rs, SortLe)
    requires i < |rs|
    ensures if i > 0 && SeriesOf(rs[i - 1]) == SeriesOf(rs[i])
            then RateChange(rs, i) == Some(Round2(rs[i].rate - rs[i - 1].rate)) && rs[i - 1].key.year <= rs[i].key.year
            else RateChange(rs, i) == None
  {
    var g := SeriesOf(rs[i]);
    var last := LastOfSeries(rs, g, i);
    if i > 0 && SeriesOf(rs[i - 1]) == g {
      assert SortLe(rs[i - 1], rs[i]);
      assert last == Some(i - 1);
    } else {
      if last.Some? {
        SeriesAreContiguous(rs, last.value, i - 1, i);
      }
      assert last == None;
    }
  }

  /**
   Row `i` of an output table carries the rounded difference with the row
   above when that row is of the same series (and not of a later year), and
   no change otherwise.
   */
  predicate ChangeAgainstRowAbove(out: seq<OutRow>, i: nat)
    requires i < |out|
  {
    if i > 0 && SeriesOf(out[i - 1].record) == SeriesOf(out[i].record)
    then out[i].rateAbsChange == Some(Round2(out[i].record.rate - out[i - 1].record.rate))
         && out[i - 1].record.key.year <= out[i].record.key.year
    else out[i].rateAbsChange == None
  }

  /** Attaching rate changes to a sorted table takes each change against the row above. */
  lemma SortedChangesAgainstRowAbove(rs: seq<Record>, out: seq<OutRow>, i: nat)
    requires SortedBy(rs, SortLe)
    requires i < |rs| == |out|
    requires out[i] == OutRow(rs[i], RateChange(rs, i))
    requires i > 0 ==> out[i - 1].record == rs[i - 1]
    ensures ChangeAgainstRowAbove(out, i)
  {
    RateChangeOfSortedRecords(rs, i);
  }

  /**
   `homicides_rate_abs_change` of the output: the rounded difference with
   the row above when it is of the same series, and missing on the first row
   of every series.
   */
  lemma OutputRateChanges(raw: seq<RawRow>, i: nat)
    requires i < |Normalise(raw)|
    ensures ChangeAgainstRowAbove(Normalise(raw), i)
  {
    NormalisedRow(raw, i);
    if i > 0 {
      NormalisedRow(raw, i - 1);
    }
    SortedChangesAgainstRowAbove(SortedRecords(raw), Normalise(raw), i);
  }

  /** Row `i` of the output is record `i` in output order with its rate change. */
  lemma NormalisedRow(raw: seq<RawRow>, i: nat)
    requires i < |Normalise(raw)|
    ensures i < |SortedRecords(raw)|
    ensures Normalise(raw)[i] == OutRow(SortedRecords(raw)[i], RateChange(SortedRecords(raw), i))
  {
    assert Normalise(raw) == WithRateChanges(SortedRecords(raw));
  }

  /** The output has one row per pair of a rate row and a count row of the indicator with equal keys. */
  lemma OutputHasOneRowPerPair(raw: seq<RawRow>)
    ensures var obs := Observations(raw);
            |Normalise(raw)| == JoinSize(Filter(obs, IsRate), Filter(obs, IsCount))
  {
    var obs := Observations(raw);
    assert JoinedRows(raw) == InnerJoin(Filter(obs, IsRate), Filter(obs, IsCount));
    InnerJoinPerPair(Filter(obs, IsRate), Filter(obs, IsCount));
  }

  /** A rate row meeting two identical count rows of its key is joined twice. */
  lemma DuplicateCountRowsMultiply(x: Observation, y: Observation)
    requires y.key == x.key
    ensures InnerJoin([x], [y, y]) == [Joined(x.key, x.value, y.value), Joined(x.key, x.value, y.value)]
  {
    var j := Joined(x.key, x.value, y.value);
    assert [y, y][1..] == [y] && [y][1..] == [] && [x][1..] == [];
    assert MatchCounts(x, [y]) == [j];
    assert MatchCounts(x, [y, y]) == [j] + [j];
    assert InnerJoin([x], [y, y]) == MatchCounts(x, [y, y]) + InnerJoin([], [y, y]);
  }
}
