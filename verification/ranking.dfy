/**
 The ranking of `calculate_ranking`: rows of the countries that pass the
 coverage filter and fall in the closed window are grouped, each group's rate
 is averaged and rounded, every `Region_2` label the country has in the table
 is attached, duplicates are dropped, and the table is sorted by the mean rate
 ascending.
 */
module Ranking {
  import opened Seqs
  import opened Rounding
  import opened Sorting
  import opened Coverage

  /** A ranking group: the country and the values of the other grouping columns. */
  datatype GroupKey = GroupKey(country: string, segment: seq<string>)

  /** One row of the ranking table (`mean_homicides_rate` and the joined `Region_2`). */
  datatype RankRow = RankRow(country: string, segment: seq<string>, meanRate: real, region2: string)

  function KeyOf(r: SeriesRow): GroupKey {
    GroupKey(r.country, r.segment)
  }

  function RateOf(r: SeriesRow): real {
    r.rate
  }

  /** A `(Country, Region_2)` pair of the regions map. */
  function RegionPairOf(r: SeriesRow): (string, string) {
    (r.country, r.region2)
  }

  /** `Year` is between `start` and `end`, both ends included. */
  predicate InWindow(r: SeriesRow, start: int, end: int) {
    start <= r.year <= end
  }

  /** The row filter of the ranking: inside the window and of a selected country. */
  function KeptBy(selected: seq<string>, start: int, end: int): SeriesRow -> bool {
    r => InWindow(r, start, end) && r.country in selected
  }

  function InGroup(k: GroupKey): SeriesRow -> bool {
    r => KeyOf(r) == k
  }

  function InGroupAndWindow(k: GroupKey, start: int, end: int): SeriesRow -> bool {
    r => KeyOf(r) == k && InWindow(r, start, end)
  }

  function Sum(xs: seq<real>): real {
    if |xs| == 0 then 0.0 else xs[0] + Sum(xs[1..])
  }

  /** The arithmetic mean. */
  function Mean(xs: seq<real>): real
    requires |xs| > 0
  {
    Sum(xs) / |xs| as real
  }

  /** A sum of values within [lo, hi] lies between |xs| * lo and |xs| * hi. */
  lemma {:induction false} SumWithinBounds(xs: seq<real>, lo: real, hi: real)
    requires forall i :: 0 <= i < |xs| ==> lo <= xs[i] <= hi
    ensures |xs| as real * lo <= Sum(xs) <= |xs| as real * hi
  {
    if |xs| > 0 {
      SumWithinBounds(xs[1..], lo, hi);
    }
  }

  /** A mean lies between the smallest and the largest value averaged. */
  lemma MeanWithinBounds(xs: seq<real>, lo: real, hi: real)
    requires |xs| > 0
    requires forall i :: 0 <= i < |xs| ==> lo <= xs[i] <= hi
    ensures lo <= Mean(xs) <= hi
  {
    SumWithinBounds(xs, lo, hi);
    var n := |xs| as real;
    assert (n * lo) / n == lo && (n * hi) / n == hi;
  }

  /** The rates that the ranking averages for group `k`: that group's rows inside the window. */
  function WindowRates(rows: seq<SeriesRow>, k: GroupKey, start: int, end: int): seq<real> {
    Map(Filter(rows, InGroupAndWindow(k, start, end)), RateOf)
  }

  /** The `(Country, Region_2)` pairs of the whole table, each once. */
  function RegionPairs(rows: seq<SeriesRow>): (r: seq<(string, string)>)
    ensures forall p :: p in r <==> exists q :: q in rows && RegionPairOf(q) == p
  {
    var all := Map(rows, RegionPairOf);
    assert forall q :: q in rows ==> RegionPairOf(q) in all by {
      forall q | q in rows ensures RegionPairOf(q) in all {
        MapMember(rows, RegionPairOf, q);
      }
    }
    Dedup(all)
  }

  /** The rounded mean rate of every group, in the order of `keys`. */
  function GroupMeans(keys: seq<GroupKey>, kept: seq<SeriesRow>): (r: seq<(GroupKey, real)>)
    requires forall k :: k in keys ==> k in Map(kept, KeyOf)
    ensures |r| == |keys|
    ensures forall i :: 0 <= i < |r| ==>
      && r[i].0 == keys[i]
      && |Filter(kept, InGroup(keys[i]))| > 0
      && r[i].1 == Round2(Mean(Map(Filter(kept, InGroup(keys[i])), RateOf)))
  {
    if |keys| == 0 then []
    else
      var members := Filter(kept, InGroup(keys[0]));
      assert |members| > 0 by {
        assert keys[0] in Map(kept, KeyOf);
        var j :| 0 <= j < |kept| && Map(kept, KeyOf)[j] == keys[0];
        assert kept[j] in members;
      }
      [(keys[0], Round2(Mean(Map(members, RateOf))))] + GroupMeans(keys[1..], kept)
  }

  /**
   One ranking row per `(Country, Region_2)` pair of the group's country.
   This is the left join on `Country` for every group the ranking forms: a
   group's own rows give its country at least one pair, so the null-label
   row a left join emits for a country without a pair never arises.
   */
  function RegionsFor(k: GroupKey, mean: real, pairs: seq<(string, string)>): (r: seq<RankRow>)
    ensures forall x :: x in r <==>
      exists p :: p in pairs && p.0 == k.country && x == RankRow(k.country, k.segment, mean, p.1)
  {
    if |pairs| == 0 then []
    else
      assert pairs == [pairs[0]] + pairs[1..];
      (if pairs[0].0 == k.country then [RankRow(k.country, k.segment, mean, pairs[0].1)] else [])
      + RegionsFor(k, mean, pairs[1..])
  }

  /** The join of every group mean with the regions map. */
  function JoinRegions(means: seq<(GroupKey, real)>, pairs: seq<(string, string)>): (r: seq<RankRow>)
    ensures forall x :: x in r <==> exists g :: g in means && x in RegionsFor(g.0, g.1, pairs)
  {
    if |means| == 0 then []
    else
      assert means == [means[0]] + means[1..];
      RegionsFor(means[0].0, means[0].1, pairs) + JoinRegions(means[1..], pairs)
  }

  lemma RegionsForHasPair(k: GroupKey, mean: real, pairs: seq<(string, string)>, p: (string, string))
    requires p in pairs && p.0 == k.country
    ensures RankRow(k.country, k.segment, mean, p.1) in RegionsFor(k, mean, pairs)
  {
  }

  lemma JoinRegionsHasGroup(means: seq<(GroupKey, real)>, pairs: seq<(string, string)>, g: (GroupKey, real), x: RankRow)
    requires g in means && x in RegionsFor(g.0, g.1, pairs)
    ensures x in JoinRegions(means, pairs)
  {
  }

  /** Ranking order: by `mean_homicides_rate`, ascending. */
  function MeanLe(a: RankRow, b: RankRow): bool {
    a.meanRate <= b.meanRate
  }

  /** The rows the ranking aggregates: inside the window and of a selected country. */
  function KeptRows(rows: seq<SeriesRow>, selected: seq<string>, start: int, end: int): seq<SeriesRow> {
    Filter(rows, KeptBy(selected, start, end))
  }

  /** The group means joined with the regions map, before `unique()` and `sort`. */
  function JoinedMeans(rows: seq<SeriesRow>, selected: seq<string>, start: int, end: int): seq<RankRow> {
    var kept := KeptRows(rows, selected, start, end);
    var keys := Dedup(Map(kept, KeyOf));
    JoinRegions(GroupMeans(keys, kept), RegionPairs(rows))
  }

  /**
   The model of `calculate_ranking(df, countries, limit, start, end, by)`,
   where `by` is `Country` followed by the columns whose values each row
   carries in `segment`. `unique()` and the sort keep exactly the joined rows.
   */
  function CalculateRanking(rows: seq<SeriesRow>, countries: seq<string>, limit: real, start: int, end: int)
    : (r: seq<RankRow>)
    requires start <= end
    ensures SortedBy(r, MeanLe)
    ensures NoDuplicates(r)
    ensures forall x :: x in r <==>
      x in JoinedMeans(rows, CountriesWithEnoughData(rows, countries, start, end, limit).selected, start, end)
  {
    var selected := CountriesWithEnoughData(rows, countries, start, end, limit).selected;
    var joined := JoinedMeans(rows, selected, start, end);
    assert TotalPreorder(MeanLe);
    var ranking := SortBy(Dedup(joined), MeanLe);
    PermutationKeepsNoDuplicates(Dedup(joined), ranking);
    assert forall x :: x in ranking <==> x in multiset(Dedup(joined));
    ranking
  }

  /** For a selected country, a group's rows among the kept rows are exactly its rows inside the window. */
  lemma GroupOfKeptRows(rows: seq<SeriesRow>, selected: seq<string>, start: int, end: int, k: GroupKey)
    requires k.country in selected
    ensures Filter(KeptRows(rows, selected, start, end), InGroup(k))
         == Filter(rows, InGroupAndWindow(k, start, end))
  {
    FilterFilter(rows, KeptBy(selected, start, end), InGroup(k), InGroupAndWindow(k, start, end));
  }

  /** What a joined row is made of: a selected group's window mean and one of its country's labels. */
  lemma JoinedRowIsSound(rows: seq<SeriesRow>, selected: seq<string>, start: int, end: int, x: RankRow)
    requires x in JoinedMeans(rows, selected, start, end)
    ensures x.country in selected
    ensures var ws := WindowRates(rows, GroupKey(x.country, x.segment), start, end);
            |ws| > 0 && x.meanRate == Round2(Mean(ws))
    ensures exists q :: q in rows && q.country == x.country && q.region2 == x.region2
  {
    var kept := KeptRows(rows, selected, start, end);
    var keys := Dedup(Map(kept, KeyOf));
    var means := GroupMeans(keys, kept);
    var pairs := RegionPairs(rows);
    var g :| g in means && x in RegionsFor(g.0, g.1, pairs);
    var p :| p in pairs && p.0 == g.0.country && x == RankRow(g.0.country, g.0.segment, g.1, p.1);
    var i :| 0 <= i < |means| && means[i] == g;
    var k := keys[i];
    assert k in Map(kept, KeyOf);
    var j :| 0 <= j < |kept| && Map(kept, KeyOf)[j] == k;
    assert kept[j] in kept;
    assert k.country in selected;
    GroupOfKeptRows(rows, selected, start, end, k);
  }

  /** The group of a kept row has a mean among the group means: the rounded mean of its rows inside the window. */
  lemma GroupMeanOfKeptRow(rows: seq<SeriesRow>, selected: seq<string>, start: int, end: int, r: SeriesRow)
    returns (g: (GroupKey, real))
    requires r in rows && InWindow(r, start, end) && r.country in selected
    ensures var kept := KeptRows(rows, selected, start, end);
            g in GroupMeans(Dedup(Map(kept, KeyOf)), kept)
    ensures g.0 == KeyOf(r)
    ensures |WindowRates(rows, KeyOf(r), start, end)| > 0
    ensures g.1 == Round2(Mean(WindowRates(rows, KeyOf(r), start, end)))
  {
    var kept := KeptRows(rows, selected, start, end);
    var keys := Dedup(Map(kept, KeyOf));
    var means := GroupMeans(keys, kept);
    var k := KeyOf(r);
    assert r in kept;
    MapMember(kept, KeyOf, r);
    var i :| 0 <= i < |keys| && keys[i] == k;
    assert |means| == |keys| && means[i].0 == k;
    assert means[i].1 == Round2(Mean(Map(Filter(kept, InGroup(k)), RateOf)));
    GroupOfKeptRows(rows, selected, start, end, k);
    g := means[i];
  }

  /** Every group of a selected country with a row inside the window is joined with each of its labels. */
  lemma JoinedRowsAreComplete(rows: seq<SeriesRow>, selected: seq<string>, start: int, end: int,
                              r: SeriesRow, region: string)
    requires r in rows && InWindow(r, start, end) && r.country in selected
    requires exists q :: q in rows && q.country == r.country && q.region2 == region
    ensures var ws := WindowRates(rows, KeyOf(r), start, end);
            |ws| > 0 && RankRow(r.country, r.segment, Round2(Mean(ws)), region) in JoinedMeans(rows, selected, start, end)
  {
    var kept := KeptRows(rows, selected, start, end);
    var means := GroupMeans(Dedup(Map(kept, KeyOf)), kept);
    var pairs := RegionPairs(rows);
    var g := GroupMeanOfKeptRow(rows, selected, start, end, r);
    var q :| q in rows && q.country == r.country && q.region2 == region;
    var p := RegionPairOf(q);
    assert p in pairs && p.0 == g.0.country;
    var x := RankRow(g.0.country, g.0.segment, g.1, p.1);
    RegionsForHasPair(g.0, g.1, pairs, p);
    JoinRegionsHasGroup(means, pairs, g, x);
  }

  /** `country` carries the label `region` on some row of the table. */
  predicate HasLabel(rows: seq<SeriesRow>, country: string, region: string) {
    exists q :: q in rows && q.country == country && q.region2 == region
  }

  /**
   Every ranking row is of a selected country, its value is the rounded mean
   rate of its group's rows inside the window, and its `Region_2` label is
   one the country has somewhere in the table.
   */
  lemma RankingRowsAreSound(rows: seq<SeriesRow>, countries: seq<string>, limit: real, start: int, end: int)
    requires start <= end
    ensures forall x :: x in CalculateRanking(rows, countries, limit, start, end) ==>
      && x.country in CountriesWithEnoughData(rows, countries, start, end, limit).selected
      && |WindowRates(rows, GroupKey(x.country, x.segment), start, end)| > 0
      && x.meanRate == Round2(Mean(WindowRates(rows, GroupKey(x.country, x.segment), start, end)))
      && HasLabel(rows, x.country, x.region2)
  {
    var selected := CountriesWithEnoughData(rows, countries, start, end, limit).selected;
    forall x | x in CalculateRanking(rows, countries, limit, start, end)
      ensures x.country in selected
      ensures |WindowRates(rows, GroupKey(x.country, x.segment), start, end)| > 0
      ensures x.meanRate == Round2(Mean(WindowRates(rows, GroupKey(x.country, x.segment), start, end)))
      ensures HasLabel(rows, x.country, x.region2)
    {
      JoinedRowIsSound(rows, selected, start, end, x);
    }
  }

  /**
   Every group with a row inside the window of a selected country is ranked,
   once per `Region_2` label its country has in the table, with the rounded
   mean rate of the group's rows inside the window.
   */
  lemma RankingIsComplete(rows: seq<SeriesRow>, countries: seq<string>, limit: real, start: int, end: int)
    requires start <= end
    ensures forall r, region ::
      r in rows && InWindow(r, start, end)
      && r.country in CountriesWithEnoughData(rows, countries, start, end, limit).selected
      && HasLabel(rows, r.country, region)
      ==> && |WindowRates(rows, KeyOf(r), start, end)| > 0
          && RankRow(r.country, r.segment, Round2(Mean(WindowRates(rows, KeyOf(r), start, end))), region)
             in CalculateRanking(rows, countries, limit, start, end)
  {
    var selected := CountriesWithEnoughData(rows, countries, start, end, limit).selected;
    forall r, region | r in rows && InWindow(r, start, end) && r.country in selected && HasLabel(rows, r.country, region)
      ensures |WindowRates(rows, KeyOf(r), start, end)| > 0
      ensures RankRow(r.country, r.segment, Round2(Mean(WindowRates(rows, KeyOf(r), start, end))), region)
              in CalculateRanking(rows, countries, limit, start, end)
    {
      JoinedRowsAreComplete(rows, selected, start, end, r, region);
    }
  }
}
