/**
 A worked instance of the coverage filter and the ranking: country A has a
 row for every year 2000..2009, country B only for 2000..2003; with the
 window [2000, 2009] and the configured limit 0.65, A scores 1 and B 0.4,
 only A is selected, and only A is ranked.
 */
module RankingExample {
  import opened Seqs
  import opened Rounding
  import opened Coverage
  import opened Ranking

  /** The limit `PROP_YEARS_IN_PERIOD_LIMIT` of the analysis configuration. */
  const PropYearsInPeriodLimit: real := 0.65

  function ExampleRows(): seq<SeriesRow> {
    seq(14, i => if i < 10 then SeriesRow("A", "Europe", 2000 + i, 1.0, [])
                 else SeriesRow("B", "Europe", 1990 + i, 2.0, []))
  }

  lemma ExampleRowsAreInEurope()
    ensures forall q :: q in ExampleRows() ==> q.region2 == "Europe"
  {
    var rows := ExampleRows();
    forall q | q in rows ensures q.region2 == "Europe" {
      var i :| 0 <= i < |rows| && rows[i] == q;
    }
  }

  lemma SingleDistinctValue(s: seq<string>, a: string)
    requires NoDuplicates(s) && a in s
    requires forall c :: c in s ==> c == a
    ensures s == [a]
  {
    assert |s| >= 2 ==> s[0] != s[1];
    forall i | 0 <= i < |s| ensures s[i] == a {
      assert s[i] in s;
    }
  }

  lemma ScoresOfTwo(m: map<string, real>, a: real, b: real)
    requires m.Keys == {"A", "B"} && m["A"] == a && m["B"] == b
    ensures m == map["A" := a, "B" := b]
  {
  }

  lemma ExampleScoreOfA()
    ensures Score(ExampleRows(), "A", 2000, 2009) == 1.0
  {
    var rows := ExampleRows();
    forall y | 2000 <= y <= 2009 ensures HasRowFor(rows, "A", y) {
      assert rows[y - 2000].year == y;
    }
    FullCoverageScoresOne(rows, "A", 2000, 2009);
  }

  lemma ExampleYearsOfB()
    ensures YearsOf(ExampleRows(), "B") == {2000, 2001, 2002, 2003}
  {
    var rows := ExampleRows();
    var years := YearsOf(rows, "B");
    forall y | y in {2000, 2001, 2002, 2003} ensures y in years {
      assert rows[10 + y - 2000] in rows;
    }
    forall y | y in years ensures 2000 <= y <= 2003 {
      var r :| r in rows && r.country == "B" && r.year == y;
      var i :| 0 <= i < |rows| && rows[i] == r;
    }
  }

  lemma ExampleScoreOfB()
    ensures Score(ExampleRows(), "B", 2000, 2009) == 0.4
  {
    var years := YearsOf(ExampleRows(), "B");
    ExampleYearsOfB();
    assert WindowYears(years, 2000, 2009) == {2000, 2001, 2002, 2003};
    assert |{2000, 2001, 2002, 2003}| == 4;
    assert YearsPresent(years, 2000, 2009) == 4;
    assert 4.0 / 10.0 == 40 as real / 100.0;
    Round2OfHundredths(40);
  }

  lemma ExampleSelectedIsA()
    ensures CountriesWithEnoughData(ExampleRows(), ["A", "B"], 2000, 2009, PropYearsInPeriodLimit).selected == ["A"]
  {
    ExampleScoreOfA();
    ExampleScoreOfB();
    var sel := CountriesWithEnoughData(ExampleRows(), ["A", "B"], 2000, 2009, PropYearsInPeriodLimit).selected;
    assert "A" in sel && "B" !in sel;
    assert forall c :: c in sel ==> c == "A";
    SingleDistinctValue(sel, "A");
  }

  lemma ExampleScores()
    ensures CountriesWithEnoughData(ExampleRows(), ["A", "B"], 2000, 2009, PropYearsInPeriodLimit).scores
         == map["A" := 1.0, "B" := 0.4]
  {
    ExampleScoreOfA();
    ExampleScoreOfB();
    var scores := CountriesWithEnoughData(ExampleRows(), ["A", "B"], 2000, 2009, PropYearsInPeriodLimit).scores;
    assert scores.Keys == {"A", "B"};
    ScoresOfTwo(scores, 1.0, 0.4);
  }

  /** A scores 1 and B 0.4, and only A reaches the limit. */
  lemma ExampleSelection()
    ensures CountriesWithEnoughData(ExampleRows(), ["A", "B"], 2000, 2009, PropYearsInPeriodLimit).selected == ["A"]
    ensures CountriesWithEnoughData(ExampleRows(), ["A", "B"], 2000, 2009, PropYearsInPeriodLimit).scores
         == map["A" := 1.0, "B" := 0.4]
  {
    ExampleSelectedIsA();
    ExampleScores();
  }

  /** The ranking holds A and nothing else. */
  lemma ExampleRanking()
    ensures var ranking := CalculateRanking(ExampleRows(), ["A", "B"], PropYearsInPeriodLimit, 2000, 2009);
            && |ranking| > 0
            && forall x :: x in ranking ==> x.country == "A" && x.region2 == "Europe"
  {
    var rows := ExampleRows();
    ExampleSelection();
    var ranking := CalculateRanking(rows, ["A", "B"], PropYearsInPeriodLimit, 2000, 2009);
    assert rows[0] in rows && rows[0].country == "A";
    assert HasLabel(rows, "A", "Europe");
    RankingIsComplete(rows, ["A", "B"], PropYearsInPeriodLimit, 2000, 2009);
    ExampleRowsAreInEurope();
    RankingRowsAreSound(rows, ["A", "B"], PropYearsInPeriodLimit, 2000, 2009);
    forall x | x in ranking ensures x.country == "A" && x.region2 == "Europe" {
      assert HasLabel(rows, x.country, x.region2);
    }
  }
}
