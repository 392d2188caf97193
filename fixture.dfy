/** The five-row sample table of the test suite and what the queries give
    on it. The names are replaced by stand-ins for their hashes. */
module Fixture {
  import opened Frame
  import opened Counting
  import opened Series
  import opened MedalRace
  import opened DataProcessor
  import opened DataLoader

  const CanSwimGold := Row("CAN", "Swimming", "M", Some(25), Some(180), Some(80), 2020, "Summer", Some("Gold"), "hash-1")
  const UsaRunSilver := Row("USA", "Athletics", "F", Some(30), Some(170), Some(60), 2020, "Summer", Some("Silver"), "hash-2")
  const CanSwimBronze := Row("CAN", "Swimming", "M", Some(22), Some(175), Some(70), 2016, "Summer", Some("Bronze"), "hash-3")
  const UsaRunNone := Row("USA", "Athletics", "F", Some(28), Some(165), Some(55), 2016, "Summer", None, "hash-4")
  const SweHockeyGold := Row("SWE", "Hockey", "M", Some(24), Some(185), Some(85), 2022, "Winter", Some("Gold"), "hash-5")

  function SampleData(): seq<Row>
  {
    [CanSwimGold, UsaRunSilver, CanSwimBronze, UsaRunNone, SweHockeyGold]
  }

  function Keep(cs: seq<Criterion>, x: Row): seq<Row>
  {
    if HoldsAll(cs, x) then [x] else []
  }

  lemma WhereOnSample(cs: seq<Criterion>)
    ensures Where(SampleData(), cs) ==
      Keep(cs, CanSwimGold) + Keep(cs, UsaRunSilver) + Keep(cs, CanSwimBronze) + Keep(cs, UsaRunNone) + Keep(cs, SweHockeyGold)
  {
    var rows: seq<Row> := [];
    assert Where(rows, cs) == [];
    WhereAppendOne(rows, CanSwimGold, cs);
    rows := rows + [CanSwimGold];
    WhereAppendOne(rows, UsaRunSilver, cs);
    rows := rows + [UsaRunSilver];
    WhereAppendOne(rows, CanSwimBronze, cs);
    rows := rows + [CanSwimBronze];
    WhereAppendOne(rows, UsaRunNone, cs);
    rows := rows + [UsaRunNone];
    WhereAppendOne(rows, SweHockeyGold, cs);
    rows := rows + [SweHockeyGold];
    assert rows == SampleData();
  }

  lemma CanadaMedalRows()
    ensures Where(SampleData(), CountryMedals("CAN")) == [CanSwimGold, CanSwimBronze]
  {
    var cs := CountryMedals("CAN");
    WhereOnSample(cs);
    assert Equals(NOC, "CAN") in cs && Present(Medal) in cs;
  }

  // ---------------------------------------------------------------------
  // The rows and values that the queries see

  lemma CanadaMedalValues()
    ensures DistinctValues(SampleData(), CountryMedals("CAN"), Sport) == {"Swimming"}
    ensures DistinctValues(SampleData(), CountryMedals("CAN"), Medal) == {"Gold", "Bronze"}
  {
    CanadaMedalRows();
    assert CanSwimGold in Where(SampleData(), CountryMedals("CAN"));
    assert CanSwimBronze in Where(SampleData(), CountryMedals("CAN"));
  }

  lemma CanadaMedalsBy(c: Criterion)
    ensures Where(SampleData(), CountryMedals("CAN") + [c]) == Keep([c], CanSwimGold) + Keep([c], CanSwimBronze)
  {
    var cs := CountryMedals("CAN") + [c];
    WhereOnSample(cs);
    assert Equals(NOC, "CAN") in cs && Present(Medal) in cs && c in cs;
    forall x ensures HoldsAll(cs, x) <==> HoldsAll(CountryMedals("CAN"), x) && Holds(c, x) {
      HoldsAllAppend(CountryMedals("CAN"), [c], x);
      HoldsAllOne(c, x);
    }
  }

  /** The test suite's expectation: Swimming, with Gold and Bronze. */
  lemma TopSportsOnSample(r: seq<Entry<string>>)
    requires IsTopColumnCounts(r, SampleData(), CountryMedals("CAN"), Sport, 10)
    ensures r == [Entry("Swimming", 2)]
  {
    CanadaMedalValues();
    CanadaMedalsBy(Equals(Sport, "Swimming"));
    HoldsAllOne(Equals(Sport, "Swimming"), CanSwimGold);
    HoldsAllOne(Equals(Sport, "Swimming"), CanSwimBronze);
    assert KeysOf(r)[0] in DistinctValues(SampleData(), CountryMedals("CAN"), Sport);
  }

  lemma TopSportsExample(a: OlympicAnalyzer)
    requires a.df == SampleData()
    ensures a.TopSportsByMedals("CAN", 10) == [Entry("Swimming", 2)]
  {
    TopSportsOnSample(a.TopSportsByMedals("CAN", 10));
  }

  /** One medal in 2016 and one in 2020. */
  lemma MedalsPerOlympicsOnSample(r: seq<Entry<int>>)
    requires IsYearSizes(r, SampleData(), CountryMedals("CAN"))
    ensures r == [Entry(2016, 1), Entry(2020, 1)]
  {
    CanadaMedalRows();
    assert CanSwimGold in Where(SampleData(), CountryMedals("CAN"));
    assert CanSwimBronze in Where(SampleData(), CountryMedals("CAN"));
    TwoYears(r);
  }

  /** Two years in ascending order, with two medals between them. */
  lemma TwoYears(r: seq<Entry<int>>)
    requires KeysAscending(r) && 2016 in KeysOf(r) && 2020 in KeysOf(r) && Sum(r) == 2
    requires forall i :: 0 <= i < |r| ==> r[i].count >= 1
    ensures r == [Entry(2016, 1), Entry(2020, 1)]
  {
    SumAtLeastLength(r);
    var i :| 0 <= i < |r| && r[i].key == 2016;
    var j :| 0 <= j < |r| && r[j].key == 2020;
    assert i == 0 && j == 1 && |r| == 2;
    SumOfTwo(r);
    assert r[0] == Entry(2016, 1) && r[1] == Entry(2020, 1);
  }

  lemma SumOfTwo<K>(r: seq<Entry<K>>)
    requires |r| == 2
    ensures Sum(r) == r[0].count + r[1].count
  {
    assert r[..1][..0] == [];
    assert Sum(r[..1]) == r[0].count;
  }

  lemma MedalsPerOlympicsExample(a: OlympicAnalyzer)
    requires a.df == SampleData()
    ensures a.MedalsPerOlympics("CAN") == [Entry(2016, 1), Entry(2020, 1)]
  {
    MedalsPerOlympicsOnSample(a.MedalsPerOlympics("CAN"));
  }

  /** The ages of the two Canadian rows, in table order. */
  lemma AgeDistributionExample(a: OlympicAnalyzer)
    requires a.df == SampleData()
    ensures a.AgeDistribution("CAN") == [25, 22]
  {
    var cs := [Equals(NOC, "CAN")] + [Measured(Age)];
    WhereOnSample(cs);
    assert Equals(NOC, "CAN") in cs && Measured(Age) in cs;
    assert Where(a.df, cs) == [CanSwimGold, CanSwimBronze];
  }

  lemma CanadaMedalTypes()
    ensures |Where(SampleData(), CountryMedals("CAN") + [Equals(Medal, "Gold")])| == 1
    ensures |Where(SampleData(), CountryMedals("CAN") + [Equals(Medal, "Bronze")])| == 1
  {
    CanadaMedalsBy(Equals(Medal, "Gold"));
    CanadaMedalsBy(Equals(Medal, "Bronze"));
    HoldsAllOne(Equals(Medal, "Gold"), CanSwimGold);
    HoldsAllOne(Equals(Medal, "Gold"), CanSwimBronze);
    HoldsAllOne(Equals(Medal, "Bronze"), CanSwimGold);
    HoldsAllOne(Equals(Medal, "Bronze"), CanSwimBronze);
  }

  /** One Gold and one Bronze, in either order (they tie). */
  lemma MedalStatisticsOnSample(r: seq<Entry<string>>)
    requires IsColumnCounts(r, SampleData(), CountryMedals("CAN"), Medal)
    ensures r == [Entry("Gold", 1), Entry("Bronze", 1)] || r == [Entry("Bronze", 1), Entry("Gold", 1)]
  {
    CanadaMedalValues();
    CanadaMedalTypes();
    assert KeysOf(r)[0] in DistinctValues(SampleData(), CountryMedals("CAN"), Medal);
    assert KeysOf(r)[1] in DistinctValues(SampleData(), CountryMedals("CAN"), Medal);
  }

  lemma MedalStatisticsExample(a: OlympicAnalyzer)
    requires a.df == SampleData()
    ensures var r := a.GetMedalStatistics("CAN");
      r == [Entry("Gold", 1), Entry("Bronze", 1)] || r == [Entry("Bronze", 1), Entry("Gold", 1)]
  {
    MedalStatisticsOnSample(a.GetMedalStatistics("CAN"));
  }

  lemma SwimmingRows(cs: seq<Criterion>)
    requires Equals(Sport, "Swimming") in cs
    requires HoldsAll(cs, CanSwimGold) && HoldsAll(cs, CanSwimBronze)
    ensures Where(SampleData(), cs) == [CanSwimGold, CanSwimBronze]
  {
    WhereOnSample(cs);
  }

  /** Both swimming medals are Canada's. */
  lemma SwimmingMedalCountries()
    ensures DistinctValues(SampleData(), [Equals(Sport, "Swimming"), Present(Medal)], NOC) == {"CAN"}
    ensures |Where(SampleData(), [Equals(Sport, "Swimming"), Present(Medal)] + [Equals(NOC, "CAN")])| == 2
  {
    var cs := [Equals(Sport, "Swimming"), Present(Medal)];
    SwimmingRows(cs);
    assert CanSwimGold in Where(SampleData(), cs);
    SwimmingRows(cs + [Equals(NOC, "CAN")]);
  }

  /** Swimming medals: Canada twice. */
  lemma SportMedalCountriesOnSample(r: seq<Entry<string>>)
    requires IsTopColumnCounts(r, SampleData(), [Equals(Sport, "Swimming"), Present(Medal)], NOC, 8)
    ensures r == [Entry("CAN", 2)]
  {
    SwimmingMedalCountries();
    assert |r| == 1;
    assert KeysOf(r)[0] in DistinctValues(SampleData(), [Equals(Sport, "Swimming"), Present(Medal)], NOC);
  }

  lemma SportMedalCountriesExample(a: OlympicAnalyzer)
    requires a.df == SampleData()
    ensures a.SportAnalysis("Swimming").medalCountries == [Entry("CAN", 2)]
  {
    SportMedalCountriesOnSample(a.SportAnalysis("Swimming").medalCountries);
  }

  /** Both swimming rows are of sex "M". */
  lemma SwimmingSexes()
    ensures DistinctValues(SampleData(), [Equals(Sport, "Swimming")], Sex) == {"M"}
    ensures |Where(SampleData(), [Equals(Sport, "Swimming")] + [Equals(Sex, "M")])| == 2
  {
    var cs := [Equals(Sport, "Swimming")];
    SwimmingRows(cs);
    assert CanSwimGold in Where(SampleData(), cs);
    SwimmingRows(cs + [Equals(Sex, "M")]);
  }

  /** Swimming sexes: both rows, medal or not. */
  lemma SportGenderOnSample(r: seq<Entry<string>>)
    requires IsColumnCounts(r, SampleData(), [Equals(Sport, "Swimming")], Sex)
    ensures r == [Entry("M", 2)]
  {
    SwimmingSexes();
    assert |r| == 1;
    assert KeysOf(r)[0] in DistinctValues(SampleData(), [Equals(Sport, "Swimming")], Sex);
  }

  lemma SwimmingAged()
    ensures Where(SampleData(), [Equals(Sport, "Swimming")] + [Measured(Age)]) == [CanSwimGold, CanSwimBronze]
  {
    var cs := [Equals(Sport, "Swimming")] + [Measured(Age)];
    WhereOnSample(cs);
    assert Equals(Sport, "Swimming") in cs && Measured(Age) in cs;
  }

  /** Swimming ages: both rows, in table order. */
  lemma AgesOfSwimmers(r: seq<int>, w: seq<Row>)
    requires w == [CanSwimGold, CanSwimBronze]
    requires |r| == |w| && forall i :: 0 <= i < |r| ==> Number(w[i], Age) == Some(r[i])
    ensures r == [25, 22]
  {
    assert Number(w[0], Age) == Some(r[0]) && Number(w[1], Age) == Some(r[1]);
  }

  lemma SportAgesExample(a: OlympicAnalyzer)
    requires a.df == SampleData()
    ensures a.SportAnalysis("Swimming").ages == [25, 22]
  {
    SwimmingAged();
    AgesOfSwimmers(a.SportAnalysis("Swimming").ages, Where(a.df, [Equals(Sport, "Swimming")] + [Measured(Age)]));
  }

  /** Swimming ages and sexes: both rows, medal or not. */
  lemma SportAthletesExample(a: OlympicAnalyzer)
    requires a.df == SampleData()
    ensures a.SportAnalysis("Swimming").ages == [25, 22]
    ensures a.SportAnalysis("Swimming").genderSplit == [Entry("M", 2)]
  {
    SportAgesExample(a);
    SportGenderOnSample(a.SportAnalysis("Swimming").genderSplit);
  }

  /** Canada's rows, in all seasons and in summer. */
  lemma CanadaProfileRows(season: Option<string>)
    requires season == None || season == Some("Summer")
    ensures Where(SampleData(), ProfileMask("CAN", season, false)) == [CanSwimGold, CanSwimBronze]
  {
    WhereOnSample(ProfileMask("CAN", season, false));
  }

  /** No Canadian row is a winter row. */
  lemma CanadaWinterRows()
    ensures Where(SampleData(), ProfileMask("CAN", Some("Winter"), false)) == []
  {
    WhereOnSample(ProfileMask("CAN", Some("Winter"), false));
  }

  /** Canada's profile: both rows in all seasons and in summer, none in winter. */
  lemma ProfileExample(a: OlympicAnalyzer)
    requires a.df == SampleData()
    ensures |a.CountryAthleteProfile("CAN", None, false)| == 2
    ensures |a.CountryAthleteProfile("CAN", Some("Summer"), false)| == 2
    ensures |a.CountryAthleteProfile("CAN", Some("Winter"), false)| == 0
  {
    CanadaProfileRows(None);
    CanadaProfileRows(Some("Summer"));
    CanadaWinterRows();
  }

  /** Two Canadian rows and two American rows. */
  lemma CountryStatsExample()
    ensures |GetCountryStats(SampleData(), "CAN")| == 2
    ensures |GetCountryStats(SampleData(), "USA")| == 2
  {
    WhereOnSample([Equals(NOC, "CAN")]);
    WhereOnSample([Equals(NOC, "USA")]);
    assert Equals(NOC, "CAN") in [Equals(NOC, "CAN")];
    assert Equals(NOC, "USA") in [Equals(NOC, "USA")];
  }

  /** A race mask with a year added tests the medal, the season and the year. */
  lemma RaceYearMask(season: Option<string>, y: int)
    ensures forall x :: HoldsAll(RaceMask(season) + [YearIs(y)], x) <==>
      x.medal.Some? && (SeasonSelected(season) ==> x.season == season.value) && x.year == y
  {
    forall x ensures HoldsAll(RaceMask(season) + [YearIs(y)], x) <==>
      x.medal.Some? && (SeasonSelected(season) ==> x.season == season.value) && x.year == y
    {
      HoldsAllAppend(RaceMask(season), [YearIs(y)], x);
      HoldsAllOne(YearIs(y), x);
    }
  }

  lemma Race2020Countries()
    ensures DistinctValues(SampleData(), RaceMask(None) + [YearIs(2020)], NOC) == {"CAN", "USA"}
  {
    var cs := RaceMask(None) + [YearIs(2020)];
    RaceYearMask(None, 2020);
    WhereOnSample(cs);
    assert Where(SampleData(), cs) == [CanSwimGold, UsaRunSilver];
    assert CanSwimGold in Where(SampleData(), cs) && UsaRunSilver in Where(SampleData(), cs);
  }

  lemma Race2022WinterRows()
    ensures Where(SampleData(), RaceMask(Some("Winter")) + [YearIs(2022)]) == [SweHockeyGold]
  {
    RaceYearMask(Some("Winter"), 2022);
    assert SeasonSelected(Some("Winter"));
    WhereOnSample(RaceMask(Some("Winter")) + [YearIs(2022)]);
  }

  lemma Race2022WinterCountries()
    ensures DistinctValues(SampleData(), RaceMask(Some("Winter")) + [YearIs(2022)], NOC) == {"SWE"}
  {
    Race2022WinterRows();
    assert SweHockeyGold in [SweHockeyGold];
  }

  /** 2020 lists Canada and the United States. */
  lemma MedalRaceOnSample(all: seq<Standing>)
    requires IsMedalRace(all, SampleData(), RaceMask(None), 10)
    ensures RowsInYear(all, 2020) == 2
  {
    Race2020Countries();
    assert RowsInYear(all, 2020) == Min(10, |DistinctValues(SampleData(), RaceMask(None) + [YearIs(2020)], NOC)|);
  }

  /** The winter race lists 2022 once: Sweden. */
  lemma WinterRaceOnSample(winter: seq<Standing>)
    requires IsMedalRace(winter, SampleData(), RaceMask(Some("Winter")), 10)
    ensures RowsInYear(winter, 2022) == 1
  {
    Race2022WinterCountries();
    assert RowsInYear(winter, 2022) == Min(10, |DistinctValues(SampleData(), RaceMask(Some("Winter")) + [YearIs(2022)], NOC)|);
  }

  lemma MedalRaceExample(a: OlympicAnalyzer)
    requires a.df == SampleData()
    ensures RowsInYear(a.GlobalMedalRace(None, 10), 2020) == 2
    ensures RowsInYear(a.GlobalMedalRace(Some("Winter"), 10), 2022) == 1
  {
    MedalRaceOnSample(a.GlobalMedalRace(None, 10));
    WinterRaceOnSample(a.GlobalMedalRace(Some("Winter"), 10));
  }
}
