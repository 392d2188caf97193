/** `OlympicAnalyzer`: read-only queries over a table of Olympic
    participations. The table is stored once, when the analyzer is built,
    and every query is a boolean mask followed by a count, a projection or
    a per-year ranking. */
module DataProcessor {
  import opened Frame
  import opened Counting
  import opened Series
  import opened MedalRace

  /** `season and season != 'All'`: `None` and the empty string are falsy. */
  predicate SeasonSelected(season: Option<string>)
  {
    season.Some? && season.value != "" && season.value != "All"
  }

  /** The season part of a mask: a test on Season, or nothing. */
  function SeasonFilter(season: Option<string>): (cs: seq<Criterion>)
    ensures forall x :: HoldsAll(cs, x) <==> (SeasonSelected(season) ==> x.season == season.value)
  {
    if SeasonSelected(season) then
      assert forall x :: HoldsAll([Equals(Season, season.value)], x) <==> x.season == season.value by {
        forall x ensures HoldsAll([Equals(Season, season.value)], x) <==> x.season == season.value {
          HoldsAllOne(Equals(Season, season.value), x);
        }
      }
      [Equals(Season, season.value)]
    else []
  }

  /** `subset=['Age', 'Height', 'Weight']` of `dropna`. */
  const Numeric: seq<Criterion> := [Measured(Age), Measured(Height), Measured(Weight)]

  /** The rows of one country that had a medal. */
  function CountryMedals(countryCode: string): (cs: seq<Criterion>)
    ensures forall x :: HoldsAll(cs, x) <==> x.noc == countryCode && x.medal.Some?
  {
    forall x ensures HoldsAll([Equals(NOC, countryCode), Present(Medal)], x) <==> x.noc == countryCode && x.medal.Some? {
      assert [Equals(NOC, countryCode), Present(Medal)] == [Equals(NOC, countryCode)] + [Present(Medal)];
      HoldsAllAppend([Equals(NOC, countryCode)], [Present(Medal)], x);
      HoldsAllOne(Equals(NOC, countryCode), x);
      HoldsAllOne(Present(Medal), x);
    }
    [Equals(NOC, countryCode), Present(Medal)]
  }

  /** What the athlete profile keeps of a row, stated on its fields. */
  predicate ProfileKeeps(countryCode: string, season: Option<string>, medalOnly: bool, x: Row)
  {
    && x.noc == countryCode
    && (SeasonSelected(season) ==> x.season == season.value)
    && (medalOnly ==> x.medal.Some?)
    && x.age.Some? && x.height.Some? && x.weight.Some?
  }

  /** The athlete profile as one mask. */
  function ProfileMask(countryCode: string, season: Option<string>, medalOnly: bool): (cs: seq<Criterion>)
    ensures forall x :: HoldsAll(cs, x) <==> ProfileKeeps(countryCode, season, medalOnly, x)
  {
    var byCountry := [Equals(NOC, countryCode)];
    var byMedal := if medalOnly then [Present(Medal)] else [];
    var mask := byCountry + SeasonFilter(season) + byMedal + Numeric;
    forall x ensures HoldsAll(mask, x) <==> ProfileKeeps(countryCode, season, medalOnly, x) {
      HoldsAllAppend(byCountry + SeasonFilter(season) + byMedal, Numeric, x);
      HoldsAllAppend(byCountry + SeasonFilter(season), byMedal, x);
      HoldsAllAppend(byCountry, SeasonFilter(season), x);
      HoldsAllOne(Equals(NOC, countryCode), x);
      HoldsAllOne(Present(Medal), x);
      assert Measured(Age) in Numeric && Measured(Height) in Numeric && Measured(Weight) in Numeric;
    }
    mask
  }

  /** The global medal race mask: medal rows, of the season if one is selected. */
  function RaceMask(season: Option<string>): (cs: seq<Criterion>)
    ensures forall x :: HoldsAll(cs, x) <==> x.medal.Some? && (SeasonSelected(season) ==> x.season == season.value)
  {
    forall x ensures HoldsAll([Present(Medal)] + SeasonFilter(season), x) <==> x.medal.Some? && (SeasonSelected(season) ==> x.season == season.value) {
      HoldsAllAppend([Present(Medal)], SeasonFilter(season), x);
      HoldsAllOne(Present(Medal), x);
    }
    [Present(Medal)] + SeasonFilter(season)
  }

  /** The four parts of `sport_analysis`. */
  datatype SportReport = SportReport(
    medalCountries: seq<Entry<string>>,
    ages: seq<int>,
    genderSplit: seq<Entry<string>>,
    medalTypes: seq<Entry<string>>)

  class OlympicAnalyzer {
    /** The analyzer's own copy of the table; no query changes it. */
    const df: seq<Row>

    constructor(df: seq<Row>)
      ensures this.df == df
    {
      this.df := df;
    }

    /** The country's sports with the most medal rows, at most topN of them. */
    function TopSportsByMedals(countryCode: string, topN: nat): (r: seq<Entry<string>>)
      ensures IsTopColumnCounts(r, df, CountryMedals(countryCode), Sport, topN)
    {
      TopColumnCounts(df, CountryMedals(countryCode), Sport, topN)
    }

    /** The country's number of medal rows per Games year, years ascending. */
    function MedalsPerOlympics(countryCode: string): (r: seq<Entry<int>>)
      ensures IsYearSizes(r, df, CountryMedals(countryCode))
    {
      YearSizes(df, CountryMedals(countryCode))
    }

    /** The recorded ages of the country's rows, in table order. */
    function AgeDistribution(countryCode: string): (r: seq<int>)
      ensures IsSample(r, df, [Equals(NOC, countryCode)], Age)
    {
      Sample(df, [Equals(NOC, countryCode)], Age)
    }

    /** Medal countries (top 8), ages, sexes and medal types of one sport. */
    function SportAnalysis(sportName: string): (r: SportReport)
      ensures IsTopColumnCounts(r.medalCountries, df, [Equals(Sport, sportName), Present(Medal)], NOC, 8)
      ensures IsSample(r.ages, df, [Equals(Sport, sportName)], Age)
      ensures IsColumnCounts(r.genderSplit, df, [Equals(Sport, sportName)], Sex)
      ensures IsColumnCounts(r.medalTypes, df, [Equals(Sport, sportName), Present(Medal)], Medal)
    {
      var sport := [Equals(Sport, sportName)];
      assert sport + [Present(Medal)] == [Equals(Sport, sportName), Present(Medal)];
      SportReport(
        TopColumnCounts(df, sport + [Present(Medal)], NOC, 8),
        Sample(df, sport, Age),
        ColumnCounts(df, sport, Sex),
        ColumnCounts(df, sport + [Present(Medal)], Medal))
    }

    /** The country's medal rows counted per medal type. */
    function GetMedalStatistics(countryCode: string): (r: seq<Entry<string>>)
      ensures IsColumnCounts(r, df, CountryMedals(countryCode), Medal)
    {
      ColumnCounts(df, CountryMedals(countryCode), Medal)
    }

    /** The country's athletes (by name hash) with the most medal rows. */
    function GetTopAthletesByMedals(countryCode: string, topN: nat): (r: seq<Entry<string>>)
      ensures IsTopColumnCounts(r, df, CountryMedals(countryCode), NameHash, topN)
    {
      TopColumnCounts(df, CountryMedals(countryCode), NameHash, topN)
    }

    /** The country's rows, narrowed step by step by season, by medal and to
        rows with Age, Height and Weight; the same as the one combined mask. */
    function CountryAthleteProfile(countryCode: string, season: Option<string>, medalOnly: bool): (data: seq<Row>)
      ensures data == Where(df, ProfileMask(countryCode, season, medalOnly))
    {
      var byCountry := Where(df, [Equals(NOC, countryCode)]);
      var bySeason := if SeasonSelected(season) then Where(byCountry, [Equals(Season, season.value)]) else byCountry;
      var byMedal := if medalOnly then Where(bySeason, [Present(Medal)]) else bySeason;
      var measured := Where(byMedal, Numeric);
      var coerced := Where(measured, Numeric);
      var m1 := [Equals(NOC, countryCode)] + SeasonFilter(season);
      var m2 := m1 + (if medalOnly then [Present(Medal)] else []);
      WhereWhere(df, [Equals(NOC, countryCode)], SeasonFilter(season));
      WhereWhere(df, m1, if medalOnly then [Present(Medal)] else []);
      WhereWhere(df, m2, Numeric);
      WhereIdempotent(df, m2 + Numeric);
      WhereWhere(df, m2 + Numeric, Numeric);
      assert [Equals(NOC, countryCode)] + [] == [Equals(NOC, countryCode)];
      assert m1 + [] == m1;
      assert bySeason == Where(df, m1);
      assert byMedal == Where(df, m2);
      assert measured == Where(df, m2 + Numeric);
      WhereSame(df, m2 + Numeric + Numeric, m2 + Numeric);
      coerced
    }

    /** Per year, the countries with the most medal rows (of the season if
        one is selected), at most topN of them, ranked 1, 2, ... */
    function GlobalMedalRace(season: Option<string>, topN: nat): (t: seq<Standing>)
      ensures IsMedalRace(t, df, RaceMask(season), topN)
    {
      Race(df, RaceMask(season), topN)
    }

    // -------------------------------------------------------------------
    // Properties across queries

    /** A country with no row in the table has no medal counts. */
    lemma AbsentCountryCounts(countryCode: string, topN: nat)
      requires forall x :: x in df ==> x.noc != countryCode
      ensures TopSportsByMedals(countryCode, topN) == []
      ensures GetMedalStatistics(countryCode) == []
      ensures GetTopAthletesByMedals(countryCode, topN) == []
    {
      var cm := CountryMedals(countryCode);
      assert Equals(NOC, countryCode) in cm;
      WhereNone(df, cm);
      assert DistinctValues(df, cm, Sport) == {};
      assert DistinctValues(df, cm, NameHash) == {};
      assert DistinctValues(df, cm, Medal) == {};
    }

    /** A country with no row in the table has no medal years. */
    lemma AbsentCountryYears(countryCode: string)
      requires forall x :: x in df ==> x.noc != countryCode
      ensures MedalsPerOlympics(countryCode) == []
    {
      var cm := CountryMedals(countryCode);
      assert Equals(NOC, countryCode) in cm;
      WhereNone(df, cm);
    }

    /** A country with no row in the table has no ages and no profile. */
    lemma AbsentCountryAthletes(countryCode: string, season: Option<string>, medalOnly: bool)
      requires forall x :: x in df ==> x.noc != countryCode
      ensures AgeDistribution(countryCode) == []
      ensures CountryAthleteProfile(countryCode, season, medalOnly) == []
    {
      assert Equals(NOC, countryCode) in [Equals(NOC, countryCode), Measured(Age)];
      assert Equals(NOC, countryCode) in [Equals(NOC, countryCode)] + [Measured(Age)];
      WhereNone(df, [Equals(NOC, countryCode)] + [Measured(Age)]);
      WhereNone(df, ProfileMask(countryCode, season, medalOnly));
    }

    /** A sport with no row in the table gets four empty parts. */
    lemma UnknownSport(sportName: string)
      requires forall x :: x in df ==> x.sport != sportName
      ensures SportAnalysis(sportName) == SportReport([], [], [], [])
    {
      var sport := [Equals(Sport, sportName)];
      assert Equals(Sport, sportName) in sport && Equals(Sport, sportName) in sport + [Present(Medal)];
      assert Equals(Sport, sportName) in sport + [Measured(Age)];
      WhereNone(df, sport);
      WhereNone(df, sport + [Present(Medal)]);
      WhereNone(df, sport + [Measured(Age)]);
      assert DistinctValues(df, sport + [Present(Medal)], NOC) == {};
      assert DistinctValues(df, sport, Sex) == {};
      assert DistinctValues(df, sport + [Present(Medal)], Medal) == {};
    }

    /** The medal types and the Games years of a country count the same
        medal rows. */
    lemma MedalTotals(countryCode: string)
      ensures Sum(GetMedalStatistics(countryCode)) == Sum(MedalsPerOlympics(countryCode))
    {
      var cm := CountryMedals(countryCode);
      assert Present(Medal) in cm;
      WhereSame(df, cm + [Present(Medal)], cm);
    }

    /** What the profile holds: passing rows only, none dropped, in table order. */
    lemma ProfileFacts(countryCode: string, season: Option<string>, medalOnly: bool)
      ensures var data := CountryAthleteProfile(countryCode, season, medalOnly);
        && IsSubsequence(data, df)
        && (forall x :: x in data <==> x in df && ProfileKeeps(countryCode, season, medalOnly, x))
        && (forall x :: multiset(data)[x] ==
              if ProfileKeeps(countryCode, season, medalOnly, x) then multiset(df)[x] else 0)
    {
      var mask := ProfileMask(countryCode, season, medalOnly);
      WhereIsSubsequence(df, mask);
      WhereSubset(df, mask);
      WhereContents(df, mask);
    }

    /** The medallists' profile is an ordered part of the full profile. */
    lemma MedalOnlyWithinProfile(countryCode: string, season: Option<string>)
      ensures IsSubsequence(CountryAthleteProfile(countryCode, season, true),
                            CountryAthleteProfile(countryCode, season, false))
      ensures |CountryAthleteProfile(countryCode, season, true)| <= |CountryAthleteProfile(countryCode, season, false)|
    {
      var all := ProfileMask(countryCode, season, false);
      var medal := ProfileMask(countryCode, season, true);
      assert Present(Medal) in all + [Present(Medal)];
      WhereSame(df, medal, all + [Present(Medal)]);
      WhereWhere(df, all, [Present(Medal)]);
      WhereIsSubsequence(Where(df, all), [Present(Medal)]);
      SubsequenceLength(CountryAthleteProfile(countryCode, season, true), CountryAthleteProfile(countryCode, season, false));
    }
  }
}
