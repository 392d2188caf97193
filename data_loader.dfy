/** `get_country_stats`: the rows of one country, as boolean indexing on
    NOC. Loading the CSV file and hashing the names are not part of this
    model; the table arrives already loaded, with opaque name hashes. */
module DataLoader {
  import opened Frame

  /** `df[df['NOC'] == country_code]`. */
  function GetCountryStats(df: seq<Row>, countryCode: string): (r: seq<Row>)
    ensures forall x :: x in r ==> x.noc == countryCode
  {
    CountryMask(countryCode);
    Where(df, [Equals(NOC, countryCode)])
  }

  /** The mask is the NOC test. */
  lemma CountryMask(countryCode: string)
    ensures forall x :: HoldsAll([Equals(NOC, countryCode)], x) <==> x.noc == countryCode
  {
    forall x ensures HoldsAll([Equals(NOC, countryCode)], x) <==> x.noc == countryCode {
      HoldsAllOne(Equals(NOC, countryCode), x);
    }
  }

  /** No row of the country is dropped and no other row is kept: each row
      occurs in the result as often as in the table if it is the country's,
      and not at all otherwise. */
  lemma CountryStatsContents(df: seq<Row>, countryCode: string)
    ensures forall x ::
      multiset(GetCountryStats(df, countryCode))[x] == if x.noc == countryCode then multiset(df)[x] else 0
  {
    CountryMask(countryCode);
    WhereContents(df, [Equals(NOC, countryCode)]);
  }

  /** The result has one row per table position holding the country. */
  lemma CountryStatsLength(df: seq<Row>, countryCode: string)
    ensures |GetCountryStats(df, countryCode)| == |set i | 0 <= i < |df| && df[i].noc == countryCode|
  {
    CountryMask(countryCode);
    WhereCount(df, [Equals(NOC, countryCode)]);
    assert PassingIndices(df, [Equals(NOC, countryCode)]) == set i | 0 <= i < |df| && df[i].noc == countryCode;
  }

  /** The rows keep their table order. */
  lemma CountryStatsOrder(df: seq<Row>, countryCode: string)
    ensures IsSubsequence(GetCountryStats(df, countryCode), df)
  {
    WhereIsSubsequence(df, [Equals(NOC, countryCode)]);
  }

  /** A code that no row holds gives no rows. */
  lemma CountryStatsAbsent(df: seq<Row>, countryCode: string)
    requires forall x :: x in df ==> x.noc != countryCode
    ensures GetCountryStats(df, countryCode) == []
  {
    CountryMask(countryCode);
    WhereNone(df, [Equals(NOC, countryCode)]);
  }

  /** Selecting the country again changes nothing. */
  lemma CountryStatsIdempotent(df: seq<Row>, countryCode: string)
    ensures GetCountryStats(GetCountryStats(df, countryCode), countryCode) == GetCountryStats(df, countryCode)
  {
    WhereIdempotent(df, [Equals(NOC, countryCode)]);
  }
}
