# Olympic analyzer, modelled in Dafny

This project models the aggregation layer of an Olympic-history dashboard.
An `OlympicAnalyzer` holds a table of per-participation rows. Each row has
NOC, Sport, Sex, Age, Height, Weight, Year, Season, Medal and Name_hash.
The analyzer answers read-only queries over that table:

- per country: top sports by medals, medals per Games year, ages, medal
  types and top athletes;
- per sport: a four-part analysis;
- a per-country athlete profile: rows with Age, Height and Weight, filtered
  by season and optionally by medal;
- a global medal race: per year, the top N countries by medal rows, ranked
  1, 2, ... in the "first" ranking method.

The loader's `get_country_stats` is modelled too. It is the NOC filter on a
table.

Files and modules:

- `frame.dfy` (`Frame`): rows, columns and pandas boolean masks. A mask
  is a list of `Criterion` values (equality, presence, year). `Where`
  keeps the rows that pass every criterion, in table order.
- `counting.dfy` (`Counting`): `value_counts` and `head` on a sequence of
  keys, and `groupby(...).size()` on a sequence of years.
- `series.dfy` (`Series`): the same counts taken over one column of the rows
  that pass a mask. Each is specified directly in terms of the table, by a
  ghost predicate such as `IsColumnCounts` or `IsTopColumnCounts`.
- `medal_race.dfy` (`MedalRace`): the per-year top-N table and its
  specification `IsMedalRace`.
- `data_processor.dfy` (`DataProcessor`): the class `OlympicAnalyzer` and
  the properties that relate its queries.
- `data_loader.dfy` (`DataLoader`): `GetCountryStats`.
- `fixture.dfy` (`Fixture`): the five-row test table and the values the
  tests expect from it.

The table is a `const` field of the class. The constructor sets it and no
query can change it. Every query is therefore a function of the table and
its arguments, and two calls with the same arguments give the same result.

A season argument is `Option<string>`. The season filter applies only when
the argument is present, not empty and not `"All"`. This follows the
source's truthiness test at src/data_processor.py:149 and :179. The
documentation string mentions only `None` and `'All'`, but an empty string
is falsy too, so it also turns the filter off.

## Model

| member | source | states |
|---|---|---|
| Frame.Where | src/data_processor.py:43-46 | a boolean mask keeps no more rows than the table has, and every kept row passes every criterion |
| Frame.WhereSubset | src/data_processor.py:43-46 | a row is in the filtered table exactly when it is in the table and passes the mask |
| Frame.WhereContents | src/data_processor.py:43-46 | a passing row occurs as often as in the table, and a failing row not at all |
| Frame.WhereIsSubsequence | src/data_processor.py:43-46 | the kept rows keep their table order |
| Frame.SubsequenceLength | src/data_processor.py:152-153 | a subsequence is no longer than the sequence it is taken from |
| Frame.WhereCount | src/data_processor.py:43-46 | the number of kept rows equals the number of table positions whose row passes |
| Frame.WhereWhere | src/data_processor.py:147-153 | masking twice, one mask after the other, equals masking once with both |
| Frame.WhereIdempotent | src/data_processor.py:156-161 | applying the same mask a second time changes nothing |
| Frame.WhereSame | src/data_processor.py:156-161 | two masks that accept the same rows keep the same rows |
| Frame.WhereNone | src/data_processor.py:43-46 | a mask no row passes gives an empty table |
| Frame.WhereAppendOne | src/data_processor.py:43-46 | adding a row at the end of the table adds it at the end of the result exactly when it passes |
| Frame.HoldsAllAppend | src/data_processor.py:44-45 | the `&` of two masks passes a row exactly when both pass it |
| Frame.ValuesCount | src/data_processor.py:47 | in the projected column, a value occurs as often as the rows holding it |
| Frame.ValuesLength | src/data_processor.py:47 | the projected column has one entry per row with the column present |
| Frame.ValuesMembers | src/data_processor.py:47 | the projected column holds exactly the values that some row holds |
| Frame.YearsCount | src/data_processor.py:62 | in the Year column, a year occurs as often as the rows of that year |
| Frame.YearsMembers | src/data_processor.py:62 | the Year column holds exactly the years of the rows |
| Frame.NumbersOfMeasured | src/data_processor.py:74-77 | for rows that all have the value, the numeric column has one entry per row and matches it position by position |
| Frame.NumbersMembers | src/data_processor.py:74-77 | the numeric column holds exactly the values some row has |
| Counting.ValueCounts | src/data_processor.py:47 | `value_counts`: each distinct key once, counts equal to its occurrences and at least 1, counts non-increasing, key set equal to the input's, counts summing to the input length |
| Counting.MostCommon | src/data_processor.py:47 | `value_counts().head(n)`: min(n, #keys) distinct keys that occur, exact and non-increasing counts, and no left-out key occurs more often than a kept one |
| Counting.TakeTop | src/data_processor.py:47 | the first n entries of the value counts satisfy the top-n specification |
| Counting.SortFacts | src/data_processor.py:47 | sorting by count gives non-increasing counts and a permutation of the entries (same multiset), so it keeps their keys, their sum and their distinctness |
| Counting.SortByCount | src/data_processor.py:47 | sorting by count keeps the number of entries |
| Counting.SortMultiset | src/data_processor.py:47 | sorting by count is a permutation: the sorted series has the same multiset of entries |
| Counting.InsertMultiset | src/data_processor.py:47 | inserting one entry into a sorted series adds exactly that entry to its multiset |
| Counting.Take | src/data_processor.py:47 | `head(n)` keeps min(n, #entries) entries, each equal to the entry at the same position |
| Counting.TakeDominates | src/data_processor.py:47 | a prefix of a non-increasing tally counts no left-out value more often than any kept one |
| Counting.TallySum | src/data_processor.py:47 | counting each distinct key once accounts for every input element |
| Counting.DistinctCard | src/data_processor.py:47 | the distinct keys are as many as the keys in the input as a set |
| Counting.GroupSizes | src/data_processor.py:62 | `groupby('Year').size()`: years strictly ascending, exactly the input's years, counts equal to occurrences and at least 1, summing to the input length |
| Counting.SortedDistinct | src/data_processor.py:62 | the group keys are strictly increasing and are exactly the input's values |
| Counting.SumAtLeastLength | src/data_processor.py:47 | counts of at least 1 sum to at least the number of entries |
| Series.ColumnCounts | src/data_processor.py:112-116 | `df[mask][col].value_counts()`, stated on the table: as many entries as distinct values, each count equal to the rows passing the mask with that value, non-increasing, summing to the passing rows that have the column |
| Series.TopColumnCounts | src/data_processor.py:43-47 | `df[mask][col].value_counts().head(n)`, stated on the table: min(n, #distinct values) entries of values that occur, exact non-increasing counts, no left-out value more frequent than a kept one |
| Series.YearSizes | src/data_processor.py:59-62 | `df[mask].groupby('Year').size()`, stated on the table: years ascending, each count equal to the passing rows of that year, every passing row's year listed, counts summing to the passing rows |
| Series.Sample | src/data_processor.py:74-77 | `df[mask & col.notna()][col]`: one value per passing row with the column, in table order, duplicates kept, and exactly the values such rows hold |
| Series.NothingToCount | src/data_processor.py:112-116 | counts over a mask that no row passes are empty |
| DataProcessor.SeasonSelected | src/data_processor.py:149 | the season test used by the profile and by the medal race (line 179): a season is selected when present, not empty and not "All" |
| DataProcessor.CountryMedals | src/data_processor.py:43-46 | the country-and-medal mask shared by lines 43-46, 59-61, 112-115 and 129-132 passes a row exactly when it has the country and a medal |
| DataProcessor.RaceMask | src/data_processor.py:177-180 | the race mask passes a row exactly when it has a medal and, if a season is selected, that season |
| DataProcessor.SeasonFilter | src/data_processor.py:149-150 | the season mask passes a row exactly when no season is selected or the row has the selected season |
| DataProcessor.ProfileMask | src/data_processor.py:147-161 | the profile mask passes a row exactly when it has the country, the selected season, a medal if asked, and Age, Height and Weight |
| DataProcessor.OlympicAnalyzer.constructor | src/data_processor.py:21-28 | the analyzer holds the given table |
| DataProcessor.OlympicAnalyzer.TopSportsByMedals | src/data_processor.py:30-47 | the top-n specification of Sport over the country's medal rows |
| DataProcessor.OlympicAnalyzer.MedalsPerOlympics | src/data_processor.py:49-62 | the per-year specification over the country's medal rows |
| DataProcessor.OlympicAnalyzer.AgeDistribution | src/data_processor.py:64-77 | the Age of every row of the country that has one, in table order, duplicates kept |
| DataProcessor.OlympicAnalyzer.SportAnalysis | src/data_processor.py:79-100 | top 8 NOC over the sport's medal rows; ages over all the sport's rows; Sex counts over all the sport's rows; Medal counts over the sport's medal rows |
| DataProcessor.OlympicAnalyzer.GetMedalStatistics | src/data_processor.py:102-116 | value counts of Medal over the country's medal rows |
| DataProcessor.OlympicAnalyzer.GetTopAthletesByMedals | src/data_processor.py:118-133 | the top-n specification of Name_hash over the country's medal rows |
| DataProcessor.OlympicAnalyzer.CountryAthleteProfile | src/data_processor.py:135-164 | narrowing the rows step by step (country, season, medal, two drops of rows without Age, Height or Weight) gives the rows of the one combined profile mask |
| DataProcessor.OlympicAnalyzer.GlobalMedalRace | src/data_processor.py:166-194 | the medal race specification over the medal rows of the selected season |
| DataProcessor.OlympicAnalyzer.ProfileFacts | src/data_processor.py:147-164 | the profile is an ordered part of the table; a row is in it exactly when it is in the table and has the country, season, medal if asked, and all three measurements; and no matching row is dropped |
| DataProcessor.OlympicAnalyzer.MedalOnlyWithinProfile | src/data_processor.py:152-153 | the medallists' profile is an order-preserving subsequence of the full profile for the same season, and so no longer than it |
| DataProcessor.OlympicAnalyzer.AbsentCountryCounts | src/data_processor.py:43-133 | a country with no row gets no top sports, no medal types and no top athletes |
| DataProcessor.OlympicAnalyzer.AbsentCountryYears | src/data_processor.py:59-62 | a country with no row gets no medal years |
| DataProcessor.OlympicAnalyzer.AbsentCountryAthletes | src/data_processor.py:74-77 | a country with no row gets no ages and an empty profile, for every season and medal flag |
| DataProcessor.OlympicAnalyzer.UnknownSport | src/data_processor.py:93-100 | a sport with no row gets four empty parts |
| DataProcessor.OlympicAnalyzer.MedalTotals | src/data_processor.py:112-116 | the medal-type counts of a country add up to the same total as its medals per year |
| MedalRace.Race | src/data_processor.py:177-192 | the per-year table meets the medal race specification: years ascending and medals descending within a year; each (year, NOC) once; medals equal to the pair's medal rows; ranks 1, 2, ... within each year; min(n, #medal countries) rows for every year; no left-out country ahead of a listed one |
| MedalRace.Ranked | src/data_processor.py:192 | `rank(method='first', ascending=False)`: each entry gets its NOC, its count and the rank of the "first" method, one plus the entries with a larger count plus the equal-count entries up to and including it |
| MedalRace.FirstRankIsPosition | src/data_processor.py:189-192 | on counts already sorted descending, the "first" rank of the i-th entry is i + 1 |
| MedalRace.RankedShape | src/data_processor.py:189-192 | a ranked year holds one year, keeps the medals descending, has unique NOCs and ranks 1, 2, ... |
| MedalRace.RankedCounted | src/data_processor.py:182-186 | a ranked year keeps every entry's medal count equal to its medal rows |
| MedalRace.RankedDominant | src/data_processor.py:189-191 | ranking keeps a year's dominance over the countries left out of it |
| MedalRace.YearTop | src/data_processor.py:191-192 | one year keeps min(n, #countries with medals that year) rows |
| MedalRace.Standings | src/data_processor.py:189-194 | every row of the joined table belongs to one of the listed years |
| MedalRace.YearTopCounted | src/data_processor.py:182-186 | every kept row's medals equal the medal rows of its year and country, at least 1 |
| MedalRace.YearTopDominant | src/data_processor.py:189-191 | a country left out of a year has no more medals than any country kept that year |
| MedalRace.YearTopShape | src/data_processor.py:189-192 | one year's rows share its year, are sorted by medals descending, are unique and ranked 1, 2, ... |
| MedalRace.AppendRanks | src/data_processor.py:192 | placing a later year's ranked rows after earlier ones keeps the ranks restarting at 1 per year |
| MedalRace.AppendOrdered | src/data_processor.py:189 | placing a later year's sorted rows after earlier ones keeps the table sorted by year, then medals |
| MedalRace.AppendUnique | src/data_processor.py:182-186 | placing a later year's rows after earlier ones keeps (year, NOC) unique |
| MedalRace.FlattenShape | src/data_processor.py:189-192 | joining the per-year blocks, years ascending, gives a sorted, unique, correctly ranked table |
| MedalRace.FlattenRows | src/data_processor.py:191 | in the joined table, each listed year has its block's rows and every other year none |
| MedalRace.RaceFacts | src/data_processor.py:182-192 | the table built over the years of the grouped counts meets the medal race specification |
| MedalRace.YearAbsent | src/data_processor.py:191 | a year that no passing row has has no medal countries |
| MedalRace.RankIsPosition | src/data_processor.py:192 | in a sorted, ranked table, a row's rank is its position among the rows of its year, so ranks within a year are exactly 1..k with no repeats |
| MedalRace.EveryYearListed | src/data_processor.py:177-191 | with n > 0, every year that has a medal row appears in the table |
| DataLoader.GetCountryStats | src/data_loader.py:46-57 | every returned row has the requested NOC |
| DataLoader.CountryStatsContents | src/data_loader.py:57 | rows of the country occur as often as in the table, other rows not at all |
| DataLoader.CountryStatsLength | src/data_loader.py:57 | the result has as many rows as the table has positions holding the country |
| DataLoader.CountryStatsOrder | src/data_loader.py:57 | the result is an order-preserving subsequence of the table |
| DataLoader.CountryStatsAbsent | src/data_loader.py:57 | a code no row holds gives an empty result |
| DataLoader.CountryStatsIdempotent | src/data_loader.py:57 | selecting the country again returns the result unchanged |
| DataLoader.CountryMask | src/data_loader.py:57 | the NOC mask passes a row exactly when it has the code |
| Fixture.WhereOnSample | tests/conftest.py:5-24 | masking the five-row fixture keeps, in order, exactly the rows that pass |
| Fixture.TopSportsExample | tests/test_data_processor.py:9-13 | on the fixture, CAN's top sports are Swimming with 2 |
| Fixture.MedalsPerOlympicsExample | tests/test_data_processor.py:15-20 | on the fixture, CAN has 1 medal in 2016 and 1 in 2020 |
| Fixture.AgeDistributionExample | tests/test_data_processor.py:22-26 | on the fixture, CAN's ages are 25 and 22 |
| Fixture.SportMedalCountriesExample | tests/test_data_processor.py:33-41 | on the fixture, Swimming's medal countries are CAN with 2 |
| Fixture.SportAthletesExample | tests/test_data_processor.py:33-41 | on the fixture, Swimming's ages are 25 and 22 and its sex split is M with 2 |
| Fixture.MedalStatisticsExample | tests/test_data_processor.py:43-46 | on the fixture, CAN has 1 Gold and 1 Bronze, in either order |
| Fixture.ProfileExample | tests/test_data_processor.py:48-58 | on the fixture, CAN's profile has 2 rows overall, 2 for Summer and none for Winter |
| Fixture.MedalRaceExample | tests/test_data_processor.py:60-66 | on the fixture, the race lists 2 countries for 2020, and the Winter race lists 1 for 2022 |
| Fixture.CountryStatsExample | tests/test_data_loader.py:21-28 | on the fixture, CAN and USA each have 2 rows |

## Left out

- `load_and_anonymize_data` (src/data_loader.py:11-43) is not modelled. It is a file-existence check, a CSV read and a SHA-256 hash, so it is I/O plus a foreign crypto call. The model takes the loaded table as input and treats Name_hash as an opaque string.
- src/dashboard.py and app.py are not part of this model. They are chart building, page layout and server wiring.
- Tie order is left open. pandas orders equal counts in `value_counts` and `sort_values` by its own internals. The model computes some order, but no contract says which of two equal counts comes first. So the contracts state non-increasing counts, dominance over left-out keys and the number of rows per year.
- Floating point is not modelled. Age, Height and Weight are `Option<int>`, so `pd.to_numeric(errors='coerce')` (src/data_processor.py:158-159) and the loop applying it change nothing. The loop is therefore represented by the second `dropna` step only. `astype(int)` on Year (src/data_processor.py:162, 188) does nothing either, because Year is an `int`.
- MedalRace.Ranked: the rank is a `nat`, while `rank(method='first')` (src/data_processor.py:192) returns floats with the same values.
- DataProcessor.OlympicAnalyzer.TopSportsByMedals: `top_n` is a `nat`, and so it is for GetTopAthletesByMedals and GlobalMedalRace too. pandas `head` with a negative argument drops rows from the end, which these queries do not evidently intend.
- Default arguments (`top_n=10`, `country_code='CAN'`, `season=None`, `medal_only=False`) are not modelled. Callers pass every argument.
- Result types are simplified. A pandas Series with an index becomes a sequence of key/count entries, and a DataFrame result becomes a sequence of rows or of `Standing` records. Column membership checks in the tests (`'Rank' in race.columns`) hold by construction.
- NOC, Sport, Sex and Season are modelled as always present strings. Medal is optional. The columns ID, Name, Team, Games, City and Event are not modelled, because no query of the core reads them.
- Returned rows carry only the modelled columns. The profile and `get_country_stats` return every column of the table, and the dashboard reads Event from the profile (src/dashboard.py:358); the model's rows have no Event, so that use is not captured.
- A table that lacks a column a query reads makes pandas raise `KeyError`. A `Row` always has every modelled column, so that error path cannot be expressed.
- The test `test_gender_distribution` (tests/test_data_processor.py:28-31) calls a `gender_distribution` method that `OlympicAnalyzer` does not have, so there is nothing to model for it.
- The test fixture (tests/conftest.py:5-24) has a Name column and no Name_hash column. The Dafny fixture gives its rows placeholder hashes instead.
