# Chicago crime analysis, modelled in Dafny

The Chicago crime analysis script, chicago_crime_analysis.py, studies police incident records:
homicides, plus all other crimes from 2012 to 2017. `process_crime_files` stacks the two CSV files,
drops the records filed under district 31 (not a Chicago police district) and writes the result to a
file. `load_sql` would load that file into the table `chi_crime.crime_data`, but its call is
commented out. The analyses run on a frame fetched from a different table, `chi_crime.project1`.
Nothing in the script guarantees that this frame has been cleaned, which is why the two per-district
analyses drop district 31 again. From that frame the script builds the tables behind its charts:

- thefts and theft arrests per theft description;
- homicides and homicide arrests per (district, description);
- the frequency of every crime type;
- thefts and theft arrests per district;
- the ten crime types ranked by arrest rate, once for "highest" and once for "lowest".

A separate function runs a chi-squared test of independence between district and arrest on a
hardcoded table of five districts.

This project models the cleaning step and each analysis as pure functions over sequences of records.
Like the script's analyses, the modelled analyses accept any record sequence, cleaned or not.

| file | module | what it holds |
|---|---|---|
| `wrappers.dfy` | `Wrappers` | `Option` (pandas' NaN) and `Result` (a raised error). |
| `sequences.dfy` | `Sequences` | The dataframe steps: boolean-mask selection (`Where`), `sort_values` (`SortValues`), `iloc[:k]` (`Head`) and `iloc[:-k]` (`DropLast`). |
| `count_tables.dfy` | `CountTables` | Group-by count tables (`CountBy`, `GroupSum`), their reference definitions `Occurrences` and `Weight`, and the inner and outer merges (`InnerJoin`, `OuterJoin`). |
| `crime_records.dfy` | `CrimeRecords` | The `Record` datatype and the district-31 filter of `process_crime_files`. |
| `crime_analyses.dfy` | `CrimeAnalyses` | The theft, homicide, crime-type and per-district tables. |
| `arrest_rates.dfy` | `ArrestRates` | The share and rate columns and the top-ten ranking of `highest_arrest_rate_by_crime` and `lowest_arrest_rate_by_crime`. |
| `chi_squared.dfy` | `ChiSquared` | The chi-squared test for any number of district rows, and the script's hardcoded instance. |

Counts are `nat`. Shares, rates, expected cells and the statistic are exact `real`s. Every table
the script builds and hands to a plot is a function of the record sequence. Every such function has
lemmas relating it to an independent reference:

- counts are compared with `Occurrences`;
- sorted tables are compared by multiset and order;
- merges are compared with lookups into both input tables.

A group-by table lists its keys in order of first appearance; pandas lists them sorted. Every
consumer in the script either sorts the table again or merges it by key, so only the chart order of
the unsorted per-district tables differs.

## Model

| member | source | states |
|---|---|---|
| CrimeRecords.DropExcludedDistrict | chicago_crime_analysis.py:26 | No record of district 31 is left. Every record of any other district is kept, as many times as it occurred. |
| CrimeRecords.DropExcludedDistrictConcat | chicago_crime_analysis.py:26 | Filtering a concatenation gives the concatenation of the filtered parts, so the kept records stay in their original relative order. |
| CrimeRecords.DropExcludedDistrictSingleton | chicago_crime_analysis.py:26 | A single record is kept exactly when its district is not 31. |
| CrimeRecords.DropExcludedDistrictIdempotent | chicago_crime_analysis.py:215 | Dropping district 31 again, as both per-district analyses do, leaves the cleaned records unchanged. |
| CrimeRecords.ProcessCrimeFiles | chicago_crime_analysis.py:18-28 | The combined frame is the cleaned homicide records followed by the cleaned crime records. None of them is from district 31. |
| Sequences.Where | chicago_crime_analysis.py:125 | A mask selection returns only rows of the input that satisfy the mask, and every input row that satisfies it. |
| Sequences.WhereMultiplicity | chicago_crime_analysis.py:125 | A row that satisfies the mask keeps all its copies. A row that does not loses every copy. |
| Sequences.WhereWhere | chicago_crime_analysis.py:239 | Applying two masks in turn selects the same rows, in the same order, as one mask that is their conjunction. |
| Sequences.WhereIdempotent | chicago_crime_analysis.py:238 | Applying a mask twice selects the same rows as applying it once. |
| Sequences.SortValues | chicago_crime_analysis.py:136 | The result has as many rows as the input and is ordered by the sort key in the requested direction. |
| Sequences.SortValuesPermutes | chicago_crime_analysis.py:136 | The sorted rows are a permutation of the input: no row is added, lost or duplicated. |
| Sequences.WhereOrdered | chicago_crime_analysis.py:274 | Filtering a sorted table keeps it sorted. |
| Sequences.WhereSubmultiset | chicago_crime_analysis.py:274 | A mask selection holds no row more often than the input does. |
| Sequences.Head | chicago_crime_analysis.py:276 | The result is the first ten rows, or all rows when there are fewer. |
| Sequences.HeadSubmultiset | chicago_crime_analysis.py:276 | The first rows hold no row more often than the whole table does. |
| Sequences.PermutationNoRepeat | chicago_crime_analysis.py:136 | Sorting a table without repeated rows leaves no repeated rows. |
| Sequences.DropLast | chicago_crime_analysis.py:137 | The result is every row but the last three, and empty when there are at most three. |
| CountTables.CountBy | chicago_crime_analysis.py:128 | The table has one row per key that occurs. Each key's count is its number of occurrences. Keys are unique, counts are positive, and the counts add up to the number of input rows. |
| CountTables.CountByRows | chicago_crime_analysis.py:128 | A row belongs to the count table exactly when its count equals its key's positive number of occurrences. |
| CountTables.GroupSum | chicago_crime_analysis.py:193 | Each key's row holds the total weight of the input rows with that key. The keys are exactly those that occur, and each is unique. |
| CountTables.CounterSum | chicago_crime_analysis.py:191-193 | Summing a column of ones per key gives each key its number of rows. The keys are exactly those that occur, and each is unique. |
| CountTables.CounterSumIsCount | chicago_crime_analysis.py:191-193 | Summing a column of ones per crime type builds the same table as counting the rows per type. |
| CountTables.UnitWeightIsOccurrences | chicago_crime_analysis.py:191-193 | With all weights equal to one, a group's total weight is its number of rows. |
| CountTables.OccurrencesOfSelection | chicago_crime_analysis.py:132 | Selecting rows, such as the arrested ones, never increases any key's count. |
| CountTables.TotalOfPermutation | chicago_crime_analysis.py:195 | Reordering a count table leaves the sum of its counts unchanged. |
| CountTables.InnerJoin | chicago_crime_analysis.py:136 | Every merged row pairs a left row with the right count of the same key. Every left row whose key the right table has appears in the result. When the left keys are unique, no key appears in two merged rows. |
| CountTables.InnerJoinSize | chicago_crime_analysis.py:136 | When the left keys are unique, the merge has exactly one row per key the two tables share. |
| CountTables.OuterJoin | chicago_crime_analysis.py:169 | The merge holds every row of both tables. A side is None exactly where that side lacks the key, and each present side is that table's row. When both tables have unique keys, each key appears once. |
| CountTables.OuterJoinSize | chicago_crime_analysis.py:169 | With unique keys on both sides, the outer merge has exactly one row per key of either table. |
| CountTables.MergeRightOnlySize | chicago_crime_analysis.py:169 | The rows the outer merge adds for right-only keys number exactly the keys only the right table has. |
| CountTables.OuterJoinOfSubset | chicago_crime_analysis.py:169 | When the right table's keys are among the left's, the outer merge is the left table row for row, with the right count attached or None. |
| CrimeAnalyses.TheftJoinRows | chicago_crime_analysis.py:124-136 | The merged theft table holds exactly the theft descriptions with at least one arrest. Each row carries the description's theft count and arrest count, and arrests never exceed thefts. |
| CrimeAnalyses.TheftJoinKeys | chicago_crime_analysis.py:124-136 | The merged theft table lists each description once, and has one row per description with an arrested theft. |
| CrimeAnalyses.SortedTheftJoinKeys | chicago_crime_analysis.py:136 | Sorting the merged theft table by theft count puts no description in two rows. |
| CrimeAnalyses.KeptTheftRowsKeys | chicago_crime_analysis.py:136-137 | After the last three rows are dropped, no description is in two rows. |
| CrimeAnalyses.KeptTheftRowsFromMerge | chicago_crime_analysis.py:136-137 | The rows kept after the last three are dropped come from the merged table, none more often than there. |
| CrimeAnalyses.KeptTheftRows | chicago_crime_analysis.py:136-137 | The rows kept after the last three are dropped are ordered by theft count and carry their counts. |
| CrimeAnalyses.TheftDescriptionTable | chicago_crime_analysis.py:122-137 | The theft table has one row per description with an arrested theft, less three (never fewer than none), and lists each description once. Its rows are drawn from the merged table and ordered by theft count, largest first. Each row carries its theft count and nonzero arrest count, with arrests at most thefts. |
| CrimeAnalyses.TheftDescriptionTableDropsLeastFrequent | chicago_crime_analysis.py:136-137 | No dropped row has a larger theft count than a kept row. |
| CrimeAnalyses.HomicideArrestKeysAreCrimeKeys | chicago_crime_analysis.py:161-167 | Every (district, description) key in the arrest table is also in the homicide table. |
| CrimeAnalyses.HomicideArrestGet | chicago_crime_analysis.py:165-169 | The merged arrest side of a key is its arrest count, or None (NaN) when the key has no arrested homicide. |
| CrimeAnalyses.HomicideMergeRows | chicago_crime_analysis.py:161-169 | The outer merge adds no row to the homicide table, and every row carries its homicide and arrest counts. |
| CrimeAnalyses.HomicideTable | chicago_crime_analysis.py:155-169 | The homicide table has one row per (district, description) with a homicide and is ordered by district. Each row carries its homicide count and its arrest count, or None when it has no arrest, with arrests at most homicides. |
| CrimeAnalyses.HomicideMergeHasKey | chicago_crime_analysis.py:161-169 | The outer merge has a row for every (district, description) with a homicide, carrying its homicide count and its arrest count, or None when it has no arrest. |
| CrimeAnalyses.HomicideTableComplete | chicago_crime_analysis.py:161-169 | Every (district, description) with a homicide has its row, with its counts, in the homicide table. |
| CrimeAnalyses.ValueCounts | chicago_crime_analysis.py:192 | `value_counts` lists exactly the occurring crime types with their numbers of records, most frequent first. The counts add up to the number of records. |
| CrimeAnalyses.CrimeTypeCount | chicago_crime_analysis.py:191-195 | The sorted counter-sum table is the `value_counts` table. |
| CrimeAnalyses.TheftsPerDistrict | chicago_crime_analysis.py:213-217 | Each district other than 31 counts all its thefts, and only districts with a theft have a row. District 31 has no row. Each district appears once. |
| CrimeAnalyses.TheftArrestsPerDistrict | chicago_crime_analysis.py:236-239 | Each district other than 31 counts all its arrested thefts, and only districts with one have a row. District 31 has no row. Each district appears once. |
| CrimeAnalyses.TheftArrestsAtMostTheftsIn | chicago_crime_analysis.py:238-239 | In any district, arrested thefts are at most thefts. |
| CrimeAnalyses.TheftArrestsAtMostThefts | chicago_crime_analysis.py:213-239 | In every district, arrested thefts are at most thefts, and every district with an arrested theft has a theft row. |
| ArrestRates.ArrestRate | chicago_crime_analysis.py:267-271 | The arrest share over the crime share equals arrests over crimes, because the record total cancels. |
| ArrestRates.ArrestRateScaleInvariant | chicago_crime_analysis.py:267-271 | Scaling both counts by a positive factor, or using another record total, leaves the rate unchanged. |
| ArrestRates.ArrestRateBounds | chicago_crime_analysis.py:271 | A rate lies in (0, 1] exactly when there is at least one arrest and no more arrests than crimes. |
| ArrestRates.WithRates | chicago_crime_analysis.py:267-271 | Each merged row gains its crime share and arrest share over the record total, and its rate of arrests over crimes. |
| ArrestRates.CrimeArrestJoinRows | chicago_crime_analysis.py:259-265 | The merge holds exactly the crime types with an arrest. Each carries its record count and arrest count, with arrests ≤ records ≤ all records. |
| ArrestRates.CrimeArrestJoinKeys | chicago_crime_analysis.py:259-265 | The merge lists each crime type once, and has one row per crime type with an arrest. |
| ArrestRates.RateTable | chicago_crime_analysis.py:257-271 | The rate table has one row per crime type with an arrest, each type once. Every row carries its type's counts, both shares, and an arrest rate in (0, 1] equal to arrests over records. |
| ArrestRates.RankByArrestRate | chicago_crime_analysis.py:272-276 | A ranking has at most ten rows, all of supported types, ordered by arrest rate. Every row comes from the rate table, and none occurs more often than it does there. |
| ArrestRates.SupportedRowsKept | chicago_crime_analysis.py:272-274 | Every supported row survives the sort and the support filter. |
| ArrestRates.RankingSelection | chicago_crime_analysis.py:272-276 | No left-out supported row comes before a kept row in sort order. A ranking of fewer than ten rows keeps every supported row. |
| ArrestRates.HighestArrestRate | chicago_crime_analysis.py:257-276 | The "highest" ranking holds at most ten supported types from the rate table, none more often than there, in ascending order of arrest rate. No supported type it leaves out has a lower rate than a type it keeps, and with fewer than ten rows it keeps every supported type. |
| ArrestRates.LowestArrestRate | chicago_crime_analysis.py:290-309 | The "lowest" ranking holds at most ten supported types from the rate table, none more often than there, in ascending order of arrest rate. No supported type it leaves out has a lower rate than a type it keeps, and with fewer than ten rows it keeps every supported type. |
| ArrestRates.HighestIsLowest | chicago_crime_analysis.py:272 | The "highest" ranking returns the same rows as the "lowest" one, and its first row has the lowest arrest rate of every supported type. |
| ArrestRates.IntendedHighestArrestRate | chicago_crime_analysis.py:272-276 | Sorted descending, the ranking holds at most ten supported types from the rate table, none more often than there, in falling order of arrest rate. No supported type it leaves out has a higher rate than a type it keeps, and with fewer than ten rows it keeps every supported type. |
| ChiSquared.Expected | chicago_crime_analysis.py:347-348 | An expected cell is non-negative, is zero exactly when its row or column total is zero, and times n gives row total × column total. |
| ChiSquared.Term | chicago_crime_analysis.py:368 | A cell's contribution is non-negative and is zero exactly when observed equals expected. |
| ChiSquared.RowStatistic | chicago_crime_analysis.py:368 | A district's two terms add up to a non-negative value that is zero exactly when both of its cells match their expected values. |
| ChiSquared.Statistic | chicago_crime_analysis.py:368 | The statistic is non-negative. |
| ChiSquared.StatisticZeroIff | chicago_crime_analysis.py:368 | The statistic is zero exactly when every observed cell equals its expected cell. |
| ChiSquared.ChiSquaredStatistic | chicago_crime_analysis.py:347-368 | The statistic is computed exactly when no expected cell has a zero denominator or is zero itself. Otherwise the result is a division by zero. |
| ChiSquared.IndependenceTest | chicago_crime_analysis.py:374-379 | The test rejects independence exactly when the statistic exceeds 9.88, and fails to reject exactly when it is at most 9.88. |
| ChiSquared.ExpectedRowSum | chicago_crime_analysis.py:340-348 | A district's expected cells add up to its row total exactly when n is the sum of the column totals. |
| ChiSquared.ScriptConstants | chicago_crime_analysis.py:325-342 | The hardcoded column totals are the column sums, but the hardcoded n (143650) is not their sum (140650). |
| ChiSquared.ScriptMarginsInconsistent | chicago_crime_analysis.py:340-364 | With the hardcoded n, no district's expected cells add up to its row total. |
| ChiSquared.ScriptIndependenceTest | chicago_crime_analysis.py:324-379 | The test as the script runs it rejects independence. |
| ChiSquared.CorrectedIndependenceTest | chicago_crime_analysis.py:340-342 | With n equal to the sum of the column totals, every district's expected cells add up to its row total, and the test still rejects independence. |

## Left out

- Reading the two CSV files, slicing off their first and last columns, renaming the columns and
  writing the tab-separated file (chicago_crime_analysis.py:8-28). This is file I/O. `ProcessCrimeFiles`
  takes the two record sequences as parameters and returns the combined frame.
  `load_pandas` only calls `process_crime_files`.
- All PostgreSQL work: `load_sql`, `tests()` and the module-level fetch (chicago_crime_analysis.py:37-119,
  385-396). These are calls into a database. The `year` field is read only there.
- All matplotlib plotting and `savefig` calls, including the `unique()` tick labels. These only render charts.
- pandas NaN handling. Keys are total, so groupby never drops a NaN key. A `count` aggregate of a
  non-null column is therefore the row count. The outer merge's NaN fill is `None`.
- Floating-point rounding. Shares, rates, expected cells and the statistic are exact rationals, so
  the script's float results may differ in the last bits.
- Group-by key order. Tables list keys in order of first appearance rather than sorted, as the
  overview above explains.
- Tie order of `sort_values`. `SortValues` is one particular sorted permutation. pandas' default sort
  is not stable, so the contracts state only what any sorted permutation satisfies, with the one
  exception of `CrimeTypeCount` below.
- CrimeAnalyses.CrimeTypeCount: its equality with `ValueCounts` includes the order of tied crime
  types. It holds because both tables are sorted by the same `SortValues` from the same
  first-appearance table. In the script, `value_counts` and the sorted group-by sum reach their order
  by separate unstable sorts from different row orders. There, only the same rows and the same
  descending order are guaranteed, and tied crime types may be listed differently.
- ChiSquared.IndependenceTest: the test is modelled for two columns (arrests, thefts) and any number
  of rows, as the script uses it. Its critical value is the script's hardcoded 9.88, not one derived
  from the degrees of freedom. The script's comment attributes 9.88 to 4 degrees of freedom at
  significance level 0.05, where the quantile is about 9.4877; 9.88 matches a level of about 0.0425.
- ChiSquared.ChiSquaredStatistic: the script never checks that its totals agree with the table. A
  zero denominator is the only error, which matches the ZeroDivisionError the script would raise. A
  total that disagrees with the table is accepted, as in the script. The inconsistency of the
  hardcoded n is stated separately (`ScriptConstants`, `ScriptMarginsInconsistent`).

## Findings

| source | as written | input that shows it | evidently intended | confidence | as-written member | corrected member |
|---|---|---|---|---|---|---|
| chicago_crime_analysis.py:272 | `highest_arrest_rate_by_crime` sorts by `arrest_rate` ascending before taking the first ten rows, so it returns the same rows as `lowest_arrest_rate_by_crime`. | Any record set with more than ten supported crime types that have distinct arrest rates. The "highest" chart shows the ten lowest. | Sort descending, so that the ten supported types with the highest arrest rates are kept. | not executed | ArrestRates.HighestArrestRate, ArrestRates.HighestIsLowest | ArrestRates.IntendedHighestArrestRate |
| chicago_crime_analysis.py:340 | The grand total is `n=143650`, but the column totals 15595 and 125055 sum to 140650, so the expected cells of each district do not add up to its observed row total. | The hardcoded table itself. District 18 has row total 34039, but its expected cells add up to 34039 × 140650 / 143650. | n = total_arrests + total_thefts = 140650. | not executed | ChiSquared.ScriptIndependenceTest, ChiSquared.ScriptMarginsInconsistent | ChiSquared.CorrectedIndependenceTest |
