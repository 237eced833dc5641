# Citi Bike trip statistics, modelled in Dafny

The Citi Bike job (`data_engineering/spark/citibike.py`) reads the public
trip table and computes six statistics with Spark DataFrame queries:

1. the average trip duration over all rows, and the 10 longest trips with
   no null filter;
2. the average duration and the 10 shortest trips, both over the rows that
   have a duration;
3. the average duration per ordered (start station, end station) pair, and
   the 10 slowest pairs;
4. the number of trips per bike (non-null `bikeid` only), and the 10 most
   used bikes;
5. the average rider age, `year(current_date()) - birth_year`, over the
   rows with a birth year;
6. the number of rows per gender value, keeping only the values that are
   non-null and not blank after `trim`.

Each query is a pure chain of `filter`, `groupBy`, `agg`, `orderBy`,
`limit` and `select`. The model follows the same shape. It has one
function per query, built from sequence versions of those primitives, over
a table `seq<Trip>` whose six columns are all nullable (`Option`).

- `wrappers.dfy`: `Option`.
- `relational.dfy`: `filter` (`Filter`), `select` (`Map`), `limit` (`Take`).
- `aggregates.dfy`: `sum`, `count` and `avg` with SQL null semantics, using
  exact integers and exact reals.
- `ordering.dfy`: `orderBy` with Spark's null placement (nulls last in a
  descending sort, first in an ascending one). `IsOrdering` accepts any
  sorted permutation, because Spark does not fix the order among ties.
  `OrderBy` is one such permutation (an insertion sort). The lemmas about
  `orderBy` followed by `limit` hold for every admissible ordering.
- `grouping.dfy`: `groupBy`, where a null key is a key like any other.
  Groups are listed in order of first appearance; no property depends on
  that order.
- `strings.dfy`: Spark's `trim`, which removes space characters only.
- `citibike.dfy`: the trip record and the six queries, each with a ghost
  predicate stating what an admissible result is (`IsLongestTrips`,
  `IsShortestTrips`, `IsSlowestPairs`, `IsMostUsedBikes`,
  `IsGenderDistribution`). Each query function ensures its predicate. A
  `...ForAnyTieOrder` lemma proves the predicate for every ordering the
  sort may produce.
- `scenarios.dfy`: small worked tables for the behaviours that are easy to
  get wrong.

Two details of query 6 (lines 92-93) shape its result:

- It filters on `trim(gender) != ""` but groups by the stored `gender`, so
  `" Male "` forms its own group next to `"Male"`
  (`CitiBikeScenarios.GenderGroupsUntrimmed`).
- Spark's `trim` removes only the space character, so a gender made of tabs
  is non-blank.

## Model

| member | source | states |
|---|---|---|
| Relational.Filter | data_engineering/spark/citibike.py:48 | `filter` keeps only rows of the input that satisfy the predicate, and never more rows than the input |
| Relational.FilterKeeps | data_engineering/spark/citibike.py:48 | every input row that satisfies the predicate survives `filter` |
| Relational.FilterMultiset | data_engineering/spark/citibike.py:48 | `filter` keeps every row that satisfies the predicate exactly as often as the input holds it, and no other row |
| Relational.FilterAppend | data_engineering/spark/citibike.py:48 | `filter` distributes over concatenation of tables |
| Relational.Map | data_engineering/spark/citibike.py:42 | `select` yields one value per row, the column of that row |
| Relational.Take | data_engineering/spark/citibike.py:41 | `limit(n)` is the first `min(n, rows)` rows |
| Relational.MapPreservesPermutation | data_engineering/spark/citibike.py:42 | selecting a column of a permuted table gives a permutation of the column |
| Aggregates.Count | data_engineering/spark/citibike.py:37 | the number of non-null values is at most the number of rows, and zero exactly when all are null |
| Aggregates.Avg | data_engineering/spark/citibike.py:37 | `avg` is null exactly when every value is null; otherwise it times the non-null count equals the non-null sum |
| Aggregates.SumCountAppend | data_engineering/spark/citibike.py:37 | sum and count of a concatenation are the sums of the parts (partial aggregation merges exactly) |
| Aggregates.AvgPermutation | data_engineering/spark/citibike.py:37 | `avg`, sum and count depend only on the multiset of values, not on row order |
| Aggregates.AvgWithinBounds | data_engineering/spark/citibike.py:37 | the mean lies between any lower and upper bound of the non-null values |
| Aggregates.ScaledIsProduct | data_engineering/spark/citibike.py:84 | adding a constant once per non-null value gives the constant times the non-null count |
| Aggregates.MeanShift | data_engineering/spark/citibike.py:84-85 | the mean of `c - v` over n values is `c` minus the mean of `v` |
| Ordering.BeforeIsTotalOrder | data_engineering/spark/citibike.py:40 | Spark's null-aware comparison is total and transitive, and its only ties are equal keys |
| Ordering.Insert | data_engineering/spark/citibike.py:40 | inserting a row into a sorted table keeps it sorted and adds exactly that row |
| Ordering.OrderBy | data_engineering/spark/citibike.py:40 | `orderBy` returns a permutation of its input sorted by the key, nulls last descending and first ascending |
| Ordering.LimitOrdered | data_engineering/spark/citibike.py:40-41 | after `orderBy` and `limit(n)`: `min(n, rows)` rows, sorted, drawn from the input, and no omitted row may precede a kept one |
| Ordering.LimitOrderedProjected | data_engineering/spark/citibike.py:40-42 | the same guarantees after `select` of a column that determines the key, stated on the selected values |
| Ordering.LimitOrderedDistinct | data_engineering/spark/citibike.py:64-65 | over a table of distinct rows: `min(n, rows)` kept rows, sorted, distinct, all from the table, all of it when it has at most n rows, and every omitted row may follow every kept row |
| Ordering.SortedPermutationsAgreeOnKeys | data_engineering/spark/citibike.py:40 | any two sorted permutations of one table have the same sequence of keys |
| Ordering.OrderingUnique | data_engineering/spark/citibike.py:64 | when rows with equal keys are equal, there is exactly one sorted permutation |
| Grouping.WithKey | data_engineering/spark/citibike.py:62 | the rows with a given key: all from the input, all with that key, empty exactly when no row has it |
| Grouping.WithKeyIsFilter | data_engineering/spark/citibike.py:62 | a group's rows are exactly the input filtered on the key, in input order |
| Grouping.WithKeyMultiset | data_engineering/spark/citibike.py:62 | a group holds each input row with its key exactly as often as the input does, and no other row |
| Grouping.GroupBy | data_engineering/spark/citibike.py:62 | `groupBy` yields one group per distinct key of the input, each holding exactly the rows with that key |
| Grouping.GroupSizesSum | data_engineering/spark/citibike.py:93-94 | the group sizes add up to the number of input rows: no row is lost or counted twice |
| Grouping.WithKeyAfterFilter | data_engineering/spark/citibike.py:92-93 | filtering before grouping does not change a group whose key implies the filter |
| Strings.TrimStart | data_engineering/spark/citibike.py:92 | drops exactly the leading spaces |
| Strings.TrimEnd | data_engineering/spark/citibike.py:92 | drops exactly the trailing spaces |
| Strings.Trim | data_engineering/spark/citibike.py:92 | `trim` leaves no space at either end, and is empty exactly when the string is all spaces |
| CitiBike.AverageDuration | data_engineering/spark/citibike.py:37 | the overall average is null exactly when no row has a duration, otherwise sum over count of the non-null durations |
| CitiBike.AverageDurationIgnoresNullRows | data_engineering/spark/citibike.py:37 | two tables with the same rows that have a duration have the same average |
| CitiBike.AddingNullDurationRows | data_engineering/spark/citibike.py:37 | appending or prepending rows without a duration never changes the average |
| CitiBike.LongestTrips | data_engineering/spark/citibike.py:40-42 | the 10-longest list has `min(10, rows)` entries, non-increasing, nulls only after every non-null, drawn from the durations, and no omitted non-null duration exceeds a listed one |
| CitiBike.LongestTripsForAnyTieOrder | data_engineering/spark/citibike.py:40-42 | every ordering Spark may choose among ties yields a list with those properties |
| CitiBike.LongestTripsTieIndependent | data_engineering/spark/citibike.py:40-42 | every such ordering yields the same duration column |
| CitiBike.TieOrdersAgree | data_engineering/spark/citibike.py:40-42 | two sorts of one table by duration, in either direction, list the same first 10 durations |
| CitiBike.DurationsOfNonNull | data_engineering/spark/citibike.py:48-49 | filtering out null durations keeps their sum and count |
| CitiBike.AverageDurationNonNull | data_engineering/spark/citibike.py:48-50 | the average after the null filter equals the overall average of query 1 |
| CitiBike.ShortestTrips | data_engineering/spark/citibike.py:53-56 | the 10-shortest list holds only non-null durations, `min(10, non-null rows)` of them, non-decreasing, drawn from the data, and no omitted duration is smaller than a listed one |
| CitiBike.ShortestTripsForAnyTieOrder | data_engineering/spark/citibike.py:53-56 | every ordering Spark may choose among ties yields a list with those properties |
| CitiBike.ShortestTripsTieIndependent | data_engineering/spark/citibike.py:53-56 | every ordering Spark may choose among ties yields the same duration column |
| CitiBike.PairAverageAt | data_engineering/spark/citibike.py:62-63 | each row of the grouped table is a pair from the input with the mean duration of that pair's trips |
| CitiBike.PairCovered | data_engineering/spark/citibike.py:62 | every (start, end) pair of the input, nulls included, has a row in the grouped table |
| CitiBike.SlowestStationPairs | data_engineering/spark/citibike.py:62-66 | at most 10 rows, each an input pair listed once with its mean duration, in non-increasing mean with null means last; no omitted pair has a larger mean, and pairs are omitted only when 10 are listed |
| CitiBike.SlowestPairsForAnyTieOrder | data_engineering/spark/citibike.py:62-66 | every ordering Spark may choose among ties yields a result with those properties |
| CitiBike.SlowestStationPairsDeterministic | data_engineering/spark/citibike.py:64-65 | when no two pairs share a mean, every ordering gives exactly the same 10 rows |
| CitiBike.BikeTripsAt | data_engineering/spark/citibike.py:72-74 | each row of the grouped table is a non-null bike with its exact number of input rows, at least one |
| CitiBike.BikeCovered | data_engineering/spark/citibike.py:72-73 | every non-null bike of the input has a row in the grouped table |
| CitiBike.MostUsedBikes | data_engineering/spark/citibike.py:72-77 | at most 10 rows of distinct non-null bikes, each with its exact trip count (at least one), in non-increasing count; no omitted bike has more trips than a listed one, and bikes are omitted only when 10 are listed |
| CitiBike.MostUsedBikesForAnyTieOrder | data_engineering/spark/citibike.py:72-77 | every ordering Spark may choose among ties yields a result with those properties |
| CitiBike.MostUsedBikesDeterministic | data_engineering/spark/citibike.py:75-76 | when no two bikes share a trip count, every ordering gives exactly the same 10 rows |
| CitiBike.Ages | data_engineering/spark/citibike.py:84 | the age column holds, row by row, the current year minus the birth year (null when the birth year is null) |
| CitiBike.AgeTotals | data_engineering/spark/citibike.py:83-85 | over the rows with a birth year, there are as many ages as birth years, summing to the current year per rider minus the birth years |
| CitiBike.AverageAgeFromBirthYears | data_engineering/spark/citibike.py:84-85 | the mean age is the current year minus the mean birth year, and is null exactly when that mean is |
| CitiBike.AverageAge | data_engineering/spark/citibike.py:83-86 | the mean age is null exactly when no row has a birth year, and is otherwise the current year minus the mean of the non-null birth years |
| CitiBike.GenderCountAt | data_engineering/spark/citibike.py:92-94 | each group of the distribution has a non-blank gender key and as many rows as the input has with exactly that gender |
| CitiBike.GenderDistribution | data_engineering/spark/citibike.py:92-94 | one row per distinct non-null, non-blank gender value as stored (untrimmed), none twice, each counting the input rows with exactly that value; every qualifying value is listed |
| CitiBike.GenderCountsAddUp | data_engineering/spark/citibike.py:92-94 | the counts add up to the number of rows whose gender is non-null and non-blank after trim |
| CitiBikeScenarios.AverageDurationSkipsNull | data_engineering/spark/citibike.py:37 | durations 100, 200, null, 300 average to 200 |
| CitiBikeScenarios.LongestTripsPutsNullLast | data_engineering/spark/citibike.py:40-42 | with durations null and 5, the 10-longest list is exactly 5 then null |
| CitiBikeScenarios.AverageAgeExample | data_engineering/spark/citibike.py:83-86 | in 2024, birth years 1990, null, 2000 give mean age 29 |
| CitiBikeScenarios.GenderGroupsUntrimmed | data_engineering/spark/citibike.py:92-94 | for genders "Male", " Male ", "", null, "Female": exactly three rows, "Male", " Male " and "Female", each counting one row; "" and null are not listed |

## Left out

- Command-line handling (data_engineering/spark/citibike.py:21-24) is process plumbing, and `dataset` is never used. With no argument it prints a message and then fails on `sys.argv[1]`.
- Creating the Spark session, the BigQuery connector and loading the table (data_engineering/spark/citibike.py:27-32), and `spark.stop()` (data_engineering/spark/citibike.py:98), are I/O against a foreign runtime. The table is a parameter `rows`.
- All output: the `print` f-strings (data_engineering/spark/citibike.py:38, 51, 87) and `.show()` (data_engineering/spark/citibike.py:43, 57, 67, 78, 95). Rounding to 3 or 2 decimals is presentation only. When the average is null, the `:.3f` and `:.2f` formats would raise rather than print; the model returns `None` there.
- `year(current_date())` (data_engineering/spark/citibike.py:84) reads the clock. The model takes it as the parameter `currentYear`.
- Double-precision arithmetic: averages are exact reals and durations, ids and birth years are unbounded integers. Column types come from the table schema, and schema inference is not modelled.
- Distributed execution and partial aggregation are not modelled as such. `Aggregates.SumCountAppend` and `Aggregates.AvgPermutation` state the facts they rely on: merging partial sums and counts is exact, and row order does not matter.
- The order Spark picks among rows with equal sort keys, and the order of `groupBy` output, are left open. Every property is proved for every such ordering. The durations listed by queries 1 and 2 are the same for every ordering (`CitiBike.LongestTripsTieIndependent`, `CitiBike.ShortestTripsTieIndependent`). The rows of queries 3 and 4 are the same for every ordering when no two groups tie (`CitiBike.SlowestStationPairsDeterministic`, `CitiBike.MostUsedBikesDeterministic`); with ties they can differ, and the model does not choose among them.
- `OrderBy` is an insertion sort chosen as one admissible ordering. It is not Spark's sort algorithm.
