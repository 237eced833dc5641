/**
 * The six statistics the Citi Bike job computes over the trip table. Each
 * query is the chain of DataFrame steps the job applies (filter, groupBy,
 * agg, orderBy, limit, select), composed from the primitives of the other
 * modules; `orderBy` is stated for every order Spark may pick among ties.
 */
module CitiBike {
  import opened Wrappers
  import opened Relational
  import opened Aggregates
  import opened Ordering
  import opened Grouping
  import opened Strings

  /** One row of the trip table; every column may be null. */
  datatype Trip = Trip(
    tripDuration: Option<int>,
    startStationId: Option<int>,
    endStationId: Option<int>,
    bikeId: Option<int>,
    birthYear: Option<int>,
    gender: Option<string>)

  /** A nullable integer column as a sort key. */
  function AsReal(v: Option<int>): Option<real> {
    match v
    case Some(x) => Some(x as real)
    case None => None
  }

  function Duration(t: Trip): Option<int> { t.tripDuration }

  predicate HasDuration(t: Trip) { t.tripDuration.Some? }

  function DurationKey(t: Trip): Option<real> { AsReal(t.tripDuration) }

  /** The `tripduration` column. */
  function Durations(rows: seq<Trip>): seq<Option<int>> { Map(Duration, rows) }

  /* ---------------------------------------------------------------------
   * Query 1: average duration over all rows, then the 10 longest trips
   * with no null filter.
   * ------------------------------------------------------------------- */

  /** `avg("tripduration")` over the whole table: null durations are skipped. */
  function AverageDuration(rows: seq<Trip>): (r: Option<real>)
    ensures r.None? <==> forall i :: 0 <= i < |rows| ==> rows[i].tripDuration.None?
    ensures r.Some? ==> r.value * Count(Durations(rows)) as real == Sum(Durations(rows)) as real
  {
    Avg(Durations(rows))
  }

  /**
   * `r` is an admissible result of the 10-longest query: as long as the
   * table allows up to 10, non-increasing with nulls after every non-null,
   * drawn from the table's durations, and no omitted non-null duration
   * exceeds a listed one.
   */
  ghost predicate IsLongestTrips(rows: seq<Trip>, r: seq<Option<int>>) {
    && |r| == Min(10, |rows|)
    && (forall i, j :: 0 <= i < j < |r| && r[j].Some? ==> r[i].Some? && r[i].value >= r[j].value)
    && multiset(r) <= multiset(Durations(rows))
    && forall v :: v in multiset(Durations(rows)) - multiset(r) && v.Some? ==>
         forall i :: 0 <= i < |r| ==> r[i].Some? && r[i].value >= v.value
  }

  /** `orderBy("tripduration", ascending=False).limit(10).select("tripduration")`. */
  function LongestTrips(rows: seq<Trip>): (r: seq<Option<int>>)
    ensures IsLongestTrips(rows, r)
  {
    var sorted := OrderBy(rows, DurationKey, true);
    LongestTripsForAnyTieOrder(rows, sorted);
    Map(Duration, Take(sorted, 10))
  }

  lemma LongestTripsForAnyTieOrder(rows: seq<Trip>, sorted: seq<Trip>)
    requires IsOrdering(rows, sorted, DurationKey, true)
    ensures IsLongestTrips(rows, Map(Duration, Take(sorted, 10)))
  {
    var r := Map(Duration, Take(sorted, 10));
    LimitOrderedProjected(rows, sorted, DurationKey, true, 10, Duration, AsReal);
    forall i, j | 0 <= i < j < |r| && r[j].Some? ensures r[i].Some? && r[i].value >= r[j].value {
      assert Before(AsReal(r[i]), AsReal(r[j]), true);
    }
    forall v, i | v in multiset(Durations(rows)) - multiset(r) && v.Some? && 0 <= i < |r|
      ensures r[i].Some? && r[i].value >= v.value
    {
      assert r[i] in r;
      assert Before(AsReal(r[i]), AsReal(v), true);
    }
  }

  /**
   * The listed durations do not depend on how the sort breaks ties: every
   * admissible ordering yields the same column.
   */
  lemma LongestTripsTieIndependent(rows: seq<Trip>, sorted: seq<Trip>)
    requires IsOrdering(rows, sorted, DurationKey, true)
    ensures Map(Duration, Take(sorted, 10)) == LongestTrips(rows)
  {
    TieOrdersAgree(rows, sorted, OrderBy(rows, DurationKey, true), true);
  }

  /** Two sorts of one table by duration, in either direction, list the same durations. */
  lemma TieOrdersAgree(rows: seq<Trip>, a: seq<Trip>, b: seq<Trip>, descending: bool)
    requires IsOrdering(rows, a, DurationKey, descending) && IsOrdering(rows, b, DurationKey, descending)
    ensures Map(Duration, Take(a, 10)) == Map(Duration, Take(b, 10))
  {
    SortedPermutationsAgreeOnKeys(a, b, DurationKey, descending);
    assert |a| == |b| by {
      assert |multiset(a)| == |multiset(b)|;
    }
    forall i | 0 <= i < |a| ensures Duration(a[i]) == Duration(b[i]) {
      assert DurationKey(a[i]) == Map(DurationKey, a)[i] == Map(DurationKey, b)[i];
    }
  }

  /* ---------------------------------------------------------------------
   * Query 2: average duration and the 10 shortest trips, both after
   * filtering out null durations.
   * ------------------------------------------------------------------- */

  /** The `tripduration` column after `filter(tripduration is not null)`. */
  function NonNullDurations(rows: seq<Trip>): seq<Option<int>> {
    Durations(Filter(rows, HasDuration))
  }

  /** `filter(tripduration is not null).agg(avg("tripduration"))`. */
  function AverageDurationNonNull(rows: seq<Trip>): (r: Option<real>)
    ensures r == AverageDuration(rows)
  {
    DurationsOfNonNull(rows);
    Avg(NonNullDurations(rows))
  }

  /**
   * `r` is an admissible result of the 10-shortest query over the rows
   * with a duration: only non-null values, as many as there are up to 10,
   * non-decreasing, drawn from those rows, and no omitted duration is
   * smaller than a listed one.
   */
  ghost predicate IsShortestTrips(rows: seq<Trip>, r: seq<Option<int>>) {
    && (forall i :: 0 <= i < |r| ==> r[i].Some?)
    && |r| == Min(10, Count(Durations(rows)))
    && (forall i, j :: 0 <= i < j < |r| ==> r[i].Some? && r[j].Some? && r[i].value <= r[j].value)
    && multiset(r) <= multiset(NonNullDurations(rows))
    && forall v :: v in multiset(NonNullDurations(rows)) - multiset(r) ==>
         v.Some? && forall i :: 0 <= i < |r| ==> r[i].Some? && r[i].value <= v.value
  }

  /**
   * `filter(tripduration is not null).orderBy("tripduration", ascending=True)
   * .limit(10).select("tripduration")`.
   */
  function ShortestTrips(rows: seq<Trip>): (r: seq<Option<int>>)
    ensures IsShortestTrips(rows, r)
  {
    var sorted := OrderBy(Filter(rows, HasDuration), DurationKey, false);
    ShortestTripsForAnyTieOrder(rows, sorted);
    Map(Duration, Take(sorted, 10))
  }

  lemma ShortestTripsForAnyTieOrder(rows: seq<Trip>, sorted: seq<Trip>)
    requires IsOrdering(Filter(rows, HasDuration), sorted, DurationKey, false)
    ensures IsShortestTrips(rows, Map(Duration, Take(sorted, 10)))
  {
    var r := Map(Duration, Take(sorted, 10));
    LimitOrderedProjected(Filter(rows, HasDuration), sorted, DurationKey, false, 10, Duration, AsReal);
    DurationsOfNonNull(rows);
    NonNullDurationsAreSome(rows);
    AscendingNonNull(r, NonNullDurations(rows));
  }

  /**
   * The listed durations do not depend on how the sort breaks ties: every
   * admissible ordering of the rows with a duration yields the same column.
   */
  lemma ShortestTripsTieIndependent(rows: seq<Trip>, sorted: seq<Trip>)
    requires IsOrdering(Filter(rows, HasDuration), sorted, DurationKey, false)
    ensures Map(Duration, Take(sorted, 10)) == ShortestTrips(rows)
  {
    var kept := Filter(rows, HasDuration);
    TieOrdersAgree(kept, sorted, OrderBy(kept, DurationKey, false), false);
  }

  /** The first rows of an ascending sort of non-null values, stated on the values. */
  lemma AscendingNonNull(r: seq<Option<int>>, pool: seq<Option<int>>)
    requires forall v :: v in multiset(pool) ==> v.Some?
    requires multiset(r) <= multiset(pool)
    requires forall i, j :: 0 <= i < j < |r| ==> Before(AsReal(r[i]), AsReal(r[j]), false)
    requires forall v, w :: v in multiset(pool) - multiset(r) && w in r ==> Before(AsReal(w), AsReal(v), false)
    ensures forall i :: 0 <= i < |r| ==> r[i].Some?
    ensures forall i, j :: 0 <= i < j < |r| ==> r[i].Some? && r[j].Some? && r[i].value <= r[j].value
    ensures forall v :: v in multiset(pool) - multiset(r) ==>
      v.Some? && forall i :: 0 <= i < |r| ==> r[i].Some? && r[i].value <= v.value
  {
    assert forall i :: 0 <= i < |r| ==> r[i] in multiset(pool);
    forall i, j | 0 <= i < j < |r| ensures r[i].Some? && r[j].Some? && r[i].value <= r[j].value {
      assert Before(AsReal(r[i]), AsReal(r[j]), false);
    }
    forall v, i | v in multiset(pool) - multiset(r) && 0 <= i < |r| ensures r[i].Some? && r[i].value <= v.value {
      assert r[i] in r;
      assert Before(AsReal(r[i]), AsReal(v), false);
    }
  }

  lemma NonNullDurationsAreSome(rows: seq<Trip>)
    ensures forall v :: v in multiset(NonNullDurations(rows)) ==> v.Some?
  {
    var kept := Filter(rows, HasDuration);
    forall v | v in multiset(NonNullDurations(rows)) ensures v.Some? {
      var i :| 0 <= i < |kept| && NonNullDurations(rows)[i] == v;
      assert HasDuration(kept[i]);
    }
  }

  /** Filtering out the null durations keeps their sum and their count. */
  lemma {:induction false} DurationsOfNonNull(rows: seq<Trip>)
    ensures Sum(Durations(Filter(rows, HasDuration))) == Sum(Durations(rows))
    ensures Count(Durations(Filter(rows, HasDuration))) == Count(Durations(rows)) == |Filter(rows, HasDuration)|
    decreases |rows|
  {
    if rows != [] {
      var init, x := rows[..|rows| - 1], rows[|rows| - 1];
      DurationsOfNonNull(init);
      DurationsSnoc(rows);
      var kept := Filter(init, HasDuration);
      if HasDuration(x) {
        assert Filter(rows, HasDuration) == kept + [x];
        KeptDurationSnoc(kept, x);
      } else {
        assert Filter(rows, HasDuration) == kept;
      }
    }
  }

  /** Appending a row with a duration adds that duration once to the sum and the count. */
  lemma KeptDurationSnoc(kept: seq<Trip>, x: Trip)
    requires HasDuration(x)
    ensures Sum(Durations(kept + [x])) == Sum(Durations(kept)) + x.tripDuration.value
    ensures Count(Durations(kept + [x])) == Count(Durations(kept)) + 1
  {
    assert (kept + [x])[..|kept|] == kept;
    DurationsSnoc(kept + [x]);
  }

  /** The duration totals of a table, in terms of those of all rows but the last. */
  lemma DurationsSnoc(rows: seq<Trip>)
    requires rows != []
    ensures var d, x := Durations(rows[..|rows| - 1]), rows[|rows| - 1].tripDuration;
      && Sum(Durations(rows)) == Sum(d) + (if x.Some? then x.value else 0)
      && Count(Durations(rows)) == Count(d) + (if x.Some? then 1 else 0)
  {
    assert Durations(rows)[..|rows| - 1] == Durations(rows[..|rows| - 1]);
  }

  /** Rows with a null duration never change the overall average. */
  lemma AverageDurationIgnoresNullRows(a: seq<Trip>, b: seq<Trip>)
    requires Filter(a, HasDuration) == Filter(b, HasDuration)
    ensures AverageDuration(a) == AverageDuration(b)
  {
    DurationsOfNonNull(a);
    DurationsOfNonNull(b);
  }

  /** In particular, appending or prepending rows without a duration. */
  lemma AddingNullDurationRows(rows: seq<Trip>, extra: seq<Trip>)
    requires forall i :: 0 <= i < |extra| ==> extra[i].tripDuration.None?
    ensures AverageDuration(rows + extra) == AverageDuration(rows)
    ensures AverageDuration(extra + rows) == AverageDuration(rows)
  {
    NullRowsFilteredOut(rows, extra);
    AverageDurationIgnoresNullRows(rows + extra, rows);
    AverageDurationIgnoresNullRows(extra + rows, rows);
  }

  lemma NullRowsFilteredOut(rows: seq<Trip>, extra: seq<Trip>)
    requires forall i :: 0 <= i < |extra| ==> extra[i].tripDuration.None?
    ensures Filter(rows + extra, HasDuration) == Filter(rows, HasDuration)
    ensures Filter(extra + rows, HasDuration) == Filter(rows, HasDuration)
  {
    FilterRejectsAll(extra, HasDuration);
    FilterAppend(rows, extra, HasDuration);
    FilterAppend(extra, rows, HasDuration);
    assert Filter(rows, HasDuration) + [] == Filter(rows, HasDuration);
  }

  /* ---------------------------------------------------------------------
   * Query 3: average duration per (start, end) station pair, then the 10
   * slowest pairs.
   * ------------------------------------------------------------------- */

  /** One row of the grouped table: an ordered station pair and its mean duration. */
  datatype PairAverage = PairAverage(startStationId: Option<int>, endStationId: Option<int>, duration: Option<real>)

  /** The grouping key: (A, B) and (B, A) are different pairs, and null ids are key values. */
  function StationPair(t: Trip): (Option<int>, Option<int>) {
    (t.startStationId, t.endStationId)
  }

  function RowPair(p: PairAverage): (Option<int>, Option<int>) {
    (p.startStationId, p.endStationId)
  }

  function AverageDurationKey(p: PairAverage): Option<real> { p.duration }

  /** The mean of the non-null durations of the trips between one ordered pair of stations. */
  function PairMean(rows: seq<Trip>, pair: (Option<int>, Option<int>)): Option<real> {
    Avg(Durations(WithKey(rows, StationPair, pair)))
  }

  /** `agg(avg("tripduration").alias("duration"))` over one group. */
  function PairAverageRow(g: Group<(Option<int>, Option<int>), Trip>): PairAverage {
    PairAverage(g.key.0, g.key.1, Avg(Durations(g.rows)))
  }

  /** `groupBy("start_station_id", "end_station_id").agg(avg("tripduration"))`. */
  function PairAverages(rows: seq<Trip>): seq<PairAverage> {
    Map(PairAverageRow, GroupBy(rows, StationPair))
  }

  /** Some trip of the input goes from the pair's first station to its second. */
  predicate PairOccurs(rows: seq<Trip>, pair: (Option<int>, Option<int>)) {
    exists t :: t in rows && StationPair(t) == pair
  }

  predicate PairListed(r: seq<PairAverage>, pair: (Option<int>, Option<int>)) {
    exists i :: 0 <= i < |r| && RowPair(r[i]) == pair
  }

  /**
   * `r` is an admissible result of the slowest-pairs query: at most 10 rows,
   * each an ordered pair of the input listed once with the mean duration of
   * its trips, in non-increasing mean with null means last; no pair left out
   * has a larger mean than a listed one, and pairs are left out only when
   * 10 are listed.
   */
  ghost predicate IsSlowestPairs(rows: seq<Trip>, r: seq<PairAverage>) {
    && |r| <= 10
    && (forall i, j :: 0 <= i < j < |r| ==> RowPair(r[i]) != RowPair(r[j]))
    && (forall i :: 0 <= i < |r| ==> PairOccurs(rows, RowPair(r[i])))
    && (forall i :: 0 <= i < |r| ==> r[i].duration == PairMean(rows, RowPair(r[i])))
    && (forall i, j :: 0 <= i < j < |r| && r[j].duration.Some? ==>
          r[i].duration.Some? && r[i].duration.value >= r[j].duration.value)
    && (forall t :: t in rows && !PairListed(r, StationPair(t)) && PairMean(rows, StationPair(t)).Some? ==>
          forall i :: 0 <= i < |r| ==> r[i].duration.Some? && r[i].duration.value >= PairMean(rows, StationPair(t)).value)
    && (|r| == 10 || forall t :: t in rows ==> PairListed(r, StationPair(t)))
  }

  /**
   * `groupBy("start_station_id", "end_station_id").agg(avg("tripduration"))
   * .orderBy("duration", ascending=False).limit(10)
   * .select("start_station_id", "end_station_id", "duration")`.
   */
  function SlowestStationPairs(rows: seq<Trip>): (r: seq<PairAverage>)
    ensures IsSlowestPairs(rows, r)
  {
    var sorted := OrderBy(PairAverages(rows), AverageDurationKey, true);
    SlowestPairsForAnyTieOrder(rows, sorted);
    Take(sorted, 10)
  }

  /** Row `g` of the grouped table is group `g`'s pair, with that pair's mean. */
  lemma PairAverageAt(rows: seq<Trip>, g: nat)
    requires g < |GroupBy(rows, StationPair)|
    ensures |PairAverages(rows)| == |GroupBy(rows, StationPair)|
    ensures RowPair(PairAverages(rows)[g]) == GroupBy(rows, StationPair)[g].key
    ensures PairAverages(rows)[g].duration == PairMean(rows, RowPair(PairAverages(rows)[g]))
    ensures exists t :: t in rows && StationPair(t) == RowPair(PairAverages(rows)[g])
  {
    var group := GroupBy(rows, StationPair)[g];
    assert group.rows == WithKey(rows, StationPair, group.key) && group.rows != [];
    assert group.rows[0] in rows && StationPair(group.rows[0]) == group.key;
  }

  lemma PairAveragesDistinct(rows: seq<Trip>)
    ensures Distinct(PairAverages(rows))
  {
    var agg := PairAverages(rows);
    forall i, j | 0 <= i < j < |agg| ensures agg[i] != agg[j] {
      PairAverageAt(rows, i);
      PairAverageAt(rows, j);
    }
  }

  /** Every pair of the input has its row in the grouped table. */
  lemma PairCovered(rows: seq<Trip>, t: Trip) returns (g: nat)
    requires t in rows
    ensures g < |PairAverages(rows)| && RowPair(PairAverages(rows)[g]) == StationPair(t)
  {
    var groups := GroupBy(rows, StationPair);
    var m :| 0 <= m < |rows| && rows[m] == t;
    g :| 0 <= g < |groups| && groups[g].key == StationPair(rows[m]);
    PairAverageAt(rows, g);
  }

  lemma SlowestPairsForAnyTieOrder(rows: seq<Trip>, sorted: seq<PairAverage>)
    requires IsOrdering(PairAverages(rows), sorted, AverageDurationKey, true)
    ensures IsSlowestPairs(rows, Take(sorted, 10))
  {
    var agg := PairAverages(rows);
    var r := Take(sorted, 10);
    PairAveragesDistinct(rows);
    LimitOrderedDistinct(agg, sorted, AverageDurationKey, true, 10);
    ListedPairsAreGroups(rows, r);
    ListedPairsDistinct(rows, r);
    ListedPairsOrdered(r);
    OmittedPairsNotSlower(rows, r);
    AllPairsListed(rows, r);
  }

  /**
   * When no two station pairs have the same mean duration, the result does
   * not depend on how the sort would break ties.
   */
  lemma SlowestStationPairsDeterministic(rows: seq<Trip>, sorted: seq<PairAverage>)
    requires IsOrdering(PairAverages(rows), sorted, AverageDurationKey, true)
    requires forall t, u :: t in rows && u in rows && StationPair(t) != StationPair(u) ==>
      PairMean(rows, StationPair(t)) != PairMean(rows, StationPair(u))
    ensures Take(sorted, 10) == SlowestStationPairs(rows)
  {
    var agg := PairAverages(rows);
    forall x, y | x in agg && y in agg && AverageDurationKey(x) == AverageDurationKey(y) ensures x == y {
      var gx, t := GroupIndexOf(rows, x);
      var gy, u := GroupIndexOf(rows, y);
    }
    OrderingUnique(agg, sorted, OrderBy(agg, AverageDurationKey, true), AverageDurationKey, true);
  }

  /** With fewer than 10 rows listed, every pair of the input is listed. */
  lemma AllPairsListed(rows: seq<Trip>, r: seq<PairAverage>)
    requires |r| == Min(10, |PairAverages(rows)|)
    requires |PairAverages(rows)| <= 10 ==> forall x :: x in PairAverages(rows) ==> x in r
    ensures |r| == 10 || forall t :: t in rows ==> PairListed(r, StationPair(t))
  {
    if |r| != 10 {
      forall t | t in rows ensures PairListed(r, StationPair(t)) {
        var g := PairCovered(rows, t);
        var x := PairAverages(rows)[g];
        assert x in PairAverages(rows);
        var k :| 0 <= k < |r| && r[k] == x;
        assert RowPair(r[k]) == StationPair(t);
      }
    }
  }

  /** A listed row is a row of the grouped table: an input pair with its mean. */
  lemma ListedPairsAreGroups(rows: seq<Trip>, r: seq<PairAverage>)
    requires forall x :: x in r ==> x in PairAverages(rows)
    ensures forall i :: 0 <= i < |r| ==> PairOccurs(rows, RowPair(r[i]))
    ensures forall i :: 0 <= i < |r| ==> r[i].duration == PairMean(rows, RowPair(r[i]))
  {
    forall i | 0 <= i < |r| ensures PairOccurs(rows, RowPair(r[i])) {
      var g, t := GroupIndexOf(rows, r[i]);
      assert t in rows && StationPair(t) == RowPair(r[i]);
    }
    forall i | 0 <= i < |r| ensures r[i].duration == PairMean(rows, RowPair(r[i])) {
      var g, t := GroupIndexOf(rows, r[i]);
    }
  }

  /** Distinct rows of the grouped table have distinct pairs. */
  lemma ListedPairsDistinct(rows: seq<Trip>, r: seq<PairAverage>)
    requires Distinct(r)
    requires forall x :: x in r ==> x in PairAverages(rows)
    ensures forall i, j :: 0 <= i < j < |r| ==> RowPair(r[i]) != RowPair(r[j])
  {
    forall i, j | 0 <= i < j < |r| ensures RowPair(r[i]) != RowPair(r[j]) {
      var gi, _ := GroupIndexOf(rows, r[i]);
      var gj, _ := GroupIndexOf(rows, r[j]);
    }
  }

  lemma GroupIndexOf(rows: seq<Trip>, x: PairAverage) returns (g: nat, t: Trip)
    requires x in PairAverages(rows)
    ensures g < |PairAverages(rows)| && PairAverages(rows)[g] == x
    ensures x.duration == PairMean(rows, RowPair(x))
    ensures t in rows && StationPair(t) == RowPair(x)
    ensures forall h :: 0 <= h < |PairAverages(rows)| && h != g ==> RowPair(PairAverages(rows)[h]) != RowPair(x)
  {
    var agg := PairAverages(rows);
    g :| 0 <= g < |agg| && agg[g] == x;
    PairAverageAt(rows, g);
    t :| t in rows && StationPair(t) == RowPair(x);
    forall h | 0 <= h < |agg| && h != g ensures RowPair(agg[h]) != RowPair(x) {
      PairAverageAt(rows, h);
    }
  }

  lemma ListedPairsOrdered(r: seq<PairAverage>)
    requires Sorted(r, AverageDurationKey, true)
    ensures forall i, j :: 0 <= i < j < |r| && r[j].duration.Some? ==>
      r[i].duration.Some? && r[i].duration.value >= r[j].duration.value
  {
    forall i, j | 0 <= i < j < |r| && r[j].duration.Some?
      ensures r[i].duration.Some? && r[i].duration.value >= r[j].duration.value
    {
      assert Before(AverageDurationKey(r[i]), AverageDurationKey(r[j]), true);
    }
  }

  lemma OmittedPairsNotSlower(rows: seq<Trip>, r: seq<PairAverage>)
    requires forall x, w :: x in PairAverages(rows) && x !in r && w in r ==>
      Before(AverageDurationKey(w), AverageDurationKey(x), true)
    ensures forall t :: t in rows && !PairListed(r, StationPair(t)) && PairMean(rows, StationPair(t)).Some? ==>
      forall i :: 0 <= i < |r| ==> r[i].duration.Some? && r[i].duration.value >= PairMean(rows, StationPair(t)).value
  {
    forall t, i | t in rows && !PairListed(r, StationPair(t)) && PairMean(rows, StationPair(t)).Some? && 0 <= i < |r|
      ensures r[i].duration.Some? && r[i].duration.value >= PairMean(rows, StationPair(t)).value
    {
      OmittedPairNotSlower(rows, r, t, r[i]);
    }
  }

  lemma OmittedPairNotSlower(rows: seq<Trip>, r: seq<PairAverage>, t: Trip, w: PairAverage)
    requires forall x, w :: x in PairAverages(rows) && x !in r && w in r ==>
      Before(AverageDurationKey(w), AverageDurationKey(x), true)
    requires t in rows && !PairListed(r, StationPair(t)) && PairMean(rows, StationPair(t)).Some? && w in r
    ensures w.duration.Some? && w.duration.value >= PairMean(rows, StationPair(t)).value
  {
    var g := PairCovered(rows, t);
    PairAverageAt(rows, g);
    var x := PairAverages(rows)[g];
    assert Before(AverageDurationKey(w), AverageDurationKey(x), true);
  }

  /* ---------------------------------------------------------------------
   * Query 4: trips per non-null bike, then the 10 most used bikes.
   * ------------------------------------------------------------------- */

  /** One row of the grouped table: a bike and its number of trips. */
  datatype BikeTrips = BikeTrips(bikeId: Option<int>, totalTrips: nat)

  function Bike(t: Trip): Option<int> { t.bikeId }

  predicate HasBike(t: Trip) { t.bikeId.Some? }

  /** The number of input rows with the given `bikeid`. */
  function TripsOf(rows: seq<Trip>, bike: Option<int>): nat {
    |WithKey(rows, Bike, bike)|
  }

  /** `agg(count("*").alias("total_trips"))` over one group. */
  function BikeTripsRow(g: Group<Option<int>, Trip>): BikeTrips {
    BikeTrips(g.key, |g.rows|)
  }

  function BikeGroups(rows: seq<Trip>): seq<Group<Option<int>, Trip>> {
    GroupBy(Filter(rows, HasBike), Bike)
  }

  /** `filter(bikeid is not null).groupBy("bikeid").agg(count("*"))`. */
  function BikeTripCounts(rows: seq<Trip>): seq<BikeTrips> {
    Map(BikeTripsRow, BikeGroups(rows))
  }

  function TotalTripsKey(b: BikeTrips): Option<real> { Some(b.totalTrips as real) }

  predicate BikeListed(r: seq<BikeTrips>, bike: Option<int>) {
    exists i :: 0 <= i < |r| && r[i].bikeId == bike
  }

  /**
   * `r` is an admissible result of the most-used-bikes query: at most 10
   * rows, each a distinct non-null bike with its exact number of trips
   * (at least one), in non-increasing count; no bike left out has more
   * trips than a listed one, and bikes are left out only when 10 are listed.
   */
  ghost predicate IsMostUsedBikes(rows: seq<Trip>, r: seq<BikeTrips>) {
    && |r| <= 10
    && (forall i :: 0 <= i < |r| ==> r[i].bikeId.Some?)
    && (forall i, j :: 0 <= i < j < |r| ==> r[i].bikeId != r[j].bikeId)
    && (forall i :: 0 <= i < |r| ==> r[i].totalTrips == TripsOf(rows, r[i].bikeId) && r[i].totalTrips >= 1)
    && (forall i, j :: 0 <= i < j < |r| ==> r[i].totalTrips >= r[j].totalTrips)
    && (forall t :: t in rows && t.bikeId.Some? && !BikeListed(r, t.bikeId) ==>
          forall i :: 0 <= i < |r| ==> r[i].totalTrips >= TripsOf(rows, t.bikeId))
    && (|r| == 10 || forall t :: t in rows && t.bikeId.Some? ==> BikeListed(r, t.bikeId))
  }

  /**
   * `filter(bikeid is not null).groupBy("bikeid").agg(count("*"))
   * .orderBy("total_trips", ascending=False).limit(10).select("bikeid", "total_trips")`.
   */
  function MostUsedBikes(rows: seq<Trip>): (r: seq<BikeTrips>)
    ensures IsMostUsedBikes(rows, r)
  {
    var sorted := OrderBy(BikeTripCounts(rows), TotalTripsKey, true);
    MostUsedBikesForAnyTieOrder(rows, sorted);
    Take(sorted, 10)
  }

  /** Row `g` of the grouped table is a non-null bike with its number of input rows. */
  lemma BikeTripsAt(rows: seq<Trip>, g: nat)
    requires g < |BikeGroups(rows)|
    ensures |BikeTripCounts(rows)| == |BikeGroups(rows)|
    ensures BikeTripCounts(rows)[g].bikeId == BikeGroups(rows)[g].key
    ensures BikeTripCounts(rows)[g].bikeId.Some?
    ensures BikeTripCounts(rows)[g].totalTrips == TripsOf(rows, BikeTripCounts(rows)[g].bikeId) >= 1
  {
    var kept := Filter(rows, HasBike);
    var group := BikeGroups(rows)[g];
    assert group.rows == WithKey(kept, Bike, group.key) && group.rows != [];
    assert group.rows[0] in kept && Bike(group.rows[0]) == group.key;
    WithKeyAfterFilter(rows, HasBike, Bike, group.key);
  }

  lemma BikeIndexOf(rows: seq<Trip>, x: BikeTrips) returns (g: nat)
    requires x in BikeTripCounts(rows)
    ensures g < |BikeTripCounts(rows)| && BikeTripCounts(rows)[g] == x
    ensures x.bikeId.Some? && x.totalTrips == TripsOf(rows, x.bikeId) >= 1
    ensures forall h :: 0 <= h < |BikeTripCounts(rows)| && h != g ==> BikeTripCounts(rows)[h].bikeId != x.bikeId
  {
    var counts := BikeTripCounts(rows);
    g :| 0 <= g < |counts| && counts[g] == x;
    BikeTripsAt(rows, g);
    forall h | 0 <= h < |counts| && h != g ensures counts[h].bikeId != x.bikeId {
      BikeTripsAt(rows, h);
    }
  }

  /** Every non-null bike of the input has its row in the grouped table. */
  lemma BikeCovered(rows: seq<Trip>, t: Trip) returns (g: nat)
    requires t in rows && t.bikeId.Some?
    ensures g < |BikeTripCounts(rows)| && BikeTripCounts(rows)[g].bikeId == t.bikeId
  {
    var kept := Filter(rows, HasBike);
    FilterKeeps(rows, HasBike, t);
    var m :| 0 <= m < |kept| && kept[m] == t;
    g :| 0 <= g < |BikeGroups(rows)| && BikeGroups(rows)[g].key == Bike(kept[m]);
    BikeTripsAt(rows, g);
  }

  lemma BikeTripCountsDistinct(rows: seq<Trip>)
    ensures Distinct(BikeTripCounts(rows))
  {
    var counts := BikeTripCounts(rows);
    forall i, j | 0 <= i < j < |counts| ensures counts[i] != counts[j] {
      BikeTripsAt(rows, i);
      BikeTripsAt(rows, j);
    }
  }

  lemma MostUsedBikesForAnyTieOrder(rows: seq<Trip>, sorted: seq<BikeTrips>)
    requires IsOrdering(BikeTripCounts(rows), sorted, TotalTripsKey, true)
    ensures IsMostUsedBikes(rows, Take(sorted, 10))
  {
    TopBikes(rows, sorted);
    TopBikesAreMostUsed(rows, Take(sorted, 10));
  }

  lemma TopBikesAreMostUsed(rows: seq<Trip>, r: seq<BikeTrips>)
    requires |r| == Min(10, |BikeTripCounts(rows)|)
    requires Sorted(r, TotalTripsKey, true) && Distinct(r)
    requires forall x :: x in r ==> x in BikeTripCounts(rows)
    requires |BikeTripCounts(rows)| <= 10 ==> forall x :: x in BikeTripCounts(rows) ==> x in r
    requires forall x, w :: x in BikeTripCounts(rows) && x !in r && w in r ==>
      Before(TotalTripsKey(w), TotalTripsKey(x), true)
    ensures IsMostUsedBikes(rows, r)
  {
    ListedBikesAreGroups(rows, r);
    ListedBikesOrdered(r);
    OmittedBikesNotMoreUsed(rows, r);
    AllBikesListed(rows, r);
  }

  /** What `orderBy` and `limit(10)` guarantee about the grouped bike table. */
  lemma TopBikes(rows: seq<Trip>, sorted: seq<BikeTrips>)
    requires IsOrdering(BikeTripCounts(rows), sorted, TotalTripsKey, true)
    ensures var counts, r := BikeTripCounts(rows), Take(sorted, 10);
      && |r| == Min(10, |counts|)
      && Sorted(r, TotalTripsKey, true)
      && Distinct(r)
      && (forall x :: x in r ==> x in counts)
      && (|counts| <= 10 ==> forall x :: x in counts ==> x in r)
      && forall x, w :: x in counts && x !in r && w in r ==> Before(TotalTripsKey(w), TotalTripsKey(x), true)
  {
    BikeTripCountsDistinct(rows);
    LimitOrderedDistinct(BikeTripCounts(rows), sorted, TotalTripsKey, true, 10);
  }

  lemma ListedBikesAreGroups(rows: seq<Trip>, r: seq<BikeTrips>)
    requires Distinct(r)
    requires forall x :: x in r ==> x in BikeTripCounts(rows)
    ensures forall i :: 0 <= i < |r| ==> r[i].bikeId.Some?
    ensures forall i, j :: 0 <= i < j < |r| ==> r[i].bikeId != r[j].bikeId
    ensures forall i :: 0 <= i < |r| ==> r[i].totalTrips == TripsOf(rows, r[i].bikeId) && r[i].totalTrips >= 1
  {
    forall i | 0 <= i < |r|
      ensures r[i].bikeId.Some? && r[i].totalTrips == TripsOf(rows, r[i].bikeId) && r[i].totalTrips >= 1
    {
      var g := BikeIndexOf(rows, r[i]);
    }
    forall i, j | 0 <= i < j < |r| ensures r[i].bikeId != r[j].bikeId {
      var gi := BikeIndexOf(rows, r[i]);
      var gj := BikeIndexOf(rows, r[j]);
    }
  }

  lemma ListedBikesOrdered(r: seq<BikeTrips>)
    requires Sorted(r, TotalTripsKey, true)
    ensures forall i, j :: 0 <= i < j < |r| ==> r[i].totalTrips >= r[j].totalTrips
  {
    forall i, j | 0 <= i < j < |r| ensures r[i].totalTrips >= r[j].totalTrips {
      assert Before(TotalTripsKey(r[i]), TotalTripsKey(r[j]), true);
    }
  }

  lemma OmittedBikesNotMoreUsed(rows: seq<Trip>, r: seq<BikeTrips>)
    requires forall x, w :: x in BikeTripCounts(rows) && x !in r && w in r ==>
      Before(TotalTripsKey(w), TotalTripsKey(x), true)
    ensures forall t :: t in rows && t.bikeId.Some? && !BikeListed(r, t.bikeId) ==>
      forall i :: 0 <= i < |r| ==> r[i].totalTrips >= TripsOf(rows, t.bikeId)
  {
    forall t, i | t in rows && t.bikeId.Some? && !BikeListed(r, t.bikeId) && 0 <= i < |r|
      ensures r[i].totalTrips >= TripsOf(rows, t.bikeId)
    {
      OmittedBikeNotMoreUsed(rows, r, t, r[i]);
    }
  }

  lemma OmittedBikeNotMoreUsed(rows: seq<Trip>, r: seq<BikeTrips>, t: Trip, w: BikeTrips)
    requires forall x, w :: x in BikeTripCounts(rows) && x !in r && w in r ==>
      Before(TotalTripsKey(w), TotalTripsKey(x), true)
    requires t in rows && t.bikeId.Some? && !BikeListed(r, t.bikeId) && w in r
    ensures w.totalTrips >= TripsOf(rows, t.bikeId)
  {
    var g := BikeCovered(rows, t);
    BikeTripsAt(rows, g);
    var x := BikeTripCounts(rows)[g];
    assert Before(TotalTripsKey(w), TotalTripsKey(x), true);
  }

  /**
   * When no two bikes have the same number of trips, the result does not
   * depend on how the sort would break ties: every admissible ordering
   * gives the same 10 rows in the same order.
   */
  lemma MostUsedBikesDeterministic(rows: seq<Trip>, sorted: seq<BikeTrips>)
    requires IsOrdering(BikeTripCounts(rows), sorted, TotalTripsKey, true)
    requires forall t, u :: t in rows && u in rows && t.bikeId.Some? && u.bikeId.Some? && t.bikeId != u.bikeId ==>
      TripsOf(rows, t.bikeId) != TripsOf(rows, u.bikeId)
    ensures Take(sorted, 10) == MostUsedBikes(rows)
  {
    var counts := BikeTripCounts(rows);
    forall x, y | x in counts && y in counts && TotalTripsKey(x) == TotalTripsKey(y) ensures x == y {
      var gx := BikeIndexOf(rows, x);
      var gy := BikeIndexOf(rows, y);
      var t := RowOfBike(rows, x.bikeId);
      var u := RowOfBike(rows, y.bikeId);
      assert x.totalTrips == y.totalTrips;
    }
    OrderingUnique(counts, sorted, OrderBy(counts, TotalTripsKey, true), TotalTripsKey, true);
  }

  /** A bike with a trip appears on some row. */
  lemma RowOfBike(rows: seq<Trip>, bike: Option<int>) returns (t: Trip)
    requires TripsOf(rows, bike) >= 1
    ensures t in rows && t.bikeId == bike
  {
    t := WithKey(rows, Bike, bike)[0];
  }

  /** With fewer than 10 rows listed, every non-null bike of the input is listed. */
  lemma AllBikesListed(rows: seq<Trip>, r: seq<BikeTrips>)
    requires |r| == Min(10, |BikeTripCounts(rows)|)
    requires |BikeTripCounts(rows)| <= 10 ==> forall x :: x in BikeTripCounts(rows) ==> x in r
    ensures |r| == 10 || forall t :: t in rows && t.bikeId.Some? ==> BikeListed(r, t.bikeId)
  {
    if |r| != 10 {
      forall t | t in rows && t.bikeId.Some? ensures BikeListed(r, t.bikeId) {
        var g := BikeCovered(rows, t);
        var x := BikeTripCounts(rows)[g];
        assert x in BikeTripCounts(rows);
        var k :| 0 <= k < |r| && r[k] == x;
        assert r[k].bikeId == t.bikeId;
      }
    }
  }

  /* ---------------------------------------------------------------------
   * Query 5: the mean age of the riders with a known birth year.
   * ------------------------------------------------------------------- */

  function BirthYear(t: Trip): Option<int> { t.birthYear }

  predicate HasBirthYear(t: Trip) { t.birthYear.Some? }

  /** The `birth_year` column. */
  function BirthYears(rows: seq<Trip>): seq<Option<int>> { Map(BirthYear, rows) }

  /** `year(current_date()) - col("birth_year")`: null when the birth year is null. */
  function Age(currentYear: int, t: Trip): Option<int> {
    match t.birthYear
    case Some(y) => Some(currentYear - y)
    case None => None
  }

  /** `withColumn("age", ...)`, keeping only the new column. */
  function Ages(currentYear: int, rows: seq<Trip>): (r: seq<Option<int>>)
    ensures |r| == |rows|
    ensures forall i :: 0 <= i < |rows| ==> r[i] == Age(currentYear, rows[i])
  {
    Map(t => Age(currentYear, t), rows)
  }

  /**
   * `filter(birth_year is not null).withColumn("age", ...).agg(avg("age"))`:
   * null exactly when no row has a birth year, and otherwise the current
   * year minus the mean birth year.
   */
  function AverageAge(rows: seq<Trip>, currentYear: int): (r: Option<real>)
    ensures r.None? <==> forall i :: 0 <= i < |rows| ==> rows[i].birthYear.None?
    ensures r.Some? ==> Avg(BirthYears(rows)).Some? && r.value == currentYear as real - Avg(BirthYears(rows)).value
  {
    var ages := Ages(currentYear, Filter(rows, HasBirthYear));
    AgeTotals(currentYear, rows);
    AverageAgeFromBirthYears(currentYear, ages, BirthYears(rows));
    Avg(ages)
  }

  /**
   * Over the rows with a birth year, the ages are as many as the birth
   * years and add up to `currentYear` per rider minus the birth years.
   */
  lemma {:induction false} AgeTotals(currentYear: int, rows: seq<Trip>)
    ensures Count(Ages(currentYear, Filter(rows, HasBirthYear))) == Count(BirthYears(rows))
    ensures Sum(Ages(currentYear, Filter(rows, HasBirthYear))) ==
      Scaled(currentYear, BirthYears(rows)) - Sum(BirthYears(rows))
    decreases |rows|
  {
    if rows != [] {
      var init, x := rows[..|rows| - 1], rows[|rows| - 1];
      AgeTotals(currentYear, init);
      BirthYearsSnoc(currentYear, rows);
      var kept := Filter(init, HasBirthYear);
      if HasBirthYear(x) {
        assert Filter(rows, HasBirthYear) == kept + [x];
        AgesSnoc(currentYear, kept, x);
      } else {
        assert Filter(rows, HasBirthYear) == kept;
      }
    }
  }

  /** The birth-year totals of a table, in terms of those of all rows but the last. */
  lemma BirthYearsSnoc(currentYear: int, rows: seq<Trip>)
    requires rows != []
    ensures var years, init, y := BirthYears(rows), BirthYears(rows[..|rows| - 1]), rows[|rows| - 1].birthYear;
      && Count(years) == Count(init) + (if y.Some? then 1 else 0)
      && Sum(years) == Sum(init) + (if y.Some? then y.value else 0)
      && Scaled(currentYear, years) == Scaled(currentYear, init) + (if y.Some? then currentYear else 0)
  {
    var years := BirthYears(rows);
    assert years[..|rows| - 1] == BirthYears(rows[..|rows| - 1]);
  }

  /** Appending a row with a birth year appends its age, counted and summed once more. */
  lemma AgesSnoc(currentYear: int, kept: seq<Trip>, x: Trip)
    requires x.birthYear.Some?
    ensures Count(Ages(currentYear, kept + [x])) == Count(Ages(currentYear, kept)) + 1
    ensures Sum(Ages(currentYear, kept + [x])) == Sum(Ages(currentYear, kept)) + currentYear - x.birthYear.value
  {
    var ages := Ages(currentYear, kept + [x]);
    assert ages[..|ages| - 1] == Ages(currentYear, kept);
    assert ages[|ages| - 1] == Some(currentYear - x.birthYear.value);
  }

  /** The mean of the ages is the current year minus the mean of the birth years. */
  lemma AverageAgeFromBirthYears(currentYear: int, ages: seq<Option<int>>, years: seq<Option<int>>)
    requires Count(ages) == Count(years)
    requires Sum(ages) == Scaled(currentYear, years) - Sum(years)
    ensures Avg(ages).None? <==> Avg(years).None?
    ensures Avg(ages).Some? ==> Avg(years).Some? && Avg(ages).value == currentYear as real - Avg(years).value
  {
    if Count(years) != 0 {
      ScaledIsProduct(currentYear, years);
      MeanShift(currentYear, Count(years), Sum(ages), Sum(years));
    }
  }

  /* ---------------------------------------------------------------------
   * Query 6: the number of rows per non-blank gender.
   * ------------------------------------------------------------------- */

  /** One row of the distribution: a gender value and its number of rows. */
  datatype GenderCount = GenderCount(gender: Option<string>, count: nat)

  function Gender(t: Trip): Option<string> { t.gender }

  /** `gender is not null and trim(gender) != ""`. */
  predicate HasGender(t: Trip) { t.gender.Some? && Trim(t.gender.value) != [] }

  /** `count()` over one group. */
  function GenderCountRow(g: Group<Option<string>, Trip>): GenderCount {
    GenderCount(g.key, |g.rows|)
  }

  /** The rows are grouped by the gender as stored, not by its trimmed form. */
  function GenderGroups(rows: seq<Trip>): seq<Group<Option<string>, Trip>> {
    GroupBy(Filter(rows, HasGender), Gender)
  }

  predicate GenderListed(r: seq<GenderCount>, gender: Option<string>) {
    exists i :: 0 <= i < |r| && r[i].gender == gender
  }

  /**
   * `r` is the gender distribution of the table: one row per distinct
   * non-blank gender value of the input and no other, each with the
   * number of input rows holding exactly that value.
   */
  ghost predicate IsGenderDistribution(rows: seq<Trip>, r: seq<GenderCount>) {
    && (forall i :: 0 <= i < |r| ==> r[i].gender.Some? && Trim(r[i].gender.value) != [])
    && (forall i, j :: 0 <= i < j < |r| ==> r[i].gender != r[j].gender)
    && (forall i :: 0 <= i < |r| ==> r[i].count == |WithKey(rows, Gender, r[i].gender)| && r[i].count >= 1)
    && (forall t :: t in rows && HasGender(t) ==> GenderListed(r, t.gender))
  }

  /** `filter(gender is not null and trim(gender) != "").groupBy("gender").count()`. */
  function GenderDistribution(rows: seq<Trip>): (r: seq<GenderCount>)
    ensures IsGenderDistribution(rows, r)
  {
    var r := Map(GenderCountRow, GenderGroups(rows));
    GenderRowsCounted(rows);
    GenderRowsDistinct(rows);
    GendersCovered(rows);
    r
  }

  lemma GenderRowsCounted(rows: seq<Trip>)
    ensures var r := Map(GenderCountRow, GenderGroups(rows));
      forall i :: 0 <= i < |r| ==>
        && r[i].gender.Some? && Trim(r[i].gender.value) != []
        && r[i].count == |WithKey(rows, Gender, r[i].gender)| && r[i].count >= 1
  {
    forall i | 0 <= i < |GenderGroups(rows)| {
      GenderCountAt(rows, i);
    }
  }

  lemma GenderRowsDistinct(rows: seq<Trip>)
    ensures var r := Map(GenderCountRow, GenderGroups(rows));
      forall i, j :: 0 <= i < j < |r| ==> r[i].gender != r[j].gender
  {
  }

  lemma GendersCovered(rows: seq<Trip>)
    ensures forall t :: t in rows && HasGender(t) ==> GenderListed(Map(GenderCountRow, GenderGroups(rows)), t.gender)
  {
    var r := Map(GenderCountRow, GenderGroups(rows));
    forall t | t in rows && HasGender(t) ensures GenderListed(r, t.gender) {
      var g := GenderCovered(rows, t);
      assert r[g].gender == t.gender;
    }
  }

  /** Row `g` of the distribution is a non-blank gender with its number of input rows. */
  lemma GenderCountAt(rows: seq<Trip>, g: nat)
    requires g < |GenderGroups(rows)|
    ensures |Map(GenderCountRow, GenderGroups(rows))| == |GenderGroups(rows)|
    ensures GenderGroups(rows)[g].key.Some? && Trim(GenderGroups(rows)[g].key.value) != []
    ensures |GenderGroups(rows)[g].rows| == |WithKey(rows, Gender, GenderGroups(rows)[g].key)| >= 1
  {
    var kept := Filter(rows, HasGender);
    var group := GenderGroups(rows)[g];
    assert group.rows == WithKey(kept, Gender, group.key) && group.rows != [];
    assert group.rows[0] in kept && Gender(group.rows[0]) == group.key;
    WithKeyAfterFilter(rows, HasGender, Gender, group.key);
  }

  /** Every qualifying row's gender has its group. */
  lemma GenderCovered(rows: seq<Trip>, t: Trip) returns (g: nat)
    requires t in rows && HasGender(t)
    ensures g < |GenderGroups(rows)| && GenderGroups(rows)[g].key == t.gender
  {
    var kept := Filter(rows, HasGender);
    FilterKeeps(rows, HasGender, t);
    var m :| 0 <= m < |kept| && kept[m] == t;
    g :| 0 <= g < |GenderGroups(rows)| && GenderGroups(rows)[g].key == Gender(kept[m]);
  }

  /** The total of the counts. */
  function TotalCount(r: seq<GenderCount>): nat {
    if r == [] then 0 else TotalCount(r[..|r| - 1]) + r[|r| - 1].count
  }

  lemma {:induction false} TotalCountOfGroups(g: seq<Group<Option<string>, Trip>>)
    ensures TotalCount(Map(GenderCountRow, g)) == SumSizes(g)
    decreases |g|
  {
    if g != [] {
      TotalCountOfGroups(g[..|g| - 1]);
      assert Map(GenderCountRow, g)[..|g| - 1] == Map(GenderCountRow, g[..|g| - 1]);
    }
  }

  /** The distribution accounts for every qualifying row exactly once. */
  lemma GenderCountsAddUp(rows: seq<Trip>)
    ensures TotalCount(GenderDistribution(rows)) == |Filter(rows, HasGender)|
  {
    TotalCountOfGroups(GenderGroups(rows));
    GroupSizesSum(Filter(rows, HasGender), Gender);
  }
}
