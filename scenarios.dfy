/**
 * Small tables worked through the queries, one per behaviour that is easy
 * to get wrong: skipped nulls in `avg`, nulls placed last by a descending
 * sort, the age shift, and grouping by the untrimmed gender.
 */
module CitiBikeScenarios {
  import opened Wrappers
  import opened Aggregates
  import opened Strings
  import opened Grouping
  import opened CitiBike

  function TripWith(duration: Option<int>, birthYear: Option<int>, gender: Option<string>): Trip {
    Trip(duration, None, None, None, birthYear, gender)
  }

  /** A null duration is neither summed nor counted: the mean of 100, 200, null, 300 is 200. */
  lemma AverageDurationSkipsNull()
    ensures AverageDuration([TripWith(Some(100), None, None), TripWith(Some(200), None, None),
                             TripWith(None, None, None), TripWith(Some(300), None, None)]) == Some(200.0)
  {
    var rows := [TripWith(Some(100), None, None), TripWith(Some(200), None, None),
                 TripWith(None, None, None), TripWith(Some(300), None, None)];
    var d := Durations(rows);
    assert d == [Some(100), Some(200), None, Some(300)];
    assert d[..1][..0] == [];
    assert Count(d[..1]) == 1 && Sum(d[..1]) == 100;
    assert d[..2][..1] == d[..1];
    assert Count(d[..2]) == 2 && Sum(d[..2]) == 300;
    assert d[..3][..2] == d[..2];
    assert Count(d[..3]) == 2 && Sum(d[..3]) == 300;
    assert Count(d) == 3 && Sum(d) == 600;
  }

  /** With no null filter, a descending sort lists a null duration after a non-null one. */
  lemma LongestTripsPutsNullLast(rows: seq<Trip>, r: seq<Option<int>>)
    requires |rows| == 2 && rows[0].tripDuration == None && rows[1].tripDuration == Some(5)
    requires IsLongestTrips(rows, r)
    ensures r == [Some(5), None]
  {
    assert Durations(rows) == [None, Some(5)];
    assert multiset(Durations(rows)) == multiset{None, Some(5)};
    TwoDistinctValues(r, None, Some(5));
    assert r[1].Some? ==> r[0].Some?;
  }

  /** Two values drawn without repetition from two distinct values come in one of two orders. */
  lemma TwoDistinctValues<T>(r: seq<T>, a: T, b: T)
    requires |r| == 2 && a != b && multiset(r) <= multiset{a, b}
    ensures r == [a, b] || r == [b, a]
  {
    assert r == [r[0], r[1]];
    assert r[0] in multiset(r) && r[1] in multiset(r);
    assert r[0] != r[1] by {
      assert multiset(r)[r[0]] <= multiset{a, b}[r[0]] == 1;
    }
  }

  /** Born in 1990 and 2000 (one rider unknown), in 2024: mean age 29. */
  lemma AverageAgeExample()
    ensures AverageAge([TripWith(None, Some(1990), None), TripWith(None, None, None),
                        TripWith(None, Some(2000), None)], 2024) == Some(29.0)
  {
    var rows := [TripWith(None, Some(1990), None), TripWith(None, None, None), TripWith(None, Some(2000), None)];
    var y := BirthYears(rows);
    assert y == [Some(1990), None, Some(2000)];
    assert y[..1][..0] == [];
    assert Count(y[..1]) == 1 && Sum(y[..1]) == 1990;
    assert y[..2][..1] == y[..1];
    assert Count(y[..2]) == 1 && Sum(y[..2]) == 1990;
    assert Count(y) == 2 && Sum(y) == 3990;
    assert rows[0].birthYear.Some?;
  }

  /** The gender column reads "Male", " Male ", "", null, "Female". */
  predicate SampleGenders(rows: seq<Trip>) {
    && |rows| == 5
    && rows[0].gender == Some("Male") && rows[1].gender == Some(" Male ") && rows[2].gender == Some("")
    && rows[3].gender == None && rows[4].gender == Some("Female")
  }

  /**
   * For that table the distribution has exactly three rows, "Male", " Male "
   * and "Female", one trip each: the blank and null genders are dropped,
   * but " Male " is not merged into "Male", because the filter trims and
   * the grouping does not.
   */
  lemma GenderGroupsUntrimmed(rows: seq<Trip>, r: seq<GenderCount>)
    requires SampleGenders(rows)
    requires IsGenderDistribution(rows, r)
    ensures |r| == 3
    ensures GenderListed(r, Some("Male")) && GenderListed(r, Some(" Male ")) && GenderListed(r, Some("Female"))
    ensures !GenderListed(r, Some("")) && !GenderListed(r, None)
    ensures forall i :: 0 <= i < |r| ==> r[i].count == 1
  {
    DistinctGenders();
    SampleListed(rows, r);
    GendersDropped(r);
    SampleRows(rows, r);
    ThreeValues(r, Some("Male"), Some(" Male "), Some("Female"));
  }

  /** Every listed row is one of the three non-blank genders, counting one trip. */
  lemma SampleRows(rows: seq<Trip>, r: seq<GenderCount>)
    requires SampleGenders(rows)
    requires IsGenderDistribution(rows, r)
    ensures forall i :: 0 <= i < |r| ==>
      (r[i].gender == Some("Male") || r[i].gender == Some(" Male ") || r[i].gender == Some("Female"))
    ensures forall i :: 0 <= i < |r| ==> r[i].count == 1
  {
    SampleCounts(rows);
    forall i | 0 <= i < |r|
      ensures r[i].gender == Some("Male") || r[i].gender == Some(" Male ") || r[i].gender == Some("Female")
    {
      var j := RowWithGender(rows, r[i].gender);
      HeldGender(rows, r[i].gender, j);
    }
  }

  /** The three non-blank genders of the table are listed. */
  lemma SampleListed(rows: seq<Trip>, r: seq<GenderCount>)
    requires SampleGenders(rows)
    requires forall t :: t in rows && HasGender(t) ==> GenderListed(r, t.gender)
    ensures GenderListed(r, Some("Male")) && GenderListed(r, Some(" Male ")) && GenderListed(r, Some("Female"))
  {
    NonBlankGenders();
    ListedIfKept(rows, r, 0);
    ListedIfKept(rows, r, 1);
    ListedIfKept(rows, r, 4);
  }

  /** Each of the three non-blank genders is held by exactly one row. */
  lemma SampleCounts(rows: seq<Trip>)
    requires SampleGenders(rows)
    ensures |WithKey(rows, Gender, Some("Male"))| == 1
    ensures |WithKey(rows, Gender, Some(" Male "))| == 1
    ensures |WithKey(rows, Gender, Some("Female"))| == 1
  {
    DistinctGenders();
    assert rows[..5] == rows;
    OnlyRowWithGender(rows, Some("Male"), 0, 5);
    OnlyRowWithGender(rows, Some(" Male "), 1, 5);
    OnlyRowWithGender(rows, Some("Female"), 4, 5);
  }

  /** Among the first `i` rows, only row `m` has gender `k`. */
  lemma {:induction false} OnlyRowWithGender(rows: seq<Trip>, k: Option<string>, m: nat, i: nat)
    requires m < |rows| && i <= |rows| && rows[m].gender == k
    requires forall j :: 0 <= j < |rows| && j != m ==> rows[j].gender != k
    ensures WithKey(rows[..i], Gender, k) == if m < i then [rows[m]] else []
    decreases i
  {
    if i > 0 {
      OnlyRowWithGender(rows, k, m, i - 1);
      assert rows[..i][..i - 1] == rows[..i - 1];
    }
  }

  /** A gender that some row holds is the gender of a particular row. */
  lemma RowWithGender(rows: seq<Trip>, k: Option<string>) returns (j: nat)
    requires WithKey(rows, Gender, k) != []
    ensures j < |rows| && rows[j].gender == k
  {
    j :| 0 <= j < |rows| && Gender(rows[j]) == k;
  }

  /** A non-blank gender held by a row of the table is one of its three non-blank values. */
  lemma HeldGender(rows: seq<Trip>, k: Option<string>, j: nat)
    requires SampleGenders(rows)
    requires k.Some? && Trim(k.value) != []
    requires j < |rows| && rows[j].gender == k
    ensures k == Some("Male") || k == Some(" Male ") || k == Some("Female")
  {
  }

  /** Distinct genders, each one of three distinct values and each listed: three rows. */
  lemma ThreeValues(r: seq<GenderCount>, a: Option<string>, b: Option<string>, c: Option<string>)
    requires a != b && b != c && a != c
    requires forall i, j :: 0 <= i < j < |r| ==> r[i].gender != r[j].gender
    requires forall i :: 0 <= i < |r| ==> r[i].gender == a || r[i].gender == b || r[i].gender == c
    requires GenderListed(r, a) && GenderListed(r, b) && GenderListed(r, c)
    ensures |r| == 3
  {
    DistinctGenderSet(r);
    var listed := set i | 0 <= i < |r| :: r[i].gender;
    assert listed == {a, b, c};
    assert |{a, b, c}| == 3 by {
      assert {a, b, c} == {a, b} + {c} && c !in {a, b};
      assert |{a, b}| == 2;
    }
  }

  /** With no gender twice, there are as many distinct genders as rows. */
  lemma {:induction false} DistinctGenderSet(r: seq<GenderCount>)
    requires forall i, j :: 0 <= i < j < |r| ==> r[i].gender != r[j].gender
    ensures |set i | 0 <= i < |r| :: r[i].gender| == |r|
    decreases |r|
  {
    if r != [] {
      var init, last := r[..|r| - 1], r[|r| - 1];
      DistinctGenderSet(init);
      var before := set i | 0 <= i < |init| :: init[i].gender;
      assert (set i | 0 <= i < |r| :: r[i].gender) == before + {last.gender};
      assert last.gender !in before;
    }
  }

  lemma DistinctGenders()
    ensures "Male" != " Male " && "Male" != "" && "Male" != "Female"
    ensures " Male " != "" && " Male " != "Female" && "" != "Female"
  {
    assert |"Male"| == 4 && |" Male "| == 6 && |""| == 0 && |"Female"| == 6;
    assert " Male "[0] != "Female"[0];
  }

  lemma ListedIfKept(rows: seq<Trip>, r: seq<GenderCount>, i: nat)
    requires forall t :: t in rows && HasGender(t) ==> GenderListed(r, t.gender)
    requires i < |rows| && HasGender(rows[i])
    ensures GenderListed(r, rows[i].gender)
  {
    assert rows[i] in rows;
  }

  lemma GendersDropped(r: seq<GenderCount>)
    requires forall i :: 0 <= i < |r| ==> r[i].gender.Some? && Trim(r[i].gender.value) != []
    ensures !GenderListed(r, Some("")) && !GenderListed(r, None)
  {
    NonBlankGenders();
  }

  lemma NonBlankGenders()
    ensures Trim("Male") != [] && Trim(" Male ") != [] && Trim("Female") != [] && Trim("") == []
  {
    assert "Male"[0] != ' ' && " Male "[1] != ' ' && "Female"[0] != ' ';
  }
}
