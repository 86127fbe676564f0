/** What the two Streamlit dashboards share: the dataset table as a
    sequence of rows, the sidebar filters applied one after the other, the
    region options, the bounds of the birth-year slider, and the counting
    behind the département map and the origin-country chart. */
module Dashboard {
  import opened Wrappers
  import opened Seqs
  import opened Text
  import opened Counters
  import Numerals

  /** One row of the dataset table. A missing value (pandas NaN) is None;
      a missing diaspora region has already been filled with 'None'. */
  datatype Row = Row(
    name: string,
    birthYear: Option<int>,
    birthCity: string,
    birthDepartment: Option<int>,
    diasporaRegion: string,
    isDualNational: bool,
    nationalities: seq<string>,
    diasporaCountries: seq<string>)

  /** The text the loaders put in place of a missing diaspora region. */
  const NoRegion := "None"

  // ---------------------------------------------------------------------
  // The sidebar filters

  /** The sidebar choices, with the département option already read back
      to its code (None stands for "All"). */
  datatype Filters = Filters(
    department: Option<int>,
    region: string,
    yearFrom: int,
    yearTo: int,
    nationality: string)

  const DualOnly := "Dual nationals only"
  const SingleOnly := "Single nationality only"

  predicate DepartmentOk(f: Filters, r: Row) {
    f.department.None? || r.birthDepartment == f.department
  }

  predicate RegionOk(f: Filters, r: Row) {
    f.region == "All" || r.diasporaRegion == f.region
  }

  /** The year range always applies; a comparison with a missing year is
      false, so a row without a birth year never passes. */
  predicate YearOk(f: Filters, r: Row) {
    r.birthYear.Some? && f.yearFrom <= r.birthYear.value <= f.yearTo
  }

  /** The nationality radio button; any other choice keeps every row. */
  predicate NationalityOk(f: Filters, r: Row) {
    if f.nationality == DualOnly then r.isDualNational
    else if f.nationality == SingleOnly then !r.isDualNational
    else true
  }

  predicate Matches(f: Filters, r: Row) {
    DepartmentOk(f, r) && RegionOk(f, r) && YearOk(f, r) && NationalityOk(f, r)
  }

  /** The rows the page shows: one filter by the conjunction of all four. */
  function Filtered(rows: seq<Row>, f: Filters): seq<Row> {
    Filter(rows, (r: Row) => Matches(f, r))
  }

  /** The chain of boolean masks of the page, one `filtered_df = ...` at a
      time, skipping the masks whose choice is "All". */
  method ApplyFilters(rows: seq<Row>, f: Filters) returns (filtered: seq<Row>)
    ensures filtered == Filtered(rows, f)
  {
    var d := (r: Row) => DepartmentOk(f, r);
    var dr := (r: Row) => DepartmentOk(f, r) && RegionOk(f, r);
    var dry := (r: Row) => DepartmentOk(f, r) && RegionOk(f, r) && YearOk(f, r);
    var all := (r: Row) => Matches(f, r);

    filtered := rows;
    if f.department.Some? {
      var byDepartment := (r: Row) => r.birthDepartment == f.department;
      filtered := Filter(filtered, byDepartment);
      FilterSame(rows, byDepartment, d);
    } else {
      FilterAll(rows, d);
    }
    assert filtered == Filter(rows, d);

    if f.region != "All" {
      var byRegion := (r: Row) => r.diasporaRegion == f.region;
      filtered := Filter(filtered, byRegion);
      FilterFilter(rows, d, byRegion, dr);
    } else {
      FilterSame(rows, d, dr);
    }
    assert filtered == Filter(rows, dr);

    var byYear := (r: Row) => r.birthYear.Some? && f.yearFrom <= r.birthYear.value <= f.yearTo;
    filtered := Filter(filtered, byYear);
    FilterFilter(rows, dr, byYear, dry);

    if f.nationality == DualOnly {
      var dual := (r: Row) => r.isDualNational == true;
      filtered := Filter(filtered, dual);
      FilterFilter(rows, dry, dual, all);
    } else if f.nationality == SingleOnly {
      var single := (r: Row) => r.isDualNational == false;
      filtered := Filter(filtered, single);
      FilterFilter(rows, dry, single, all);
    } else {
      FilterSame(rows, dry, all);
    }
  }

  /** A row is shown exactly when it is in the table and passes every
      active filter; the shown rows keep the table's order. */
  lemma FilteredSpec(rows: seq<Row>, f: Filters)
    ensures forall r :: r in Filtered(rows, f) <==>
      r in rows && DepartmentOk(f, r) && RegionOk(f, r) && YearOk(f, r) && NationalityOk(f, r)
    ensures IsSubsequence(Filtered(rows, f), rows)
  {
    FilterSpec(rows, (r: Row) => Matches(f, r));
  }

  /** With every choice left on "All", only the year range filters. */
  lemma AllChoicesKeepYearRange(rows: seq<Row>, f: Filters)
    requires f.department.None? && f.region == "All" && f.nationality == "All"
    ensures Filtered(rows, f) == Filter(rows, (r: Row) => YearOk(f, r))
  {
    FilterSame(rows, (r: Row) => Matches(f, r), (r: Row) => YearOk(f, r));
  }

  // ---------------------------------------------------------------------
  // Département options: "d - name", read back with `split(" - ")[0]`

  /** The text before the first " - " of an option that starts with
      `str(d)` is `str(d)`, whatever follows, and `str(d)` alone is left
      as it is. */
  lemma CodeBeforeSeparator(d: int, rest: string)
    ensures BeforeFirstText(Numerals.IntToString(d) + " - " + rest, " - ") == Numerals.IntToString(d)
    ensures BeforeFirstText(Numerals.IntToString(d), " - ") == Numerals.IntToString(d)
    ensures Numerals.IntToString(d)[0] != 'A'
  {
    var s := Numerals.IntToString(d);
    assert ' ' !in s by {
      forall k | 0 <= k < |s| ensures s[k] != ' ' {
        assert Numerals.IsDigit(s[k]) || s[k] == '-';
      }
    }
    BeforeFirstTextOfJoin(s, " - ", rest);
    NotContainsMissingChar(s, " - ", ' ');
    assert Numerals.IsDigit(s[0]) || s[0] == '-';
  }

  /** The order `sorted` puts integers in. */
  function ByInt(): (int, int) -> bool {
    (a: int, b: int) => a <= b
  }

  // ---------------------------------------------------------------------
  // The birth-year slider

  function YearOf(r: Row): seq<int> {
    if r.birthYear.Some? then [r.birthYear.value] else []
  }

  /** The column's non-missing birth years, in table order. */
  function KnownYears(rows: seq<Row>): seq<int> {
    FlatMap(rows, YearOf)
  }

  /** `int(df['birth_year'].min()), int(df['birth_year'].max())`: pandas
      skips missing values, and `int` of the NaN left by a column without
      any year raises. */
  function YearBounds(rows: seq<Row>): Result<(int, int)> {
    var years := KnownYears(rows);
    if years == [] then Failure(ValueError("cannot convert float NaN to integer"))
    else Success((MinOf(years), MaxOf(years)))
  }

  lemma KnownYearsSpec(rows: seq<Row>)
    ensures forall y :: y in KnownYears(rows) <==> exists i :: 0 <= i < |rows| && rows[i].birthYear == Some(y)
  {
    forall y ensures y in KnownYears(rows) <==> exists i :: 0 <= i < |rows| && rows[i].birthYear == Some(y) {
      if y in KnownYears(rows) {
        FlatMapMember(rows, YearOf, y);
      }
      if i :| 0 <= i < |rows| && rows[i].birthYear == Some(y) {
        FlatMapIncludes(rows, YearOf, i, y);
      }
    }
  }

  /** The slider bounds exist exactly when some row has a birth year,
      and they are the smallest and the largest birth year of the table. */
  lemma YearBoundsSpec(rows: seq<Row>)
    ensures YearBounds(rows).Success? <==> exists i :: 0 <= i < |rows| && rows[i].birthYear.Some?
    ensures YearBounds(rows).Success? ==>
      && YearBounds(rows).value.0 <= YearBounds(rows).value.1
      && (exists i :: 0 <= i < |rows| && rows[i].birthYear == Some(YearBounds(rows).value.0))
      && (exists i :: 0 <= i < |rows| && rows[i].birthYear == Some(YearBounds(rows).value.1))
      && forall i :: 0 <= i < |rows| && rows[i].birthYear.Some? ==>
           YearBounds(rows).value.0 <= rows[i].birthYear.value <= YearBounds(rows).value.1
  {
    KnownYearsSpec(rows);
    var years := KnownYears(rows);
    forall i | 0 <= i < |rows| && rows[i].birthYear.Some? ensures rows[i].birthYear.value in years {
      assert rows[i].birthYear.value in YearOf(rows[i]);
      FlatMapIncludes(rows, YearOf, i, rows[i].birthYear.value);
    }
  }

  /** The whole slider, the default range, keeps exactly the rows that
      have a birth year. */
  lemma DefaultRangeKeepsKnownYears(rows: seq<Row>)
    requires YearBounds(rows).Success?
    ensures var f := Filters(None, "All", YearBounds(rows).value.0, YearBounds(rows).value.1, "All");
      Filtered(rows, f) == Filter(rows, (r: Row) => r.birthYear.Some?)
  {
    var f := Filters(None, "All", YearBounds(rows).value.0, YearBounds(rows).value.1, "All");
    YearBoundsSpec(rows);
    forall r | r in rows ensures Matches(f, r) == r.birthYear.Some? {
      var i :| 0 <= i < |rows| && rows[i] == r;
    }
    FilterSame(rows, (r: Row) => Matches(f, r), (r: Row) => r.birthYear.Some?);
  }

  // ---------------------------------------------------------------------
  // Region options

  function RegionOf(r: Row): string {
    r.diasporaRegion
  }

  predicate IsRegion(s: string) {
    s != NoRegion
  }

  /** `["All"] + sorted([r for r in df['diaspora_region'].unique() if r != 'None'])`. */
  function RegionOptions(rows: seq<Row>): seq<string> {
    ["All"] + SortBy(Filter(Distinct(Map(rows, RegionOf)), IsRegion), ByString())
  }


  /** The regions offered after "All": sorted, without repeats, no 'None'. */
  function RegionChoices(rows: seq<Row>): seq<string> {
    SortBy(Filter(Distinct(Map(rows, RegionOf)), IsRegion), ByString())
  }

  /** "All" comes first, and every region of the table except 'None'
      follows, and nothing else. */
  lemma RegionOptionsMembers(rows: seq<Row>)
    ensures RegionOptions(rows) == ["All"] + RegionChoices(rows)
    ensures forall s :: s in RegionChoices(rows) <==>
      s != NoRegion && exists i :: 0 <= i < |rows| && rows[i].diasporaRegion == s
  {
    var regions := Map(rows, RegionOf);
    var kept := Filter(Distinct(regions), IsRegion);
    FilterSpec(Distinct(regions), IsRegion);
    forall s ensures s in RegionChoices(rows) <==> s in kept {
      assert s in RegionChoices(rows) <==> s in multiset(RegionChoices(rows));
    }
    forall s ensures s in regions <==> exists i :: 0 <= i < |rows| && rows[i].diasporaRegion == s {
      if i :| 0 <= i < |rows| && rows[i].diasporaRegion == s {
        assert regions[i] == s;
      }
    }
  }

  /** The regions after "All" appear once each, in increasing string order. */
  lemma RegionOptionsOrder(rows: seq<Row>)
    ensures NoDuplicates(RegionChoices(rows))
    ensures forall i, j :: 0 <= i < j < |RegionChoices(rows)| ==>
      StringLe(RegionChoices(rows)[i], RegionChoices(rows)[j])
  {
    var kept := Filter(Distinct(Map(rows, RegionOf)), IsRegion);
    FilterNoDuplicates(Distinct(Map(rows, RegionOf)), IsRegion);
    NoDuplicatesPermutation(kept, RegionChoices(rows));
    ByStringIsPreorder();
    SortBySorted(kept, ByString());
  }

  // ---------------------------------------------------------------------
  // Counting per département

  function InDepartment(code: int): Row -> bool {
    (r: Row) => r.birthDepartment == Some(code)
  }

  /** `len(filtered_df[filtered_df['birth_department'] == code])`. */
  function CountIn(rows: seq<Row>, code: int): nat {
    Count(rows, InDepartment(code))
  }

  /** Once a département is chosen, every other département counts zero. */
  lemma OtherDepartmentsEmpty(rows: seq<Row>, f: Filters, code: int)
    requires f.department.Some? && code != f.department.value
    ensures CountIn(Filtered(rows, f), code) == 0
  {
    FilteredSpec(rows, f);
    FilterNone(Filtered(rows, f), InDepartment(code));
  }

  /** A département the map iterates: the text of its key, the code the
      rows are compared with, and the name shown. */
  datatype Place = Place(key: string, code: int, name: string)

  /** One marker of the map (its coordinates are left out). */
  datatype MapPoint = MapPoint(department: string, name: string, count: nat)

  function PointOf(rows: seq<Row>): Place -> MapPoint {
    (p: Place) => MapPoint(p.key, p.name, CountIn(rows, p.code))
  }

  predicate HasPlayers(m: MapPoint) {
    m.count > 0
  }

  /** The markers: one per place, in the places' order, kept only when
      some row is in that département. */
  function MapPoints(rows: seq<Row>, places: seq<Place>): seq<MapPoint> {
    Filter(Map(places, PointOf(rows)), HasPlayers)
  }

  /** The loop that fills `map_data`. */
  method BuildMapData(rows: seq<Row>, places: seq<Place>) returns (points: seq<MapPoint>)
    ensures points == MapPoints(rows, places)
  {
    points := [];
    var i := 0;
    while i < |places|
      invariant i <= |places|
      invariant points == Filter(Map(places[..i], PointOf(rows)), HasPlayers)
    {
      var place := places[i];
      var count := |Filter(rows, InDepartment(place.code))|;
      PrefixSnoc(places, i);
      MapSnoc(places[..i], place, PointOf(rows));
      FilterSnoc(Map(places[..i], PointOf(rows)), PointOf(rows)(place), HasPlayers);
      if count > 0 {
        points := points + [MapPoint(place.key, place.name, count)];
      }
      i := i + 1;
    }
    assert places[..i] == places;
  }

  /** Each marker is a place of the table with its count, which is
      positive; every place with a positive count has its marker; and the
      markers keep the places' order. */
  lemma MapPointsSpec(rows: seq<Row>, places: seq<Place>)
    ensures forall m :: m in MapPoints(rows, places) ==>
      m.count > 0 && exists i :: 0 <= i < |places| && m == MapPoint(places[i].key, places[i].name, CountIn(rows, places[i].code))
    ensures forall i :: 0 <= i < |places| && CountIn(rows, places[i].code) > 0 ==>
      MapPoint(places[i].key, places[i].name, CountIn(rows, places[i].code)) in MapPoints(rows, places)
    ensures IsSubsequence(MapPoints(rows, places), Map(places, PointOf(rows)))
  {
    var all := Map(places, PointOf(rows));
    FilterSpec(all, HasPlayers);
    forall m | m in MapPoints(rows, places)
      ensures exists i :: 0 <= i < |places| && m == MapPoint(places[i].key, places[i].name, CountIn(rows, places[i].code))
    {
      var i :| 0 <= i < |all| && all[i] == m;
    }
    forall i | 0 <= i < |places| && CountIn(rows, places[i].code) > 0
      ensures MapPoint(places[i].key, places[i].name, CountIn(rows, places[i].code)) in MapPoints(rows, places)
    {
      assert all[i] == MapPoint(places[i].key, places[i].name, CountIn(rows, places[i].code));
    }
  }

  // ---------------------------------------------------------------------
  // Metrics and the origin-country chart

  /** `filtered_df['is_dual_national'].sum()`. */
  function DualCount(rows: seq<Row>): nat {
    Count(rows, (r: Row) => r.isDualNational)
  }

  /** Under the nationality radio button, the dual-national count is the
      whole page or nothing. */
  lemma DualCountUnderChoice(rows: seq<Row>, f: Filters)
    ensures f.nationality == DualOnly ==> DualCount(Filtered(rows, f)) == |Filtered(rows, f)|
    ensures f.nationality == SingleOnly ==> DualCount(Filtered(rows, f)) == 0
    ensures DualCount(Filtered(rows, f)) <= |Filtered(rows, f)|
  {
    var shown := Filtered(rows, f);
    FilteredSpec(rows, f);
    if f.nationality == DualOnly {
      FilterAll(shown, (r: Row) => r.isDualNational);
    } else if f.nationality == SingleOnly {
      FilterNone(shown, (r: Row) => r.isDualNational);
    }
  }

  function CountriesOf(r: Row): seq<string> {
    r.diasporaCountries
  }

  /** The loop that fills `all_countries`: every row's diaspora countries,
      one `extend` per row. */
  method AllCountries(rows: seq<Row>) returns (all: seq<string>)
    ensures all == FlatMap(rows, CountriesOf)
  {
    all := [];
    var i := 0;
    while i < |rows|
      invariant i <= |rows|
      invariant all == FlatMap(rows[..i], CountriesOf)
    {
      PrefixSnoc(rows, i);
      FlatMapSnoc(rows[..i], rows[i], CountriesOf);
      all := all + rows[i].diasporaCountries;
      i := i + 1;
    }
    assert rows[..i] == rows;
  }

  /** `pd.Series(all_countries).value_counts().head(10)`. */
  function TopCountries(rows: seq<Row>): Counter<string> {
    MostCommon(Tally(FlatMap(rows, CountriesOf)), 10)
  }

  /** The ten most common diaspora countries of the shown rows, most
      common first, ties in order of first appearance; each is a diaspora
      country of some shown row. */
  lemma TopCountriesSpec(rows: seq<Row>)
    ensures IsMostCommon(TopCountries(rows), FlatMap(rows, CountriesOf), 10)
    ensures forall i :: 0 <= i < |TopCountries(rows)| ==>
      exists k :: 0 <= k < |rows| && TopCountries(rows)[i].0 in rows[k].diasporaCountries
  {
    var all := FlatMap(rows, CountriesOf);
    MostCommonSpec(all, 10);
    forall i | 0 <= i < |TopCountries(rows)|
      ensures exists k :: 0 <= k < |rows| && TopCountries(rows)[i].0 in rows[k].diasporaCountries
    {
      FlatMapMember(rows, CountriesOf, TopCountries(rows)[i].0);
    }
  }
}
