/** The dashboard published next to the dataset: its table of
    départements, the "d - Name" labels and the options read back to a
    code, the loading of the published table, the bar chart and the map of
    players per département, and the African-diaspora metric. */
module SpaceApp {
  import opened Wrappers
  import opened Seqs
  import opened Text
  import Numerals
  import opened Dashboard

  /** `DEPARTMENTS`: code and name, in definition order (the coordinates
      are left out). */
  const Departments: seq<(int, string)> := [
    (75, "Paris"), (77, "Seine-et-Marne"), (78, "Yvelines"), (91, "Essonne"),
    (92, "Hauts-de-Seine"), (93, "Seine-Saint-Denis"), (94, "Val-de-Marne"), (95, "Val-d'Oise")
  ]

  function CodeOf(e: (int, string)): int {
    e.0
  }

  /** `DEPARTMENTS.keys()`, in definition order. */
  function Codes(): seq<int> {
    Map(Departments, CodeOf)
  }

  lemma DepartmentsWellFormed()
    ensures forall i, j :: 0 <= i < j < |Departments| ==> Departments[i].0 < Departments[j].0
    ensures forall i :: 0 <= i < |Departments| ==> Departments[i].1 != ""
  {
  }

  // ---------------------------------------------------------------------
  // Labels and options

  /** `DEPARTMENTS.get(d, {}).get("name", "")`. */
  function NameOf(d: int): string {
    Lookup(Departments, d, "")
  }

  /** `get_dept_label(d)`. */
  function DeptLabel(d: int): string {
    var name := NameOf(d);
    if name != "" then Numerals.IntToString(d) + " - " + name else Numerals.IntToString(d)
  }

  /** A known code is labelled "d - Name" with its own name; any other
      code is labelled `str(d)`. */
  lemma DeptLabelSpec(d: int)
    ensures forall i :: 0 <= i < |Departments| && Departments[i].0 == d ==>
      DeptLabel(d) == Numerals.IntToString(d) + " - " + Departments[i].1
    ensures (forall i :: 0 <= i < |Departments| ==> Departments[i].0 != d) ==>
      DeptLabel(d) == Numerals.IntToString(d)
  {
    DepartmentsWellFormed();
    forall i | 0 <= i < |Departments| && Departments[i].0 == d
      ensures DeptLabel(d) == Numerals.IntToString(d) + " - " + Departments[i].1
    {
      LookupFirst(Departments, d, "", i);
    }
    if forall i :: 0 <= i < |Departments| ==> Departments[i].0 != d {
      LookupAbsent(Departments, d, "");
    }
  }

  /** `sorted(DEPARTMENTS.keys())`. */
  function SortedCodes(): seq<int> {
    SortBy(Codes(), ByInt())
  }

  /** The department select box: "All", then one label per code in
      increasing order. */
  function DeptOptions(): seq<string> {
    ["All"] + Map(SortedCodes(), DeptLabel)
  }

  /** The chosen option read back: "All", or `int` of the text before the
      first " - ", which raises on text that is not an integer. */
  function SelectedDepartment(display: string): Result<Option<int>> {
    if display == "All" then Success(None)
    else match Numerals.ParseInt(BeforeFirstText(display, " - "))
      case Some(d) => Success(Some(d))
      case None => Failure(ValueError("invalid literal for int() with base 10"))
  }

  /** Reading back the label of any code gives that code. */
  lemma LabelRoundTrip(d: int)
    ensures SelectedDepartment(DeptLabel(d)) == Success(Some(d))
  {
    CodeBeforeSeparator(d, NameOf(d));
    Numerals.ParseIntOfIntToString(d);
  }

  /** Every option after "All" of a list of labels reads back to its code. */
  lemma {:induction false} LabelsRoundTrip(codes: seq<int>)
    ensures forall i :: 0 < i < |["All"] + Map(codes, DeptLabel)| ==>
      SelectedDepartment((["All"] + Map(codes, DeptLabel))[i]) == Success(Some(codes[i - 1]))
  {
    forall i | 0 < i < |["All"] + Map(codes, DeptLabel)|
      ensures SelectedDepartment((["All"] + Map(codes, DeptLabel))[i]) == Success(Some(codes[i - 1]))
    {
      LabelRoundTrip(codes[i - 1]);
    }
  }

  /** The codes of `DEPARTMENTS` are already in increasing order. */
  lemma SortedCodesInOrder()
    ensures SortedCodes() == Codes()
  {
    DepartmentsWellFormed();
    assert SortedBy(Codes(), ByInt());
    SortByOfSorted(Codes(), ByInt());
  }

  /** The options list "All" and then the départements in definition
      order, and every option other than "All" reads back to its own code. */
  lemma OptionsRoundTrip()
    ensures |DeptOptions()| == |Codes()| + 1 && DeptOptions()[0] == "All"
    ensures forall i :: 0 < i < |DeptOptions()| ==>
      SelectedDepartment(DeptOptions()[i]) == Success(Some(Codes()[i - 1]))
  {
    SortedCodesInOrder();
    LabelsRoundTrip(Codes());
  }

  // ---------------------------------------------------------------------
  // Loading the published table

  /** A row as published, before loading: any field may be missing, and
      the département is text. */
  datatype RawRow = RawRow(
    name: string,
    birthYear: Option<int>,
    birthCity: Option<string>,
    birthDepartment: Option<string>,
    diasporaRegion: Option<string>,
    isDualNational: bool,
    nationalities: Option<seq<string>>,
    diasporaCountries: Option<seq<string>>)

  predicate HasDepartment(r: RawRow) {
    r.birthDepartment.Some?
  }

  /** `parse_list_field` on a missing value (an empty list) or a list
      (itself). */
  function ListField(x: Option<seq<string>>): seq<string> {
    x.GetOr([])
  }

  /** A kept row once its département is the integer `code` and the
      missing region and city are filled in. */
  function LoadedRow(r: RawRow, code: int): Row {
    Row(r.name, r.birthYear, r.birthCity.GetOr("Unknown"), Some(code),
        r.diasporaRegion.GetOr(NoRegion), r.isDualNational,
        ListField(r.nationalities), ListField(r.diasporaCountries))
  }

  /** Python's `int` on text, None when it raises. */
  type IntParser = string -> Option<int>

  /** The département of a kept row as an integer, by `toInt`. */
  function DepartmentCode(r: RawRow, toInt: IntParser): Option<int> {
    toInt(r.birthDepartment.GetOr(""))
  }

  function Loaded(toInt: IntParser): RawRow -> Row {
    (r: RawRow) => LoadedRow(r, DepartmentCode(r, toInt).GetOr(0))
  }

  /** Drop the rows without a département, convert it with `toInt` (which
      raises when one of them is not an integer), then fill the missing
      region and city. */
  function LoadWith(raw: seq<RawRow>, toInt: IntParser): Result<seq<Row>> {
    var kept := Filter(raw, HasDepartment);
    if forall r :: r in kept ==> DepartmentCode(r, toInt).Some? then
      Success(Map(kept, Loaded(toInt)))
    else
      Failure(ValueError("invalid literal for int() with base 10"))
  }

  /** `load_data` after the download, with Python's `int`. */
  function LoadRows(raw: seq<RawRow>): Result<seq<Row>> {
    LoadWith(raw, Numerals.ParseInt)
  }

  /** Loading fails exactly when a present département is not an integer. */
  lemma LoadFails(raw: seq<RawRow>, toInt: IntParser)
    ensures LoadWith(raw, toInt).Success? <==>
      forall i :: 0 <= i < |raw| && HasDepartment(raw[i]) ==> toInt(raw[i].birthDepartment.value).Some?
  {
    FilterSpec(raw, HasDepartment);
    assert (forall i :: 0 <= i < |raw| && HasDepartment(raw[i]) ==> DepartmentCode(raw[i], toInt).Some?) <==>
      (forall r :: r in raw && HasDepartment(r) ==> DepartmentCode(r, toInt).Some?);
  }

  /** A successful load keeps, in order, exactly the rows that have a
      département, each with its code, the region filled with 'None' and
      the city with "Unknown" when missing. */
  lemma LoadKeeps(raw: seq<RawRow>, toInt: IntParser)
    requires LoadWith(raw, toInt).Success?
    ensures var kept := Filter(raw, HasDepartment);
      && |LoadWith(raw, toInt).value| == Count(raw, HasDepartment)
      && forall i :: 0 <= i < |kept| ==>
           && LoadWith(raw, toInt).value[i].birthDepartment == toInt(kept[i].birthDepartment.value)
           && LoadWith(raw, toInt).value[i].diasporaRegion == kept[i].diasporaRegion.GetOr(NoRegion)
           && LoadWith(raw, toInt).value[i].birthCity == kept[i].birthCity.GetOr("Unknown")
    ensures forall r :: r in Filter(raw, HasDepartment) <==> r in raw && r.birthDepartment.Some?
    ensures IsSubsequence(Filter(raw, HasDepartment), raw)
  {
    FilterSpec(raw, HasDepartment);
  }

  /** The same two facts for the loader with Python's `int`. */
  lemma LoadRowsSpec(raw: seq<RawRow>)
    ensures LoadRows(raw).Success? <==>
      forall i :: 0 <= i < |raw| && HasDepartment(raw[i]) ==> Numerals.ParseInt(raw[i].birthDepartment.value).Some?
    ensures LoadRows(raw).Success? ==>
      var kept := Filter(raw, HasDepartment);
      && |LoadRows(raw).value| == Count(raw, HasDepartment)
      && forall i :: 0 <= i < |kept| ==>
           && LoadRows(raw).value[i].birthDepartment == Numerals.ParseInt(kept[i].birthDepartment.value)
           && LoadRows(raw).value[i].diasporaRegion == kept[i].diasporaRegion.GetOr(NoRegion)
  {
    LoadFails(raw, Numerals.ParseInt);
    if LoadRows(raw).Success? {
      LoadKeeps(raw, Numerals.ParseInt);
    }
  }

  // ---------------------------------------------------------------------
  // The bar chart and the map

  /** One entry of `dept_data`. */
  datatype Bar = Bar(code: int, text: string, count: nat)

  function BarOf(rows: seq<Row>): int -> Bar {
    (c: int) => Bar(c, DeptLabel(c), CountIn(rows, c))
  }

  /** The loop that fills `dept_data`: one entry per code of
      `DEPARTMENTS`, in definition order. */
  method DepartmentData(rows: seq<Row>) returns (data: seq<Bar>)
    ensures data == Map(Codes(), BarOf(rows))
  {
    var codes := Codes();
    data := [];
    var i := 0;
    while i < |codes|
      invariant i <= |codes|
      invariant data == Map(codes[..i], BarOf(rows))
    {
      var code := codes[i];
      var count := |Filter(rows, InDepartment(code))|;
      PrefixSnoc(codes, i);
      MapSnoc(codes[..i], code, BarOf(rows));
      data := data + [Bar(code, DeptLabel(code), count)];
      i := i + 1;
    }
    assert codes[..i] == codes;
  }

  predicate HasCount(b: Bar) {
    b.count > 0
  }

  function ByCountAscending(): (Bar, Bar) -> bool {
    (a: Bar, b: Bar) => a.count <= b.count
  }

  /** `dept_df[dept_df['count'] > 0].sort_values('count', ascending=True)`. */
  function DepartmentChart(data: seq<Bar>): seq<Bar> {
    SortBy(Filter(data, HasCount), ByCountAscending())
  }

  /** Each bar is a listed code with its label and its number of rows,
      which is positive, and every listed code with rows has its bar. */
  lemma DepartmentChartMembers(rows: seq<Row>, codes: seq<int>)
    ensures forall b :: b in DepartmentChart(Map(codes, BarOf(rows))) ==>
      && b.code in codes && b.count > 0
      && b.text == DeptLabel(b.code) && b.count == CountIn(rows, b.code)
    ensures forall c :: c in codes && CountIn(rows, c) > 0 ==>
      Bar(c, DeptLabel(c), CountIn(rows, c)) in DepartmentChart(Map(codes, BarOf(rows)))
  {
    var data := Map(codes, BarOf(rows));
    var kept := Filter(data, HasCount);
    var chart := DepartmentChart(data);
    FilterSpec(data, HasCount);
    forall b ensures b in chart <==> b in kept {
      assert b in chart <==> b in multiset(chart);
    }
    forall b | b in data ensures b.code in codes && b == Bar(b.code, DeptLabel(b.code), CountIn(rows, b.code)) {
      var i :| 0 <= i < |data| && data[i] == b;
    }
    forall c | c in codes && CountIn(rows, c) > 0 ensures Bar(c, DeptLabel(c), CountIn(rows, c)) in data {
      var i :| 0 <= i < |codes| && codes[i] == c;
      assert data[i] == Bar(c, DeptLabel(c), CountIn(rows, c));
    }
  }

  /** The bars go from the smallest count to the largest. */
  lemma DepartmentChartOrder(data: seq<Bar>)
    ensures forall i, j :: 0 <= i < j < |DepartmentChart(data)| ==>
      DepartmentChart(data)[i].count <= DepartmentChart(data)[j].count
  {
    assert TotalPreorder(ByCountAscending());
    SortBySorted(Filter(data, HasCount), ByCountAscending());
  }

  function PlaceOf(e: (int, string)): Place {
    Place(Numerals.IntToString(e.0), e.0, Numerals.IntToString(e.0) + " - " + e.1)
  }

  /** What the map iterates: `DEPARTMENTS.items()`, each marker keyed by
      `str(code)` and named "code - Name". */
  function Places(): seq<Place> {
    Map(Departments, PlaceOf)
  }

  /** The map shows one marker per département of `DEPARTMENTS` that has
      rows, in definition order, keyed by `str(code)`, named "code - Name",
      with its number of rows. */
  lemma SpaceMapPoints(rows: seq<Row>)
    ensures forall m :: m in MapPoints(rows, Places()) ==>
      && m.count > 0
      && exists i :: 0 <= i < |Departments| &&
           m == MapPoint(Numerals.IntToString(Departments[i].0),
                         Numerals.IntToString(Departments[i].0) + " - " + Departments[i].1,
                         CountIn(rows, Departments[i].0))
    ensures forall i :: 0 <= i < |Departments| && CountIn(rows, Departments[i].0) > 0 ==>
      MapPoint(Numerals.IntToString(Departments[i].0),
               Numerals.IntToString(Departments[i].0) + " - " + Departments[i].1,
               CountIn(rows, Departments[i].0)) in MapPoints(rows, Places())
  {
    MapPointsSpec(rows, Places());
  }

  // ---------------------------------------------------------------------
  // The African-diaspora metric

  const AfricanRegions: seq<string> := ["Sub-Saharan Africa", "Maghreb", "Comoros"]

  predicate IsAfrican(r: Row) {
    r.diasporaRegion in AfricanRegions
  }

  /** `len(filtered_df[filtered_df['diaspora_region'].isin(african_regions)])`. */
  function AfricanCount(rows: seq<Row>): nat {
    Count(rows, IsAfrican)
  }

  /** Choosing one of the three African regions makes every shown row
      count; choosing any other region makes none count. */
  lemma AfricanCountUnderRegion(rows: seq<Row>, f: Filters)
    ensures f.region in AfricanRegions ==> AfricanCount(Filtered(rows, f)) == |Filtered(rows, f)|
    ensures f.region != "All" && f.region !in AfricanRegions ==> AfricanCount(Filtered(rows, f)) == 0
  {
    FilteredSpec(rows, f);
    if f.region in AfricanRegions {
      FilterAll(Filtered(rows, f), IsAfrican);
    } else if f.region != "All" {
      FilterNone(Filtered(rows, f), IsAfrican);
    }
  }
}
