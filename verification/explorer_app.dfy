/** The dashboard that reads the exported CSV: département options built
    from the table itself and read back at filtering time, the filter
    chain, the diaspora metric and the map of players per département. */
module ExplorerApp {
  import opened Wrappers
  import opened Seqs
  import opened Text
  import Numerals
  import opened Dashboard

  /** `DEPT_COORDS`: key text and name, in definition order (the
      coordinates are left out). */
  const DeptCoords: seq<(string, string)> := [
    ("75", "Paris"), ("77", "Seine-et-Marne"), ("78", "Yvelines"), ("91", "Essonne"),
    ("92", "Hauts-de-Seine"), ("93", "Seine-Saint-Denis"), ("94", "Val-de-Marne"), ("95", "Val-d'Oise")
  ]

  /** The codes the keys of `DEPT_COORDS` spell, in the same order. */
  const KeyCodes: seq<int> := [75, 77, 78, 91, 92, 93, 94, 95]

  /** `table`'s keys are the decimal texts of `codes`. */
  predicate DecimalKeys(table: seq<(string, string)>, codes: seq<int>) {
    && |table| == |codes|
    && (forall i :: 0 <= i < |table| ==> table[i].0 == Numerals.IntToString(codes[i]))
  }

  /** The key at position `i` of `DEPT_COORDS` is the decimal text of its code. */
  lemma KeyAt(i: nat)
    requires i < |KeyCodes|
    ensures i < |DeptCoords| && DeptCoords[i].0 == Numerals.IntToString(KeyCodes[i])
  {
    if i == 0 { assert Numerals.IntToString(75) == "75"; }
    else if i == 1 { assert Numerals.IntToString(77) == "77"; }
    else if i == 2 { assert Numerals.IntToString(78) == "78"; }
    else if i == 3 { assert Numerals.IntToString(91) == "91"; }
    else if i == 4 { assert Numerals.IntToString(92) == "92"; }
    else if i == 5 { assert Numerals.IntToString(93) == "93"; }
    else if i == 6 { assert Numerals.IntToString(94) == "94"; }
    else { assert Numerals.IntToString(95) == "95"; }
  }

  /** Each key of `DEPT_COORDS` is the decimal text of its code, and the
      codes are distinct. */
  lemma KeysAreDecimal()
    ensures DecimalKeys(DeptCoords, KeyCodes)
  {
    forall i | 0 <= i < |DeptCoords| ensures DeptCoords[i].0 == Numerals.IntToString(KeyCodes[i]) {
      KeyAt(i);
    }
  }

  lemma CodesDistinct()
    ensures NoDuplicates(KeyCodes)
  {
  }

  /** In a table keyed by decimal texts, the key `str(d)` is found exactly
      at the position of `d`. */
  lemma DecimalLookup(table: seq<(string, string)>, codes: seq<int>, d: int, default: string)
    requires DecimalKeys(table, codes) && NoDuplicates(codes)
    ensures forall i :: 0 <= i < |table| && codes[i] == d ==>
      Lookup(table, Numerals.IntToString(d), default) == table[i].1
    ensures (forall i :: 0 <= i < |codes| ==> codes[i] != d) ==>
      Lookup(table, Numerals.IntToString(d), default) == default
  {
    var key := Numerals.IntToString(d);
    Numerals.ParseIntOfIntToString(d);
    forall i | 0 <= i < |table| && table[i].0 == key ensures codes[i] == d {
      Numerals.ParseIntOfIntToString(codes[i]);
    }
    forall i | 0 <= i < |table| && codes[i] == d ensures Lookup(table, key, default) == table[i].1 {
      LookupFirst(table, key, default, i);
    }
    if forall i :: 0 <= i < |codes| ==> codes[i] != d {
      LookupAbsent(table, key, default);
    }
  }

  // ---------------------------------------------------------------------
  // Département options

  function DepartmentOf(r: Row): seq<int> {
    if r.birthDepartment.Some? then [r.birthDepartment.value] else []
  }

  /** `sorted(df['birth_department'].unique().tolist())`, over the rows
      that have a département. */
  function DepartmentList(rows: seq<Row>): seq<int> {
    SortBy(Distinct(FlatMap(rows, DepartmentOf)), ByInt())
  }

  /** `DEPT_COORDS.get(key, {}).get("name", key)`. */
  function CoordName(key: string): string {
    Lookup(DeptCoords, key, key)
  }

  /** The option of code `d`: `f"{d} - {dept_names.get(str(d), d)}"`.
      `dept_names` is built from the same list of codes, so the lookup
      always finds `str(d)`, whose name is the one in `DEPT_COORDS` or
      `str(d)` itself. */
  function OptionLabel(d: int): string {
    Numerals.IntToString(d) + " - " + CoordName(Numerals.IntToString(d))
  }

  function DeptOptions(rows: seq<Row>): seq<string> {
    ["All"] + Map(DepartmentList(rows), OptionLabel)
  }

  /** `selected_dept`: "All", or the text before the first " - ". */
  function SelectedText(display: string): string {
    if display == "All" then "All" else BeforeFirstText(display, " - ")
  }

  /** The département list holds each département of the table once, in
      increasing order. */
  lemma DepartmentListSpec(rows: seq<Row>)
    ensures forall d :: d in DepartmentList(rows) <==> exists i :: 0 <= i < |rows| && rows[i].birthDepartment == Some(d)
    ensures forall i, j :: 0 <= i < j < |DepartmentList(rows)| ==> DepartmentList(rows)[i] < DepartmentList(rows)[j]
  {
    var codes := FlatMap(rows, DepartmentOf);
    var list := DepartmentList(rows);
    forall d ensures d in codes <==> exists i :: 0 <= i < |rows| && rows[i].birthDepartment == Some(d) {
      if d in codes {
        FlatMapMember(rows, DepartmentOf, d);
      }
      if i :| 0 <= i < |rows| && rows[i].birthDepartment == Some(d) {
        FlatMapIncludes(rows, DepartmentOf, i, d);
      }
    }
    forall d ensures d in list <==> d in Distinct(codes) {
      assert d in list <==> d in multiset(list);
    }
    assert TotalPreorder(ByInt());
    SortBySorted(Distinct(codes), ByInt());
    NoDuplicatesPermutation(Distinct(codes), list);
  }

  /** A code with a key in `DEPT_COORDS` is shown with its name; any other
      code is shown as "d - d". */
  lemma OptionLabelSpec(d: int)
    ensures forall i :: 0 <= i < |DeptCoords| && KeyCodes[i] == d ==>
      OptionLabel(d) == Numerals.IntToString(d) + " - " + DeptCoords[i].1
    ensures (forall i :: 0 <= i < |KeyCodes| ==> KeyCodes[i] != d) ==>
      OptionLabel(d) == Numerals.IntToString(d) + " - " + Numerals.IntToString(d)
  {
    KeysAreDecimal();
    CodesDistinct();
    DecimalLookup(DeptCoords, KeyCodes, d, Numerals.IntToString(d));
  }

  /** Choosing `option` leaves a département text that `int` reads as `d`. */
  predicate ReadsBack(option: string, d: int) {
    SelectedText(option) != "All" && Numerals.ParseInt(SelectedText(option)) == Some(d)
  }

  /** Choosing the option of any code and taking `int` of the text before
      " - " gives the code back. */
  lemma OptionRoundTrip(d: int)
    ensures SelectedText(OptionLabel(d)) == Numerals.IntToString(d)
    ensures ReadsBack(OptionLabel(d), d)
  {
    CodeBeforeSeparator(d, CoordName(Numerals.IntToString(d)));
    Numerals.ParseIntOfIntToString(d);
  }

  lemma OptionAt(codes: seq<int>, i: nat)
    requires 0 < i <= |codes|
    ensures ReadsBack((["All"] + Map(codes, OptionLabel))[i], codes[i - 1])
  {
    assert (["All"] + Map(codes, OptionLabel))[i] == OptionLabel(codes[i - 1]);
    OptionRoundTrip(codes[i - 1]);
  }

  /** Every option after "All" reads back to its own code. */
  lemma OptionsRoundTrip(codes: seq<int>)
    ensures (["All"] + Map(codes, OptionLabel))[0] == "All"
    ensures forall i :: 0 < i < |["All"] + Map(codes, OptionLabel)| ==>
      ReadsBack((["All"] + Map(codes, OptionLabel))[i], codes[i - 1])
  {
    forall i | 0 < i < |["All"] + Map(codes, OptionLabel)|
      ensures ReadsBack((["All"] + Map(codes, OptionLabel))[i], codes[i - 1])
    {
      OptionAt(codes, i);
    }
  }

  // ---------------------------------------------------------------------
  // The filter chain

  /** The filters of the page, with `int(selected_dept)` taken when the
      département mask is applied, which raises on text that is not an
      integer. */
  method FilterRows(rows: seq<Row>, selected: string, region: string, yearFrom: int, yearTo: int, nationality: string)
    returns (result: Result<seq<Row>>)
    ensures result.Failure? <==> selected != "All" && Numerals.ParseInt(selected).None?
    ensures result.Success? ==>
      var department := if selected == "All" then None else Numerals.ParseInt(selected);
      result.value == Filtered(rows, Filters(department, region, yearFrom, yearTo, nationality))
  {
    var department: Option<int> := None;
    if selected != "All" {
      var code := Numerals.ParseInt(selected);
      if code.None? {
        return Failure(ValueError("invalid literal for int() with base 10"));
      }
      department := code;
    }
    var filtered := ApplyFilters(rows, Filters(department, region, yearFrom, yearTo, nationality));
    result := Success(filtered);
  }

  /** Choosing any option of the page never raises, and filters by the
      code the option was built from. */
  lemma ChosenOptionFilters(rows: seq<Row>, i: nat, region: string, yearFrom: int, yearTo: int, nationality: string)
    requires 0 < i < |DeptOptions(rows)|
    ensures ReadsBack(DeptOptions(rows)[i], DepartmentList(rows)[i - 1])
    ensures forall r :: r in Filtered(rows, Filters(Numerals.ParseInt(SelectedText(DeptOptions(rows)[i])), region, yearFrom, yearTo, nationality)) ==>
      r.birthDepartment == Some(DepartmentList(rows)[i - 1])
  {
    OptionsRoundTrip(DepartmentList(rows));
    FilteredSpec(rows, Filters(Numerals.ParseInt(SelectedText(DeptOptions(rows)[i])), region, yearFrom, yearTo, nationality));
  }

  // ---------------------------------------------------------------------
  // A département column read as floats

  /** `str(x)` of a whole number held as a float: its integer text and
      ".0". Python switches to exponent notation from 10^16 on, far beyond
      any département code. */
  function FloatText(d: int): (r: string)
    requires -10000000000000000 < d < 10000000000000000
    ensures |r| >= 3 && r[|r| - 2] == '.'
  {
    Numerals.IntToString(d) + ".0"
  }

  /** The option of code `d` once pandas has read the column as floats:
      `str(d)` is "d.0", which is no key of `DEPT_COORDS`. */
  function FloatOptionLabel(d: int): string
    requires -10000000000000000 < d < 10000000000000000
  {
    FloatText(d) + " - " + CoordName(FloatText(d))
  }

  /** `int` raises on any text whose last-but-one character is a '.'. */
  lemma ParseIntOfDecimalPoint(s: string)
    requires |s| >= 3 && s[|s| - 2] == '.'
    requires forall k :: 0 <= k < |s| ==> !IsSpace(s[k])
    ensures Numerals.ParseInt(s).None?
  {
    Numerals.ParseIntOfNoSpace(s);
    var signed := s[0] == '-' || s[0] == '+';
    var body := if signed then s[1..] else s;
    assert |body| >= 2 && body[|body| - 2] == '.';
    assert !Numerals.IsDigitBody(body);
  }

  /** "d.0" holds only digits, a sign and the point. */
  lemma FloatTextChars(d: int)
    requires -10000000000000000 < d < 10000000000000000
    ensures forall k :: 0 <= k < |FloatText(d)| ==>
      Numerals.IsDigit(FloatText(d)[k]) || FloatText(d)[k] == '-' || FloatText(d)[k] == '.'
  {
    var n := Numerals.IntToString(d);
    assert forall k :: 0 <= k < |n| ==> FloatText(d)[k] == n[k];
  }

  /** "d.0" is no key of `DEPT_COORDS`, so its name is itself. */
  lemma FloatTextName(d: int)
    requires -10000000000000000 < d < 10000000000000000
    ensures CoordName(FloatText(d)) == FloatText(d)
  {
    var t := FloatText(d);
    forall i | 0 <= i < |DeptCoords| ensures DeptCoords[i].0 != t {
      assert |DeptCoords[i].0| == 2 && DeptCoords[i].0[0] != '.';
    }
    LookupAbsent(DeptCoords, t, t);
  }

  /** "d.0" holds no whitespace. */
  lemma FloatTextNoSpace(d: int)
    requires -10000000000000000 < d < 10000000000000000
    ensures forall k :: 0 <= k < |FloatText(d)| ==> !IsSpace(FloatText(d)[k])
    ensures ' ' !in FloatText(d)
  {
    FloatTextChars(d);
  }

  /** The text before " - " of a float option is "d.0". */
  lemma FloatOptionSelected(d: int)
    requires -10000000000000000 < d < 10000000000000000
    ensures SelectedText(FloatOptionLabel(d)) == FloatText(d)
  {
    var t := FloatText(d);
    var option := FloatOptionLabel(d);
    FloatTextName(d);
    FloatTextNoSpace(d);
    assert option == t + " - " + t;
    BeforeFirstTextOfJoin(t, " - ", t);
    assert option[0] == t[0] != 'A';
  }

  /** With the column read as floats every département option is
      "d.0 - d.0", and choosing it raises: the text before " - " is "d.0",
      which `int` refuses. */
  lemma FloatOptionRaises(d: int)
    requires -10000000000000000 < d < 10000000000000000
    ensures FloatOptionLabel(d) == FloatText(d) + " - " + FloatText(d)
    ensures SelectedText(FloatOptionLabel(d)) == FloatText(d)
    ensures Numerals.ParseInt(SelectedText(FloatOptionLabel(d))).None?
  {
    FloatTextName(d);
    FloatOptionSelected(d);
    FloatTextNoSpace(d);
    ParseIntOfDecimalPoint(FloatText(d));
  }

  // ---------------------------------------------------------------------
  // The diaspora metric

  predicate HasRegion(r: Row) {
    r.diasporaRegion != NoRegion
  }

  predicate LacksRegion(r: Row) {
    r.diasporaRegion == NoRegion
  }

  /** `len(filtered_df[filtered_df['diaspora_region'] != 'None'])`. */
  function DiasporaCount(rows: seq<Row>): nat {
    Count(rows, HasRegion)
  }

  /** The count and the rows without a region make up all shown rows; and
      once a region is chosen, every shown row counts. */
  lemma DiasporaCountSpec(rows: seq<Row>, f: Filters)
    ensures DiasporaCount(rows) + Count(rows, LacksRegion) == |rows|
    ensures f.region != "All" && f.region != NoRegion ==> DiasporaCount(Filtered(rows, f)) == |Filtered(rows, f)|
  {
    FilterComplement(rows, HasRegion, LacksRegion);
    if f.region != "All" && f.region != NoRegion {
      FilteredSpec(rows, f);
      FilterAll(Filtered(rows, f), HasRegion);
    }
  }

  // ---------------------------------------------------------------------
  // The map

  /** `int(dept)` of a key of `DEPT_COORDS`. */
  function KeyCode(key: string): int {
    Numerals.ParseInt(key).GetOr(0)
  }

  function PlaceOf(e: (string, string)): Place {
    Place(e.0, KeyCode(e.0), e.1)
  }

  /** What the map iterates: `DEPT_COORDS.items()`, each marker keyed by
      the key and named by the bare name. */
  function Places(): seq<Place> {
    Map(DeptCoords, PlaceOf)
  }

  /** Every key of a decimal-keyed table reads as its code. */
  lemma DecimalPlaces(table: seq<(string, string)>, codes: seq<int>)
    requires DecimalKeys(table, codes)
    ensures forall i :: 0 <= i < |table| ==>
      Numerals.ParseInt(table[i].0) == Some(codes[i]) && Map(table, PlaceOf)[i] == Place(table[i].0, codes[i], table[i].1)
  {
    forall i | 0 <= i < |table|
      ensures Numerals.ParseInt(table[i].0) == Some(codes[i]) && Map(table, PlaceOf)[i] == Place(table[i].0, codes[i], table[i].1)
    {
      Numerals.ParseIntOfIntToString(codes[i]);
    }
  }

  /** The markers of a decimal-keyed table: one per key whose code has
      rows, in table order, with the name and the number of rows. */
  lemma DecimalMapPoints(rows: seq<Row>, table: seq<(string, string)>, codes: seq<int>)
    requires DecimalKeys(table, codes)
    ensures forall m :: m in MapPoints(rows, Map(table, PlaceOf)) ==>
      && m.count > 0
      && exists i :: 0 <= i < |table| && m == MapPoint(table[i].0, table[i].1, CountIn(rows, codes[i]))
    ensures forall i :: 0 <= i < |table| && CountIn(rows, codes[i]) > 0 ==>
      MapPoint(table[i].0, table[i].1, CountIn(rows, codes[i])) in MapPoints(rows, Map(table, PlaceOf))
  {
    DecimalPlaces(table, codes);
    MapPointsSpec(rows, Map(table, PlaceOf));
  }

  /** Every key of `DEPT_COORDS` reads as its code, so `int(dept)` never
      raises, and the map shows one marker per key whose code has rows, in
      definition order, with the bare name and the number of rows. */
  lemma ExplorerMapPoints(rows: seq<Row>)
    ensures forall i :: 0 <= i < |DeptCoords| ==> Numerals.ParseInt(DeptCoords[i].0) == Some(KeyCodes[i])
    ensures forall m :: m in MapPoints(rows, Places()) ==>
      && m.count > 0
      && exists i :: 0 <= i < |DeptCoords| && m == MapPoint(DeptCoords[i].0, DeptCoords[i].1, CountIn(rows, KeyCodes[i]))
    ensures forall i :: 0 <= i < |DeptCoords| && CountIn(rows, KeyCodes[i]) > 0 ==>
      MapPoint(DeptCoords[i].0, DeptCoords[i].1, CountIn(rows, KeyCodes[i])) in MapPoints(rows, Places())
  {
    KeysAreDecimal();
    DecimalPlaces(DeptCoords, KeyCodes);
    DecimalMapPoints(rows, DeptCoords, KeyCodes);
  }
}
