/** The statistics page written for the article: a title, the headline
    numbers, then four tables (diaspora regions, top countries,
    départements, five-year periods) and the list of limitations. Each
    line is kept as the values it shows; a percentage is kept as the count
    and the total it is computed from. */
module Report {
  import opened Wrappers
  import opened Seqs
  import opened Counters
  import opened Analysis

  datatype Line =
    | Title
    | Generated(date: string)
    | Heading(title: string)
    | PlayerTotal(players: nat)
    /** A percentage line: `round(100 * count / total, 1)`. */
    | Share(what: string, count: nat, total: nat)
    /** A table's header row followed by its separator row. */
    | TableHeader(columns: seq<string>)
    | RegionRow(region: string, count: nat, total: nat)
    | CountryRow(country: string, count: nat)
    | DepartmentRow(name: string, code: string, count: nat)
    | MissingRow(name: string, code: string)
    | PeriodRow(first: int, last: int, count: nat)
    | Limitation(text: string)

  /** The limitations recorded in the metadata of the results. */
  const Limitations: seq<string> := [
    "Missing Seine-Saint-Denis (93) - rate limited",
    "Missing Val-d'Oise (95) - rate limited",
    "Only includes players with Wikidata entries",
    "Birthplace != where player was raised/trained"
  ]

  // ---------------------------------------------------------------------
  // The page, section by section

  function Headline(s: Summary, date: string): seq<Line> {
    [ Title, Generated(date), Heading("Headline Numbers"), PlayerTotal(s.totalPlayers),
      Share("dual nationals", s.dualNationals, s.totalPlayers),
      Share("African diaspora background", s.totalDiaspora, s.totalPlayers) ]
  }

  function RegionRowOf(total: nat): ((string, nat)) -> Line {
    (e: (string, nat)) => RegionRow(e.0, e.1, total)
  }

  /** One row per region, largest count first. */
  function RegionRows(s: Summary): seq<Line> {
    Map(SortByCountDesc(s.byRegion), RegionRowOf(s.totalPlayers))
  }

  function CountryRowOf(e: (string, nat)): Line {
    CountryRow(e.0, e.1)
  }

  /** The first ten countries of the top-country counter, in its order. */
  function CountryRows(s: Summary): seq<Line> {
    Map(Take(s.byCountry, 10), CountryRowOf)
  }

  function DepartmentRowOf(e: DepartmentEntry): Line {
    DepartmentRow(e.name, e.code, e.count)
  }

  /** The two rows written for the départements that were never collected. */
  const MissingRows: seq<Line> :=
    [MissingRow("Seine-Saint-Denis", "93"), MissingRow("Val-d'Oise", "95")]

  /** One row per resolved département, in the order of the results, then
      the two missing ones. */
  function DepartmentRows(s: Summary): seq<Line> {
    Map(s.byDepartment, DepartmentRowOf) + MissingRows
  }

  function PeriodRowOf(e: (int, nat)): Line {
    PeriodRow(e.0, e.0 + 4, e.1)
  }

  /** The period and count a period row shows. */
  function PeriodShown(l: Line): (int, nat) {
    if l.PeriodRow? then (l.first, l.count) else (0, 0)
  }

  /** One row per five-year period, in increasing order. */
  function PeriodRows(s: Summary): seq<Line> {
    Map(SortBy(s.by5Year, ByItem()), PeriodRowOf)
  }

  function LimitationOf(text: string): Line {
    Limitation(text)
  }

  function LimitationRows(limitations: seq<string>): seq<Line> {
    Map(limitations, LimitationOf)
  }

  /** The whole page, for the analysis date `date`. */
  function ArticleLines(s: Summary, date: string, limitations: seq<string>): seq<Line> {
    Headline(s, date)
    + [Heading("Diaspora Breakdown"), TableHeader(["Region", "Players", "% of Total"])]
    + RegionRows(s)
    + [Heading("Top Countries (besides France)"), TableHeader(["Country", "Players"])]
    + CountryRows(s)
    + [Heading("By Département"), TableHeader(["Département", "Players"])]
    + DepartmentRows(s)
    + [Heading("Birth Year Trends"), TableHeader(["Period", "Players"])]
    + PeriodRows(s)
    + [Heading("Limitations")]
    + LimitationRows(limitations)
  }

  // ---------------------------------------------------------------------
  // Writing the page line by line

  /** Appends `f(x)` for each `x` of `xs` to `output`. */
  method AppendEach<T>(output: seq<Line>, xs: seq<T>, f: T -> Line) returns (r: seq<Line>)
    ensures r == output + Map(xs, f)
  {
    r := output;
    var i := 0;
    while i < |xs|
      invariant i <= |xs|
      invariant r == output + Map(xs[..i], f)
    {
      PrefixSnoc(xs, i);
      MapSnoc(xs[..i], xs[i], f);
      r := r + [f(xs[i])];
      i := i + 1;
    }
    assert xs[..i] == xs;
  }

  method GenerateArticleStats(s: Summary, date: string, limitations: seq<string>) returns (output: seq<Line>)
    ensures output == ArticleLines(s, date, limitations)
  {
    output := [Title, Generated(date)];
    output := output + [Heading("Headline Numbers"), PlayerTotal(s.totalPlayers)];
    output := output + [Share("dual nationals", s.dualNationals, s.totalPlayers)];
    output := output + [Share("African diaspora background", s.totalDiaspora, s.totalPlayers)];
    assert output == Headline(s, date);

    output := output + [Heading("Diaspora Breakdown"), TableHeader(["Region", "Players", "% of Total"])];
    output := AppendEach(output, SortByCountDesc(s.byRegion), RegionRowOf(s.totalPlayers));

    output := output + [Heading("Top Countries (besides France)"), TableHeader(["Country", "Players"])];
    output := AppendEach(output, Take(s.byCountry, 10), CountryRowOf);
    ghost var countries := output;

    output := output + [Heading("By Département"), TableHeader(["Département", "Players"])];
    output := AppendEach(output, s.byDepartment, DepartmentRowOf);
    output := output + MissingRows;
    assert output == countries
      + [Heading("By Département"), TableHeader(["Département", "Players"])]
      + DepartmentRows(s);

    output := output + [Heading("Birth Year Trends"), TableHeader(["Period", "Players"])];
    output := AppendEach(output, SortBy(s.by5Year, ByItem()), PeriodRowOf);

    output := output + [Heading("Limitations")];
    output := AppendEach(output, limitations, LimitationOf);
  }

  // ---------------------------------------------------------------------
  // Properties

  /** The region table lists every region once with its count, largest
      count first, and takes the percentage over all players. */
  lemma RegionRowsSpec(s: Summary)
    ensures |RegionRows(s)| == |s.byRegion|
    ensures forall i :: 0 <= i < |RegionRows(s)| ==>
      RegionRows(s)[i].RegionRow? && RegionRows(s)[i].total == s.totalPlayers &&
      (RegionRows(s)[i].region, RegionRows(s)[i].count) in s.byRegion
    ensures forall e :: e in s.byRegion ==> RegionRow(e.0, e.1, s.totalPlayers) in RegionRows(s)
    ensures forall i, j :: 0 <= i < j < |RegionRows(s)| ==> RegionRows(s)[i].count >= RegionRows(s)[j].count
  {
    var sorted := SortByCountDesc(s.byRegion);
    SortByCountDescSpec(s.byRegion);
    forall i | 0 <= i < |sorted| ensures sorted[i] in s.byRegion {
      assert sorted[i] in multiset(s.byRegion);
    }
    forall e | e in s.byRegion ensures RegionRow(e.0, e.1, s.totalPlayers) in RegionRows(s) {
      assert e in multiset(sorted);
      var i :| 0 <= i < |sorted| && sorted[i] == e;
      assert RegionRows(s)[i] == RegionRow(e.0, e.1, s.totalPlayers);
    }
  }

  /** The country table holds the first ten entries of the top countries,
      or all of them when there are fewer. */
  lemma CountryRowsSpec(s: Summary)
    ensures |CountryRows(s)| == if |s.byCountry| < 10 then |s.byCountry| else 10
    ensures forall i :: 0 <= i < |CountryRows(s)| ==>
      CountryRows(s)[i] == CountryRow(s.byCountry[i].0, s.byCountry[i].1)
  {
  }

  /** The département table follows the results' order and always ends
      with the two missing départements, named as the results name them. */
  lemma DepartmentRowsSpec(s: Summary)
    ensures |DepartmentRows(s)| == |s.byDepartment| + 2
    ensures forall i :: 0 <= i < |s.byDepartment| ==>
      DepartmentRows(s)[i].DepartmentRow? &&
      DepartmentRows(s)[i].code == s.byDepartment[i].code &&
      DepartmentRows(s)[i].count == s.byDepartment[i].count
    ensures var n := |s.byDepartment|;
      && DepartmentRows(s)[n..] == MissingRows
      && forall k :: 0 <= k < 2 ==>
           DepartmentRows(s)[n + k].code == MissingDepartments[k] &&
           DepartmentRows(s)[n + k].name == DepartmentName(MissingDepartments[k])
  {
  }

  /** The period table is in increasing order of period, and each period
      spans five years. */
  lemma PeriodRowsSpec(s: Summary)
    ensures |PeriodRows(s)| == |s.by5Year|
    ensures forall i :: 0 <= i < |PeriodRows(s)| ==>
      PeriodRows(s)[i].PeriodRow? && PeriodRows(s)[i].last == PeriodRows(s)[i].first + 4
    ensures forall i, j :: 0 <= i < j < |PeriodRows(s)| ==> PeriodRows(s)[i].first <= PeriodRows(s)[j].first
    ensures multiset(Map(PeriodRows(s), PeriodShown)) == multiset(s.by5Year)
  {
    var sorted := SortBy(s.by5Year, ByItem());
    ByItemIsPreorder();
    SortBySorted(s.by5Year, ByItem());
    var back := Map(PeriodRows(s), PeriodShown);
    assert back == sorted;
  }

  /** For the results of an analysis, every period row starts on a
      multiple of five. */
  lemma PeriodRowsOfAnalysis(es: seq<EnrichedPlayer>)
    ensures var rows := PeriodRows(SummaryOf(TalliesOf(es), |es|));
      forall i :: 0 <= i < |rows| ==> rows[i].PeriodRow? && rows[i].first % 5 == 0
  {
    var s := SummaryOf(TalliesOf(es), |es|);
    TemporalSpec(es);
    PeriodRowsSpec(s);
    var sorted := SortBy(s.by5Year, ByItem());
    forall i | 0 <= i < |PeriodRows(s)| ensures PeriodRows(s)[i].first % 5 == 0 {
      assert sorted[i] in multiset(s.by5Year);
    }
  }
}
