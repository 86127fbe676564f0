/** The enrichment and summary step: one pass over the collected players
    that resolves each birthplace to a département, categorises the
    nationalities, reads the birth year, and accumulates the counters the
    published statistics are built from. */
module Analysis {
  import opened Wrappers
  import opened Seqs
  import opened Counters
  import opened Records
  import Numerals
  import Resolver
  import Diaspora

  // ---------------------------------------------------------------------
  // One player

  /** `player.get("date_of_birth", "")`; a JSON null reads as "". */
  function DateText(p: Player): string {
    match p.dateOfBirth
    case Some(d) => d
    case None => ""
  }

  /** `dob and len(dob) >= 4`. */
  predicate HasYearText(p: Player) {
    |DateText(p)| >= 4
  }

  /** `dob[:4]`. */
  function YearText(p: Player): string
    requires HasYearText(p)
  {
    DateText(p)[..4]
  }

  /** The year the counters record: `int(dob[:4])`, with a ValueError
      swallowed. */
  function CountedYear(p: Player): Option<int> {
    if HasYearText(p) then Numerals.ParseInt(YearText(p)) else None
  }

  /** A date whose first four characters are not an integer literal: the
      counters skip it, but the enriched record converts it unguarded and
      the ValueError ends the whole analysis. */
  predicate HasBadYear(p: Player) {
    HasYearText(p) && Numerals.ParseInt(YearText(p)).None?
  }

  /** The birthplace name, or "" when the birthplace is missing. */
  function BirthplaceName(p: Player): string {
    match p.birthplace
    case Some(b) => b.name
    case None => ""
  }

  /** The record written for the dataset: the input record with the derived
      fields added; the resolved département replaces any the input had. */
  datatype EnrichedPlayer = EnrichedPlayer(
    player: Player,
    department: Option<string>,
    birthYear: Option<int>,
    isDualNational: bool,
    diasporaRegion: Option<Diaspora.Region>,
    diasporaCountries: seq<string>)

  /** The enriched record, given what the resolver and the categorisation
      returned for the player. */
  function EnrichedWith(p: Player, dept: Option<string>, c: Diaspora.Categorization): EnrichedPlayer {
    EnrichedPlayer(p, dept, CountedYear(p), c.isDualNational, c.diasporaRegion, c.diasporaCountries)
  }

  function Enrich(p: Player): EnrichedPlayer {
    EnrichedWith(p, Resolver.Department(BirthplaceName(p)), Diaspora.Categorize(p.nationalities))
  }

  /** `enriched_players`: one enriched record per player, in order. */
  function EnrichAll(ps: seq<Player>): seq<EnrichedPlayer> {
    Map(ps, Enrich)
  }

  /** The text of the first date that makes the enrichment raise. */
  function FirstBadYear(ps: seq<Player>): Option<string> {
    var k := FirstIndex(ps, HasBadYear);
    if k < |ps| then Some(YearText(ps[k])) else None
  }

  // ---------------------------------------------------------------------
  // What the pass accumulates, as functions of the enriched records

  function OptionToSeq<T>(o: Option<T>): seq<T> {
    match o
    case Some(x) => [x]
    case None => []
  }

  function NationalitiesOf(e: EnrichedPlayer): seq<string> {
    e.player.nationalities
  }

  predicate HasSeveralNationalities(e: EnrichedPlayer) {
    |e.player.nationalities| > 1
  }

  function YearOf(e: EnrichedPlayer): seq<int> {
    OptionToSeq(e.birthYear)
  }

  function DepartmentOf(e: EnrichedPlayer): seq<string> {
    OptionToSeq(e.department)
  }

  predicate InDiaspora(e: EnrichedPlayer) {
    e.diasporaRegion.Some?
  }

  function RegionLabelOf(e: EnrichedPlayer): seq<string> {
    match e.diasporaRegion
    case Some(r) => [r.Label()]
    case None => []
  }

  function RegionCountriesOf(e: EnrichedPlayer): seq<string> {
    if InDiaspora(e) then e.diasporaCountries else []
  }

  /** `nationalities_all`. */
  function AllNationalities(es: seq<EnrichedPlayer>): seq<string> {
    FlatMap(es, NationalitiesOf)
  }

  /** `birth_years`. */
  function BirthYears(es: seq<EnrichedPlayer>): seq<int> {
    FlatMap(es, YearOf)
  }

  /** The départements resolved, one per player whose birthplace resolved. */
  function ResolvedDepartments(es: seq<EnrichedPlayer>): seq<string> {
    FlatMap(es, DepartmentOf)
  }

  /** The region labels, one per player with a diaspora region. */
  function RegionLabels(es: seq<EnrichedPlayer>): seq<string> {
    FlatMap(es, RegionLabelOf)
  }

  /** The diaspora countries of the players with a diaspora region. */
  function RegionCountries(es: seq<EnrichedPlayer>): seq<string> {
    FlatMap(es, RegionCountriesOf)
  }

  // ---------------------------------------------------------------------
  // The summary

  /** `(year // 5) * 5`: the first year of the five-year period. */
  function PeriodStart(year: int): int {
    (year / 5) * 5
  }

  /** The period of each year of `ys`, in order. */
  function Periods(ys: seq<int>): seq<int> {
    Map(ys, PeriodStart)
  }

  /** Year counts regrouped by five-year period, in the order the years
      are visited. */
  function Regroup(yearCounts: Counter<int>): Counter<int> {
    if yearCounts == [] then []
    else
      var last := yearCounts[|yearCounts| - 1];
      Add(Regroup(yearCounts[..|yearCounts| - 1]), PeriodStart(last.0), last.1)
  }

  /** Python's order on `(key, count)` tuples. */
  function ByItem(): ((int, nat), (int, nat)) -> bool {
    (a: (int, nat), b: (int, nat)) => a.0 < b.0 || (a.0 == b.0 && a.1 <= b.1)
  }

  /** `dept_names.get(dept, dept)`. */
  function DepartmentName(code: string): string {
    if code == "75" then "Paris"
    else if code == "77" then "Seine-et-Marne"
    else if code == "78" then "Yvelines"
    else if code == "91" then "Essonne"
    else if code == "92" then "Hauts-de-Seine"
    else if code == "93" then "Seine-Saint-Denis"
    else if code == "94" then "Val-de-Marne"
    else if code == "95" then "Val-d'Oise"
    else code
  }

  datatype DepartmentEntry = DepartmentEntry(code: string, count: nat, name: string)

  function DepartmentEntries(c: Counter<string>): (r: seq<DepartmentEntry>)
    ensures |r| == |c|
    ensures forall i :: 0 <= i < |c| ==> r[i] == DepartmentEntry(c[i].0, c[i].1, DepartmentName(c[i].0))
  {
    seq(|c|, i requires 0 <= i < |c| => DepartmentEntry(c[i].0, c[i].1, DepartmentName(c[i].0)))
  }

  /** The figures of the results dictionary. Percentages are left out; the
      counts they are computed from are here. */
  datatype Summary = Summary(
    totalPlayers: nat,
    dualNationals: nat,
    topNationalities: Counter<string>,
    byRegion: Counter<string>,
    byCountry: Counter<string>,
    totalDiaspora: nat,
    byYear: Counter<int>,
    by5Year: Counter<int>,
    earliestBirth: Option<int>,
    latestBirth: Option<int>,
    byDepartment: seq<DepartmentEntry>)

  /** The two départements the results always report as missing. */
  const MissingDepartments: seq<string> := ["93", "95"]

  // ---------------------------------------------------------------------
  // The accumulators

  /** The accumulators of the pass. */
  datatype Tallies = Tallies(
    nationalitiesAll: seq<string>,
    dualNationals: nat,
    birthYears: seq<int>,
    departments: Counter<string>,
    diasporaRegions: Counter<string>,
    diasporaCountries: Counter<string>)

  /** The accumulators before the first player. */
  function NoTallies(): Tallies {
    Tallies([], 0, [], [], [], [])
  }

  /** What one iteration that does not raise adds to the accumulators, in
      terms of the enriched record it builds. */
  function Update(t: Tallies, e: EnrichedPlayer): Tallies {
    var region := e.diasporaRegion;
    Tallies(
      t.nationalitiesAll + e.player.nationalities,
      t.dualNationals + (if |e.player.nationalities| > 1 then 1 else 0),
      t.birthYears + OptionToSeq(e.birthYear),
      if e.department.Some? then Add(t.departments, e.department.value, 1) else t.departments,
      if region.Some? then Add(t.diasporaRegions, region.value.Label(), 1) else t.diasporaRegions,
      if region.Some? then AddAll(t.diasporaCountries, e.diasporaCountries) else t.diasporaCountries)
  }

  /** The accumulators after visiting the players of `es` in order. */
  function TalliesOf(es: seq<EnrichedPlayer>): Tallies {
    if es == [] then NoTallies() else Update(TalliesOf(es[..|es| - 1]), es[|es| - 1])
  }

  lemma TalliesOfSnoc(es: seq<EnrichedPlayer>, e: EnrichedPlayer)
    ensures TalliesOf(es + [e]) == Update(TalliesOf(es), e)
  {
    InitOfSnoc(es, e);
  }

  /** After any prefix every accumulator holds what its definition over the
      whole prefix says: the concatenated nationalities, the number of
      players with several nationalities, the parsed years, and the counts
      of the resolved départements, of the region labels and of the
      diaspora countries. */
  lemma {:induction false} TalliesOfSpec(es: seq<EnrichedPlayer>)
    ensures TalliesOf(es) == Tallies(AllNationalities(es), Count(es, HasSeveralNationalities),
      BirthYears(es), Tally(ResolvedDepartments(es)), Tally(RegionLabels(es)), Tally(RegionCountries(es)))
  {
    if es != [] {
      var init, last := es[..|es| - 1], es[|es| - 1];
      TalliesOfSpec(init);
      InitLast(es);
      var t := TalliesOf(es);
      assert t == Update(TalliesOf(init), last);
      assert t.nationalitiesAll == AllNationalities(es);
      FilterAppend(init, [last], HasSeveralNationalities);
      assert t.dualNationals == Count(es, HasSeveralNationalities);
      assert t.birthYears == BirthYears(es);
      TallyAppend(ResolvedDepartments(init), DepartmentOf(last));
      assert t.departments == Tally(ResolvedDepartments(es));
      TallyAppend(RegionLabels(init), RegionLabelOf(last));
      assert t.diasporaRegions == Tally(RegionLabels(es));
      TallyAppend(RegionCountries(init), RegionCountriesOf(last));
      assert t.diasporaCountries == Tally(RegionCountries(es));
    }
  }

  /** The results compiled from the accumulators of `n` players. */
  function SummaryOf(t: Tallies, n: nat): Summary {
    var yearCounts := Tally(t.birthYears);
    Summary(
      n,
      t.dualNationals,
      MostCommon(Tally(t.nationalitiesAll), 20),
      t.diasporaRegions,
      MostCommon(t.diasporaCountries, 20),
      Total(t.diasporaRegions),
      SortBy(yearCounts, ByItem()),
      SortBy(Regroup(yearCounts), ByItem()),
      if t.birthYears == [] then None else Some(MinOf(t.birthYears)),
      if t.birthYears == [] then None else Some(MaxOf(t.birthYears)),
      DepartmentEntries(SortByCountDesc(t.departments)))
  }

  /** The outcome of the analysis: the ValueError of the first bad date,
      the ZeroDivisionError of an empty dataset, or the summary and the
      enriched records. */
  function Analyze(ps: seq<Player>): Result<(Summary, seq<EnrichedPlayer>)> {
    match FirstBadYear(ps)
    case Some(text) => Failure(ValueError(text))
    case None =>
      if |ps| == 0 then Failure(ZeroDivisionError)
      else
        var es := EnrichAll(ps);
        Success((SummaryOf(TalliesOf(es), |ps|), es))
  }

  // ---------------------------------------------------------------------
  // Properties of the outcome and of the figures

  /** The first bad date is the date of the first player whose year does
      not parse; there is none exactly when every year parses. */
  lemma FirstBadYearSpec(ps: seq<Player>)
    ensures FirstBadYear(ps).None? <==> forall j :: 0 <= j < |ps| ==> !HasBadYear(ps[j])
    ensures forall j :: 0 <= j < |ps| && HasBadYear(ps[j]) && (forall m :: 0 <= m < j ==> !HasBadYear(ps[m])) ==>
      FirstBadYear(ps) == Some(YearText(ps[j]))
  {
    var k := FirstIndex(ps, HasBadYear);
    if k < |ps| {
      assert HasBadYear(ps[k]);
    }
    forall j | 0 <= j < |ps| && HasBadYear(ps[j]) && (forall m :: 0 <= m < j ==> !HasBadYear(ps[m]))
      ensures FirstBadYear(ps) == Some(YearText(ps[j]))
    {
      FirstIndexAt(ps, HasBadYear, j);
    }
  }

  /** The analysis fails exactly when the dataset is empty or holds a bad
      date; the first bad date wins over the empty-dataset error, and on
      success there is one enriched record per player. */
  lemma AnalyzeOutcome(ps: seq<Player>)
    ensures Analyze(ps).Failure? <==> |ps| == 0 || FirstBadYear(ps).Some?
    ensures Analyze(ps) == Failure(ZeroDivisionError) <==> |ps| == 0
    ensures FirstBadYear(ps).Some? ==> Analyze(ps) == Failure(ValueError(FirstBadYear(ps).value))
    ensures Analyze(ps).Success? ==> Analyze(ps).value.1 == EnrichAll(ps) && |Analyze(ps).value.1| == |ps|
  {
  }

  /** Demographics: every player is counted, the dual nationals are the
      players with more than one nationality, and the top nationalities are
      the twenty most common nationalities, most common first, ties in
      order of first appearance. */
  lemma DemographicsSpec(es: seq<EnrichedPlayer>)
    ensures SummaryOf(TalliesOf(es), |es|).totalPlayers == |es|
    ensures SummaryOf(TalliesOf(es), |es|).dualNationals == Count(es, HasSeveralNationalities) <= |es|
    ensures IsMostCommon(SummaryOf(TalliesOf(es), |es|).topNationalities, AllNationalities(es), 20)
  {
    TalliesOfSpec(es);
    MostCommonSpec(AllNationalities(es), 20);
  }

  /** Diaspora figures: the total is the number of players with a diaspora
      region; each region label is counted once per such player; the top
      countries are the twenty most common diaspora countries of those
      players, most common first, ties in order of first appearance. */
  lemma DiasporaSpec(es: seq<EnrichedPlayer>)
    ensures SummaryOf(TalliesOf(es), |es|).totalDiaspora == Count(es, InDiaspora) <= |es|
    ensures forall name ::
      CountOf(SummaryOf(TalliesOf(es), |es|).byRegion, name) == multiset(RegionLabels(es))[name]
    ensures IsMostCommon(SummaryOf(TalliesOf(es), |es|).byCountry, RegionCountries(es), 20)
  {
    TalliesOfSpec(es);
    TallySpec(RegionLabels(es));
    FlatMapOptionalLength(es, RegionLabelOf, InDiaspora);
    MostCommonSpec(RegionCountries(es), 20);
  }

  /** Python's tuple order is a total preorder. */
  lemma ByItemIsPreorder()
    ensures TotalPreorder(ByItem())
  {
  }

  /** Regrouping by five-year period keeps the total. */
  lemma {:induction false} RegroupTotal(yearCounts: Counter<int>)
    ensures Total(Regroup(yearCounts)) == Total(yearCounts)
  {
    if yearCounts != [] {
      var init, last := yearCounts[..|yearCounts| - 1], yearCounts[|yearCounts| - 1];
      RegroupTotal(init);
      AddTotal(Regroup(init), PeriodStart(last.0), last.1);
      InitLast(yearCounts);
      TotalSnoc(init, last);
    }
  }

  /** Regrouping yields distinct keys. */
  lemma {:induction false} RegroupDistinct(yearCounts: Counter<int>)
    ensures NoDuplicates(Keys(Regroup(yearCounts)))
  {
    if yearCounts != [] {
      var init, last := yearCounts[..|yearCounts| - 1], yearCounts[|yearCounts| - 1];
      var before := Keys(Regroup(init));
      RegroupDistinct(init);
      AddKeys(Regroup(init), PeriodStart(last.0), last.1);
      if PeriodStart(last.0) !in before {
        NoDuplicatesSnoc(before, PeriodStart(last.0));
      }
    }
  }

  /** A period starts on a multiple of five. */
  lemma PeriodStartIsPeriod(year: int)
    ensures PeriodStart(year) % 5 == 0
  {
    var q := year / 5;
    assert PeriodStart(year) == q * 5;
  }

  /** The births of `yearCounts` whose year falls in the period starting
      at `p`. */
  function PeriodCount(yearCounts: Counter<int>, p: int): nat {
    if yearCounts == [] then 0
    else
      (if PeriodStart(yearCounts[0].0) == p then yearCounts[0].1 else 0) + PeriodCount(yearCounts[1..], p)
  }

  lemma {:induction false} PeriodCountSnoc(yearCounts: Counter<int>, x: (int, nat), p: int)
    ensures PeriodCount(yearCounts + [x], p) ==
      PeriodCount(yearCounts, p) + (if PeriodStart(x.0) == p then x.1 else 0)
  {
    if yearCounts != [] {
      PeriodCountSnoc(yearCounts[1..], x, p);
      assert (yearCounts + [x])[1..] == yearCounts[1..] + [x];
    } else {
      assert [x][1..] == [];
    }
  }

  /** One more birth in year `k` adds to the period of `k` only. */
  lemma {:induction false} PeriodCountAdd(yearCounts: Counter<int>, k: int, n: nat, p: int)
    ensures PeriodCount(Add(yearCounts, k, n), p) ==
      PeriodCount(yearCounts, p) + (if PeriodStart(k) == p then n else 0)
  {
    if yearCounts != [] && yearCounts[0].0 != k {
      PeriodCountAdd(yearCounts[1..], k, n, p);
      assert Add(yearCounts, k, n)[1..] == Add(yearCounts[1..], k, n);
    } else if yearCounts != [] {
      assert Add(yearCounts, k, n)[1..] == yearCounts[1..];
    } else {
      assert Add(yearCounts, k, n)[1..] == [];
    }
  }

  /** The regrouped counter holds, for each period, the births of the
      years that fall in it. */
  lemma {:induction false} RegroupCounts(yearCounts: Counter<int>)
    ensures forall p :: CountOf(Regroup(yearCounts), p) == PeriodCount(yearCounts, p)
  {
    if yearCounts != [] {
      var init, last := yearCounts[..|yearCounts| - 1], yearCounts[|yearCounts| - 1];
      RegroupCounts(init);
      AddCounts(Regroup(init), PeriodStart(last.0), last.1);
      InitLast(yearCounts);
      forall p ensures PeriodCount(yearCounts, p) ==
        PeriodCount(init, p) + (if PeriodStart(last.0) == p then last.1 else 0)
      {
        PeriodCountSnoc(init, last, p);
      }
    }
  }

  /** Grouping the year counts of `ys` by period counts the periods of
      the years of `ys`. */
  lemma {:induction false} TallyPeriodCount(ys: seq<int>)
    ensures forall p :: PeriodCount(Tally(ys), p) == multiset(Periods(ys))[p]
  {
    if ys != [] {
      var init, last := ys[..|ys| - 1], ys[|ys| - 1];
      TallyPeriodCount(init);
      InitLast(ys);
      MapSnoc(init, last, PeriodStart);
      forall p ensures PeriodCount(Tally(ys), p) == multiset(Periods(ys))[p] {
        PeriodCountAdd(Tally(init), last, 1, p);
      }
    }
  }

  /** Every period of the regrouped counter is the period of a year it
      regroups. */
  lemma {:induction false} RegroupKeys(yearCounts: Counter<int>)
    ensures forall p :: p in Keys(Regroup(yearCounts)) ==>
      exists j :: 0 <= j < |yearCounts| && p == PeriodStart(yearCounts[j].0)
  {
    if yearCounts != [] {
      var init, last := yearCounts[..|yearCounts| - 1], yearCounts[|yearCounts| - 1];
      RegroupKeys(init);
      AddKeys(Regroup(init), PeriodStart(last.0), last.1);
      forall p | p in Keys(Regroup(yearCounts))
        ensures exists j :: 0 <= j < |yearCounts| && p == PeriodStart(yearCounts[j].0)
      {
        if p in Keys(Regroup(init)) {
          var j :| 0 <= j < |init| && p == PeriodStart(init[j].0);
          assert yearCounts[j] == init[j];
        } else {
          assert p == PeriodStart(yearCounts[|yearCounts| - 1].0);
        }
      }
    }
  }

  /** Regrouping the year counts of the parsed years `ys`: each period
      holds as many births as years of `ys` fall in it, the periods are
      exactly the periods of the years of `ys`, each once, and the total
      is the number of years. */
  lemma RegroupSpec(ys: seq<int>)
    ensures forall p :: CountOf(Regroup(Tally(ys)), p) == multiset(Periods(ys))[p]
    ensures forall p :: p in Keys(Regroup(Tally(ys))) <==> p in Periods(ys)
    ensures NoDuplicates(Keys(Regroup(Tally(ys))))
    ensures Total(Regroup(Tally(ys))) == |ys|
  {
    var c := Tally(ys);
    var r := Regroup(c);
    RegroupCounts(c);
    TallyPeriodCount(ys);
    RegroupKeys(c);
    TallyKeys(ys);
    RegroupDistinct(c);
    RegroupTotal(c);
    TallyTotal(ys);
    forall p ensures p in Keys(r) <==> p in Periods(ys) {
      if p in Keys(r) {
        var j :| 0 <= j < |c| && p == PeriodStart(c[j].0);
        assert Keys(c)[j] in Distinct(ys);
        var i :| 0 <= i < |ys| && ys[i] == c[j].0;
        assert Periods(ys)[i] == p;
      }
      if p in Periods(ys) {
        CountOfPositive(r, p);
      }
    }
  }

  /** Sorting a counter without repeated keys by Python's tuple order
      keeps its keys and counts and puts the keys in increasing order. */
  lemma SortByItemSpec(c: Counter<int>)
    requires NoDuplicates(Keys(c))
    ensures forall k :: CountOf(SortBy(c, ByItem()), k) == CountOf(c, k)
    ensures forall k :: k in Keys(SortBy(c, ByItem())) <==> k in Keys(c)
    ensures Total(SortBy(c, ByItem())) == Total(c)
    ensures forall i, j :: 0 <= i < j < |SortBy(c, ByItem())| ==> SortBy(c, ByItem())[i].0 < SortBy(c, ByItem())[j].0
  {
    var sorted := SortBy(c, ByItem());
    ByItemIsPreorder();
    SortBySorted(c, ByItem());
    KeysPermutation(c, sorted);
    TotalPermutation(c, sorted);
    forall i, j | 0 <= i < j < |sorted| ensures sorted[i].0 < sorted[j].0 {
      assert Keys(sorted)[i] != Keys(sorted)[j];
    }
  }

  /** The year counts of the parsed years `ys`, sorted: each year once,
      with its multiplicity, in increasing order. */
  lemma ByYearSpec(ys: seq<int>)
    ensures var byYear := SortBy(Tally(ys), ByItem());
      && (forall y :: CountOf(byYear, y) == multiset(ys)[y])
      && (forall y :: y in Keys(byYear) <==> y in ys)
      && (forall i, j :: 0 <= i < j < |byYear| ==> byYear[i].0 < byYear[j].0)
  {
    TallySpec(ys);
    SortByItemSpec(Tally(ys));
  }

  /** The five-year counts of the parsed years `ys`, sorted: the periods
      `(year // 5) * 5` of the years, each once, with the number of years
      in it, in increasing order, each a multiple of five, holding as many
      births as were parsed. */
  lemma ByPeriodSpec(ys: seq<int>)
    ensures var by5Year := SortBy(Regroup(Tally(ys)), ByItem());
      && (forall p :: CountOf(by5Year, p) == multiset(Periods(ys))[p])
      && (forall p :: p in Keys(by5Year) <==> p in Periods(ys))
      && (forall i, j :: 0 <= i < j < |by5Year| ==> by5Year[i].0 < by5Year[j].0)
      && (forall i :: 0 <= i < |by5Year| ==> by5Year[i].0 % 5 == 0)
      && Total(by5Year) == |ys|
  {
    var by5Year := SortBy(Regroup(Tally(ys)), ByItem());
    RegroupSpec(ys);
    SortByItemSpec(Regroup(Tally(ys)));
    PeriodKeysAreMultiples(by5Year, ys);
  }

  /** A counter whose keys are periods of years starts each on a multiple
      of five. */
  lemma PeriodKeysAreMultiples(c: Counter<int>, ys: seq<int>)
    requires forall p :: p in Keys(c) ==> p in Periods(ys)
    ensures forall i :: 0 <= i < |c| ==> c[i].0 % 5 == 0
  {
    forall i | 0 <= i < |c| ensures c[i].0 % 5 == 0 {
      assert Keys(c)[i] == c[i].0;
      assert c[i].0 in Periods(ys);
      var j :| 0 <= j < |ys| && Periods(ys)[j] == c[i].0;
      PeriodStartIsPeriod(ys[j]);
    }
  }

  /** Temporal figures: the year counts and the five-year counts of the
      parsed years (see `ByYearSpec` and `ByPeriodSpec`); the earliest and
      latest years exist exactly when some year parsed, and bound every
      parsed year. */
  lemma TemporalSpec(es: seq<EnrichedPlayer>)
    ensures var s := SummaryOf(TalliesOf(es), |es|);
      var years := BirthYears(es);
      && (forall y :: CountOf(s.byYear, y) == multiset(years)[y])
      && (forall y :: y in Keys(s.byYear) <==> y in years)
      && (forall i, j :: 0 <= i < j < |s.byYear| ==> s.byYear[i].0 < s.byYear[j].0)
      && (forall p :: CountOf(s.by5Year, p) == multiset(Periods(years))[p])
      && (forall p :: p in Keys(s.by5Year) <==> p in Periods(years))
      && (forall i, j :: 0 <= i < j < |s.by5Year| ==> s.by5Year[i].0 < s.by5Year[j].0)
      && (forall i :: 0 <= i < |s.by5Year| ==> s.by5Year[i].0 % 5 == 0)
      && Total(s.by5Year) == |years|
      && (s.earliestBirth.Some? <==> years != [])
      && s.earliestBirth.Some? == s.latestBirth.Some?
      && (s.earliestBirth.Some? ==>
            s.earliestBirth.value in years && s.latestBirth.value in years &&
            forall y :: y in years ==> s.earliestBirth.value <= y <= s.latestBirth.value)
  {
    var s := SummaryOf(TalliesOf(es), |es|);
    var years := BirthYears(es);
    TalliesOfSpec(es);
    assert s.byYear == SortBy(Tally(years), ByItem());
    assert s.by5Year == SortBy(Regroup(Tally(years)), ByItem());
    ByYearSpec(years);
    ByPeriodSpec(years);
  }

  /** Geographic figures: the département rows of the players whose
      birthplace resolved (see `DepartmentEntriesSpec`). */
  lemma GeographicSpec(es: seq<EnrichedPlayer>)
    ensures var rows := SummaryOf(TalliesOf(es), |es|).byDepartment;
      var ds := ResolvedDepartments(es);
      && IsMostCommon(Map(rows, EntryItem), ds, |Distinct(ds)|)
      && (forall d :: d in ds ==> exists i :: 0 <= i < |rows| && rows[i].code == d)
      && (forall i :: 0 <= i < |rows| ==> rows[i].name == DepartmentName(rows[i].code))
  {
    var ds := ResolvedDepartments(es);
    TalliesOfSpec(es);
    assert SummaryOf(TalliesOf(es), |es|).byDepartment == DepartmentEntries(SortByCountDesc(Tally(ds)));
    DepartmentEntriesSpec(ds);
  }

  predicate IsResolved(e: EnrichedPlayer) {
    e.department.Some?
  }

  /** The département counts add up to the number of players whose
      birthplace resolved: the others are not counted anywhere. */
  lemma DepartmentTotal(es: seq<EnrichedPlayer>)
    ensures Total(TalliesOf(es).departments) == Count(es, IsResolved) <= |es|
  {
    TalliesOfSpec(es);
    TallyTotal(ResolvedDepartments(es));
    FlatMapOptionalLength(es, DepartmentOf, IsResolved);
  }

  /** The code and the count of a département row. */
  function EntryItem(row: DepartmentEntry): (string, nat) {
    (row.code, row.count)
  }

  /** The rows of a counter carry its entries, in order. */
  lemma EntriesItems(c: Counter<string>)
    ensures Map(DepartmentEntries(c), EntryItem) == c
  {
  }

  /** Rows that carry the entries of a counter have a row for each of
      its keys. */
  lemma RowsCover(rows: seq<DepartmentEntry>, c: Counter<string>, ds: seq<string>)
    requires Map(rows, EntryItem) == c
    requires forall d :: d in ds ==> d in Keys(c)
    ensures forall d :: d in ds ==> exists i :: 0 <= i < |rows| && rows[i].code == d
  {
    forall d | d in ds ensures exists i :: 0 <= i < |rows| && rows[i].code == d {
      var i :| 0 <= i < |c| && Keys(c)[i] == d;
      assert EntryItem(rows[i]) == c[i];
    }
  }

  /** The département rows of the codes `ds`: one row per distinct code
      and a row for every code, each with its multiplicity and its name,
      largest count first, equal counts in order of first appearance
      (Python's `sorted` is stable). */
  lemma DepartmentEntriesSpec(ds: seq<string>)
    ensures var rows := DepartmentEntries(SortByCountDesc(Tally(ds)));
      && IsMostCommon(Map(rows, EntryItem), ds, |Distinct(ds)|)
      && (forall d :: d in ds ==> exists i :: 0 <= i < |rows| && rows[i].code == d)
      && (forall i :: 0 <= i < |rows| ==> rows[i].name == DepartmentName(rows[i].code))
  {
    var sorted := SortByCountDesc(Tally(ds));
    var rows := DepartmentEntries(sorted);
    EntriesItems(sorted);
    SortedTallySpec(ds);
    RowsCover(rows, sorted, ds);
  }

  /** Every département the analysis reports is one of the eight
      Île-de-France codes. */
  lemma {:induction false} ResolvedInIleDeFrance(ps: seq<Player>)
    ensures forall d :: d in ResolvedDepartments(EnrichAll(ps)) ==> d in Resolver.IleDeFranceCodes
  {
    var es := EnrichAll(ps);
    forall d | d in ResolvedDepartments(es) ensures d in Resolver.IleDeFranceCodes {
      FlatMapMember(es, DepartmentOf, d);
      var i :| 0 <= i < |es| && d in DepartmentOf(es[i]);
      Resolver.DepartmentInIleDeFrance(BirthplaceName(ps[i]));
    }
  }

  // ---------------------------------------------------------------------
  // The pass itself

  /** The regrouping loop over the year counter. */
  method FiveYearCounts(yearCounts: Counter<int>) returns (decadeCounts: Counter<int>)
    ensures decadeCounts == Regroup(yearCounts)
  {
    decadeCounts := [];
    var i := 0;
    while i < |yearCounts|
      invariant i <= |yearCounts|
      invariant decadeCounts == Regroup(yearCounts[..i])
    {
      var (year, count) := yearCounts[i];
      assert yearCounts[..i + 1][..i] == yearCounts[..i];
      decadeCounts := Add(decadeCounts, PeriodStart(year), count);
      i := i + 1;
    }
    assert yearCounts[..i] == yearCounts;
  }

  /** Adds one player's diaspora countries to the country counter. */
  method CountCountries(countries: Counter<string>, cs: seq<string>)
    returns (result: Counter<string>)
    ensures result == AddAll(countries, cs)
  {
    result := countries;
    var j := 0;
    while j < |cs|
      invariant j <= |cs|
      invariant result == AddAll(countries, cs[..j])
    {
      assert cs[..j + 1][..j] == cs[..j];
      result := Add(result, cs[j], 1);
      j := j + 1;
    }
    assert cs[..j] == cs;
  }

  /** The counting half of one iteration, after the resolver and the
      categorisation: every accumulator updated for `player`. */
  method CountPlayer(t: Tallies, player: Player, dept: Option<string>, diaspora: Diaspora.Categorization)
    returns (u: Tallies)
    ensures u == Update(t, EnrichedWith(player, dept, diaspora))
  {
    var nats := player.nationalities;
    var nationalitiesAll := t.nationalitiesAll + nats;
    var dualNationals := t.dualNationals;
    if |nats| > 1 {
      dualNationals := dualNationals + 1;
    }
    var dob := DateText(player);
    var birthYears := t.birthYears;
    if dob != "" && |dob| >= 4 {
      var year := Numerals.ParseInt(dob[..4]);
      if year.Some? {
        birthYears := birthYears + [year.value];
      }
    }
    assert birthYears == t.birthYears + OptionToSeq(CountedYear(player));
    var departments := t.departments;
    if dept.Some? {
      departments := Add(departments, dept.value, 1);
    }
    var diasporaRegions := t.diasporaRegions;
    var diasporaCountries := t.diasporaCountries;
    if diaspora.diasporaRegion.Some? {
      diasporaRegions := Add(diasporaRegions, diaspora.diasporaRegion.value.Label(), 1);
      diasporaCountries := CountCountries(diasporaCountries, diaspora.diasporaCountries);
    }
    u := Tallies(nationalitiesAll, dualNationals, birthYears, departments,
      diasporaRegions, diasporaCountries);
  }

  /** One iteration of the pass, after the resolver and the categorisation:
      updates every accumulator for `player` and builds its enriched record,
      or raises the ValueError of the unguarded year conversion. */
  method VisitPlayer(t: Tallies, player: Player, dept: Option<string>, diaspora: Diaspora.Categorization)
    returns (r: Result<(Tallies, EnrichedPlayer)>)
    ensures HasBadYear(player) ==> r == Failure(ValueError(YearText(player)))
    ensures !HasBadYear(player) ==>
      var e := EnrichedWith(player, dept, diaspora);
      r == Success((Update(t, e), e))
  {
    var u := CountPlayer(t, player, dept, diaspora);
    var dob := DateText(player);
    var birthYear: Option<int> := None;
    if dob != "" && |dob| >= 4 {
      var year := Numerals.ParseInt(dob[..4]);
      if year.None? {
        return Failure(ValueError(dob[..4]));
      }
      birthYear := year;
    }
    var e := EnrichedPlayer(player, dept, birthYear, diaspora.isDualNational,
      diaspora.diasporaRegion, diaspora.diasporaCountries);
    return Success((u, e));
  }

  /** One iteration of the pass: resolves the département, categorises the
      nationalities, then visits the player. */
  method EnrichPlayer(t: Tallies, player: Player) returns (r: Result<(Tallies, EnrichedPlayer)>)
    ensures r.Failure? <==> HasBadYear(player)
    ensures HasBadYear(player) ==> r == Failure(ValueError(YearText(player)))
    ensures !HasBadYear(player) ==> r == Success((Update(t, Enrich(player)), Enrich(player)))
  {
    var dept := Resolver.ExtractDepartmentFromBirthplace(BirthplaceName(player));
    var diaspora := Diaspora.CategorizeDiaspora(player.nationalities);
    r := VisitPlayer(t, player, dept, diaspora);
  }

  /** The loop over the players: the accumulators and the enriched records,
      or the ValueError of the first bad date. */
  method EnrichPlayers(players: seq<Player>) returns (r: Result<(Tallies, seq<EnrichedPlayer>)>)
    ensures FirstBadYear(players).Some? ==> r == Failure(ValueError(FirstBadYear(players).value))
    ensures FirstBadYear(players).None? ==>
      r == Success((TalliesOf(EnrichAll(players)), EnrichAll(players)))
  {
    var t := NoTallies();
    var enriched: seq<EnrichedPlayer> := [];
    var i := 0;
    while i < |players|
      invariant i <= |players|
      invariant FirstIndex(players, HasBadYear) >= i
      invariant enriched == EnrichAll(players[..i])
      invariant t == TalliesOf(enriched)
    {
      var player := players[i];
      var visited := EnrichPlayer(t, player);
      if visited.Failure? {
        FirstIndexStep(players, HasBadYear, i);
        return Failure(visited.error);
      }
      FirstIndexStep(players, HasBadYear, i);
      var e := visited.value.1;
      MapSnoc(players[..i], player, Enrich);
      PrefixSnoc(players, i);
      TalliesOfSnoc(enriched, e);
      t := visited.value.0;
      enriched := enriched + [e];
      i := i + 1;
    }
    assert players[..i] == players;
    r := Success((t, enriched));
  }

  method AnalyzeDataset(players: seq<Player>) returns (r: Result<(Summary, seq<EnrichedPlayer>)>)
    ensures r == Analyze(players)
  {
    var pass := EnrichPlayers(players);
    if pass.Failure? {
      return Failure(pass.error);
    }
    var (t, enriched) := pass.value;
    if |players| == 0 {
      return Failure(ZeroDivisionError);
    }
    var yearCounts := Tally(t.birthYears);
    var decadeCounts := FiveYearCounts(yearCounts);
    var summary := Summary(
      |players|,
      t.dualNationals,
      MostCommon(Tally(t.nationalitiesAll), 20),
      t.diasporaRegions,
      MostCommon(t.diasporaCountries, 20),
      Total(t.diasporaRegions),
      SortBy(yearCounts, ByItem()),
      SortBy(decadeCounts, ByItem()),
      if t.birthYears == [] then None else Some(MinOf(t.birthYears)),
      if t.birthYears == [] then None else Some(MaxOf(t.birthYears)),
      DepartmentEntries(SortByCountDesc(t.departments)));
    r := Success((summary, enriched));
  }
}
