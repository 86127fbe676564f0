/** Diaspora categorisation of a player from the list of nationalities
    Wikidata records: every non-French nationality found in one of seven
    regional country lists is a diaspora country, and the region reported is
    the region of the last such nationality. */
module Diaspora {
  import opened Wrappers
  import opened Seqs

  datatype Region =
    | SubSaharanAfrica
    | Maghreb
    | CaribbeanOverseas
    | Comoros
    | Portugal
    | OtherEurope
    | Asia
  {
    /** The label stored in the enriched records and counted by the analysis. */
    function Label(): string {
      match this
      case SubSaharanAfrica => "Sub-Saharan Africa"
      case Maghreb => "Maghreb"
      case CaribbeanOverseas => "Caribbean/Overseas"
      case Comoros => "Comoros"
      case Portugal => "Portugal"
      case OtherEurope => "Other Europe"
      case Asia => "Asia"
    }
  }

  const SubSaharanCountries: set<string> :=
    {
      "Mali", "Sénégal", "Côte d'Ivoire", "Cameroun", "Guinée",
      "République démocratique du Congo", "République du Congo",
      "Togo", "Gabon", "Bénin", "Ghana", "Nigeria", "Burkina Faso",
      "République centrafricaine", "Cap-Vert", "Guinée-Bissau",
      "Madagascar", "Maurice", "Guinée équatoriale", "Gambie",
      "Sierra Leone", "Liberia", "Niger", "Tchad", "Mauritanie",
      "Éthiopie", "Érythrée", "Somalie", "Kenya", "Ouganda",
      "Rwanda", "Burundi", "Tanzanie", "Zambie", "Zimbabwe",
      "Mozambique", "Angola", "Namibie", "Botswana", "Afrique du Sud",
      "Malawi", "Soudan", "Soudan du Sud"
    }

  const MaghrebCountries: set<string> :=
    {"Algérie", "Maroc", "Tunisie", "Libye", "Égypte"}

  const OverseasCountries: set<string> :=
    {
      "Guadeloupe", "Martinique", "Guyane", "Réunion", "Mayotte",
      "Haïti", "République dominicaine", "Jamaïque", "Trinité-et-Tobago",
      "Sainte-Lucie", "Dominique", "Grenade", "Barbade", "Antigua-et-Barbuda"
    }

  const ComorosCountries: set<string> :=
    {"Comores"}

  const PortugalCountries: set<string> :=
    {"Portugal"}

  const OtherEuropeCountries: set<string> :=
    {
      "Espagne", "Italie", "Pologne", "Roumanie", "Serbie", "Croatie",
      "Bosnie-Herzégovine", "Albanie", "Grèce", "Turquie", "Arménie",
      "Géorgie", "Russie", "Ukraine", "Moldavie", "Belgique", "Pays-Bas",
      "Allemagne", "Suisse", "Autriche", "Hongrie", "République tchèque",
      "Slovaquie", "Bulgarie", "Macédoine du Nord", "Monténégro", "Kosovo"
    }

  const AsiaCountries: set<string> :=
    {
      "Vietnam", "Cambodge", "Laos", "Chine", "Japon", "Corée du Sud",
      "Philippines", "Thaïlande", "Indonésie", "Malaisie", "Inde",
      "Pakistan", "Bangladesh", "Sri Lanka", "Afghanistan", "Iran", "Irak"
    }

  /** The country list of each region. */
  function Countries(r: Region): set<string> {
    match r
    case SubSaharanAfrica => SubSaharanCountries
    case Maghreb => MaghrebCountries
    case CaribbeanOverseas => OverseasCountries
    case Comoros => ComorosCountries
    case Portugal => PortugalCountries
    case OtherEurope => OtherEuropeCountries
    case Asia => AsiaCountries
  }

  /** The region one nationality falls under: the first list, in the order
      the lists are tried, that holds it. "France" is skipped outright. */
  function Classify(nationality: string): Option<Region> {
    if nationality == "France" then None
    else if nationality in SubSaharanCountries then Some(SubSaharanAfrica)
    else if nationality in MaghrebCountries then Some(Maghreb)
    else if nationality in OverseasCountries || nationality in {"Haïti"} then Some(CaribbeanOverseas)
    else if nationality in ComorosCountries then Some(Comoros)
    else if nationality in PortugalCountries then Some(Portugal)
    else if nationality in OtherEuropeCountries then Some(OtherEurope)
    else if nationality in AsiaCountries then Some(Asia)
    else None
  }

  predicate IsDiasporaCountry(nationality: string) {
    Classify(nationality).Some?
  }

  /** The diaspora nationalities, in the order they are listed. */
  function DiasporaCountries(nationalities: seq<string>): seq<string> {
    Filter(nationalities, IsDiasporaCountry)
  }

  /** The region of the last diaspora nationality: each match overwrites the
      region found before it. */
  function LastRegion(nationalities: seq<string>): Option<Region> {
    if nationalities == [] then None
    else
      match Classify(nationalities[|nationalities| - 1])
      case Some(r) => Some(r)
      case None => LastRegion(nationalities[..|nationalities| - 1])
  }

  /** The result of categorising one player. */
  datatype Categorization = Categorization(
    isDualNational: bool,
    nationalities: seq<string>,
    diasporaRegion: Option<Region>,
    diasporaCountries: seq<string>)

  /** The categorisation of a list of nationalities. */
  function Categorize(nationalities: seq<string>): Categorization {
    Categorization(|nationalities| > 1, nationalities,
      LastRegion(nationalities), DiasporaCountries(nationalities))
  }

  method CategorizeDiaspora(nationalities: seq<string>) returns (result: Categorization)
    ensures result.isDualNational == (|nationalities| > 1)
    ensures result.nationalities == nationalities
    ensures result.diasporaRegion == LastRegion(nationalities)
    ensures result.diasporaCountries == DiasporaCountries(nationalities)
    ensures result == Categorize(nationalities)
  {
    result := Categorization(|nationalities| > 1, nationalities, None, []);
    var i := 0;
    while i < |nationalities|
      invariant i <= |nationalities|
      invariant result.isDualNational == (|nationalities| > 1)
      invariant result.nationalities == nationalities
      invariant result.diasporaRegion == LastRegion(nationalities[..i])
      invariant result.diasporaCountries == DiasporaCountries(nationalities[..i])
    {
      var nationality := nationalities[i];
      PrefixSnoc(nationalities, i);
      FilterSnoc(nationalities[..i], nationality, IsDiasporaCountry);
      if nationality == "France" {
        i := i + 1;
        continue;
      }
      var region := Classify(nationality);
      if region.Some? {
        result := result.(diasporaRegion := region,
                          diasporaCountries := result.diasporaCountries + [nationality]);
      }
      i := i + 1;
    }
    assert nationalities[..i] == nationalities;
  }

  // ---------------------------------------------------------------------
  // Properties

  /** The seven labels are distinct, and none is the text "None" that the
      dashboards use for a missing region. */
  lemma {:induction false} LabelsDistinct(r: Region, s: Region)
    ensures r.Label() == s.Label() <==> r == s
    ensures r.Label() != "None" && r.Label() != ""
  {
  }

  /** A nationality is filed under a region only when that region's list
      holds it. */
  lemma {:induction false} ClassifySound(nationality: string, r: Region)
    ensures Classify(nationality) == Some(r) ==> nationality in Countries(r)
  {
  }

  /** Every listed nationality other than France is a diaspora country. */
  lemma {:induction false} ClassifyComplete(nationality: string, r: Region)
    requires nationality in Countries(r) && nationality != "France"
    ensures IsDiasporaCountry(nationality)
  {
  }

  /** France is skipped before any list is tried: a player whose every
      nationality is French has no diaspora country and no region. */
  lemma {:induction false} OnlyFrench(nationalities: seq<string>)
    requires forall k :: 0 <= k < |nationalities| ==> nationalities[k] == "France"
    ensures DiasporaCountries(nationalities) == []
    ensures LastRegion(nationalities) == None
  {
    FilterNone(nationalities, IsDiasporaCountry);
    if nationalities != [] {
      OnlyFrench(nationalities[..|nationalities| - 1]);
    }
  }

  /** The diaspora countries are exactly the listed non-French nationalities,
      in their original order; the region is missing exactly when there is
      none, and otherwise is the region of the last one. */
  lemma {:induction false} CategorizationSpec(nationalities: seq<string>)
    ensures forall n :: n in DiasporaCountries(nationalities) <==>
      n in nationalities && n != "France" && Classify(n).Some?
    ensures IsSubsequence(DiasporaCountries(nationalities), nationalities)
    ensures LastRegion(nationalities).None? <==> DiasporaCountries(nationalities) == []
    ensures DiasporaCountries(nationalities) != [] ==>
      var c := DiasporaCountries(nationalities);
      LastRegion(nationalities) == Classify(c[|c| - 1])
  {
    FilterSpec(nationalities, IsDiasporaCountry);
    if nationalities != [] {
      var init, last := nationalities[..|nationalities| - 1], nationalities[|nationalities| - 1];
      CategorizationSpec(init);
      InitLast(nationalities);
      FilterSnoc(init, last, IsDiasporaCountry);
    }
  }

  /** The reported region follows the last listed nationality, not the
      first: ["Algérie", "Sénégal"] is filed under Sub-Saharan Africa. */
  lemma LastMatchWins()
    ensures LastRegion(["Algérie", "Sénégal"]) == Some(SubSaharanAfrica)
    ensures DiasporaCountries(["Algérie", "Sénégal"]) == ["Algérie", "Sénégal"]
  {
    assert ["Algérie", "Sénégal"][..1] == ["Algérie"];
  }
}
