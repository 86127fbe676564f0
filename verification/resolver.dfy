/** The approximate birthplace-to-département resolver of the analysis
    step: a lower-cased substring match, Paris first, then a fixed table of
    suburban cities tried in order. */
module Resolver {
  import opened Wrappers
  import opened Seqs
  import opened Text

  /** The codes the resolver can produce: Paris and the seven suburban
      départements of Île-de-France. */
  const IleDeFranceCodes: set<string> := {"75", "77", "78", "91", "92", "93", "94", "95"}

  /** One département's cities, each mapped to its code. */
  function Block(code: string, cities: seq<string>): (b: seq<(string, string)>)
    ensures |b| == |cities|
    ensures forall i :: 0 <= i < |b| ==> b[i] == (cities[i], code)
  {
    seq(|cities|, i requires 0 <= i < |cities| => (cities[i], code))
  }

  /** The 92 cities, in their order in the table. */
  const HautsDeSeineCities: seq<string> :=
    ["boulogne-billancourt", "nanterre", "colombes", "asnières", "courbevoie",
     "rueil-malmaison", "issy-les-moulineaux", "levallois-perret", "neuilly-sur-seine",
     "antony", "clichy", "clamart", "meudon", "montrouge", "suresnes", "gennevilliers",
     "châtillon", "sceaux", "puteaux", "vanves", "garches", "chaville",
     "fontenay-aux-roses", "le plessis-robinson", "bagneux", "châtenay-malabry"]

  /** The 94 cities, in their order in the table. */
  const ValDeMarneCities: seq<string> :=
    ["créteil", "vitry-sur-seine", "champigny-sur-marne", "saint-maur-des-fossés",
     "ivry-sur-seine", "maisons-alfort", "fontenay-sous-bois", "villejuif", "vincennes",
     "alfortville", "choisy-le-roi", "le kremlin-bicêtre", "nogent-sur-marne", "thiais",
     "cachan", "charenton-le-pont", "orly", "villeneuve-saint-georges", "arcueil",
     "fresnes", "sucy-en-brie", "joinville-le-pont", "saint-mandé"]

  /** The 78 cities, in their order in the table. */
  const YvelinesCities: seq<string> :=
    ["versailles", "sartrouville", "mantes-la-jolie", "saint-germain-en-laye", "poissy",
     "conflans-sainte-honorine", "montigny-le-bretonneux", "les mureaux", "plaisir",
     "trappes", "houilles", "chatou", "le chesnay", "carrières-sous-poissy", "élancourt",
     "rambouillet"]

  /** The 77 cities, in their order in the table. */
  const SeineEtMarneCities: seq<string> :=
    ["meaux", "chelles", "melun", "pontault-combault", "savigny-le-temple", "torcy",
     "roissy-en-brie", "combs-la-ville", "villeparisis", "ozoir-la-ferrière",
     "dammarie-les-lys", "lagny-sur-marne"]

  /** The 91 cities, in their order in the table. */
  const EssonneCities: seq<string> :=
    ["évry", "corbeil-essonnes", "massy", "savigny-sur-orge",
     "sainte-geneviève-des-bois", "athis-mons", "palaiseau", "viry-châtillon",
     "vigneux-sur-seine", "grigny", "brunoy", "les ulis", "longjumeau", "ris-orangis"]

  /** The 93 cities, in their order in the table. */
  const SeineSaintDenisCities: seq<string> :=
    ["saint-denis", "montreuil", "aubervilliers", "aulnay-sous-bois", "drancy",
     "noisy-le-grand", "pantin", "bondy", "bobigny", "le blanc-mesnil", "sevran",
     "épinay-sur-seine", "livry-gargan", "clichy-sous-bois", "stains", "rosny-sous-bois",
     "villepinte", "la courneuve", "le raincy", "gagny", "neuilly-sur-marne",
     "pierrefitte-sur-seine", "tremblay-en-france", "villemomble", "bagnolet",
     "les lilas", "romainville"]

  /** The 95 cities, in their order in the table. */
  const ValDOiseCities: seq<string> :=
    ["argenteuil", "sarcelles", "cergy", "garges-lès-gonesse", "goussainville",
     "franconville", "bezons", "villiers-le-bel", "ermont", "pontoise", "herblay",
     "taverny", "saint-ouen-l'aumône", "eaubonne", "montmorency", "enghien-les-bains",
     "deuil-la-barre", "cormeilles-en-parisis", "saint-gratien", "soisy-sous-montmorency"]

  /** The city table in definition order, which is the order the lookup
      tries it in. */
  const CityToDept: seq<(string, string)> :=
    Block("92", HautsDeSeineCities) + Block("94", ValDeMarneCities) +
    Block("78", YvelinesCities) + Block("77", SeineEtMarneCities) +
    Block("91", EssonneCities) + Block("93", SeineSaintDenisCities) +
    Block("95", ValDOiseCities)

  /** The code of the first entry whose city occurs in `name`. */
  function FirstMatch(table: seq<(string, string)>, name: string): Option<string> {
    if table == [] then None
    else if Contains(name, table[0].0) then Some(table[0].1)
    else FirstMatch(table[1..], name)
  }

  predicate MentionsParis(name: string) {
    Contains(name, "arrondissement de paris") || Contains(name, "paris")
  }

  /** What the resolver answers for a birthplace name. */
  function Department(birthplaceName: string): Option<string> {
    var name := Lower(birthplaceName);
    if MentionsParis(name) then Some("75") else FirstMatch(CityToDept, name)
  }

  method ExtractDepartmentFromBirthplace(birthplaceName: string) returns (dept: Option<string>)
    ensures dept == Department(birthplaceName)
  {
    var name := Lower(birthplaceName);
    if Contains(name, "arrondissement de paris") || Contains(name, "paris") {
      return Some("75");
    }
    var i := 0;
    while i < |CityToDept|
      invariant i <= |CityToDept|
      invariant FirstMatch(CityToDept[i..], name) == FirstMatch(CityToDept, name)
    {
      var (city, code) := CityToDept[i];
      if Contains(name, city) {
        return Some(code);
      }
      DropOne(CityToDept, i);
      i := i + 1;
    }
    return None;
  }

  // ---------------------------------------------------------------------
  // Properties of the lookup

  /** The lookup answers with the code of the first entry whose city occurs
      in the name, and with nothing only when no city occurs in it. */
  lemma {:induction false} FirstMatchSpec(table: seq<(string, string)>, name: string)
    ensures FirstMatch(table, name).None? <==>
      forall j :: 0 <= j < |table| ==> !Contains(name, table[j].0)
    ensures FirstMatch(table, name).Some? ==>
      exists j :: 0 <= j < |table| && Contains(name, table[j].0) &&
        FirstMatch(table, name).value == table[j].1 &&
        forall m :: 0 <= m < j ==> !Contains(name, table[m].0)
  {
    if table != [] && !Contains(name, table[0].0) {
      FirstMatchSpec(table[1..], name);
      if FirstMatch(table, name).Some? {
        var j :| 0 <= j < |table[1..]| && Contains(name, table[1..][j].0) &&
          FirstMatch(table, name).value == table[1..][j].1 &&
          forall m :: 0 <= m < j ==> !Contains(name, table[1..][m].0);
        assert table[j + 1] == table[1..][j];
      }
    }
  }

  /** Every answer is an Île-de-France code. */
  lemma {:induction false} DepartmentInIleDeFrance(birthplaceName: string)
    ensures Department(birthplaceName).Some? ==> Department(birthplaceName).value in IleDeFranceCodes
  {
    var name := Lower(birthplaceName);
    FirstMatchSpec(CityToDept, name);
  }

  /** The "arrondissement de paris" test adds nothing: that phrase already
      holds "paris". */
  lemma {:induction false} MentionsParisIffParis(name: string)
    ensures MentionsParis(name) <==> Contains(name, "paris")
  {
    if Contains(name, "arrondissement de paris") {
      ContainsAt("arrondissement de paris", "paris", 18);
      ContainsTransitive(name, "arrondissement de paris", "paris");
    }
  }

  /** Any name holding "paris", whatever its case, resolves to Paris, before
      the table is consulted. */
  lemma {:induction false} ParisWins(birthplaceName: string)
    requires Contains(Lower(birthplaceName), "paris")
    ensures Department(birthplaceName) == Some("75")
  {
  }

  /** The lookup ignores case. */
  lemma {:induction false} DepartmentIgnoresCase(birthplaceName: string)
    ensures Department(Lower(birthplaceName)) == Department(birthplaceName)
  {
    LowerIdempotent(birthplaceName);
  }

  /** An entry whose city contains the city of an earlier entry can never
      be the one that answers: the earlier one, or one before it, matches
      first. */
  lemma {:induction false} ShadowedEntry(table: seq<(string, string)>, name: string, i: nat, j: nat)
    requires i < j < |table| && Contains(table[j].0, table[i].0)
    requires Contains(name, table[j].0)
    ensures FirstMatch(table, name).Some?
    ensures exists m :: 0 <= m <= i && FirstMatch(table, name) == Some(table[m].1)
  {
    ContainsTransitive(name, table[j].0, table[i].0);
    FirstMatchSpec(table, name);
    var r := FirstMatch(table, name);
    var m :| 0 <= m < |table| && Contains(name, table[m].0) && r.value == table[m].1 &&
      forall k :: 0 <= k < m ==> !Contains(name, table[k].0);
    assert m <= i;
  }

  /** The table opens with the Hauts-de-Seine block. */
  lemma HautsDeSeineFirst()
    ensures |HautsDeSeineCities| <= |CityToDept|
    ensures forall m :: 0 <= m < |HautsDeSeineCities| ==> CityToDept[m] == (HautsDeSeineCities[m], "92")
  {
    var b := Block("92", HautsDeSeineCities);
    assert CityToDept == b + CityToDept[|b|..];
  }

  /** Where "clichy-sous-bois" and "viry-châtillon" sit in the table. */
  lemma ShadowedEntries()
    ensures |CityToDept| > 104
    ensures CityToDept[104] == ("clichy-sous-bois", "93")
    ensures CityToDept[84] == ("viry-châtillon", "91")
  {
  }

  /** An entry whose city holds the name of a Hauts-de-Seine city that comes
      before it is never the answer: the earlier entry matches first. */
  lemma {:induction false} ShadowedBy92(birthplaceName: string, i: nat, j: nat)
    requires i < |HautsDeSeineCities| && i < j < |CityToDept|
    requires Contains(CityToDept[j].0, HautsDeSeineCities[i])
    requires Contains(Lower(birthplaceName), CityToDept[j].0)
    requires !Contains(Lower(birthplaceName), "paris")
    ensures Department(birthplaceName) == Some("92")
  {
    var name := Lower(birthplaceName);
    MentionsParisIffParis(name);
    HautsDeSeineFirst();
    ShadowedEntry(CityToDept, name, i, j);
  }

  /** "clichy" (a Hauts-de-Seine entry) comes before "clichy-sous-bois", so
      a Clichy-sous-Bois birthplace is filed under 92, not 93. */
  lemma ClichySousBoisShadowed(birthplaceName: string)
    requires Contains(Lower(birthplaceName), "clichy-sous-bois")
    requires !Contains(Lower(birthplaceName), "paris")
    ensures Department(birthplaceName) == Some("92")
  {
    ShadowedEntries();
    assert HautsDeSeineCities[10] == "clichy";
    ContainsAt("clichy-sous-bois", "clichy", 0);
    ShadowedBy92(birthplaceName, 10, 104);
  }

  /** "châtillon" (92) comes before "viry-châtillon" (91), so a
      Viry-Châtillon birthplace is filed under 92. */
  lemma ViryChatillonShadowed(birthplaceName: string)
    requires Contains(Lower(birthplaceName), "viry-châtillon")
    requires !Contains(Lower(birthplaceName), "paris")
    ensures Department(birthplaceName) == Some("92")
  {
    ShadowedEntries();
    assert HautsDeSeineCities[16] == "châtillon";
    ContainsAt("viry-châtillon", "châtillon", 5);
    ShadowedBy92(birthplaceName, 16, 84);
  }

  /** A table city whose name holds "paris" is caught by the Paris test
      first: its own code is never the answer. */
  lemma {:induction false} ParisInCityName(birthplaceName: string, j: nat)
    requires j < |CityToDept| && Contains(CityToDept[j].0, "paris")
    requires Contains(Lower(birthplaceName), CityToDept[j].0)
    ensures Department(birthplaceName) == Some("75")
  {
    ContainsTransitive(Lower(birthplaceName), CityToDept[j].0, "paris");
  }

  /** Villeparisis (77) and Cormeilles-en-Parisis (95) are two such cities. */
  lemma {:induction false} ParisInCityNameEntries()
    ensures CityToDept[73] == ("villeparisis", "77") && Contains(CityToDept[73].0, "paris")
    ensures CityToDept[135] == ("cormeilles-en-parisis", "95") && Contains(CityToDept[135].0, "paris")
  {
    ContainsAt("villeparisis", "paris", 5);
    ContainsAt("cormeilles-en-parisis", "paris", 14);
  }
}
