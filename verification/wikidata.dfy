/** The Wikidata collector's result handling: the SPARQL result cells it
    reads (entity URIs, ISO dates, `Point(...)` literals, comma-separated
    lists), one player record per result row, the département guard, the
    per-département collection and the de-duplication by Wikidata id. The
    HTTP query itself is a parameter: what the endpoint answers for each
    département. */
module Wikidata {
  import opened Wrappers
  import opened Seqs
  import opened Text
  import opened Records

  // ---------------------------------------------------------------------
  // Result cells

  /** One SPARQL result row: the `value` of each bound variable. */
  type Row = map<string, string>

  /** `row.get(name, {}).get("value", "")`. */
  function Field(row: Row, name: string): string {
    if name in row then row[name] else ""
  }

  /** The QID at the end of an entity URI, when the URI names an entity. */
  function ExtractQid(uri: string): Option<string> {
    if Contains(uri, "/entity/Q") then Some(AfterLast(uri, '/')) else None
  }

  /** The date part of an ISO date-time: the text before the first `T`. */
  function ParseDate(value: string): Option<string> {
    if value != "" then Some(BeforeFirst(value, 'T')) else None
  }

  /** `s[6:-1]`: what lies between `Point(` and the closing character. */
  function PointBody(s: string): string {
    if |s| >= 7 then s[6..|s| - 1] else ""
  }

  /** The two tokens of `Point(longitude latitude)`, when there are exactly two. */
  function ParseCoordinates(value: string): Option<Coordinates> {
    if value != "" && IsPrefix("Point(", value) then
      var tokens := SplitWs(PointBody(value));
      if |tokens| == 2 then Some(Coordinates(tokens[0], tokens[1])) else None
    else None
  }

  predicate NonEmpty(s: string) {
    s != ""
  }

  /** `[item.strip() for item in value.split(",") if item.strip()]`. */
  function ParseList(value: string): seq<string> {
    if value != "" then Filter(Map(Split(value, ','), Strip), NonEmpty) else []
  }

  /** The player record built from one result row. */
  function ParseRow(row: Row): Player {
    Player(
      ExtractQid(Field(row, "player")),
      Field(row, "playerLabel"),
      Some(Field(row, "playerDescription")),
      ParseDate(Field(row, "birthDate")),
      Some(Birthplace(
        Field(row, "birthPlaceLabel"),
        ExtractQid(Field(row, "birthPlace")),
        ParseCoordinates(Field(row, "birthPlaceCoord")))),
      ParseList(Field(row, "nationalities")),
      Some(Field(row, "image")),
      None)
  }

  /** One record per row, appended in row order. */
  method ParseResults(rows: seq<Row>) returns (parsed: seq<Player>)
    ensures parsed == Map(rows, ParseRow)
  {
    parsed := [];
    var i := 0;
    while i < |rows|
      invariant i <= |rows|
      invariant parsed == Map(rows[..i], ParseRow)
    {
      PrefixSnoc(rows, i);
      MapSnoc(rows[..i], rows[i], ParseRow);
      parsed := parsed + [ParseRow(rows[i])];
      i := i + 1;
    }
    assert rows[..i] == rows;
  }

  // ---------------------------------------------------------------------
  // Querying one département

  /** The département codes the collector knows, with their QIDs. */
  const DepartmentQids: map<string, string> := map[
    "75" := "Q90", "77" := "Q12753", "78" := "Q12820", "91" := "Q12549",
    "92" := "Q12543", "93" := "Q12761", "94" := "Q12788", "95" := "Q12784"]

  /** The footballers born in département `code`, given what the endpoint
      answers for it: an unknown code is refused before any query. */
  function FootballersByDepartment(code: string, response: Result<seq<Row>>): Result<seq<Player>> {
    if code !in DepartmentQids then Failure(ValueError("Unknown département: " + code))
    else
      match response
      case Failure(e) => Failure(e)
      case Success(rows) => Success(Map(rows, ParseRow))
  }

  // ---------------------------------------------------------------------
  // Collecting every département, then keeping one record per id

  /** The order in which the départements are queried. */
  const CollectionOrder: seq<string> := ["75", "92", "93", "94", "95", "77", "78", "91"]

  /** The players one query contributes: none when it fails. */
  function Contribution(code: string, responses: string -> Result<seq<Row>>): seq<Player> {
    match FootballersByDepartment(code, responses(code))
    case Success(ps) => ps
    case Failure(_) => []
  }

  function Collected(codes: seq<string>, responses: string -> Result<seq<Row>>): seq<Player> {
    FlatMap(codes, code => Contribution(code, responses))
  }

  /** The id a record is kept under, when it is truthy. */
  function IdOf(p: Player): Option<string> {
    match p.wikidataId
    case Some(id) => if id != "" then Some(id) else None
    case None => None
  }

  predicate HasId(p: Player) {
    IdOf(p).Some?
  }

  function Ids(ps: seq<Player>): seq<Option<string>> {
    Map(ps, IdOf)
  }

  /** The records of `ps` whose id is truthy and not yet in `seen`, each
      id's first record only. */
  function UniqueFrom(ps: seq<Player>, seen: set<string>): seq<Player>
    decreases |ps|
  {
    if ps == [] then []
    else if HasId(ps[0]) && IdOf(ps[0]).value !in seen then
      [ps[0]] + UniqueFrom(ps[1..], seen + {IdOf(ps[0]).value})
    else UniqueFrom(ps[1..], seen)
  }

  function Unique(ps: seq<Player>): seq<Player> {
    UniqueFrom(ps, {})
  }

  method Deduplicate(allPlayers: seq<Player>) returns (unique: seq<Player>)
    ensures unique == Unique(allPlayers)
  {
    var seen: set<string> := {};
    unique := [];
    var i := 0;
    while i < |allPlayers|
      invariant i <= |allPlayers|
      invariant unique + UniqueFrom(allPlayers[i..], seen) == Unique(allPlayers)
    {
      var p := allPlayers[i];
      DropOne(allPlayers, i);
      if p.wikidataId.Some? && p.wikidataId.value != "" && p.wikidataId.value !in seen {
        assert unique + UniqueFrom(allPlayers[i..], seen) ==
          (unique + [p]) + UniqueFrom(allPlayers[i + 1..], seen + {p.wikidataId.value});
        seen := seen + {p.wikidataId.value};
        unique := unique + [p];
      }
      i := i + 1;
    }
    assert unique + UniqueFrom(allPlayers[i..], seen) == unique;
  }

  /** Queries every département in turn, skipping those whose query fails,
      and keeps the first record of each id. */
  method CollectFootballers(responses: string -> Result<seq<Row>>) returns (unique: seq<Player>)
    ensures unique == Unique(Collected(CollectionOrder, responses))
  {
    var allPlayers: seq<Player> := [];
    var i := 0;
    while i < |CollectionOrder|
      invariant i <= |CollectionOrder|
      invariant allPlayers == Collected(CollectionOrder[..i], responses)
    {
      var code := CollectionOrder[i];
      PrefixSnoc(CollectionOrder, i);
      FlatMapSnoc(CollectionOrder[..i], code, c => Contribution(c, responses));
      var players := FootballersByDepartment(code, responses(code));
      if players.Success? {
        allPlayers := allPlayers + players.value;
      }
      i := i + 1;
    }
    assert CollectionOrder[..i] == CollectionOrder;
    unique := Deduplicate(allPlayers);
  }

  // ---------------------------------------------------------------------
  // Properties of the cells

  /** An entity URI yields the text after its last `/`, which holds no `/`
      and ends the URI; any other text yields nothing. */
  lemma ExtractQidSpec(uri: string)
    ensures ExtractQid(uri).Some? <==> Contains(uri, "/entity/Q")
    ensures ExtractQid(uri).Some? ==>
      var q := ExtractQid(uri).value;
      '/' !in q && |q| < |uri| && uri[|uri| - |q|..] == q && uri[|uri| - |q| - 1] == '/'
  {
    AfterLastSpec(uri, '/');
    if Contains(uri, "/entity/Q") {
      assert "/entity/Q"[0] == '/';
      if '/' !in uri {
        NotContainsMissingChar(uri, "/entity/Q", '/');
      }
    }
  }

  /** The QID of an entity URI is recovered whole. */
  lemma ExtractQidOfEntity(base: string, q: string)
    requires '/' !in q && |q| > 0 && q[0] == 'Q'
    ensures ExtractQid(base + "/entity/" + q) == Some(q)
  {
    var uri := base + "/entity/" + q;
    assert uri == (base + "/entity") + ['/'] + q;
    assert uri[|base|..|base| + 9] == "/entity/Q";
    ContainsAt(uri, "/entity/Q", |base|);
    SplitConcat(base + "/entity", '/', q);
    SplitWithout(q, '/');
  }

  /** The date is the text before the first `T`, all of the value when it
      holds no `T`; an empty value has no date. */
  lemma ParseDateSpec(value: string)
    ensures ParseDate(value).None? <==> value == ""
    ensures ParseDate(value).Some? ==>
      var d := ParseDate(value).value;
      IsPrefix(d, value) && 'T' !in d && ('T' !in value <==> d == value)
  {
    BeforeFirstSpec(value, 'T');
  }

  /** The date part of a date-time is recovered whole. */
  lemma ParseDateOfDateTime(date: string, time: string)
    requires 'T' !in date
    ensures ParseDate(date + "T" + time) == Some(date)
  {
    assert date + "T" + time == date + ['T'] + time;
    SplitConcat(date, 'T', time);
    SplitWithout(date, 'T');
  }

  /** Coordinates are found only in a `Point(` literal whose body, up to
      the closing character, is two words with whitespace around them and
      between them, and the coordinates are those two words in order. */
  lemma ParseCoordinatesSpec(value: string)
    ensures ParseCoordinates(value).Some? ==>
      var c := ParseCoordinates(value).value;
      && |value| >= 7
      && value == "Point(" + PointBody(value) + [value[|value| - 1]]
      && TwoWordsIn(PointBody(value), c.longitude, c.latitude)
      && IsWord(c.longitude) && IsWord(c.latitude)
  {
    if ParseCoordinates(value).Some? {
      var body := PointBody(value);
      assert |SplitWs(body)| == 2;
      assert |value| < 7 ==> body == "" && SplitWs(body) == [];
      assert value == value[..6] + value[6..|value| - 1] + [value[|value| - 1]];
      TwoWordsShape(body);
    }
  }

  /** The two words of `Point(longitude latitude)` are recovered, whatever
      whitespace surrounds them and whatever closes the literal. */
  lemma ParseCoordinatesOfPoint(a: string, longitude: string, b: string, latitude: string, d: string, close: char)
    requires IsWord(longitude) && IsWord(latitude)
    requires AllSpace(a) && AllSpace(b) && b != [] && AllSpace(d)
    ensures ParseCoordinates("Point(" + a + longitude + b + latitude + d + [close]) ==
      Some(Coordinates(longitude, latitude))
  {
    var body := a + longitude + b + latitude + d;
    var value := "Point(" + a + longitude + b + latitude + d + [close];
    assert value == "Point(" + body + [close];
    assert IsPrefix("Point(", value);
    assert PointBody(value) == body;
    TwoWordsPadded(a, longitude, b, latitude, d);
  }

  /** Every item is non-empty and has nothing for `strip()` to remove, and
      an empty value gives no items. */
  lemma ParseListSpec(value: string)
    ensures value == "" ==> ParseList(value) == []
    ensures forall k :: 0 <= k < |ParseList(value)| ==>
      ParseList(value)[k] != "" && Strip(ParseList(value)[k]) == ParseList(value)[k]
  {
    var items := ParseList(value);
    forall k | 0 <= k < |items| ensures items[k] != "" && Strip(items[k]) == items[k] {
      if value != "" {
        var stripped := Map(Split(value, ','), Strip);
        FilterSpec(stripped, NonEmpty);
        assert items[k] in stripped;
        var j :| 0 <= j < |stripped| && stripped[j] == items[k];
        StripSpec(Split(value, ',')[j]);
        StripStripped(items[k]);
      }
    }
  }

  /** An item `ParseList` can give back unchanged: non-empty, free of
      commas, with no space at either end. */
  predicate IsListItem(item: string) {
    item != "" && ',' !in item && !IsSpace(item[0]) && !IsSpace(item[|item| - 1])
  }

  lemma StripItems(items: seq<string>)
    requires forall k :: 0 <= k < |items| ==> IsListItem(items[k])
    ensures Map(items, Strip) == items
  {
    forall k | 0 <= k < |items| ensures Strip(items[k]) == items[k] {
      StripStripped(items[k]);
    }
  }

  /** Comma-joined pieces that strip to non-empty items parse back to
      those items. */
  lemma ParseListOfPieces(pieces: seq<string>, items: seq<string>)
    requires pieces != [] && |pieces| == |items|
    requires forall k :: 0 <= k < |pieces| ==> ',' !in pieces[k] && Strip(pieces[k]) == items[k] != ""
    ensures ParseList(Join(pieces, ',')) == items
  {
    SplitJoin(pieces, ',');
    assert Map(pieces, Strip) == items;
    FilterAll(items, NonEmpty);
    assert Join(pieces, ',') != "" by {
      assert Split("", ',') == [""];
      assert Strip("") == "";
    }
  }

  /** A list item with whitespace in front holds no comma and strips
      back to the item. */
  lemma PaddedItem(pad: string, item: string)
    requires AllSpace(pad) && IsListItem(item)
    ensures ',' !in pad + item && Strip(pad + item) == item
  {
    StripPadded(pad, item);
    assert ',' !in pad by {
      assert !IsSpace(',');
      assert forall i :: 0 <= i < |pad| ==> pad[i] != ',';
    }
  }

  /** Joining list items with a comma and a run of whitespace (none, or
      the single space of the queries' `separator=", "`) and parsing the
      text back yields the same items, in order. */
  lemma ParseListOfJoin(items: seq<string>, pad: string)
    requires forall k :: 0 <= k < |items| ==> IsListItem(items[k])
    requires AllSpace(pad)
    ensures ParseList(JoinWith(items, "," + pad)) == items
  {
    if items != [] {
      var pieces := [items[0]] + Prefixed(pad, items[1..]);
      assert "," + pad == [','] + pad;
      JoinWithPadded(items, ',', pad);
      forall k | 0 <= k < |pieces| ensures ',' !in pieces[k] && Strip(pieces[k]) == items[k] != "" {
        if k == 0 {
          StripStripped(items[0]);
        } else {
          assert pieces[k] == pad + items[k];
          PaddedItem(pad, items[k]);
        }
      }
      ParseListOfPieces(pieces, items);
    }
  }

  /** A list the queries build with `GROUP_CONCAT(...; separator=", ")`
      parses back to its items. */
  lemma ParseListOfGroupConcat(items: seq<string>)
    requires forall k :: 0 <= k < |items| ==> IsListItem(items[k])
    ensures ParseList(JoinWith(items, ", ")) == items
  {
    assert AllSpace(" ");
    assert ", " == "," + " ";
    ParseListOfJoin(items, " ");
  }

  /** A row without any bound variable gives empty texts and no optional
      values. */
  lemma ParseRowDefaults()
    ensures ParseRow(map[]) ==
      Player(None, "", Some(""), None, Some(Birthplace("", None, None)), [], Some(""), None)
  {
    assert !Contains("", "/entity/Q");
    assert !IsPrefix("Point(", "");
  }

  // ---------------------------------------------------------------------
  // Properties of the collection

  /** An unknown département code is refused with a ValueError; a known
      one fails only when its query does, and then gives one record per
      result row. */
  lemma FootballersByDepartmentSpec(code: string, response: Result<seq<Row>>)
    ensures code !in DepartmentQids ==>
      FootballersByDepartment(code, response) == Failure(ValueError("Unknown département: " + code))
    ensures code in DepartmentQids ==>
      (FootballersByDepartment(code, response).Success? <==> response.Success?)
    ensures code in DepartmentQids && response.Success? ==>
      |FootballersByDepartment(code, response).value| == |response.value|
  {
  }

  /** The collection queries each of the eight known départements once, so
      the unknown-code guard never fires during it. */
  lemma CollectionOrderSpec()
    ensures NoDuplicates(CollectionOrder) && |CollectionOrder| == |DepartmentQids|
    ensures forall code :: code in CollectionOrder <==> code in DepartmentQids
  {
    assert DepartmentQids.Keys == {"75", "92", "93", "94", "95", "77", "78", "91"};
    assert NoDuplicates(CollectionOrder) by {
      assert forall i :: 0 <= i < |CollectionOrder| ==> |CollectionOrder[i]| == 2;
      assert forall i, j :: 0 <= i < j < |CollectionOrder| ==> CollectionOrder[i][0] != CollectionOrder[j][0] || CollectionOrder[i][1] != CollectionOrder[j][1];
    }
  }

  /** Every collected record was parsed from a row the endpoint returned
      for one of the queried départements. */
  lemma CollectedFromResponses(codes: seq<string>, responses: string -> Result<seq<Row>>, p: Player)
    requires p in Collected(codes, responses)
    ensures exists i ::
      0 <= i < |codes| && codes[i] in DepartmentQids &&
      responses(codes[i]).Success? && p in Map(responses(codes[i]).value, ParseRow)
  {
    FlatMapMember(codes, code => Contribution(code, responses), p);
  }

  /** De-duplication keeps only records with a truthy id not in `seen`. */
  lemma {:induction false} UniqueFromFresh(ps: seq<Player>, seen: set<string>)
    ensures forall q :: q in UniqueFrom(ps, seen) ==> HasId(q) && IdOf(q).value !in seen
    decreases |ps|
  {
    if ps != [] {
      var p := ps[0];
      var kept := HasId(p) && IdOf(p).value !in seen;
      var seen' := if kept then seen + {IdOf(p).value} else seen;
      UniqueFromFresh(ps[1..], seen');
    }
  }

  /** De-duplication keeps no id twice. */
  lemma {:induction false} UniqueFromDistinct(ps: seq<Player>, seen: set<string>)
    ensures NoDuplicates(Ids(UniqueFrom(ps, seen)))
    decreases |ps|
  {
    if ps != [] {
      var p := ps[0];
      var u := UniqueFrom(ps, seen);
      var kept := HasId(p) && IdOf(p).value !in seen;
      var seen' := if kept then seen + {IdOf(p).value} else seen;
      var rest := UniqueFrom(ps[1..], seen');
      UniqueFromDistinct(ps[1..], seen');
      if kept {
        UniqueFromFresh(ps[1..], seen');
        assert u == [p] + rest;
        assert Ids(u) == [IdOf(p)] + Ids(rest);
        forall k | 0 <= k < |rest| ensures Ids(rest)[k] != IdOf(p) {
          assert rest[k] in rest;
        }
      }
    }
  }

  /** De-duplication keeps the input order. */
  lemma {:induction false} UniqueFromOrder(ps: seq<Player>, seen: set<string>)
    ensures IsSubsequence(UniqueFrom(ps, seen), ps)
    decreases |ps|
  {
    if ps != [] {
      var p := ps[0];
      var kept := HasId(p) && IdOf(p).value !in seen;
      var seen' := if kept then seen + {IdOf(p).value} else seen;
      UniqueFromOrder(ps[1..], seen');
    }
  }

  /** Every truthy id of the input that is not in `seen` is kept. */
  lemma {:induction false} UniqueFromKeepsIds(ps: seq<Player>, seen: set<string>)
    ensures forall i :: 0 <= i < |ps| && HasId(ps[i]) && IdOf(ps[i]).value !in seen ==>
      IdOf(ps[i]) in Ids(UniqueFrom(ps, seen))
    decreases |ps|
  {
    if ps != [] {
      var p := ps[0];
      var u := UniqueFrom(ps, seen);
      var kept := HasId(p) && IdOf(p).value !in seen;
      var seen' := if kept then seen + {IdOf(p).value} else seen;
      var rest := UniqueFrom(ps[1..], seen');
      UniqueFromKeepsIds(ps[1..], seen');
      assert Ids(u) == if kept then [IdOf(p)] + Ids(rest) else Ids(rest);
      forall i | 0 <= i < |ps| && HasId(ps[i]) && IdOf(ps[i]).value !in seen
        ensures IdOf(ps[i]) in Ids(u)
      {
        if i > 0 && !(kept && IdOf(ps[i]) == IdOf(p)) {
          assert ps[1..][i - 1] == ps[i];
        }
      }
    }
  }

  /** Each kept record is the first record of the input with its id. */
  lemma {:induction false} UniqueFromFirst(ps: seq<Player>, seen: set<string>)
    ensures forall q :: q in UniqueFrom(ps, seen) ==>
      exists i :: 0 <= i < |ps| && ps[i] == q && forall j :: 0 <= j < i ==> IdOf(ps[j]) != IdOf(q)
    decreases |ps|
  {
    if ps != [] {
      var p := ps[0];
      var u := UniqueFrom(ps, seen);
      var kept := HasId(p) && IdOf(p).value !in seen;
      var seen' := if kept then seen + {IdOf(p).value} else seen;
      var rest := UniqueFrom(ps[1..], seen');
      UniqueFromFirst(ps[1..], seen');
      UniqueFromFresh(ps[1..], seen');
      assert u == if kept then [p] + rest else rest;
      forall q | q in u
        ensures exists i :: 0 <= i < |ps| && ps[i] == q && forall j :: 0 <= j < i ==> IdOf(ps[j]) != IdOf(q)
      {
        if kept && q == p {
          assert ps[0] == q;
        } else {
          assert q in rest;
          var i :| 0 <= i < |ps[1..]| && ps[1..][i] == q &&
            forall j :: 0 <= j < i ==> IdOf(ps[1..][j]) != IdOf(q);
          assert IdOf(p) != IdOf(q);
          forall j | 0 <= j < i + 1 ensures IdOf(ps[j]) != IdOf(q) {
            if j > 0 {
              assert ps[j] == ps[1..][j - 1];
            }
          }
          assert ps[i + 1] == q;
        }
      }
    }
  }

  /** De-duplication by id: every kept record has a truthy id, no id is
      kept twice, input order is preserved, each id keeps its first record,
      and every truthy id of the input is kept. */
  lemma UniqueSpec(ps: seq<Player>)
    ensures forall q :: q in Unique(ps) ==> HasId(q)
    ensures NoDuplicates(Ids(Unique(ps)))
    ensures IsSubsequence(Unique(ps), ps)
    ensures forall i :: 0 <= i < |ps| && HasId(ps[i]) ==> IdOf(ps[i]) in Ids(Unique(ps))
    ensures forall q :: q in Unique(ps) ==>
      exists i :: 0 <= i < |ps| && ps[i] == q && forall j :: 0 <= j < i ==> IdOf(ps[j]) != IdOf(q)
  {
    UniqueFromFresh(ps, {});
    UniqueFromDistinct(ps, {});
    UniqueFromOrder(ps, {});
    UniqueFromKeepsIds(ps, {});
    UniqueFromFirst(ps, {});
  }
}
