/** The retry collection for Seine-Saint-Denis (93) and Val-d'Oise (95):
    its own row parser, the tagging of each player with the département it
    was collected for, and the merge that appends to the main dataset every
    collected player whose id it does not hold yet. The endpoint is a
    parameter: the rows it returns for each département QID (a failed
    query returns no rows). */
module Retry {
  import opened Wrappers
  import opened Seqs
  import opened Text
  import opened Records
  import Wikidata

  // ---------------------------------------------------------------------
  // Parsing

  /** The player built from one row: the id is the text after the last `/`
      of the URI, whatever the URI, and the date is the text before the
      first `T` (an empty value stays empty). */
  function RetryParseRow(row: Wikidata.Row): Player {
    Player(
      Some(AfterLast(Wikidata.Field(row, "player"), '/')),
      Wikidata.Field(row, "playerLabel"),
      None,
      Some(BeforeFirst(Wikidata.Field(row, "birthDate"), 'T')),
      Some(Birthplace(
        Wikidata.Field(row, "birthPlaceLabel"),
        Some(AfterLast(Wikidata.Field(row, "birthPlace"), '/')),
        None)),
      Filter(Map(Split(Wikidata.Field(row, "nationalities"), ','), Strip), Wikidata.NonEmpty),
      None,
      None)
  }

  method ParseResults(rows: seq<Wikidata.Row>) returns (players: seq<Player>)
    ensures players == Map(rows, RetryParseRow)
  {
    players := [];
    var i := 0;
    while i < |rows|
      invariant i <= |rows|
      invariant players == Map(rows[..i], RetryParseRow)
    {
      PrefixSnoc(rows, i);
      MapSnoc(rows[..i], rows[i], RetryParseRow);
      players := players + [RetryParseRow(rows[i])];
      i := i + 1;
    }
    assert rows[..i] == rows;
  }

  // ---------------------------------------------------------------------
  // Collecting the two départements

  datatype Department = Department(qid: string, name: string, code: string)

  const RetryDepartments: seq<Department> := [
    Department("Q12761", "Seine-Saint-Denis (93)", "93"),
    Department("Q12784", "Val-d'Oise (95)", "95")
  ]

  function Tag(p: Player, code: string): Player {
    p.(department := Some(code))
  }

  /** The players of one département, each tagged with its code. */
  function Tagged(players: seq<Player>, code: string): (r: seq<Player>)
    ensures |r| == |players|
    ensures forall i :: 0 <= i < |players| ==> r[i] == Tag(players[i], code)
  {
    seq(|players|, i requires 0 <= i < |players| => Tag(players[i], code))
  }

  /** Sets the department of every player in place. */
  method TagDepartment(players: seq<Player>, code: string) returns (tagged: seq<Player>)
    ensures tagged == Tagged(players, code)
  {
    tagged := players;
    var i := 0;
    while i < |tagged|
      invariant i <= |tagged| == |players|
      invariant forall j :: 0 <= j < i ==> tagged[j] == Tag(players[j], code)
      invariant forall j :: i <= j < |tagged| ==> tagged[j] == players[j]
    {
      tagged := tagged[i := tagged[i].(department := Some(code))];
      i := i + 1;
    }
  }

  function DepartmentPlayers(d: Department, results: string -> seq<Wikidata.Row>): seq<Player> {
    Tagged(Map(results(d.qid), RetryParseRow), d.code)
  }

  function RetryCollected(results: string -> seq<Wikidata.Row>): seq<Player> {
    FlatMap(RetryDepartments, d => DepartmentPlayers(d, results))
  }

  method CollectRetry(results: string -> seq<Wikidata.Row>) returns (allPlayers: seq<Player>)
    ensures allPlayers == RetryCollected(results)
  {
    allPlayers := [];
    var i := 0;
    while i < |RetryDepartments|
      invariant i <= |RetryDepartments|
      invariant allPlayers == FlatMap(RetryDepartments[..i], d => DepartmentPlayers(d, results))
    {
      var d := RetryDepartments[i];
      PrefixSnoc(RetryDepartments, i);
      FlatMapSnoc(RetryDepartments[..i], d, d => DepartmentPlayers(d, results));
      var players := ParseResults(results(d.qid));
      players := TagDepartment(players, d.code);
      allPlayers := allPlayers + players;
      i := i + 1;
    }
    assert RetryDepartments[..i] == RetryDepartments;
  }

  // ---------------------------------------------------------------------
  // Merging into the main dataset

  function IdSet(ps: seq<Player>): set<Option<string>> {
    set p | p in ps :: p.wikidataId
  }

  function IdList(ps: seq<Player>): seq<Option<string>> {
    Map(ps, (p: Player) => p.wikidataId)
  }

  /** The players of `ps` whose id is not in `seen` and not taken by an
      earlier player of `ps`, in order. */
  function NewPlayers(ps: seq<Player>, seen: set<Option<string>>): seq<Player>
    decreases |ps|
  {
    if ps == [] then []
    else if ps[0].wikidataId !in seen then
      [ps[0]] + NewPlayers(ps[1..], seen + {ps[0].wikidataId})
    else NewPlayers(ps[1..], seen)
  }

  /** The main dataset file: its players and the count in its metadata. */
  class MainData {
    var players: seq<Player>
    var count: int

    constructor(players: seq<Player>, count: int)
      ensures this.players == players && this.count == count
    {
      this.players := players;
      this.count := count;
    }

    /** Appends every collected player whose id is new, then records the
        new length in the metadata. */
    method Merge(collected: seq<Player>) returns (newCount: nat)
      modifies this
      ensures players == old(players) + NewPlayers(collected, IdSet(old(players)))
      ensures newCount == |NewPlayers(collected, IdSet(old(players)))|
      ensures count == |players|
    {
      var existingIds := IdSet(players);
      newCount := 0;
      var i := 0;
      while i < |collected|
        invariant i <= |collected|
        invariant players + NewPlayers(collected[i..], existingIds) ==
          old(players) + NewPlayers(collected, IdSet(old(players)))
        invariant |players| == |old(players)| + newCount
      {
        var player := collected[i];
        DropOne(collected, i);
        if player.wikidataId !in existingIds {
          assert players + NewPlayers(collected[i..], existingIds) ==
            (players + [player]) + NewPlayers(collected[i + 1..], existingIds + {player.wikidataId});
          players := players + [player];
          existingIds := existingIds + {player.wikidataId};
          newCount := newCount + 1;
        }
        i := i + 1;
      }
      assert players + NewPlayers(collected[i..], existingIds) == players;
      count := |players|;
    }
  }

  // ---------------------------------------------------------------------
  // Properties

  /** The nationalities are parsed as the collector parses them, empty
      value included. */
  lemma RetryNationalitiesAgree(row: Wikidata.Row)
    ensures RetryParseRow(row).nationalities == Wikidata.ParseRow(row).nationalities
  {
    var value := Wikidata.Field(row, "nationalities");
    if value == "" {
      assert Split(value, ',') == [""];
      assert Map([""], Strip) == [""];
      assert Filter([""], Wikidata.NonEmpty) == [];
    }
  }

  /** The two parsers agree on entity URIs and on non-empty dates; without
      the entity check, any text gives an id here, and an empty date gives
      the empty text. */
  lemma RetryParseComparedToCollector(row: Wikidata.Row)
    ensures Contains(Wikidata.Field(row, "player"), "/entity/Q") ==>
      RetryParseRow(row).wikidataId == Wikidata.ParseRow(row).wikidataId
    ensures !Contains(Wikidata.Field(row, "player"), "/entity/Q") ==>
      RetryParseRow(row).wikidataId.Some? && Wikidata.ParseRow(row).wikidataId.None?
    ensures Wikidata.Field(row, "birthDate") != "" ==>
      RetryParseRow(row).dateOfBirth == Wikidata.ParseRow(row).dateOfBirth
    ensures Wikidata.Field(row, "birthDate") == "" ==> RetryParseRow(row).dateOfBirth == Some("")
    ensures RetryParseRow(row).nationalities == Wikidata.ParseRow(row).nationalities
  {
    RetryNationalitiesAgree(row);
  }

  /** The collection is the 93 players followed by the 95 players. */
  lemma RetryCollectedParts(results: string -> seq<Wikidata.Row>)
    ensures RetryCollected(results) ==
      Tagged(Map(results("Q12761"), RetryParseRow), "93") + Tagged(Map(results("Q12784"), RetryParseRow), "95")
  {
    FlatMapPair(RetryDepartments[0], RetryDepartments[1], d => DepartmentPlayers(d, results));
  }

  /** Two tagged batches side by side: each position holds the tagged
      record of its own row. */
  lemma TaggedBatches<T>(rows: seq<T>, code: string, rows': seq<T>, code': string, parse: T -> Player)
    ensures var all := Tagged(Map(rows, parse), code) + Tagged(Map(rows', parse), code');
      && |all| == |rows| + |rows'|
      && (forall i :: 0 <= i < |rows| ==> all[i] == Tag(parse(rows[i]), code))
      && (forall i :: |rows| <= i < |all| ==> all[i] == Tag(parse(rows'[i - |rows|]), code'))
  {
    var ps, ps' := Map(rows, parse), Map(rows', parse);
    var first, second := Tagged(ps, code), Tagged(ps', code');
    var all := first + second;
    assert |first| == |rows| && |second| == |rows'|;
    forall i | |rows| <= i < |all| ensures all[i] == Tag(parse(rows'[i - |rows|]), code') {
      var k := i - |rows|;
      assert all[i] == second[k] == Tag(ps'[k], code');
    }
  }

  /** Every collected player carries the code of the département it was
      queried for, and nothing else about it changes. */
  lemma CollectedTagged(results: string -> seq<Wikidata.Row>)
    ensures var all := RetryCollected(results);
      var n93 := |results("Q12761")|;
      && |all| == n93 + |results("Q12784")|
      && (forall i :: 0 <= i < n93 ==> all[i] == Tag(RetryParseRow(results("Q12761")[i]), "93"))
      && (forall i :: n93 <= i < |all| ==> all[i] == Tag(RetryParseRow(results("Q12784")[i - n93]), "95"))
  {
    RetryCollectedParts(results);
    TaggedBatches(results("Q12761"), "93", results("Q12784"), "95", RetryParseRow);
  }

  /** The merge appends only players whose id is not in `seen`. */
  lemma {:induction false} NewPlayersFresh(ps: seq<Player>, seen: set<Option<string>>)
    ensures forall q :: q in NewPlayers(ps, seen) ==> q.wikidataId !in seen
    decreases |ps|
  {
    if ps != [] {
      var p := ps[0];
      var seen' := if p.wikidataId !in seen then seen + {p.wikidataId} else seen;
      NewPlayersFresh(ps[1..], seen');
    }
  }

  /** The merge appends no id twice. */
  lemma {:induction false} NewPlayersDistinct(ps: seq<Player>, seen: set<Option<string>>)
    ensures NoDuplicates(IdList(NewPlayers(ps, seen)))
    decreases |ps|
  {
    if ps != [] {
      var p := ps[0];
      var kept := p.wikidataId !in seen;
      var seen' := if kept then seen + {p.wikidataId} else seen;
      var rest := NewPlayers(ps[1..], seen');
      var u := NewPlayers(ps, seen);
      NewPlayersDistinct(ps[1..], seen');
      if kept {
        NewPlayersFresh(ps[1..], seen');
        assert u == [p] + rest;
        assert IdList(u) == [p.wikidataId] + IdList(rest);
        forall k | 0 <= k < |rest| ensures IdList(rest)[k] != p.wikidataId {
          assert rest[k] in rest;
        }
      }
    }
  }

  /** The merge appends players in collection order. */
  lemma {:induction false} NewPlayersOrder(ps: seq<Player>, seen: set<Option<string>>)
    ensures IsSubsequence(NewPlayers(ps, seen), ps)
    decreases |ps|
  {
    if ps != [] {
      var p := ps[0];
      var seen' := if p.wikidataId !in seen then seen + {p.wikidataId} else seen;
      NewPlayersOrder(ps[1..], seen');
    }
  }

  /** Every collected id ends up either in `seen` or among the appended
      players. */
  lemma {:induction false} NewPlayersCover(ps: seq<Player>, seen: set<Option<string>>)
    ensures forall p :: p in ps ==> p.wikidataId in seen || p.wikidataId in IdList(NewPlayers(ps, seen))
    decreases |ps|
  {
    if ps != [] {
      var p := ps[0];
      var kept := p.wikidataId !in seen;
      var seen' := if kept then seen + {p.wikidataId} else seen;
      var rest := NewPlayers(ps[1..], seen');
      var u := NewPlayers(ps, seen);
      NewPlayersCover(ps[1..], seen');
      if kept {
        assert u == [p] + rest;
        assert IdList(u) == [p.wikidataId] + IdList(rest);
      }
      forall x | x in ps ensures x.wikidataId in seen || x.wikidataId in IdList(u) {
        if x != p {
          assert x in ps[1..];
        }
      }
    }
  }

  /** A main dataset without repeated ids keeps that property through the
      merge. */
  lemma MergeKeepsIdsUnique(main: seq<Player>, collected: seq<Player>)
    requires NoDuplicates(IdList(main))
    ensures NoDuplicates(IdList(main + NewPlayers(collected, IdSet(main))))
  {
    var added := NewPlayers(collected, IdSet(main));
    NewPlayersFresh(collected, IdSet(main));
    NewPlayersDistinct(collected, IdSet(main));
    var merged := main + added;
    assert IdList(merged) == IdList(main) + IdList(added);
    forall i, j | 0 <= i < j < |merged| ensures IdList(merged)[i] != IdList(merged)[j] {
      if j >= |main| && i < |main| {
        assert merged[j] in added;
        assert main[i] in main;
      }
    }
  }

  /** The merge adds exactly the ids of the collected players. */
  lemma MergeIds(main: seq<Player>, collected: seq<Player>)
    ensures IdSet(main + NewPlayers(collected, IdSet(main))) == IdSet(main) + IdSet(collected)
  {
    var added := NewPlayers(collected, IdSet(main));
    NewPlayersCover(collected, IdSet(main));
    NewPlayersOrder(collected, IdSet(main));
    var merged := main + added;
    forall x | x in IdSet(collected) ensures x in IdSet(merged) {
      var p :| p in collected && p.wikidataId == x;
      if x !in IdSet(main) {
        var k :| 0 <= k < |added| && IdList(added)[k] == x;
        assert added[k] in merged;
      }
    }
    forall x | x in IdSet(merged) ensures x in IdSet(main) + IdSet(collected) {
      var p :| p in merged && p.wikidataId == x;
      if p !in main {
        assert p in added;
        IsSubsequenceMember(added, collected, p);
      }
    }
  }
}
