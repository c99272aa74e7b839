/** BuildingMatchEvaluator: the command-line dialogue that asks whether a
    scraped location was matched to the right building and records a new
    alias for the building the user names. The MongoDB collection is the
    sequence of its documents in natural order; the keyboard is the
    sequence of lines input() would return. */
module BuildingDbUpdater {
  import opened Wrappers
  import opened Calendar

  /** A buildings document: its formal name and its list of aliases. */
  datatype Building = Building(name: string, aliases: seq<string>)

  /** The 'name' field of every document, in order. */
  function Names(bs: seq<Building>): (r: seq<string>)
    ensures |r| == |bs|
    ensures forall i :: 0 <= i < |bs| ==> r[i] == bs[i].name
  {
    seq(|bs|, i requires 0 <= i < |bs| => bs[i].name)
  }

  /** The position of the document find_one({'name': name}) returns: the
      first one with that name. */
  function FirstNamed(bs: seq<Building>, name: string): (r: Option<nat>)
    ensures r.None? <==> name !in Names(bs)
    ensures r.Some? ==> r.value < |bs| && bs[r.value].name == name
    ensures r.Some? ==> forall j :: 0 <= j < r.value ==> bs[j].name != name
  {
    if |bs| == 0 then None
    else if bs[0].name == name then Some(0)
    else
      match FirstNamed(bs[1..], name)
      case None => None
      case Some(k) => Some(k + 1)
  }

  /** update({'name': name}, {'$set': {'aliases': aliases + [alias]}}) where
      aliases are those of the same document: the first document with that
      name gets the alias appended and nothing else in the collection
      changes. When no document has the name, find_one returns None and
      building_document['aliases'] raises a TypeError; the dialogue never
      reaches that case under Valid(), where every formal name it accepts
      names a document, and the identity branch here only keeps the function
      total. */
  function AppendAlias(bs: seq<Building>, name: string, alias: string): (r: seq<Building>)
    ensures Names(r) == Names(bs)
    ensures FirstNamed(bs, name).None? ==> r == bs
    ensures FirstNamed(bs, name).Some? ==>
      r[FirstNamed(bs, name).value].aliases == bs[FirstNamed(bs, name).value].aliases + [alias]
    ensures forall j :: 0 <= j < |bs| && Some(j) != FirstNamed(bs, name) ==> r[j] == bs[j]
  {
    match FirstNamed(bs, name)
    case None => bs
    case Some(k) => bs[k := Building(name, bs[k].aliases + [alias])]
  }

  /** What one run of the dialogue ends with. */
  datatype Outcome =
    | Confirmed                                     // the answer to the first prompt was exactly "y"
    | NoAliasAdded(building: string)                // a building was named and the alias left empty
    | AliasAdded(building: string, alias: string)   // a building was named and given a new alias
    | InputExhausted                                // input() reached end of file: EOFError

  /** The first position from i on whose line is one of the formal names:
      the answer that ends the "keep asking" loop. */
  function FirstKnownFrom(names: seq<string>, responses: seq<string>, i: nat): (r: Option<nat>)
    requires i <= |responses|
    ensures r.None? <==> forall k :: i <= k < |responses| ==> responses[k] !in names
    ensures r.Some? ==> i <= r.value < |responses| && responses[r.value] in names
    ensures r.Some? ==> forall k :: i <= k < r.value ==> responses[k] !in names
    decreases |responses| - i
  {
    if i == |responses| then None
    else if responses[i] in names then Some(i)
    else FirstKnownFrom(names, responses, i + 1)
  }

  /** The answers the prompts read, in order, and how the dialogue ends:
      "y" to the first prompt confirms; otherwise the building prompt repeats
      until a formal name is typed, and the line after it is the alias. The
      second component is the number of lines read. */
  function Dialogue(names: seq<string>, responses: seq<string>): (r: (Outcome, nat))
    ensures r.1 <= |responses|
    ensures r.0 == Confirmed <==> |responses| > 0 && responses[0] == "y"
    ensures r.0 == Confirmed ==> r.1 == 1
    ensures r.0 == InputExhausted <==>
      |responses| == 0
      || (responses[0] != "y"
          && (FirstKnownFrom(names, responses, 1).None? || FirstKnownFrom(names, responses, 1).value + 1 == |responses|))
    ensures r.0 == InputExhausted ==> r.1 == |responses|
    ensures r.0.NoAliasAdded? || r.0.AliasAdded? ==>
      var k := FirstKnownFrom(names, responses, 1);
      |responses| > 0 && responses[0] != "y" && k.Some? && k.value + 1 < |responses|
      && r.0.building == responses[k.value] && r.0.building in names
      && r.1 == k.value + 2
    ensures r.0.NoAliasAdded? ==> responses[r.1 - 1] == ""
    ensures r.0.AliasAdded? ==> r.0.alias == responses[r.1 - 1] && r.0.alias != ""
  {
    if |responses| == 0 then (InputExhausted, 0)
    else if responses[0] == "y" then (Confirmed, 1)
    else
      match FirstKnownFrom(names, responses, 1)
      case None => (InputExhausted, |responses|)
      case Some(k) =>
        if k + 1 == |responses| then (InputExhausted, |responses|)
        else if responses[k + 1] == "" then (NoAliasAdded(responses[k]), k + 2)
        else (AliasAdded(responses[k], responses[k + 1]), k + 2)
  }

  /** The collection after a dialogue: only an added alias changes it. */
  function AfterDialogue(bs: seq<Building>, outcome: Outcome): seq<Building>
  {
    if outcome.AliasAdded? then AppendAlias(bs, outcome.building, outcome.alias) else bs
  }

  /** While the collection keeps the snapshot's names, an alias the dialogue
      adds lands on a document of the building typed: afterwards that
      document lists it last, and every other document is as it was. */
  lemma AddedAliasIsRecorded(bs: seq<Building>, snapshot: seq<Building>, responses: seq<string>)
    requires Names(bs) == Names(snapshot)
    ensures var d := Dialogue(Names(snapshot), responses);
      d.0.AliasAdded? ==>
        var k := FirstNamed(bs, d.0.building);
        k.Some?
        && AfterDialogue(bs, d.0)[k.value].name == d.0.building
        && AfterDialogue(bs, d.0)[k.value].aliases == bs[k.value].aliases + [d.0.alias]
        && forall j :: 0 <= j < |bs| && j != k.value ==> AfterDialogue(bs, d.0)[j] == bs[j]
  {
  }

  /** A session that rejects the match, mistypes the building once, then
      names it and gives an alias: four lines read, the alias added. */
  lemma RetypedBuildingExample()
    ensures Dialogue(["Gould Library", "Sayles-Hill"], ["n", "Libe", "Gould Library", "the libe"])
            == (AliasAdded("Gould Library", "the libe"), 4)
  {
    var names := ["Gould Library", "Sayles-Hill"];
    var responses := ["n", "Libe", "Gould Library", "the libe"];
    assert "Libe" != names[0] && "Libe" != names[1];
    assert responses[1] !in names;
    assert responses[2] in names;
    assert FirstKnownFrom(names, responses, 1) == Some(2);
  }

  class BuildingMatchEvaluator {
    const startDate: Date
    const endDate: Date
    /** The buildings collection, as it is now. */
    var buildingsCollection: seq<Building>
    /** The documents as they were when the evaluator was made; the formal
        names the dialogue accepts come from here and never change. */
    const currentBuildings: seq<Building>

    /** Aliases are only ever added, so the live collection keeps the
        snapshot's names and find_one always finds the building typed. */
    ghost predicate Valid()
      reads this
    {
      Names(buildingsCollection) == Names(currentBuildings)
    }

    /** __init__: keep the dates and the collection, and take the snapshot. */
    constructor (startDate: Date, endDate: Date, collection: seq<Building>)
      ensures this.startDate == startDate && this.endDate == endDate
      ensures buildingsCollection == collection && currentBuildings == collection
      ensures Valid()
    {
      this.startDate := startDate;
      this.endDate := endDate;
      buildingsCollection := collection;
      currentBuildings := collection;
    }

    /** cl_user_update_aliases: the prompts, then the update of the collection.
        The location, the match and its score are only printed. */
    method ClUserUpdateAliases(fullLocation: string, closestMatch: string, closestScore: int, responses: seq<string>)
      returns (outcome: Outcome, consumed: nat)
      requires Valid()
      modifies this`buildingsCollection
      ensures Valid()
      ensures (outcome, consumed) == Dialogue(Names(currentBuildings), responses)
      ensures buildingsCollection == AfterDialogue(old(buildingsCollection), outcome)
    {
      var formalBuildingNames := Names(currentBuildings);
      if |responses| == 0 {
        return InputExhausted, 0;
      }
      var buildingWasCorrect := responses[0];
      consumed := 1;
      if buildingWasCorrect == "y" {
        return Confirmed, consumed;
      }

      if consumed == |responses| {
        return InputExhausted, consumed;
      }
      var correctBuilding := responses[consumed];
      consumed := consumed + 1;
      while correctBuilding !in formalBuildingNames
        invariant 2 <= consumed <= |responses|
        invariant correctBuilding == responses[consumed - 1]
        invariant forall k :: 1 <= k < consumed - 1 ==> responses[k] !in formalBuildingNames
        decreases |responses| - consumed
      {
        if consumed == |responses| {
          return InputExhausted, consumed;
        }
        correctBuilding := responses[consumed];
        consumed := consumed + 1;
      }
      assert FirstKnownFrom(formalBuildingNames, responses, 1) == Some(consumed - 1);

      if consumed == |responses| {
        return InputExhausted, consumed;
      }
      var newAlias := responses[consumed];
      consumed := consumed + 1;

      if newAlias == "" {
        outcome := NoAliasAdded(correctBuilding);
      } else {
        var found := FirstNamed(buildingsCollection, correctBuilding);
        var buildingDocument := buildingsCollection[found.value];
        var updatedAliases := buildingDocument.aliases + [newAlias];
        buildingsCollection := buildingsCollection[found.value := Building(correctBuilding, updatedAliases)];
        outcome := AliasAdded(correctBuilding, newAlias);
      }
    }
  }
}
