/** `campus.CampusLocations`: the immutable id and building tables, their lookups, the compass
    direction of an angle and the two sorted building listings. */
module CampusLocations {
  import opened Wrappers
  import opened StringOrder
  import opened CampusParsing

  /** The eight compass names, one per 45-degree sector clockwise from North. */
  const CompassNames: seq<string> :=
    ["North", "NorthEast", "East", "SouthEast", "South", "SouthWest", "West", "NorthWest"]

  /** `getDirection` after the angle has been computed: a negative angle is shifted by 360
      once, then the sector boundaries lie at 22.5 + 45k degrees. */
  function Direction(angle: real): (r: string)
    ensures r in CompassNames
  {
    var a := if angle < 0.0 then angle + 360.0 else angle;
    if a < 22.5 then "North"
    else if a < 67.5 then "NorthEast"
    else if a < 112.5 then "East"
    else if a < 157.5 then "SouthEast"
    else if a < 202.5 then "South"
    else if a < 247.5 then "SouthWest"
    else if a < 292.5 then "West"
    else if a < 337.5 then "NorthWest"
    else "North"
  }

  /** On one full turn either side of zero, the direction is the sector the shifted angle falls
      in, counting sectors centred on multiples of 45 degrees; sector 8 wraps round to North. */
  lemma DirectionSector(angle: real, k: nat)
    requires -360.0 <= angle < 360.0 && k <= 8
    requires var a := if angle < 0.0 then angle + 360.0 else angle;
             45.0 * k as real - 22.5 <= a < 45.0 * k as real + 22.5
    ensures Direction(angle) == CompassNames[k % 8]
  {
  }

  /** The line `listAllBuildings` prints for a named id. */
  function BuildingLine(name: string, id: string): string
  {
    name + "," + id + "\n"
  }

  /** Concatenation of a list of strings. */
  function Concat(s: seq<string>): string
  {
    if s == [] then "" else Concat(s[..|s| - 1]) + s[|s| - 1]
  }

  /** The output loop of `listAllBuildings`: the lines appended one after another. */
  method ConcatAll(lines: seq<string>) returns (r: string)
    ensures r == Concat(lines)
  {
    r := "";
    for i := 0 to |lines|
      invariant r == Concat(lines[..i])
    {
      assert lines[..i + 1][..i] == lines[..i];
      r := r + lines[i];
    }
    assert lines[..|lines|] == lines;
  }

  datatype Locations = Locations(dataFromIDs: map<string, Record>, buildings: map<string, string>)
  {
    /** `getID`: the id stored for a building name, if any. */
    function GetID(name: string): (r: Option<string>)
      ensures r.Some? <==> name in buildings
      ensures r.Some? ==> r.value == buildings[name]
    {
      if name in buildings then Some(buildings[name]) else None
    }

    /** `getName`: field 0 of the id's record, if any. */
    function GetName(id: string): (r: Option<string>)
      ensures r.Some? <==> id in dataFromIDs
      ensures r.Some? ==> r.value == dataFromIDs[id].name
    {
      if id in dataFromIDs then Some(dataFromIDs[id].name) else None
    }

    /** `getX`: field 1 of the id's record, if any. */
    function GetX(id: string): (r: Option<string>)
      ensures r.Some? <==> id in dataFromIDs
      ensures r.Some? ==> r.value == dataFromIDs[id].x
    {
      if id in dataFromIDs then Some(dataFromIDs[id].x) else None
    }

    /** `getY`: field 2 of the id's record, if any. */
    function GetY(id: string): (r: Option<string>)
      ensures r.Some? <==> id in dataFromIDs
      ensures r.Some? ==> r.value == dataFromIDs[id].y
    {
      if id in dataFromIDs then Some(dataFromIDs[id].y) else None
    }

    /** The lines for the named ids among `ids`; an id whose name is empty is an intersection. */
    ghost function BuildingLines(ids: set<string>): set<string>
    {
      set id | id in ids && id in dataFromIDs && dataFromIDs[id].name != "" :: BuildingLine(dataFromIDs[id].name, id)
    }

    /** `listAllBuildings`: the `"name,id\n"` lines of every named id, in ascending order and
        each once, concatenated; `lines` is that list, which `AscendingUnique` shows to be the
        only one of its kind, so the result is determined by the table. */
    method ListAllBuildings() returns (r: string, lines: seq<string>)
      ensures r == Concat(lines)
      ensures StrictlyAscending(lines)
      ensures forall x :: x in lines <==> x in BuildingLines(dataFromIDs.Keys)
    {
      var buildingsSet := CollectBuildingLines();
      var sorted := SortedFromSet(buildingsSet);
      r := ConcatAll(sorted);
      lines := sorted;
    }

    /** The key loop of `listAllBuildings`: one line per id whose name is not empty. */
    method CollectBuildingLines() returns (buildingsSet: set<string>)
      ensures buildingsSet == BuildingLines(dataFromIDs.Keys)
    {
      var rest := dataFromIDs.Keys;
      buildingsSet := {};
      while rest != {}
        invariant rest <= dataFromIDs.Keys
        invariant buildingsSet == BuildingLines(dataFromIDs.Keys - rest)
        decreases |rest|
      {
        var id :| id in rest;
        var data := dataFromIDs[id];
        if data.name != "" {
          buildingsSet := buildingsSet + {BuildingLine(data.name, id)};
        }
        assert dataFromIDs.Keys - (rest - {id}) == (dataFromIDs.Keys - rest) + {id};
        rest := rest - {id};
      }
      assert dataFromIDs.Keys - rest == dataFromIDs.Keys;
    }

    /** `getBuildings`: the building names in ascending order, one per key, with the first
        overwritten by the menu's prompt; with no buildings, writing index 0 fails. */
    method GetBuildings(departureMenu: bool) returns (r: Outcome<array<string>>, ghost sorted: seq<string>)
      ensures StrictlyAscending(sorted) && forall x :: x in sorted <==> x in buildings
      ensures r.Throw? <==> |buildings| == 0
      ensures r.Return? ==>
                && fresh(r.value) && r.value.Length == |sorted|
                && r.value[0] == (if departureMenu then "Select Depature" else "Select Destination")
                && r.value[1..] == sorted[1..]
    {
      var names := SortedFromSet(buildings.Keys);
      sorted := names;
      var buildingStrings := new string[|names|](i requires 0 <= i < |names| => names[i]);
      if buildingStrings.Length == 0 {
        return Throw("Index 0 out of bounds for length 0"), sorted;
      }
      if departureMenu {
        buildingStrings[0] := "Select Depature";
      } else {
        buildingStrings[0] := "Select Destination";
      }
      r := Return(buildingStrings);
    }
  }

  /** `CampusLocations(dataFromIDs, buildings)` with its `checkRep`: a missing table is refused. */
  function NewLocations(dataFromIDs: Option<map<string, Record>>, buildings: Option<map<string, string>>): (r: Outcome<Locations>)
    ensures r.Return? <==> dataFromIDs.Some? && buildings.Some?
    ensures r.Return? ==> r.value == Locations(dataFromIDs.value, buildings.value)
    ensures dataFromIDs.None? ==> r == Throw("dataFromIDs must not be null")
    ensures dataFromIDs.Some? && buildings.None? ==> r == Throw("buildings must not be null")
  {
    if dataFromIDs.None? then Throw("dataFromIDs must not be null")
    else if buildings.None? then Throw("buildings must not be null")
    else Return(Locations(dataFromIDs.value, buildings.value))
  }
}
