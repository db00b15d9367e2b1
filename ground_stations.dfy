/**
 * The ground station files: one line per ground station, gid counting up
 * from 0.  A basic line is "<gid>,<name>,<latitude>,<longitude>,<elevation>";
 * an extended line adds the three Cartesian coordinates.  Latitude and
 * longitude are kept as the text of their columns.
 */
module GroundStations {
  import opened Outcomes
  import opened PyText

  datatype Cartesian = Cartesian(x: real, y: real, z: real)

  /** A ground station as read; `cartesian` is present only when read from an extended file. */
  datatype GroundStation = GroundStation(
    gid: int, name: string, latitudeDegreesStr: string, longitudeDegreesStr: string, elevationMFloat: real,
    cartesian: Option<Cartesian>)

  datatype GroundStationError = WrongColumnCount | NotAnInteger | NotAFloat | GidNotIncrementing

  /** The columns every format shares; `split` holds at least five. */
  function ParseCommonColumns(split: seq<string>, gid: int, cartesian: Option<Cartesian>): Result<GroundStation, GroundStationError>
    requires |split| >= 5
  {
    match ParseInt(split[0])
    case None => Err(NotAnInteger)
    case Some(id) =>
      if id != gid then Err(GidNotIncrementing)
      else match ParseFloat(split[4])
        case None => Err(NotAFloat)
        case Some(elevation) => Ok(GroundStation(gid, split[1], split[2], split[3], elevation, cartesian))
  }

  /** A basic line: five columns, the gid of its position, a float elevation. */
  function ParseBasicLine(line: string, gid: int): (r: Result<GroundStation, GroundStationError>)
    ensures r == Err(WrongColumnCount) <==> |Split(line, ',')| != 5
    ensures r.Ok? ==> r.value.gid == gid && r.value.cartesian.None?
  {
    var split := Split(line, ',');
    if |split| != 5 then Err(WrongColumnCount) else ParseCommonColumns(split, gid, None)
  }

  /** An extended line: eight columns; like a basic line, then three float coordinates. */
  function ParseExtendedLine(line: string, gid: int): (r: Result<GroundStation, GroundStationError>)
    ensures r == Err(WrongColumnCount) <==> |Split(line, ',')| != 8
    ensures r.Ok? ==> r.value.gid == gid && r.value.cartesian.Some?
  {
    var split := Split(line, ',');
    if |split| != 8 then Err(WrongColumnCount)
    else match ParseInt(split[0])
      case None => Err(NotAnInteger)
      case Some(id) =>
        if id != gid then Err(GidNotIncrementing)
        else match (ParseFloat(split[4]), ParseFloat(split[5]), ParseFloat(split[6]), ParseFloat(split[7]))
          case (Some(_), Some(x), Some(y), Some(z)) => ParseCommonColumns(split, gid, Some(Cartesian(x, y, z)))
          case _ => Err(NotAFloat)
  }

  /** A read ground station has the gid of its line, its name, and its coordinates as the raw column text. */
  lemma BasicLineFields(line: string, gid: int)
    requires ParseBasicLine(line, gid).Ok?
    ensures var gs := ParseBasicLine(line, gid).value;
            var split := Split(line, ',');
            && |split| == 5 && gs.gid == gid && gs.name == split[1]
            && gs.latitudeDegreesStr == split[2] && gs.longitudeDegreesStr == split[3]
            && Some(gs.elevationMFloat) == ParseFloat(split[4]) && gs.cartesian.None?
  {
  }

  lemma ExtendedLineFields(line: string, gid: int)
    requires ParseExtendedLine(line, gid).Ok?
    ensures var gs := ParseExtendedLine(line, gid).value;
            var split := Split(line, ',');
            && |split| == 8 && gs.gid == gid && gs.name == split[1]
            && gs.latitudeDegreesStr == split[2] && gs.longitudeDegreesStr == split[3]
            && Some(gs.elevationMFloat) == ParseFloat(split[4])
            && gs.cartesian.Some?
            && Some(gs.cartesian.value.x) == ParseFloat(split[5])
            && Some(gs.cartesian.value.y) == ParseFloat(split[6])
            && Some(gs.cartesian.value.z) == ParseFloat(split[7])
  {
  }

  /** The first `count` lines each parse as basic lines, to the first `count` stations. */
  predicate BasicUpTo(lines: seq<string>, stations: seq<GroundStation>, count: nat)
    requires count <= |lines| && count <= |stations|
  {
    forall k :: 0 <= k < count ==> ParseBasicLine(lines[k], k) == Ok(stations[k])
  }

  lemma BasicUpToStep(lines: seq<string>, stations: seq<GroundStation>, gs: GroundStation)
    requires |stations| < |lines| && BasicUpTo(lines, stations, |stations|)
    requires ParseBasicLine(lines[|stations|], |stations|) == Ok(gs)
    ensures BasicUpTo(lines, stations + [gs], |stations| + 1)
  {
    var next := stations + [gs];
    forall k | 0 <= k < |stations| + 1
      ensures ParseBasicLine(lines[k], k) == Ok(next[k])
    {
      if k < |stations| {
        assert next[k] == stations[k];
      }
    }
  }

  /** read_ground_stations_basic: every line in order; the first bad one raises. */
  method ReadGroundStationsBasic(lines: seq<string>) returns (r: Result<seq<GroundStation>, GroundStationError>)
    ensures r.Ok? <==> forall k :: 0 <= k < |lines| ==> ParseBasicLine(lines[k], k).Ok?
    ensures r.Ok? ==> |r.value| == |lines| && forall k :: 0 <= k < |lines| ==> r.value[k] == ParseBasicLine(lines[k], k).value
    ensures r.Err? ==> exists k :: 0 <= k < |lines| && ParseBasicLine(lines[k], k) == Err(r.error)
                                   && forall a :: 0 <= a < k ==> ParseBasicLine(lines[a], a).Ok?
    ensures |lines| == 0 ==> r == Ok([])
  {
    var groundStationsBasic: seq<GroundStation> := [];
    var gid := 0;
    while gid < |lines|
      invariant 0 <= gid <= |lines| && |groundStationsBasic| == gid
      invariant BasicUpTo(lines, groundStationsBasic, gid)
    {
      var split := Split(lines[gid], ',');
      if |split| != 5 {
        return Err(WrongColumnCount);
      }
      var id := ParseInt(split[0]);
      if id.None? {
        return Err(NotAnInteger);
      }
      if id.value != gid {
        return Err(GidNotIncrementing);
      }
      var elevation := ParseFloat(split[4]);
      if elevation.None? {
        return Err(NotAFloat);
      }
      var gs := GroundStation(gid, split[1], split[2], split[3], elevation.value, None);
      assert ParseBasicLine(lines[gid], gid) == Ok(gs);
      BasicUpToStep(lines, groundStationsBasic, gs);
      groundStationsBasic := groundStationsBasic + [gs];
      gid := gid + 1;
    }
    return Ok(groundStationsBasic);
  }

  predicate ExtendedUpTo(lines: seq<string>, stations: seq<GroundStation>, count: nat)
    requires count <= |lines| && count <= |stations|
  {
    forall k :: 0 <= k < count ==> ParseExtendedLine(lines[k], k) == Ok(stations[k])
  }

  lemma ExtendedUpToStep(lines: seq<string>, stations: seq<GroundStation>, gs: GroundStation)
    requires |stations| < |lines| && ExtendedUpTo(lines, stations, |stations|)
    requires ParseExtendedLine(lines[|stations|], |stations|) == Ok(gs)
    ensures ExtendedUpTo(lines, stations + [gs], |stations| + 1)
  {
    var next := stations + [gs];
    forall k | 0 <= k < |stations| + 1
      ensures ParseExtendedLine(lines[k], k) == Ok(next[k])
    {
      if k < |stations| {
        assert next[k] == stations[k];
      }
    }
  }

  /** read_ground_stations_extended: every line in order; the first bad one raises. */
  method ReadGroundStationsExtended(lines: seq<string>) returns (r: Result<seq<GroundStation>, GroundStationError>)
    ensures r.Ok? <==> forall k :: 0 <= k < |lines| ==> ParseExtendedLine(lines[k], k).Ok?
    ensures r.Ok? ==> |r.value| == |lines| && forall k :: 0 <= k < |lines| ==> r.value[k] == ParseExtendedLine(lines[k], k).value
    ensures r.Err? ==> exists k :: 0 <= k < |lines| && ParseExtendedLine(lines[k], k) == Err(r.error)
                                   && forall a :: 0 <= a < k ==> ParseExtendedLine(lines[a], a).Ok?
    ensures |lines| == 0 ==> r == Ok([])
  {
    var groundStationsExtended: seq<GroundStation> := [];
    var gid := 0;
    while gid < |lines|
      invariant 0 <= gid <= |lines| && |groundStationsExtended| == gid
      invariant ExtendedUpTo(lines, groundStationsExtended, gid)
    {
      var split := Split(lines[gid], ',');
      if |split| != 8 {
        return Err(WrongColumnCount);
      }
      var id := ParseInt(split[0]);
      if id.None? {
        return Err(NotAnInteger);
      }
      if id.value != gid {
        return Err(GidNotIncrementing);
      }
      var elevation := ParseFloat(split[4]);
      var x := ParseFloat(split[5]);
      var y := ParseFloat(split[6]);
      var z := ParseFloat(split[7]);
      if elevation.None? || x.None? || y.None? || z.None? {
        return Err(NotAFloat);
      }
      var gs := GroundStation(gid, split[1], split[2], split[3], elevation.value, Some(Cartesian(x.value, y.value, z.value)));
      assert ParseExtendedLine(lines[gid], gid) == Ok(gs);
      ExtendedUpToStep(lines, groundStationsExtended, gs);
      groundStationsExtended := groundStationsExtended + [gs];
      gid := gid + 1;
    }
    return Ok(groundStationsExtended);
  }

  /** The gids of a read list are 0, 1, 2, ... in order. */
  lemma ReadGidsCount(lines: seq<string>, stations: seq<GroundStation>, extended: bool)
    requires |stations| == |lines|
    requires forall k :: 0 <= k < |lines| ==>
               (if extended then ParseExtendedLine(lines[k], k) else ParseBasicLine(lines[k], k)) == Ok(stations[k])
    ensures forall k :: 0 <= k < |stations| ==> stations[k].gid == k
  {
    forall k | 0 <= k < |stations|
      ensures stations[k].gid == k
    {
      if extended {
        ExtendedLineFields(lines[k], k);
      } else {
        BasicLineFields(lines[k], k);
      }
    }
  }

  lemma ExampleColumns()
    ensures Split("0,abc,33,11.0,77", ',') == ["0", "abc", "33", "11.0", "77"]
  {
    var parts := ["0", "abc", "33", "11.0", "77"];
    assert Join(parts, ',') == "0,abc,33,11.0,77";
    SplitJoin(parts, ',');
  }

  lemma ExampleGid()
    ensures ParseInt("0") == Some(0)
  {
    StripDigits("0");
    assert "0"[..0] == "";
    assert NatValue("0") == 0;
  }

  lemma ExampleElevation()
    ensures ParseFloat("77") == Some(77.0)
  {
    StripDigits("77");
    assert "77"[1..] == "7" && "7"[1..] == "";
    assert DotIndex("77") == 2;
    assert "77"[..2] == "77" && "77"[..1] == "7" && "7"[..0] == "";
    assert NatValue("77") == 77;
  }

  /** The first line of a basic file with the documented columns reads as that station. */
  lemma BasicExampleLine()
    ensures ParseBasicLine("0,abc,33,11.0,77", 0) == Ok(GroundStation(0, "abc", "33", "11.0", 77.0, None))
  {
    var split := ["0", "abc", "33", "11.0", "77"];
    ExampleColumns();
    ExampleElevation();
    ExampleGid();
    assert ParseCommonColumns(split, 0, None) == Ok(GroundStation(0, "abc", "33", "11.0", 77.0, None));
  }
}
