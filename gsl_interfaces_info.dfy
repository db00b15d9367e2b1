/**
 * gsl_interfaces_info.txt: one line "<node id>,<number of interfaces>,
 * <aggregate max. bandwidth>" per node, satellites first, node ids counting
 * up from 0.  The reader validates every line; the simple generator writes
 * the same values for every satellite and the same for every ground station.
 */
module GslInterfacesInfo {
  import opened Outcomes
  import opened PyText

  /** What the reader keeps of a line: exactly these two fields. */
  datatype InterfacesInfo = InterfacesInfo(numberOfInterfaces: int, aggregateMaxBandwidth: real)

  datatype InfoError =
    | WrongColumnCount
    | NotAnInteger
    | NotAFloat
    | NodeIdNotIncrementing
    | NegativeValue         // parse_positive_int / parse_positive_float reject values below zero
    | NoInterfaces
    | ZeroBandwidth
    | NodeCountMismatch

  /** The checks of one line, in the reader's order, for the line of node `nodeId`. */
  function ParseInfoLine(line: string, nodeId: int): Result<InterfacesInfo, InfoError>
  {
    ParseInfoColumns(Split(line, ','), nodeId)
  }

  /** The checks on the comma-separated columns of one line; an accepted line always has at least one interface and a positive bandwidth. */
  function ParseInfoColumns(split: seq<string>, nodeId: int): (r: Result<InterfacesInfo, InfoError>)
    ensures r.Ok? ==> r.value.numberOfInterfaces >= 1 && r.value.aggregateMaxBandwidth > 0.0
    ensures r.Ok? ==> |split| == 3 && ParseInt(split[0]) == Some(nodeId)
                      && ParseInt(split[1]) == Some(r.value.numberOfInterfaces)
                      && ParseFloat(split[2]) == Some(r.value.aggregateMaxBandwidth)
  {
    if |split| != 3 then Err(WrongColumnCount)
    else match ParseInt(split[0])
      case None => Err(NotAnInteger)
      case Some(id) =>
        if id != nodeId then Err(NodeIdNotIncrementing)
        else match ParseInt(split[1])
          case None => Err(NotAnInteger)
          case Some(n) =>
            if n < 0 then Err(NegativeValue)
            else if n == 0 then Err(NoInterfaces)
            else match ParseFloat(split[2])
              case None => Err(NotAFloat)
              case Some(b) =>
                if b < 0.0 then Err(NegativeValue)
                else if b == 0.0 then Err(ZeroBandwidth)
                else Ok(InterfacesInfo(n, b))
  }

  /**
   * read_gsl_interfaces_info: the lines are read in order with node id k
   * on line k; the first bad line raises, and so does a line count other
   * than the number of satellites plus ground stations.
   */
  method ReadGslInterfacesInfo(lines: seq<string>, numberOfSatellites: int, numberOfGroundStations: int)
    returns (r: Result<seq<InterfacesInfo>, InfoError>)
    ensures r.Ok? <==> |lines| == numberOfSatellites + numberOfGroundStations
                       && forall k :: 0 <= k < |lines| ==> ParseInfoLine(lines[k], k).Ok?
    ensures r.Ok? ==> |r.value| == |lines| && forall k :: 0 <= k < |lines| ==> r.value[k] == ParseInfoLine(lines[k], k).value
    ensures r.Err? ==> (exists k :: 0 <= k < |lines| && ParseInfoLine(lines[k], k) == Err(r.error)
                                    && forall a :: 0 <= a < k ==> ParseInfoLine(lines[a], a).Ok?)
                       || ((forall k :: 0 <= k < |lines| ==> ParseInfoLine(lines[k], k).Ok?) && r.error == NodeCountMismatch)
  {
    var listGslInterfacesInfo: seq<InterfacesInfo> := [];
    var nodeId := 0;
    while nodeId < |lines|
      invariant 0 <= nodeId <= |lines| && |listGslInterfacesInfo| == nodeId
      invariant forall k :: 0 <= k < nodeId ==>
                  ParseInfoLine(lines[k], k).Ok? && listGslInterfacesInfo[k] == ParseInfoLine(lines[k], k).value
    {
      var split := Split(lines[nodeId], ',');
      if |split| != 3 {
        return Err(WrongColumnCount);
      }
      var id := ParseInt(split[0]);
      if id.None? {
        return Err(NotAnInteger);
      }
      if id.value != nodeId {
        return Err(NodeIdNotIncrementing);
      }
      var numInterfaces := ParseInt(split[1]);
      if numInterfaces.None? {
        return Err(NotAnInteger);
      }
      if numInterfaces.value < 0 {
        return Err(NegativeValue);
      }
      if numInterfaces.value == 0 {
        return Err(NoInterfaces);
      }
      var aggregateMaxBandwidth := ParseFloat(split[2]);
      if aggregateMaxBandwidth.None? {
        return Err(NotAFloat);
      }
      if aggregateMaxBandwidth.value < 0.0 {
        return Err(NegativeValue);
      }
      if aggregateMaxBandwidth.value == 0.0 {
        return Err(ZeroBandwidth);
      }
      listGslInterfacesInfo := listGslInterfacesInfo + [InterfacesInfo(numInterfaces.value, aggregateMaxBandwidth.value)];
      nodeId := nodeId + 1;
    }
    if nodeId != numberOfSatellites + numberOfGroundStations {
      return Err(NodeCountMismatch);
    }
    return Ok(listGslInterfacesInfo);
  }

  // ---------------------------------------------------------------- the simple generator

  /** The line `"%d,%d,%f"` for one node. */
  function InfoLine(nodeId: int, numInterfaces: int, bandwidth: real): string
  {
    IntToString(nodeId) + "," + IntToString(numInterfaces) + "," + Fixed6Text(bandwidth)
  }

  /** The line the simple generator writes for node `nodeId`: satellite values below the satellite count. */
  function SimpleInfoLine(nodeId: int, numberOfSatellites: nat, ifsSatellite: int, ifsGroundStation: int,
                          bandwidthSatellite: real, bandwidthGroundStation: real): string
  {
    if nodeId < numberOfSatellites then InfoLine(nodeId, ifsSatellite, bandwidthSatellite)
    else InfoLine(nodeId, ifsGroundStation, bandwidthGroundStation)
  }

  /** Entry k of `s` is `f(k)`, for every k. */
  ghost predicate Tabulates<T>(s: seq<T>, f: nat -> T)
  {
    forall k :: 0 <= k < |s| ==> s[k] == f(k)
  }

  lemma TabulatesStep<T>(s: seq<T>, x: T, f: nat -> T)
    requires Tabulates(s, f) && x == f(|s|)
    ensures Tabulates(s + [x], f)
  {
    var next := s + [x];
    forall k | 0 <= k < |next|
      ensures next[k] == f(k)
    {
      if k < |s| {
        assert next[k] == s[k];
      }
    }
  }

  /** generate_simple_gsl_interfaces_info: one line per node id 0 .. sats + GSs - 1, in order. */
  method GenerateSimpleGslInterfacesInfo(numberOfSatellites: nat, numberOfGroundStations: nat,
                                         numGslInterfacesPerSatellite: int, numGslInterfacesPerGroundStation: int,
                                         aggMaxBandwidthSatellite: real, aggMaxBandwidthGroundStation: real)
    returns (lines: seq<string>)
    ensures |lines| == numberOfSatellites + numberOfGroundStations
    ensures forall k :: 0 <= k < |lines| ==>
              lines[k] == SimpleInfoLine(k, numberOfSatellites, numGslInterfacesPerSatellite, numGslInterfacesPerGroundStation,
                                         aggMaxBandwidthSatellite, aggMaxBandwidthGroundStation)
  {
    ghost var expected := (k: nat) => SimpleInfoLine(k, numberOfSatellites, numGslInterfacesPerSatellite, numGslInterfacesPerGroundStation,
                                                     aggMaxBandwidthSatellite, aggMaxBandwidthGroundStation);
    lines := [];
    var nodeId := 0;
    while nodeId < numberOfSatellites + numberOfGroundStations
      invariant 0 <= nodeId <= numberOfSatellites + numberOfGroundStations && |lines| == nodeId
      invariant Tabulates(lines, expected)
    {
      var line;
      if nodeId < numberOfSatellites {
        line := InfoLine(nodeId, numGslInterfacesPerSatellite, aggMaxBandwidthSatellite);
      } else {
        line := InfoLine(nodeId, numGslInterfacesPerGroundStation, aggMaxBandwidthGroundStation);
      }
      TabulatesStep(lines, line, expected);
      lines := lines + [line];
      nodeId := nodeId + 1;
    }
  }

  // ---------------------------------------------------------------- reading back what was written

  lemma IntToStringHasNoComma(i: int)
    ensures Free(IntToString(i), ',')
  {
    var d := NatToString(if i < 0 then -i else i);
    assert forall k :: 0 <= k < |d| ==> IsDigit(d[k]);
  }

  lemma Fixed6TextHasNoComma(r: real)
    ensures Free(Fixed6Text(r), ',')
  {
    var u := Micros(if r >= 0.0 then r else -r);
    var a, b := NatToString(u / 1000000), Pad6(u % 1000000);
    assert forall k :: 0 <= k < |a| ==> IsDigit(a[k]);
    assert forall k :: 0 <= k < |b| ==> IsDigit(b[k]);
  }

  /** A written line splits into its three printed columns. */
  lemma SplitInfoLine(nodeId: int, numInterfaces: int, bandwidth: real)
    ensures Split(InfoLine(nodeId, numInterfaces, bandwidth), ',') == [IntToString(nodeId), IntToString(numInterfaces), Fixed6Text(bandwidth)]
  {
    var parts := [IntToString(nodeId), IntToString(numInterfaces), Fixed6Text(bandwidth)];
    IntToStringHasNoComma(nodeId);
    IntToStringHasNoComma(numInterfaces);
    Fixed6TextHasNoComma(bandwidth);
    assert Join(parts, ',') == InfoLine(nodeId, numInterfaces, bandwidth) by {
      var p0, p1, p2 := parts[0], parts[1], parts[2];
      assert parts[1..][1..] == [p2];
      assert Join(parts[1..], ',') == p1 + [','] + p2;
      assert Join(parts, ',') == p0 + [','] + (p1 + [','] + p2);
      assert InfoLine(nodeId, numInterfaces, bandwidth) == p0 + [','] + p1 + [','] + p2;
    }
    SplitJoin(parts, ',');
  }

  /** A line whose three columns parse to the expected id, a positive count and a positive bandwidth is accepted with those values. */
  lemma AcceptedColumns(split: seq<string>, nodeId: int, n: int, b: real)
    requires |split| == 3 && n >= 1 && b > 0.0
    requires ParseInt(split[0]) == Some(nodeId) && ParseInt(split[1]) == Some(n) && ParseFloat(split[2]) == Some(b)
    ensures ParseInfoColumns(split, nodeId) == Ok(InterfacesInfo(n, b))
  {
  }

  /** Reading a line written with at least one interface and a bandwidth that does not print as zero gives the written values back. */
  lemma ReadInfoLineBack(nodeId: int, numInterfaces: int, bandwidth: real)
    requires numInterfaces >= 1 && bandwidth >= 0.0 && Fixed6(bandwidth) > 0.0
    ensures ParseInfoLine(InfoLine(nodeId, numInterfaces, bandwidth), nodeId) == Ok(InterfacesInfo(numInterfaces, Fixed6(bandwidth)))
  {
    SplitInfoLine(nodeId, numInterfaces, bandwidth);
    ParseIntOfIntToString(nodeId);
    ParseIntOfIntToString(numInterfaces);
    ParseFloatOfFixed6Text(bandwidth);
    AcceptedColumns(Split(InfoLine(nodeId, numInterfaces, bandwidth), ','), nodeId, numInterfaces, Fixed6(bandwidth));
  }

  /**
   * Writing with the simple generator and reading back with the same
   * counts gives one entry per node, with the satellite values for the
   * satellites and the ground-station values for the others (bandwidths as
   * `"%f"` printed them).
   */
  lemma SimpleInfoReadsBack(numberOfSatellites: nat, numberOfGroundStations: nat, ifsSatellite: int, ifsGroundStation: int,
                            bandwidthSatellite: real, bandwidthGroundStation: real, lines: seq<string>, k: nat)
    requires ifsSatellite >= 1 && ifsGroundStation >= 1
    requires bandwidthSatellite >= 0.0 && Fixed6(bandwidthSatellite) > 0.0
    requires bandwidthGroundStation >= 0.0 && Fixed6(bandwidthGroundStation) > 0.0
    requires |lines| == numberOfSatellites + numberOfGroundStations
    requires forall a :: 0 <= a < |lines| ==>
               lines[a] == SimpleInfoLine(a, numberOfSatellites, ifsSatellite, ifsGroundStation, bandwidthSatellite, bandwidthGroundStation)
    requires k < |lines|
    ensures ParseInfoLine(lines[k], k) ==
              if k < numberOfSatellites then Ok(InterfacesInfo(ifsSatellite, Fixed6(bandwidthSatellite)))
              else Ok(InterfacesInfo(ifsGroundStation, Fixed6(bandwidthGroundStation)))
  {
    if k < numberOfSatellites {
      ReadInfoLineBack(k, ifsSatellite, bandwidthSatellite);
    } else {
      ReadInfoLineBack(k, ifsGroundStation, bandwidthGroundStation);
    }
  }
}
