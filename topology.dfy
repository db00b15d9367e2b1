/**
 * The satellite network topology of the simulator: reading the satellites,
 * ground stations, ISLs and GSL interface counts with their count and id
 * checks, the node-id predicates, and the run-length export of ISL
 * utilization.  Node ids 0 .. numSats-1 are satellites, the ids after them
 * ground stations.
 */
module TopologySatelliteNetwork {
  import opened Outcomes
  import opened MachineInts

  datatype TopologyError =
    | FileNotOpened
    | SatelliteNodeMissing
    | SatelliteCountMismatch
    | GidNotIncremented
    | SatelliteIdOutOfRange
    | NodeIdNotIncremented
    | InterfaceInfoMissing
    | InterfaceCountMismatch
    | InvalidNodeId
    | InvalidSatelliteId

  /** One satellite of tles.txt: its name line and its two element lines. */
  datatype SatelliteEntry = SatelliteEntry(name: string, tle1: string, tle2: string)

  /** tles.txt: the parsed header "<orbits> <satellites per orbit>" and the lines after it. */
  datatype TleFile = TleFile(numOrbits: nat, satellitesPerOrbit: nat, lines: seq<string>)

  /** One parsed line of ground_stations.txt (the gid went through parse_positive_int64). */
  datatype GroundStationRow = GroundStationRow(gid: nat, name: string, latitude: real, longitude: real,
                                               elevation: real, x: real, y: real, z: real)

  /** One parsed line of gsl_interfaces_info.txt. */
  datatype GslInfoRow = GslInfoRow(nodeId: nat, numIfs: nat, aggregateBandwidth: real)

  /** One row of isl_utilization.csv. */
  datatype UtilizationRow = UtilizationRow(src: int, dst: int, startNs: int, endNs: int, utilization: real)

  // ------------------------------------------------------------------ reading tles.txt

  /**
   * The satellites read from the lines after the header, three lines per
   * satellite.  When the file ends inside a block, the model follows a
   * file without a final line terminator: `std::getline` then starts at end
   * of file and leaves every line it should have read as it was.  (After a
   * final terminator, the first missing line would be read as empty.)
   */
  function TleBlocks(lines: seq<string>, tle1: string, tle2: string): seq<SatelliteEntry>
    decreases |lines|
  {
    if |lines| == 0 then []
    else
      var t1 := if 1 < |lines| then lines[1] else tle1;
      var t2 := if 2 < |lines| then lines[2] else tle2;
      [SatelliteEntry(lines[0], t1, t2)] + TleBlocks(if |lines| <= 3 then [] else lines[3..], t1, t2)
  }

  /** There is one satellite per started block of three lines, named by the block's first line. */
  lemma {:induction false} TleBlocksShape(lines: seq<string>, tle1: string, tle2: string)
    ensures |TleBlocks(lines, tle1, tle2)| == (|lines| + 2) / 3
    ensures forall k :: 0 <= k < |TleBlocks(lines, tle1, tle2)| ==>
              TleBlocks(lines, tle1, tle2)[k].name == lines[3 * k]
    ensures forall k :: 0 <= k < |TleBlocks(lines, tle1, tle2)| && 3 * k + 2 < |lines| ==>
              TleBlocks(lines, tle1, tle2)[k] == SatelliteEntry(lines[3 * k], lines[3 * k + 1], lines[3 * k + 2])
    decreases |lines|
  {
    if |lines| > 0 {
      var t1 := if 1 < |lines| then lines[1] else tle1;
      var t2 := if 2 < |lines| then lines[2] else tle2;
      var rest := if |lines| <= 3 then [] else lines[3..];
      TleBlocksShape(rest, t1, t2);
      var b := TleBlocks(lines, tle1, tle2);
      assert b == [SatelliteEntry(lines[0], t1, t2)] + TleBlocks(rest, t1, t2);
      forall k | 1 <= k < |b|
        ensures b[k].name == lines[3 * k]
        ensures 3 * k + 2 < |lines| ==> b[k] == SatelliteEntry(lines[3 * k], lines[3 * k + 1], lines[3 * k + 2])
      {
        assert b[k] == TleBlocks(rest, t1, t2)[k - 1];
        assert rest[3 * (k - 1)] == lines[3 * k];
        if 3 * k + 2 < |lines| {
          assert rest[3 * (k - 1) + 1] == lines[3 * k + 1] && rest[3 * (k - 1) + 2] == lines[3 * k + 2];
        }
      }
    }
  }

  /**
   * The loop of ReadSatellites over tles.txt: one satellite per block of
   * name and two TLE lines (a short last block keeps the previous TLE
   * lines); `missing` is set when there is a block beyond the `n` created
   * nodes, where the simulator aborts, so ReadSatellites only commits the
   * satellites once the whole file has been read.
   */
  method ScanTles(lines: seq<string>, n: nat) returns (missing: bool, entries: seq<SatelliteEntry>)
    ensures missing <==> |TleBlocks(lines, "", "")| > n
    ensures !missing ==> entries == TleBlocks(lines, "", "")
  {
    var counter := 0;
    var rest := lines;
    var tle1, tle2 := "", "";
    entries := [];
    while |rest| > 0
      invariant counter <= n && counter == |entries|
      invariant entries + TleBlocks(rest, tle1, tle2) == TleBlocks(lines, "", "")
      decreases |rest|
    {
      ghost var blocks := TleBlocks(rest, tle1, tle2);
      if counter >= n {
        // NodeContainer::Get(counter) reads past the created nodes
        assert |blocks| > 0;
        return true, entries;
      }
      var name := rest[0];
      if 1 < |rest| { tle1 := rest[1]; }
      if 2 < |rest| { tle2 := rest[2]; }
      ghost var before := entries;
      var entry := SatelliteEntry(name, tle1, tle2);
      entries := entries + [entry];
      counter := counter + 1;
      rest := if |rest| <= 3 then [] else rest[3..];
      assert blocks == [entry] + TleBlocks(rest, tle1, tle2);
      assert entries + TleBlocks(rest, tle1, tle2) == before + blocks;
    }
    return false, entries;
  }

  /** ReadSatellites's verdict on a file whose header asks for `n` satellites. */
  function SatelliteCountOutcome(blocks: nat, n: nat): Outcome<TopologyError>
  {
    if blocks > n then Fail(SatelliteNodeMissing)
    else if blocks != n then Fail(SatelliteCountMismatch)
    else Pass
  }

  // ------------------------------------------------------------------ reading ground_stations.txt

  /** The check at each ground station line: node count `index + 1` against `gid + 1`, both as uint32. */
  predicate GidMatches(gid: nat, index: nat)
  {
    U32(index + 1) == U32(U32(gid) + 1)
  }

  /** Below the uint32 limit the check is exactly "the gid is the line index". */
  lemma GidMatchesIsIndex(gid: nat, index: nat)
    requires gid < TWO_32 - 1 && index < TWO_32 - 1
    ensures GidMatches(gid, index) <==> gid == index
  {
  }

  predicate GidsIncrement(rows: seq<GroundStationRow>, first: nat)
  {
    forall k :: 0 <= k < |rows| ==> GidMatches(rows[k].gid, first + k)
  }

  // ------------------------------------------------------------------ reading isls.txt

  /** A satellite id after the `int32_t` conversion is an index into the satellites. */
  predicate ValidIslEnd(id: nat, numSats: nat)
  {
    0 <= I32(id) < numSats
  }

  /** The (from, to) list of the tracked ISL devices: both directions of each link. */
  function Directions(pairs: seq<(nat, nat)>): (r: seq<(int, int)>)
    ensures |r| == 2 * |pairs|
  {
    if |pairs| == 0 then []
    else [(I32(pairs[0].0), I32(pairs[0].1)), (I32(pairs[0].1), I32(pairs[0].0))] + Directions(pairs[1..])
  }

  /** Link k occupies entries 2k (from, to) and 2k + 1 (to, from). */
  lemma {:induction false} DirectionsLayout(pairs: seq<(nat, nat)>, k: nat)
    requires k < |pairs|
    ensures var r := Directions(pairs);
            r[2 * k] == (I32(pairs[k].0), I32(pairs[k].1)) && r[2 * k + 1] == (I32(pairs[k].1), I32(pairs[k].0))
  {
    if k > 0 {
      DirectionsLayout(pairs[1..], k - 1);
    }
  }

  // ------------------------------------------------------------------ reading gsl_interfaces_info.txt

  function SumIfs(rows: seq<GslInfoRow>): nat
  {
    if |rows| == 0 then 0 else SumIfs(rows[..|rows| - 1]) + rows[|rows| - 1].numIfs
  }

  lemma {:induction false} SumIfsPrefix(rows: seq<GslInfoRow>, n: nat)
    requires n < |rows|
    requires forall k :: 0 <= k < |rows| ==> rows[k].numIfs >= 1
    ensures SumIfs(rows[..n]) < SumIfs(rows)
    decreases |rows|
  {
    assert rows[..|rows| - 1][..n] == rows[..n];
    if n < |rows| - 1 {
      SumIfsPrefix(rows[..|rows| - 1], n);
    }
  }

  lemma ModAdd(x: int, y: int)
    ensures U32(U32(x) + y) == U32(x + y)
  {
    var q := x / TWO_32;
    assert x == q * TWO_32 + U32(x);
    assert x + y == q * TWO_32 + (U32(x) + y);
  }

  predicate NodeIdsIncrement(rows: seq<GslInfoRow>)
  {
    forall k :: 0 <= k < |rows| ==> rows[k].nodeId == k
  }

  /**
   * CreateGSLs's verdict for `numNodes` nodes: node ids must count lines, the
   * helper installs `numIfs` devices for each node (reading the row of every
   * node) and the uint32 total of all rows must equal that device count.
   */
  function GslInfoOutcome(rows: seq<GslInfoRow>, numNodes: nat): Outcome<TopologyError>
  {
    if !NodeIdsIncrement(rows) then Fail(NodeIdNotIncremented)
    else if |rows| < numNodes then Fail(InterfaceInfoMissing)
    else if U32(SumIfs(rows)) != SumIfs(rows[..numNodes]) then Fail(InterfaceCountMismatch)
    else Pass
  }

  /** With at least one interface per node and no uint32 overflow, the check passes iff there is one line per node. */
  lemma GslInfoOutcomeMeansOneLinePerNode(rows: seq<GslInfoRow>, numNodes: nat)
    requires NodeIdsIncrement(rows) && numNodes <= |rows|
    requires forall k :: 0 <= k < |rows| ==> rows[k].numIfs >= 1
    requires SumIfs(rows) < TWO_32
    ensures GslInfoOutcome(rows, numNodes) == Pass <==> |rows| == numNodes
  {
    if numNodes < |rows| {
      SumIfsPrefix(rows, numNodes);
    } else {
      assert rows[..numNodes] == rows;
    }
  }

  // ------------------------------------------------------------------ node ids

  function EnsureValidNodeId(numSats: nat, numGroundStations: nat, nodeId: nat): (r: Outcome<TopologyError>)
    ensures r == Pass <==> nodeId < numSats + numGroundStations
    ensures r.Fail? ==> r.error == InvalidNodeId
  {
    if nodeId >= numSats + numGroundStations then Fail(InvalidNodeId) else Pass
  }

  function IsSatelliteId(numSats: nat, numGroundStations: nat, nodeId: nat): (r: Result<bool, TopologyError>)
    ensures r.Ok? <==> nodeId < numSats + numGroundStations
    ensures r.Ok? ==> (r.value <==> nodeId < numSats)
  {
    if EnsureValidNodeId(numSats, numGroundStations, nodeId).Fail? then Err(InvalidNodeId) else Ok(nodeId < numSats)
  }

  /** IsGroundStationId as written: `node_id >= m_satellites.size() && node_id`. */
  function IsGroundStationIdAsWritten(numSats: nat, numGroundStations: nat, nodeId: nat): Result<bool, TopologyError>
  {
    if EnsureValidNodeId(numSats, numGroundStations, nodeId).Fail? then Err(InvalidNodeId)
    else Ok(nodeId >= numSats && nodeId != 0)
  }

  /** With no satellites, node 0 is a valid id of a ground station, yet neither predicate accepts it. */
  lemma IsGroundStationIdAsWrittenMissesNodeZero()
    ensures IsGroundStationIdAsWritten(0, 1, 0) == Ok(false)
    ensures IsSatelliteId(0, 1, 0) == Ok(false)
  {
  }

  /** IsGroundStationId as intended: every valid id that is not a satellite id. */
  function IsGroundStationId(numSats: nat, numGroundStations: nat, nodeId: nat): (r: Result<bool, TopologyError>)
    ensures r.Ok? <==> nodeId < numSats + numGroundStations
    ensures r.Ok? ==> (r.value <==> numSats <= nodeId)
  {
    if EnsureValidNodeId(numSats, numGroundStations, nodeId).Fail? then Err(InvalidNodeId) else Ok(nodeId >= numSats)
  }

  /** Every valid node id is exactly one of satellite and ground station. */
  lemma NodeKindsPartition(numSats: nat, numGroundStations: nat, nodeId: nat)
    requires nodeId < numSats + numGroundStations
    ensures IsSatelliteId(numSats, numGroundStations, nodeId).Ok?
    ensures IsGroundStationId(numSats, numGroundStations, nodeId).Ok?
    ensures IsSatelliteId(numSats, numGroundStations, nodeId).value != IsGroundStationId(numSats, numGroundStations, nodeId).value
  {
  }

  /** NodeToGroundStationId: `node_id - GetNumSatellites()` in uint32 after the validity check. */
  function NodeToGroundStationId(numSats: nat, numGroundStations: nat, nodeId: nat): (r: Result<int, TopologyError>)
    ensures r.Ok? <==> nodeId < numSats + numGroundStations
    ensures r.Ok? ==> IsU32(r.value)
  {
    if EnsureValidNodeId(numSats, numGroundStations, nodeId).Fail? then Err(InvalidNodeId) else Ok(U32(nodeId - numSats))
  }

  /** Ground station `gid` has node id numSats + gid and maps back to gid. */
  lemma NodeToGroundStationIdInverse(numSats: nat, numGroundStations: nat, gid: nat)
    requires gid < numGroundStations && numSats + numGroundStations < TWO_32
    ensures NodeToGroundStationId(numSats, numGroundStations, numSats + gid) == Ok(gid)
    ensures IsGroundStationId(numSats, numGroundStations, numSats + gid) == Ok(true)
  {
  }

  /** The set of endpoints the constructor builds: the node ids of the first `numGroundStations` ground stations. */
  function EndpointSet(numSats: nat, numGroundStations: nat): set<int>
  {
    if numGroundStations == 0 then {} else EndpointSet(numSats, numGroundStations - 1) + {numSats + numGroundStations - 1}
  }

  /** An id is an endpoint iff it is a ground station's node id. */
  lemma {:induction false} EndpointsAreGroundStations(numSats: nat, numGroundStations: nat, nodeId: int)
    ensures nodeId in EndpointSet(numSats, numGroundStations) <==> numSats <= nodeId < numSats + numGroundStations
  {
    if numGroundStations > 0 {
      EndpointsAreGroundStations(numSats, numGroundStations - 1, nodeId);
    }
  }

  // ------------------------------------------------------------------ utilization export

  /** A run of equal utilization values: intervals [first, end) of one device. */
  datatype Run = Run(first: nat, end: nat, value: real)

  /**
   * The rows of one device, from index `j` on, the current row having started
   * at interval `left`: a row ends at `j` when `j` is the last interval or
   * the next value differs.
   */
  function RunsFrom(u: seq<real>, j: nat, left: nat): seq<Run>
    requires j <= |u|
    decreases |u| - j
  {
    if j == |u| then []
    else if j == |u| - 1 || u[j] != u[j + 1] then [Run(left, j + 1, u[j])] + RunsFrom(u, j + 1, j + 1)
    else RunsFrom(u, j + 1, left)
  }

  function Runs(u: seq<real>): seq<Run>
  {
    RunsFrom(u, 0, 0)
  }

  /** The runs tile [from, |u|) in order, each holding one value that all its intervals have. */
  predicate Tiles(runs: seq<Run>, u: seq<real>, from: nat)
  {
    && (|runs| == 0 <==> from == |u|)
    && (|runs| > 0 ==> runs[0].first == from && runs[|runs| - 1].end == |u|)
    && (forall k :: 0 <= k < |runs| ==> runs[k].first < runs[k].end <= |u|)
    && (forall k :: 0 <= k < |runs| - 1 ==> runs[k].end == runs[k + 1].first)
    && (forall k, i :: 0 <= k < |runs| && runs[k].first <= i < runs[k].end ==> u[i] == runs[k].value)
  }

  /** Consecutive runs hold different values: no row could be merged with the next. */
  predicate Maximal(runs: seq<Run>)
  {
    forall k :: 0 <= k < |runs| - 1 ==> runs[k].value != runs[k + 1].value
  }

  lemma TilesCons(run: Run, rest: seq<Run>, u: seq<real>)
    requires Tiles(rest, u, run.end)
    requires run.first < run.end <= |u|
    requires forall i :: run.first <= i < run.end ==> u[i] == run.value
    ensures Tiles([run] + rest, u, run.first)
  {
    var runs := [run] + rest;
    forall k, i | 0 <= k < |runs| && runs[k].first <= i < runs[k].end
      ensures u[i] == runs[k].value
    {
      if k > 0 {
        assert runs[k] == rest[k - 1];
      }
    }
  }

  lemma MaximalCons(run: Run, rest: seq<Run>)
    requires Maximal(rest)
    requires |rest| > 0 ==> rest[0].value != run.value
    ensures Maximal([run] + rest)
  {
    var runs := [run] + rest;
    forall k | 0 <= k < |runs| - 1
      ensures runs[k].value != runs[k + 1].value
    {
      if k > 0 {
        assert runs[k] == rest[k - 1] && runs[k + 1] == rest[k];
      }
    }
  }

  lemma {:induction false} RunsFromTile(u: seq<real>, j: nat, left: nat)
    requires left <= j <= |u|
    requires j == |u| ==> left == j
    requires forall i :: left <= i < j ==> u[i] == u[j]
    ensures Tiles(RunsFrom(u, j, left), u, left)
    ensures Maximal(RunsFrom(u, j, left))
    ensures |RunsFrom(u, j, left)| > 0 ==> RunsFrom(u, j, left)[0].value == u[j]
    decreases |u| - j
  {
    if j < |u| {
      if j == |u| - 1 || u[j] != u[j + 1] {
        RunsFromTile(u, j + 1, j + 1);
        var run := Run(left, j + 1, u[j]);
        var rest := RunsFrom(u, j + 1, j + 1);
        assert RunsFrom(u, j, left) == [run] + rest;
        TilesCons(run, rest, u);
        MaximalCons(run, rest);
      } else {
        RunsFromTile(u, j + 1, left);
      }
    }
  }

  /** The export's rows tile the whole series, hold its values and are maximal runs. */
  lemma RunsTile(u: seq<real>)
    ensures Tiles(Runs(u), u, 0) && Maximal(Runs(u))
  {
    if |u| > 0 {
      RunsFromTile(u, 0, 0);
    }
  }

  /** The rows written for one device, with interval indices turned into nanoseconds. */
  function RowsOf(src: int, dst: int, runs: seq<Run>, intervalNs: int): (r: seq<UtilizationRow>)
    ensures |r| == |runs|
    ensures forall k :: 0 <= k < |runs| ==>
              r[k] == UtilizationRow(src, dst, runs[k].first * intervalNs, runs[k].end * intervalNs, runs[k].value)
  {
    if |runs| == 0 then []
    else [UtilizationRow(src, dst, runs[0].first * intervalNs, runs[0].end * intervalNs, runs[0].value)]
         + RowsOf(src, dst, runs[1..], intervalNs)
  }

  lemma RowsOfAppend(src: int, dst: int, a: seq<Run>, b: seq<Run>, intervalNs: int)
    ensures RowsOf(src, dst, a + b, intervalNs) == RowsOf(src, dst, a, intervalNs) + RowsOf(src, dst, b, intervalNs)
  {
  }

  /** The inner loop of CollectUtilizationStatistics for one ISL device. */
  method ExportDevice(src: int, dst: int, utilization: seq<real>, intervalNs: int) returns (rows: seq<UtilizationRow>)
    ensures rows == RowsOf(src, dst, Runs(utilization), intervalNs)
  {
    rows := [];
    var left := 0;
    ghost var leftIndex: nat := 0;
    ghost var done: seq<Run> := [];
    var j := 0;
    while j < |utilization|
      invariant 0 <= leftIndex <= j <= |utilization|
      invariant left == leftIndex * intervalNs
      invariant done + RunsFrom(utilization, j, leftIndex) == Runs(utilization)
      invariant rows == RowsOf(src, dst, done, intervalNs)
    {
      if j == |utilization| - 1 || utilization[j] != utilization[j + 1] {
        var row := UtilizationRow(src, dst, left, (j + 1) * intervalNs, utilization[j]);
        RowsOfAppend(src, dst, done, [Run(leftIndex, j + 1, utilization[j])], intervalNs);
        assert done + [Run(leftIndex, j + 1, utilization[j])] + RunsFrom(utilization, j + 1, j + 1) == Runs(utilization);
        rows := rows + [row];
        done := done + [Run(leftIndex, j + 1, utilization[j])];
        left := (j + 1) * intervalNs;
        leftIndex := j + 1;
      }
      j := j + 1;
    }
  }

  /** One tracked ISL device: its (from, to) pair and its finalized utilization series. */
  datatype IslDeviceUtilization = IslDeviceUtilization(src: int, dst: int, utilization: seq<real>)

  function AllRows(devices: seq<IslDeviceUtilization>, intervalNs: int): seq<UtilizationRow>
  {
    if |devices| == 0 then []
    else AllRows(devices[..|devices| - 1], intervalNs)
         + RowsOf(devices[|devices| - 1].src, devices[|devices| - 1].dst, Runs(devices[|devices| - 1].utilization), intervalNs)
  }

  /** CollectUtilizationStatistics: the CSV rows of every tracked device in turn (none when tracking is off). */
  method CollectUtilizationStatistics(trackingEnabled: bool, devices: seq<IslDeviceUtilization>, intervalNs: int)
    returns (rows: seq<UtilizationRow>)
    ensures rows == if trackingEnabled then AllRows(devices, intervalNs) else []
  {
    rows := [];
    if trackingEnabled {
      var i := 0;
      while i < |devices|
        invariant 0 <= i <= |devices|
        invariant rows == AllRows(devices[..i], intervalNs)
      {
        var deviceRows := ExportDevice(devices[i].src, devices[i].dst, devices[i].utilization, intervalNs);
        assert devices[..i + 1][..i] == devices[..i];
        rows := rows + deviceRows;
        i := i + 1;
      }
      assert devices[..|devices|] == devices;
    }
  }

  // ------------------------------------------------------------------ the topology object

  /** The containers TopologySatelliteNetwork fills while reading its input files. */
  class Topology {
    var numSatelliteNodes: nat
    var satellites: seq<SatelliteEntry>
    var groundStations: seq<GroundStationRow>
    var endpoints: set<int>
    var islFromTo: seq<(int, int)>
    /** The ISL lines read so far: ReadISLs' line counter, which ReadISLs only prints. */
    var numIsls: nat
    var gslIfInfo: seq<GslInfoRow>

    constructor ()
      ensures numSatelliteNodes == 0 && satellites == [] && groundStations == []
      ensures endpoints == {} && islFromTo == [] && numIsls == 0 && gslIfInfo == []
    {
      numSatelliteNodes := 0;
      satellites := [];
      groundStations := [];
      endpoints := {};
      islFromTo := [];
      numIsls := 0;
      gslIfInfo := [];
    }

    /** ReadSatellites: creates orbits × per-orbit satellite nodes and one satellite per block of lines. */
    method ReadSatellites(file: Option<TleFile>) returns (r: Outcome<TopologyError>)
      modifies this
      ensures file.None? ==> r == Fail(FileNotOpened) && satellites == old(satellites)
      ensures file.Some? ==> numSatelliteNodes == file.value.numOrbits * file.value.satellitesPerOrbit
      ensures file.Some? ==> r == SatelliteCountOutcome(|TleBlocks(file.value.lines, "", "")|, numSatelliteNodes)
      ensures r != Fail(SatelliteNodeMissing) && file.Some? ==> satellites == old(satellites) + TleBlocks(file.value.lines, "", "")
      ensures groundStations == old(groundStations) && endpoints == old(endpoints) && islFromTo == old(islFromTo)
      ensures numIsls == old(numIsls) && gslIfInfo == old(gslIfInfo)
    {
      if file.None? {
        return Fail(FileNotOpened);
      }
      var n := file.value.numOrbits * file.value.satellitesPerOrbit;
      numSatelliteNodes := n;
      var missing, entries := ScanTles(file.value.lines, n);
      if missing {
        return Fail(SatelliteNodeMissing);
      }
      satellites := satellites + entries;
      if |entries| != n {
        return Fail(SatelliteCountMismatch);
      }
      return Pass;
    }

    /** ReadGroundStations: one ground station per line; the gid must count the lines. */
    method ReadGroundStations(file: Option<seq<GroundStationRow>>) returns (r: Outcome<TopologyError>)
      modifies this
      ensures file.None? ==> r == Fail(FileNotOpened) && groundStations == old(groundStations)
      ensures file.Some? ==> (r == Pass <==> GidsIncrement(file.value, |old(groundStations)|))
      ensures r.Fail? ==> r.error == FileNotOpened || r.error == GidNotIncremented
      ensures r == Pass ==> groundStations == old(groundStations) + file.value
      ensures numSatelliteNodes == old(numSatelliteNodes) && satellites == old(satellites) && endpoints == old(endpoints)
      ensures islFromTo == old(islFromTo) && numIsls == old(numIsls) && gslIfInfo == old(gslIfInfo)
    {
      if file.None? {
        return Fail(FileNotOpened);
      }
      var rows := file.value;
      ghost var first := |groundStations|;
      var i := 0;
      while i < |rows|
        invariant 0 <= i <= |rows|
        invariant groundStations == old(groundStations) + rows[..i]
        invariant GidsIncrement(rows[..i], first)
        invariant numSatelliteNodes == old(numSatelliteNodes) && satellites == old(satellites) && endpoints == old(endpoints)
        invariant islFromTo == old(islFromTo) && numIsls == old(numIsls) && gslIfInfo == old(gslIfInfo)
      {
        groundStations := groundStations + [rows[i]];
        if U32(|groundStations|) != U32(U32(rows[i].gid) + 1) {
          assert !GidMatches(rows[i].gid, first + i);
          return Fail(GidNotIncremented);
        }
        assert rows[..i + 1] == rows[..i] + [rows[i]];
        i := i + 1;
      }
      assert rows[..i] == rows;
      return Pass;
    }

    /** The endpoint set of the constructor: node id numSats + i for each ground station i. */
    method AddEndpoints()
      modifies this
      ensures endpoints == old(endpoints) + EndpointSet(numSatelliteNodes, |groundStations|)
      ensures numSatelliteNodes == old(numSatelliteNodes) && satellites == old(satellites) && groundStations == old(groundStations)
      ensures islFromTo == old(islFromTo) && numIsls == old(numIsls) && gslIfInfo == old(gslIfInfo)
    {
      var i := 0;
      while i < |groundStations|
        invariant 0 <= i <= |groundStations|
        invariant endpoints == old(endpoints) + EndpointSet(numSatelliteNodes, i)
        invariant numSatelliteNodes == old(numSatelliteNodes) && satellites == old(satellites) && groundStations == old(groundStations)
        invariant islFromTo == old(islFromTo) && numIsls == old(numIsls) && gslIfInfo == old(gslIfInfo)
      {
        endpoints := endpoints + {numSatelliteNodes + i};
        i := i + 1;
      }
    }

    /** IsValidEndpoint: membership in the endpoint set. */
    function IsValidEndpoint(nodeId: int): bool
      reads this
    {
      nodeId in endpoints
    }

    /** GetSatellite: the satellite with that id; an id past the satellites read throws. */
    function GetSatellite(satelliteId: nat): (r: Result<SatelliteEntry, TopologyError>)
      reads this
      ensures r.Err? <==> satelliteId >= |satellites|
      ensures r.Err? ==> r.error == InvalidSatelliteId
      ensures r.Ok? ==> r.value == satellites[satelliteId]
    {
      if satelliteId >= |satellites| then Err(InvalidSatelliteId) else Ok(satellites[satelliteId])
    }

    /** ReadISLs: every pair must name two satellites; tracked devices record both directions. */
    method ReadIsls(file: Option<seq<(nat, nat)>>, trackingEnabled: bool) returns (r: Outcome<TopologyError>)
      modifies this
      ensures file.None? ==> r == Fail(FileNotOpened)
      ensures file.Some? ==> (r == Pass <==> forall k :: 0 <= k < |file.value| ==>
                                ValidIslEnd(file.value[k].0, |satellites|) && ValidIslEnd(file.value[k].1, |satellites|))
      ensures r == Pass ==> numIsls == old(numIsls) + |file.value|
      ensures r == Pass ==> islFromTo == old(islFromTo) + (if trackingEnabled then Directions(file.value) else [])
      ensures numSatelliteNodes == old(numSatelliteNodes) && satellites == old(satellites)
      ensures groundStations == old(groundStations) && endpoints == old(endpoints) && gslIfInfo == old(gslIfInfo)
    {
      if file.None? {
        return Fail(FileNotOpened);
      }
      var ok, fromTo := ScanIsls(file.value, |satellites|, trackingEnabled);
      if !ok {
        return Fail(SatelliteIdOutOfRange);
      }
      islFromTo := islFromTo + fromTo;
      numIsls := numIsls + |file.value|;
      return Pass;
    }

    /** CreateGSLs: reads the interface counts, installs the devices and checks their number. */
    method CreateGsls(file: Option<seq<GslInfoRow>>) returns (r: Outcome<TopologyError>)
      modifies this
      ensures file.None? ==> r == Fail(FileNotOpened)
      ensures file.Some? ==> r == GslInfoOutcome(file.value, numSatelliteNodes + |groundStations|)
      ensures r == Pass ==> gslIfInfo == file.value
      ensures numSatelliteNodes == old(numSatelliteNodes) && satellites == old(satellites) && groundStations == old(groundStations)
      ensures endpoints == old(endpoints) && islFromTo == old(islFromTo) && numIsls == old(numIsls)
    {
      if file.None? {
        return Fail(FileNotOpened);
      }
      var rows := file.value;
      var info: seq<GslInfoRow> := [];
      var total := 0;
      var lineCounter := 0;
      while lineCounter < |rows|
        invariant 0 <= lineCounter <= |rows|
        invariant info == rows[..lineCounter]
        invariant NodeIdsIncrement(info)
        invariant total == U32(SumIfs(info))
        invariant numSatelliteNodes == old(numSatelliteNodes) && satellites == old(satellites) && groundStations == old(groundStations)
        invariant endpoints == old(endpoints) && islFromTo == old(islFromTo) && numIsls == old(numIsls)
      {
        if rows[lineCounter].nodeId != lineCounter {
          assert !NodeIdsIncrement(rows) by {
            assert rows[lineCounter].nodeId != lineCounter;
          }
          return Fail(NodeIdNotIncremented);
        }
        info := info + [rows[lineCounter]];
        assert info[..|info| - 1] == rows[..lineCounter];
        ModAdd(SumIfs(rows[..lineCounter]), rows[lineCounter].numIfs);
        total := U32(total + rows[lineCounter].numIfs);
        lineCounter := lineCounter + 1;
      }
      assert info == rows;
      gslIfInfo := info;
      var numNodes := numSatelliteNodes + |groundStations|;
      if |info| < numNodes {
        // the helper reads node_gsl_if_info[node] for every node
        return Fail(InterfaceInfoMissing);
      }
      var installed := InstalledDevices(info, numNodes);
      if total != installed {
        return Fail(InterfaceCountMismatch);
      }
      return Pass;
    }
  }

  /**
   * The loop of ReadISLs over the lines of isls.txt: each pair is converted
   * to int32_t and must index a satellite; a tracked link records both
   * directions.  `ok` is false at the first bad line, where the simulator
   * aborts, so ReadIsls only commits the directions and the count once
   * every line has passed.
   */
  method ScanIsls(pairs: seq<(nat, nat)>, numSats: nat, trackingEnabled: bool) returns (ok: bool, fromTo: seq<(int, int)>)
    ensures ok <==> forall k :: 0 <= k < |pairs| ==> ValidIslEnd(pairs[k].0, numSats) && ValidIslEnd(pairs[k].1, numSats)
    ensures ok ==> fromTo == if trackingEnabled then Directions(pairs) else []
  {
    fromTo := [];
    var i := 0;
    while i < |pairs|
      invariant 0 <= i <= |pairs|
      invariant forall k :: 0 <= k < i ==> ValidIslEnd(pairs[k].0, numSats) && ValidIslEnd(pairs[k].1, numSats)
      invariant fromTo == if trackingEnabled then Directions(pairs[..i]) else []
    {
      var sat0, sat1 := I32(pairs[i].0), I32(pairs[i].1);
      if !(0 <= sat0 < numSats) || !(0 <= sat1 < numSats) {
        return false, fromTo;
      }
      if trackingEnabled {
        IslStep(pairs, i);
        fromTo := fromTo + [(sat0, sat1), (sat1, sat0)];
      }
      i := i + 1;
    }
    assert pairs[..i] == pairs;
    return true, fromTo;
  }

  /** One more ISL appends its two directions. */
  lemma IslStep(pairs: seq<(nat, nat)>, i: nat)
    requires i < |pairs|
    ensures Directions(pairs[..i + 1]) == Directions(pairs[..i]) + [(I32(pairs[i].0), I32(pairs[i].1)), (I32(pairs[i].1), I32(pairs[i].0))]
  {
    DirectionsAppend(pairs[..i], pairs[i]);
    assert pairs[..i + 1] == pairs[..i] + [pairs[i]];
  }

  lemma DirectionsAppend(pairs: seq<(nat, nat)>, p: (nat, nat))
    ensures Directions(pairs + [p]) == Directions(pairs) + [(I32(p.0), I32(p.1)), (I32(p.1), I32(p.0))]
  {
    if |pairs| > 0 {
      assert (pairs + [p])[1..] == pairs[1..] + [p];
      DirectionsAppend(pairs[1..], p);
    }
  }

  /** The number of GSL devices the helper installs: `numIfs` for each of the first `numNodes` rows. */
  method InstalledDevices(rows: seq<GslInfoRow>, numNodes: nat) returns (count: nat)
    requires numNodes <= |rows|
    ensures count == SumIfs(rows[..numNodes])
  {
    count := 0;
    var node := 0;
    while node < numNodes
      invariant 0 <= node <= numNodes
      invariant count == SumIfs(rows[..node])
    {
      assert rows[..node + 1][..node] == rows[..node];
      count := count + rows[node].numIfs;
      node := node + 1;
    }
  }
}
