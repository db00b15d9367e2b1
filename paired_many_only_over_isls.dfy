/**
 * algorithm_paired_many_only_over_isls: every ground station is paired to
 * its nearest in-range satellite, on the satellite GSL interface numbered
 * by the ground station's gid.  The satellites' paired interfaces share the
 * satellite's bandwidth equally; every other interface keeps the full
 * bandwidth.  The forwarding state is the shortest path over ISLs only,
 * with each ground station seeing only its paired satellite.
 */
module PairedManyOnlyOverIsls {
  import opened Outcomes
  import opened PyText
  import FstateCalculation
  import GslInterfacesInfo
  import GslIfBandwidthHelpers

  type Candidate = FstateCalculation.Candidate
  type Network = FstateCalculation.Network
  type BandwidthLine = GslIfBandwidthHelpers.BandwidthLine
  type InterfacesInfo = GslInterfacesInfo.InterfacesInfo

  datatype PairedError =
    | GraphNodeCountMismatch               // the ISL graph is not over exactly the satellites
    | SatelliteToGroundStationLink         // a satellite's neighbour in the ISL graph is not a satellite
    | SatelliteInterfaceCountNotGsCount    // a satellite without one GSL interface per ground station
    | GroundStationInterfaceCountNotOne
    | AggregateBandwidthNotOne
    | PrevBandwidthKeyMissing(nodeId: int, ifId: int)   // KeyError in the previous bandwidth state
    | Fstate(e: FstateCalculation.FstateError)

  /** What one time step returns and hands to the next. */
  datatype PairedOutput = PairedOutput(
    fstate: map<(int, int), FstateCalculation.NextHop>,
    gslIfBandwidthState: map<(int, int), real>)

  /** The result of one time step and the lines it writes to its two files. */
  datatype PairedStep = PairedStep(
    output: PairedOutput,
    bandwidthWritten: seq<BandwidthLine>,
    fstateWritten: seq<FstateCalculation.FstateLine>)

  // ---------------------------------------------------------------- input checks

  /** The check of entry i of the GSL interfaces list: interface count first, then bandwidth. */
  function InfoFailure(info: InterfacesInfo, i: nat, numSatellites: nat, numGroundStations: nat): Option<PairedError>
  {
    if i < numSatellites && info.numberOfInterfaces != numGroundStations then Some(SatelliteInterfaceCountNotGsCount)
    else if i >= numSatellites && info.numberOfInterfaces != 1 then Some(GroundStationInterfaceCountNotOne)
    else if info.aggregateMaxBandwidth != 1.0 then Some(AggregateBandwidthNotOne)
    else None
  }

  /** No satellite's neighbour below `count` (satellite ids) is a ground station. */
  predicate NeighborsAreSatellites(net: Network, count: nat)
    requires count <= |net.neighbors|
  {
    forall sid, k :: 0 <= sid < count && 0 <= k < |net.neighbors[sid]| ==> net.neighbors[sid][k].node < net.numSatellites
  }

  /** The first failing entry check from entry i on, if any. */
  function FirstInfoFailure(gslInfo: seq<InterfacesInfo>, numSatellites: nat, numGroundStations: nat, i: nat): (r: Option<PairedError>)
    ensures r.None? <==> forall j :: i <= j < |gslInfo| ==> InfoFailure(gslInfo[j], j, numSatellites, numGroundStations).None?
    decreases |gslInfo| - i
  {
    if i >= |gslInfo| then None
    else if InfoFailure(gslInfo[i], i, numSatellites, numGroundStations).Some? then InfoFailure(gslInfo[i], i, numSatellites, numGroundStations)
    else FirstInfoFailure(gslInfo, numSatellites, numGroundStations, i + 1)
  }

  /** The error the input checks raise, in their order, or None when they all pass. */
  function InputsFailure(net: Network, gslInfo: seq<InterfacesInfo>): Option<PairedError>
  {
    if |net.neighbors| != net.numSatellites then Some(GraphNodeCountMismatch)
    else if !NeighborsAreSatellites(net, net.numSatellites) then Some(SatelliteToGroundStationLink)
    else FirstInfoFailure(gslInfo, net.numSatellites, net.numGroundStations, 0)
  }

  /**
   * The checks before the pairing: the graph is over the satellites only,
   * then every interfaces entry meets the algorithm's conditions, the first
   * failing entry deciding the error.
   */
  method CheckInputs(net: Network, gslInfo: seq<InterfacesInfo>) returns (r: Outcome<PairedError>)
    ensures r.Pass? <==> |net.neighbors| == net.numSatellites && NeighborsAreSatellites(net, net.numSatellites)
                         && forall i :: 0 <= i < |gslInfo| ==> InfoFailure(gslInfo[i], i, net.numSatellites, net.numGroundStations).None?
    ensures r.Fail? && |net.neighbors| != net.numSatellites ==> r.error == GraphNodeCountMismatch
    ensures r.Fail? && |net.neighbors| == net.numSatellites && !NeighborsAreSatellites(net, net.numSatellites) ==>
              r.error == SatelliteToGroundStationLink
    ensures r.Fail? && |net.neighbors| == net.numSatellites && NeighborsAreSatellites(net, net.numSatellites) ==>
              exists i :: 0 <= i < |gslInfo| && InfoFailure(gslInfo[i], i, net.numSatellites, net.numGroundStations) == Some(r.error)
                          && forall j :: 0 <= j < i ==> InfoFailure(gslInfo[j], j, net.numSatellites, net.numGroundStations).None?
    ensures r == (if InputsFailure(net, gslInfo).None? then Pass else Fail(InputsFailure(net, gslInfo).value))
  {
    if |net.neighbors| != net.numSatellites {
      return Fail(GraphNodeCountMismatch);
    }
    for sid := 0 to net.numSatellites
      invariant NeighborsAreSatellites(net, sid)
    {
      for k := 0 to |net.neighbors[sid]|
        invariant forall k2 :: 0 <= k2 < k ==> net.neighbors[sid][k2].node < net.numSatellites
      {
        if net.neighbors[sid][k].node >= net.numSatellites {
          return Fail(SatelliteToGroundStationLink);
        }
      }
    }
    for i := 0 to |gslInfo|
      invariant forall j :: 0 <= j < i ==> InfoFailure(gslInfo[j], j, net.numSatellites, net.numGroundStations).None?
      invariant InputsFailure(net, gslInfo) == FirstInfoFailure(gslInfo, net.numSatellites, net.numGroundStations, i)
    {
      var info := gslInfo[i];
      if i < net.numSatellites {
        if info.numberOfInterfaces != net.numGroundStations {
          return Fail(SatelliteInterfaceCountNotGsCount);
        }
      } else {
        if info.numberOfInterfaces != 1 {
          return Fail(GroundStationInterfaceCountNotOne);
        }
      }
      if info.aggregateMaxBandwidth != 1.0 {
        return Fail(AggregateBandwidthNotOne);
      }
    }
    return Pass;
  }

  // ---------------------------------------------------------------- nearest satellite

  /** The loop over the in-range list: (chosen satellite, its distance), or (-1, initial best) when none is nearer than that. */
  function Nearest(cands: seq<Candidate>): (int, real)
  {
    if |cands| == 0 then (-1, FstateCalculation.INITIAL_BEST_M)
    else
      var best := Nearest(cands[..|cands| - 1]);
      var c := cands[|cands| - 1];
      if c.distanceM < best.1 then (c.satellite, c.distanceM) else best
  }

  /**
   * The choice is the first in-range satellite at the least distance, if
   * that distance is below the initial best; otherwise there is none.
   */
  lemma {:induction false} NearestIsFirstClosest(cands: seq<Candidate>)
    requires forall k :: 0 <= k < |cands| ==> cands[k].satellite >= 0
    ensures var (sid, d) := Nearest(cands);
            && (sid == -1 <==> forall k :: 0 <= k < |cands| ==> cands[k].distanceM >= FstateCalculation.INITIAL_BEST_M)
            && (sid == -1 ==> d == FstateCalculation.INITIAL_BEST_M)
            && (sid != -1 ==> exists k :: 0 <= k < |cands| && cands[k] == FstateCalculation.Candidate(d, sid)
                                         && d < FstateCalculation.INITIAL_BEST_M
                                         && (forall j :: 0 <= j < |cands| ==> d <= cands[j].distanceM)
                                         && (forall j :: 0 <= j < k ==> d < cands[j].distanceM))
    decreases |cands|
  {
    if |cands| > 0 {
      var pre := cands[..|cands| - 1];
      assert forall k :: 0 <= k < |pre| ==> pre[k] == cands[k];
      NearestIsFirstClosest(pre);
      var (sid, d) := Nearest(pre);
      if sid != -1 {
        var k :| 0 <= k < |pre| && pre[k] == FstateCalculation.Candidate(d, sid) && d < FstateCalculation.INITIAL_BEST_M
                 && (forall j :: 0 <= j < |pre| ==> d <= pre[j].distanceM) && (forall j :: 0 <= j < k ==> d < pre[j].distanceM);
        assert cands[k] == pre[k];
      }
    }
  }

  /** The search for the closest satellite of one ground station. */
  method ChooseNearest(cands: seq<Candidate>) returns (chosenSid: int, bestDistanceM: real)
    ensures (chosenSid, bestDistanceM) == Nearest(cands)
  {
    chosenSid := -1;
    bestDistanceM := FstateCalculation.INITIAL_BEST_M;
    for k := 0 to |cands|
      invariant (chosenSid, bestDistanceM) == Nearest(cands[..k])
    {
      assert cands[..k + 1][..k] == cands[..k];
      var c := cands[k];
      if c.distanceM < bestDistanceM {
        chosenSid := c.satellite;
        bestDistanceM := c.distanceM;
      }
    }
    assert cands[..|cands|] == cands;
  }

  // ---------------------------------------------------------------- pairing

  /** The satellite ground station gid is paired to, or -1. */
  function Choice(net: Network, gid: nat): int
    requires gid < |net.candidates|
  {
    Nearest(net.candidates[gid]).0
  }

  /** `satellite_gsl_ifs_paired[sid]` after the first `count` ground stations: their gids paired to sid, in order. */
  function PairedTo(net: Network, sid: int, count: nat): seq<int>
    requires count <= |net.candidates|
  {
    if count == 0 then []
    else PairedTo(net, sid, count - 1) + (if Choice(net, count - 1) == sid then [count - 1] else [])
  }

  /** `ground_station_satellites_in_range_select_one_at_most[gid]`. */
  function Selected(net: Network, gid: nat): seq<Candidate>
    requires gid < |net.candidates|
  {
    var (sid, d) := Nearest(net.candidates[gid]);
    if sid == -1 then [] else [FstateCalculation.Candidate(d, sid)]
  }

  /** A ground station is in a satellite's paired list exactly when that satellite is its choice; the list is increasing. */
  lemma {:induction false} PairedToMembers(net: Network, sid: int, count: nat)
    requires count <= |net.candidates|
    ensures forall gid :: gid in PairedTo(net, sid, count) <==> 0 <= gid < count && Choice(net, gid) == sid
    ensures forall a, b :: 0 <= a < b < |PairedTo(net, sid, count)| ==> PairedTo(net, sid, count)[a] < PairedTo(net, sid, count)[b]
    decreases count
  {
    if count > 0 {
      PairedToMembers(net, sid, count - 1);
      var pre := PairedTo(net, sid, count - 1);
      var p := PairedTo(net, sid, count);
      if Choice(net, count - 1) == sid {
        assert p == pre + [count - 1];
        forall a, b | 0 <= a < b < |p|
          ensures p[a] < p[b]
        {
          if b == |pre| {
            assert pre[a] in pre;
          }
        }
      } else {
        assert p == pre;
      }
    }
  }

  /** The well-formedness the pairing relies on: one in-range list per ground station, satellite ids in range. */
  predicate CandidatesShaped(net: Network)
  {
    && |net.candidates| == net.numGroundStations
    && forall gid, k :: 0 <= gid < net.numGroundStations && 0 <= k < |net.candidates[gid]| ==>
         0 <= net.candidates[gid][k].satellite < net.numSatellites
  }

  lemma ChoiceInRange(net: Network, gid: nat)
    requires CandidatesShaped(net) && gid < net.numGroundStations
    ensures -1 <= Choice(net, gid) < net.numSatellites
  {
    NearestIsFirstClosest(net.candidates[gid]);
  }

  /** The pairing loop: one selection per ground station and the paired gids of every satellite. */
  method PairGroundStations(net: Network) returns (selected: seq<seq<Candidate>>, paired: seq<seq<int>>)
    requires CandidatesShaped(net)
    ensures |selected| == net.numGroundStations && |paired| == net.numSatellites
    ensures forall gid :: 0 <= gid < net.numGroundStations ==> selected[gid] == Selected(net, gid)
    ensures forall sid :: 0 <= sid < net.numSatellites ==> paired[sid] == PairedTo(net, sid, net.numGroundStations)
  {
    paired := seq(net.numSatellites, _ => []);
    selected := [];
    for gid := 0 to net.numGroundStations
      invariant |selected| == gid && |paired| == net.numSatellites
      invariant forall g :: 0 <= g < gid ==> selected[g] == Selected(net, g)
      invariant forall sid :: 0 <= sid < net.numSatellites ==> paired[sid] == PairedTo(net, sid, gid)
    {
      var chosenSid, bestDistanceM := ChooseNearest(net.candidates[gid]);
      ChoiceInRange(net, gid);
      if chosenSid == -1 {
        selected := selected + [[]];
      } else {
        selected := selected + [[FstateCalculation.Candidate(bestDistanceM, chosenSid)]];
        paired := paired[chosenSid := paired[chosenSid] + [gid]];
      }
    }
  }

  // ---------------------------------------------------------------- bandwidth shares

  /** The bandwidth of satellite sid's GSL interface for ground station idx: 1/k when paired among k, else 1.0. */
  function SatelliteShare(net: Network, sid: int, idx: int): real
    requires CandidatesShaped(net)
  {
    var p := PairedTo(net, sid, net.numGroundStations);
    if idx in p then 1.0 / (|p| as real) else 1.0
  }

  /** The bandwidth of ground station gid's GSL interface: its satellite's share, or 1.0 when unpaired. */
  function GroundStationShare(net: Network, gid: nat): real
    requires CandidatesShaped(net) && gid < net.numGroundStations
  {
    var sid := Choice(net, gid);
    if sid == -1 then 1.0
    else
      PairedToMembers(net, sid, net.numGroundStations);
      assert gid in PairedTo(net, sid, net.numGroundStations);
      1.0 / (|PairedTo(net, sid, net.numGroundStations)| as real)
  }

  /** The share the bandwidth state gives the interface `key`: a satellite's (sid, ISLs + idx) or a ground station's (n + gid, 0). */
  function KeyShare(net: Network, key: (int, int)): real
    requires CandidatesShaped(net) && |net.numIslsPerSat| == net.numSatellites
  {
    if 0 <= key.0 < net.numSatellites then SatelliteShare(net, key.0, key.1 - net.numIslsPerSat[key.0])
    else if 0 <= key.0 - net.numSatellites < net.numGroundStations then GroundStationShare(net, key.0 - net.numSatellites)
    else 1.0
  }

  /** Satellite sid's interface keys for the first `count` ground stations. */
  function RowKeys(numIslsPerSat: seq<int>, sid: nat, count: nat): seq<(int, int)>
    requires sid < |numIslsPerSat|
  {
    if count == 0 then [] else RowKeys(numIslsPerSat, sid, count - 1) + [(sid, numIslsPerSat[sid] + count - 1)]
  }

  /** The interface keys of the first `count` satellites, satellite by satellite. */
  function SatelliteKeys(numIslsPerSat: seq<int>, count: nat, numGroundStations: nat): seq<(int, int)>
    requires count <= |numIslsPerSat|
  {
    if count == 0 then [] else SatelliteKeys(numIslsPerSat, count - 1, numGroundStations) + RowKeys(numIslsPerSat, count - 1, numGroundStations)
  }

  /** The interface keys of the first `count` ground stations. */
  function GroundStationKeys(numSatellites: nat, count: nat): seq<(int, int)>
  {
    if count == 0 then [] else GroundStationKeys(numSatellites, count - 1) + [(numSatellites + count - 1, 0)]
  }

  /** The keys of `gsl_if_bandwidth_state` in insertion order, which is the order a dict iterates in. */
  function BandwidthKeys(net: Network): seq<(int, int)>
    requires |net.numIslsPerSat| == net.numSatellites
  {
    SatelliteKeys(net.numIslsPerSat, net.numSatellites, net.numGroundStations) + GroundStationKeys(net.numSatellites, net.numGroundStations)
  }

  lemma {:induction false} RowKeysAt(isl: seq<int>, sid: nat, count: nat)
    requires sid < |isl|
    ensures |RowKeys(isl, sid, count)| == count
    ensures forall idx :: 0 <= idx < count ==> RowKeys(isl, sid, count)[idx] == (sid, isl[sid] + idx)
    decreases count
  {
    if count > 0 {
      RowKeysAt(isl, sid, count - 1);
    }
  }

  /** Every satellite key names a satellite below `count` and one of its GSL interfaces. */
  lemma {:induction false} SatelliteKeysIn(isl: seq<int>, count: nat, g: nat, key: (int, int))
    requires count <= |isl|
    ensures key in SatelliteKeys(isl, count, g) <==> 0 <= key.0 < count && isl[key.0] <= key.1 < isl[key.0] + g
    decreases count
  {
    if count > 0 {
      var prev := SatelliteKeys(isl, count - 1, g);
      var row := RowKeys(isl, count - 1, g);
      SatelliteKeysIn(isl, count - 1, g, key);
      RowKeysIn(isl, count - 1, g, key);
      InConcat(prev, row, key);
      if key.0 == count - 1 {
        assert key !in prev;
      } else {
        assert key !in row;
      }
    }
  }

  lemma InConcat<T>(a: seq<T>, b: seq<T>, x: T)
    ensures x in a + b <==> x in a || x in b
  {
  }

  /** Satellite sid's row holds exactly its GSL interface keys. */
  lemma RowKeysIn(isl: seq<int>, sid: nat, g: nat, key: (int, int))
    requires sid < |isl|
    ensures key in RowKeys(isl, sid, g) <==> key.0 == sid && isl[sid] <= key.1 < isl[sid] + g
  {
    RowKeysAt(isl, sid, g);
    if key.0 == sid && isl[sid] <= key.1 < isl[sid] + g {
      assert RowKeys(isl, sid, g)[key.1 - isl[sid]] == key;
    }
  }

  lemma {:induction false} GroundStationKeysIn(n: nat, count: nat, key: (int, int))
    ensures key in GroundStationKeys(n, count) <==> n <= key.0 < n + count && key.1 == 0
    decreases count
  {
    if count > 0 {
      GroundStationKeysIn(n, count - 1, key);
    }
  }

  /** The keys are those of IsBandwidthState: each satellite's GSL interfaces above its ISLs, and interface 0 of each ground station. */
  lemma BandwidthKeysIn(net: Network, key: (int, int))
    requires |net.numIslsPerSat| == net.numSatellites
    ensures key in BandwidthKeys(net) <==>
              || (0 <= key.0 < net.numSatellites && net.numIslsPerSat[key.0] <= key.1 < net.numIslsPerSat[key.0] + net.numGroundStations)
              || (net.numSatellites <= key.0 < net.numSatellites + net.numGroundStations && key.1 == 0)
  {
    SatelliteKeysIn(net.numIslsPerSat, net.numSatellites, net.numGroundStations, key);
    GroundStationKeysIn(net.numSatellites, net.numGroundStations, key);
  }

  /** The key of satellite sid's GSL interface for ground station idx: its interfaces after the ISLs. */
  function SatelliteKey(net: Network, sid: nat, idx: int): (int, int)
    requires sid < |net.numIslsPerSat|
  {
    (sid, net.numIslsPerSat[sid] + idx)
  }

  /** The key of ground station gid's only GSL interface. */
  function GroundStationKey(net: Network, gid: int): (int, int)
  {
    (net.numSatellites + gid, 0)
  }

  /** No key occurs twice. */
  predicate Distinct(keys: seq<(int, int)>)
  {
    forall i, j :: 0 <= i < j < |keys| ==> keys[i] != keys[j]
  }

  lemma DistinctConcat(a: seq<(int, int)>, b: seq<(int, int)>)
    requires Distinct(a) && Distinct(b)
    requires forall x :: x in a ==> x !in b
    ensures Distinct(a + b)
  {
    forall i, j | 0 <= i < j < |a + b|
      ensures (a + b)[i] != (a + b)[j]
    {
      if i < |a| && j >= |a| {
        assert (a + b)[i] in a && (a + b)[j] in b;
      }
    }
  }

  lemma {:induction false} SatelliteKeysDistinct(isl: seq<int>, count: nat, g: nat)
    requires count <= |isl|
    ensures Distinct(SatelliteKeys(isl, count, g))
    decreases count
  {
    if count > 0 {
      var prev := SatelliteKeys(isl, count - 1, g);
      var row := RowKeys(isl, count - 1, g);
      SatelliteKeysDistinct(isl, count - 1, g);
      RowKeysDistinct(isl, count - 1, g);
      forall x | x in prev
        ensures x !in row
      {
        SatelliteKeysIn(isl, count - 1, g, x);
        RowKeysIn(isl, count - 1, g, x);
      }
      DistinctConcat(prev, row);
    }
  }

  lemma RowKeysDistinct(isl: seq<int>, sid: nat, g: nat)
    requires sid < |isl|
    ensures Distinct(RowKeys(isl, sid, g))
  {
    RowKeysAt(isl, sid, g);
  }

  lemma {:induction false} GroundStationKeysDistinct(n: nat, count: nat)
    ensures Distinct(GroundStationKeys(n, count))
    decreases count
  {
    if count > 0 {
      GroundStationKeysDistinct(n, count - 1);
      GroundStationKeysIn(n, count - 1, (n + count - 1, 0));
      DistinctConcat(GroundStationKeys(n, count - 1), [(n + count - 1, 0)]);
    }
  }

  /** The bandwidth keys never repeat: the key list is the dict's key set, each key once, in insertion order. */
  lemma BandwidthKeysDistinct(net: Network)
    requires |net.numIslsPerSat| == net.numSatellites
    ensures Distinct(BandwidthKeys(net))
  {
    var sats := SatelliteKeys(net.numIslsPerSat, net.numSatellites, net.numGroundStations);
    var gss := GroundStationKeys(net.numSatellites, net.numGroundStations);
    SatelliteKeysDistinct(net.numIslsPerSat, net.numSatellites, net.numGroundStations);
    GroundStationKeysDistinct(net.numSatellites, net.numGroundStations);
    forall x | x in sats
      ensures x !in gss
    {
      SatelliteKeysIn(net.numIslsPerSat, net.numSatellites, net.numGroundStations, x);
      GroundStationKeysIn(net.numSatellites, net.numGroundStations, x);
    }
    DistinctConcat(sats, gss);
  }

  /** `gsl_if_bandwidth_state`: every key of BandwidthKeys holding its share. */
  function BandwidthState(net: Network): (state: map<(int, int), real>)
    requires CandidatesShaped(net) && |net.numIslsPerSat| == net.numSatellites
    ensures forall key :: key in state <==> key in BandwidthKeys(net)
  {
    map key | key in BandwidthKeys(net) :: KeyShare(net, key)
  }

  /** The bandwidth state: every satellite interface and every ground station interface holds its share. */
  ghost predicate IsBandwidthState(net: Network, state: map<(int, int), real>)
    requires CandidatesShaped(net) && |net.numIslsPerSat| == net.numSatellites
  {
    && (forall sid: nat, idx :: sid < net.numSatellites && 0 <= idx < net.numGroundStations ==>
          SatelliteKey(net, sid, idx) in state && state[SatelliteKey(net, sid, idx)] == SatelliteShare(net, sid, idx))
    && (forall gid :: 0 <= gid < net.numGroundStations ==>
          GroundStationKey(net, gid) in state && state[GroundStationKey(net, gid)] == GroundStationShare(net, gid))
  }

  /** A partly filled bandwidth state: the keys inserted so far, each holding its share. */
  ghost predicate Filled(net: Network, state: map<(int, int), real>, order: seq<(int, int)>)
    requires CandidatesShaped(net) && |net.numIslsPerSat| == net.numSatellites
  {
    && (forall key :: key in state <==> key in order)
    && (forall key :: key in state ==> state[key] == KeyShare(net, key))
  }

  lemma FillStep(net: Network, state: map<(int, int), real>, order: seq<(int, int)>, key: (int, int))
    requires CandidatesShaped(net) && |net.numIslsPerSat| == net.numSatellites
    requires Filled(net, state, order)
    ensures Filled(net, state[key := KeyShare(net, key)], order + [key])
  {
  }

  /** Once every key is inserted the state is the bandwidth state. */
  lemma FilledIsState(net: Network, state: map<(int, int), real>)
    requires CandidatesShaped(net) && |net.numIslsPerSat| == net.numSatellites
    requires Filled(net, state, BandwidthKeys(net))
    ensures state == BandwidthState(net)
  {
    var full := BandwidthState(net);
    assert forall key :: key in state <==> key in full;
    assert forall key :: key in state ==> state[key] == full[key];
  }

  /**
   * The two loops that fill `gsl_if_bandwidth_state`, returned with the
   * order its keys were first inserted in.
   */
  method ComputeBandwidthState(net: Network, paired: seq<seq<int>>, selected: seq<seq<Candidate>>)
    returns (state: map<(int, int), real>, order: seq<(int, int)>)
    requires CandidatesShaped(net) && |net.numIslsPerSat| == net.numSatellites
    requires |selected| == net.numGroundStations && |paired| == net.numSatellites
    requires forall gid :: 0 <= gid < net.numGroundStations ==> selected[gid] == Selected(net, gid)
    requires forall sid :: 0 <= sid < net.numSatellites ==> paired[sid] == PairedTo(net, sid, net.numGroundStations)
    ensures order == BandwidthKeys(net)
    ensures state == BandwidthState(net)
  {
    state, order := SatelliteShares(net, paired);
    state, order := GroundStationShares(net, paired, selected, state, order);
    FilledIsState(net, state);
  }

  /** The loop over the satellites: every GSL interface of every satellite gets its share. */
  method SatelliteShares(net: Network, paired: seq<seq<int>>)
    returns (state: map<(int, int), real>, order: seq<(int, int)>)
    requires CandidatesShaped(net) && |net.numIslsPerSat| == net.numSatellites && |paired| == net.numSatellites
    requires forall s :: 0 <= s < net.numSatellites ==> paired[s] == PairedTo(net, s, net.numGroundStations)
    ensures order == SatelliteKeys(net.numIslsPerSat, net.numSatellites, net.numGroundStations)
    ensures Filled(net, state, order)
  {
    state := map[];
    order := [];
    var n, g := net.numSatellites, net.numGroundStations;
    for sid := 0 to n
      invariant order == SatelliteKeys(net.numIslsPerSat, sid, g)
      invariant Filled(net, state, order)
    {
      state, order := SatelliteRow(net, paired, sid, state, order);
    }
  }

  /** One round of the loop over the satellites: the shares of satellite sid's GSL interfaces, in order. */
  method SatelliteRow(net: Network, paired: seq<seq<int>>, sid: nat, state0: map<(int, int), real>, order0: seq<(int, int)>)
    returns (state: map<(int, int), real>, order: seq<(int, int)>)
    requires CandidatesShaped(net) && |net.numIslsPerSat| == net.numSatellites && |paired| == net.numSatellites
    requires sid < net.numSatellites
    requires forall s :: 0 <= s < net.numSatellites ==> paired[s] == PairedTo(net, s, net.numGroundStations)
    requires Filled(net, state0, order0)
    ensures order == order0 + RowKeys(net.numIslsPerSat, sid, net.numGroundStations)
    ensures Filled(net, state, order)
  {
    state, order := state0, order0;
    var satelliteFrequencyChosen := |paired[sid]|;
    for gslIfIdx := 0 to net.numGroundStations
      invariant order == order0 + RowKeys(net.numIslsPerSat, sid, gslIfIdx)
      invariant Filled(net, state, order)
    {
      var key := (sid, net.numIslsPerSat[sid] + gslIfIdx);
      var share;
      if gslIfIdx in paired[sid] {
        share := 1.0 / (satelliteFrequencyChosen as real);
      } else {
        share := 1.0;
      }
      SatelliteKeyShare(net, sid, gslIfIdx);
      FillStep(net, state, order, key);
      state := state[key := share];
      order := order + [key];
    }
  }

  /** The share KeyShare gives satellite sid's interface for ground station idx. */
  lemma SatelliteKeyShare(net: Network, sid: nat, idx: int)
    requires CandidatesShaped(net) && |net.numIslsPerSat| == net.numSatellites && sid < net.numSatellites
    ensures KeyShare(net, (sid, net.numIslsPerSat[sid] + idx)) == SatelliteShare(net, sid, idx)
  {
  }

  /** The loop over the ground stations: each gets its satellite's share, or 1.0 when unpaired. */
  method GroundStationShares(net: Network, paired: seq<seq<int>>, selected: seq<seq<Candidate>>,
                             state0: map<(int, int), real>, order0: seq<(int, int)>)
    returns (state: map<(int, int), real>, order: seq<(int, int)>)
    requires CandidatesShaped(net) && |net.numIslsPerSat| == net.numSatellites
    requires |selected| == net.numGroundStations && |paired| == net.numSatellites
    requires forall gid :: 0 <= gid < net.numGroundStations ==> selected[gid] == Selected(net, gid)
    requires forall sid :: 0 <= sid < net.numSatellites ==> paired[sid] == PairedTo(net, sid, net.numGroundStations)
    requires Filled(net, state0, order0)
    ensures order == order0 + GroundStationKeys(net.numSatellites, net.numGroundStations)
    ensures Filled(net, state, order)
  {
    state, order := state0, order0;
    var n, g := net.numSatellites, net.numGroundStations;
    for gid := 0 to g
      invariant order == order0 + GroundStationKeys(n, gid)
      invariant Filled(net, state, order)
    {
      var key := (n + gid, 0);
      var share;
      if |selected[gid]| == 1 {
        var pairedSatelliteId := selected[gid][0].satellite;
        ChoiceInRange(net, gid);
        PairedShareOfChoice(net, gid);
        var satelliteFrequencyChosen := |paired[pairedSatelliteId]|;
        share := 1.0 / (satelliteFrequencyChosen as real);
      } else {
        share := 1.0;
      }
      assert share == KeyShare(net, key);
      FillStep(net, state, order, key);
      state := state[key := share];
      order := order + [key];
    }
  }

  /** The shares of the bandwidth state hold for every satellite and ground station interface: IsBandwidthState. */
  lemma BandwidthStateShares(net: Network)
    requires CandidatesShaped(net) && |net.numIslsPerSat| == net.numSatellites
    ensures IsBandwidthState(net, BandwidthState(net))
  {
    var state := BandwidthState(net);
    forall sid: nat, idx | sid < net.numSatellites && 0 <= idx < net.numGroundStations
      ensures SatelliteKey(net, sid, idx) in state && state[SatelliteKey(net, sid, idx)] == SatelliteShare(net, sid, idx)
    {
      BandwidthKeysIn(net, SatelliteKey(net, sid, idx));
    }
    forall gid | 0 <= gid < net.numGroundStations
      ensures GroundStationKey(net, gid) in state && state[GroundStationKey(net, gid)] == GroundStationShare(net, gid)
    {
      BandwidthKeysIn(net, GroundStationKey(net, gid));
    }
  }

  /** The bandwidth state holds no key but those of IsBandwidthState. */
  lemma BandwidthStateOnlyShares(net: Network, key: (int, int))
    requires CandidatesShaped(net) && |net.numIslsPerSat| == net.numSatellites
    requires key in BandwidthState(net)
    ensures || (exists sid: nat, idx :: sid < net.numSatellites && 0 <= idx < net.numGroundStations && key == SatelliteKey(net, sid, idx))
            || (exists gid :: 0 <= gid < net.numGroundStations && key == GroundStationKey(net, gid))
  {
    BandwidthKeysIn(net, key);
    if 0 <= key.0 < net.numSatellites {
      assert key == SatelliteKey(net, key.0, key.1 - net.numIslsPerSat[key.0]);
    } else {
      assert key == GroundStationKey(net, key.0 - net.numSatellites);
    }
  }

  // ---------------------------------------------------------------- properties of the shares

  /** Every share is in (0, 1]: a share 1/k has k >= 1 paired ground stations. */
  lemma SatelliteShareInUnitInterval(net: Network, sid: int, idx: int)
    requires CandidatesShaped(net)
    ensures 0.0 < SatelliteShare(net, sid, idx) <= 1.0
  {
    var p := PairedTo(net, sid, net.numGroundStations);
    if idx in p {
      assert |p| >= 1;
    }
  }

  lemma GroundStationShareInUnitInterval(net: Network, gid: nat)
    requires CandidatesShaped(net) && gid < net.numGroundStations
    ensures 0.0 < GroundStationShare(net, gid) <= 1.0
  {
    if Choice(net, gid) != -1 {
      PairedShareOfChoice(net, gid);
    }
  }

  /** A paired ground station gets exactly the share of its own interface on its satellite. */
  lemma GroundStationShareMatchesSatellite(net: Network, gid: nat)
    requires CandidatesShaped(net) && gid < net.numGroundStations && Choice(net, gid) != -1
    ensures GroundStationShare(net, gid) == SatelliteShare(net, Choice(net, gid), gid)
  {
    PairedToMembers(net, Choice(net, gid), net.numGroundStations);
  }

  /** The sum of the shares of satellite sid's interfaces for the first `count` ground stations that are paired to it. */
  function PairedShareSum(net: Network, sid: int, count: nat): real
    requires CandidatesShaped(net) && count <= net.numGroundStations
  {
    if count == 0 then 0.0
    else PairedShareSum(net, sid, count - 1) + (if Choice(net, count - 1) == sid then SatelliteShare(net, sid, count - 1) else 0.0)
  }

  lemma {:induction false} PairedShareSumCounts(net: Network, sid: int, count: nat)
    requires CandidatesShaped(net) && count <= net.numGroundStations && |PairedTo(net, sid, net.numGroundStations)| > 0
    ensures PairedShareSum(net, sid, count) == (|PairedTo(net, sid, count)| as real) / (|PairedTo(net, sid, net.numGroundStations)| as real)
    decreases count
  {
    if count > 0 {
      PairedShareSumCounts(net, sid, count - 1);
      var k := |PairedTo(net, sid, net.numGroundStations)|;
      var c := |PairedTo(net, sid, count - 1)|;
      if Choice(net, count - 1) == sid {
        PairedShareOfChoice(net, count - 1);
        AddShare(k, c);
        assert |PairedTo(net, sid, count)| == c + 1;
      } else {
        assert PairedTo(net, sid, count) == PairedTo(net, sid, count - 1);
      }
    }
  }

  /** A ground station's interface on its chosen satellite has the share 1/k of that satellite's k paired ones. */
  lemma PairedShareOfChoice(net: Network, gid: nat)
    requires CandidatesShaped(net) && gid < net.numGroundStations
    ensures var p := PairedTo(net, Choice(net, gid), net.numGroundStations);
            |p| > 0 && SatelliteShare(net, Choice(net, gid), gid) == 1.0 / (|p| as real)
  {
    PairedToMembers(net, Choice(net, gid), net.numGroundStations);
  }

  lemma AddShare(k: nat, c: nat)
    requires k > 0
    ensures (c as real) / (k as real) + 1.0 / (k as real) == ((c + 1) as real) / (k as real)
  {
  }

  /** The interfaces paired to a satellite share its whole bandwidth: their shares add up to 1.0. */
  lemma PairedSharesSumToOne(net: Network, sid: int)
    requires CandidatesShaped(net) && |PairedTo(net, sid, net.numGroundStations)| > 0
    ensures PairedShareSum(net, sid, net.numGroundStations) == 1.0
  {
    PairedShareSumCounts(net, sid, net.numGroundStations);
    WholeShare(|PairedTo(net, sid, net.numGroundStations)|);
  }

  lemma WholeShare(k: nat)
    requires k > 0
    ensures (k as real) / (k as real) == 1.0
  {
  }

  // ---------------------------------------------------------------- the delta written

  /** The line `"%d,%d,%f"` for one interface, as the bandwidth loader parses it. */
  function LineOf(key: (int, int), share: real): BandwidthLine
  {
    GslIfBandwidthHelpers.BandwidthLine(key.0, key.1, Fixed6(share))
  }

  /** The lines written for `keys`: all of them without a previous state, else those whose share changed. */
  function BandwidthDelta(state: map<(int, int), real>, keys: seq<(int, int)>, prev: Option<map<(int, int), real>>)
    : Result<seq<BandwidthLine>, PairedError>
    requires forall k :: 0 <= k < |keys| ==> keys[k] in state
    decreases |keys|
  {
    if |keys| == 0 then Ok([])
    else
      var pre := BandwidthDelta(state, keys[..|keys| - 1], prev);
      var key := keys[|keys| - 1];
      if pre.Err? then pre
      else if prev.None? then Ok(pre.value + [LineOf(key, state[key])])
      else if key !in prev.value then Err(PrevBandwidthKeyMissing(key.0, key.1))
      else if prev.value[key] != state[key] then Ok(pre.value + [LineOf(key, state[key])])
      else pre
  }

  /** The writing loop over the keys in dict order. */
  method WriteBandwidthDelta(state: map<(int, int), real>, order: seq<(int, int)>, prev: Option<map<(int, int), real>>)
    returns (r: Result<seq<BandwidthLine>, PairedError>)
    requires forall k :: 0 <= k < |order| ==> order[k] in state
    ensures r == BandwidthDelta(state, order, prev)
  {
    var written: seq<BandwidthLine> := [];
    for k := 0 to |order|
      invariant BandwidthDelta(state, order[..k], prev) == Ok(written)
    {
      assert order[..k + 1][..k] == order[..k];
      var key := order[k];
      if prev.Some? {
        if key !in prev.value {
          FailureStays(state, order, prev, k + 1);
          return Err(PrevBandwidthKeyMissing(key.0, key.1));
        }
      }
      if prev.None? || prev.value[key] != state[key] {
        written := written + [LineOf(key, state[key])];
      }
    }
    assert order[..|order|] == order;
    return Ok(written);
  }

  /** Once a key has failed, the delta of any longer run of keys fails with the same error. */
  lemma {:induction false} FailureStays(state: map<(int, int), real>, keys: seq<(int, int)>, prev: Option<map<(int, int), real>>, k: nat)
    requires forall j :: 0 <= j < |keys| ==> keys[j] in state
    requires k <= |keys| && BandwidthDelta(state, keys[..k], prev).Err?
    ensures BandwidthDelta(state, keys, prev) == BandwidthDelta(state, keys[..k], prev)
    decreases |keys| - k
  {
    if k < |keys| {
      assert keys[..k + 1][..k] == keys[..k];
      FailureStays(state, keys, prev, k + 1);
    } else {
      assert keys[..k] == keys;
    }
  }

  /** Without a previous state every key is written, in order, with its share. */
  lemma {:induction false} FirstStepWritesAll(state: map<(int, int), real>, keys: seq<(int, int)>)
    requires forall k :: 0 <= k < |keys| ==> keys[k] in state
    ensures BandwidthDelta(state, keys, None).Ok?
    ensures |BandwidthDelta(state, keys, None).value| == |keys|
    ensures forall k :: 0 <= k < |keys| ==> BandwidthDelta(state, keys, None).value[k] == LineOf(keys[k], state[keys[k]])
    decreases |keys|
  {
    if |keys| > 0 {
      FirstStepWritesAll(state, keys[..|keys| - 1]);
    }
  }

  /** Against an unchanged previous state nothing is written. */
  lemma {:induction false} UnchangedWritesNothing(state: map<(int, int), real>, keys: seq<(int, int)>)
    requires forall k :: 0 <= k < |keys| ==> keys[k] in state
    ensures BandwidthDelta(state, keys, Some(state)) == Ok([])
    decreases |keys|
  {
    if |keys| > 0 {
      UnchangedWritesNothing(state, keys[..|keys| - 1]);
    }
  }

  /** Against a previous state, every written line is a key whose share changed, carrying the new share. */
  lemma {:induction false} WrittenSharesChanged(state: map<(int, int), real>, keys: seq<(int, int)>, prev: map<(int, int), real>)
    requires forall k :: 0 <= k < |keys| ==> keys[k] in state
    requires BandwidthDelta(state, keys, Some(prev)).Ok?
    ensures forall j :: 0 <= j < |BandwidthDelta(state, keys, Some(prev)).value| ==>
              var l := BandwidthDelta(state, keys, Some(prev)).value[j];
              exists key :: key in keys && key in prev && prev[key] != state[key] && l == LineOf(key, state[key])
    decreases |keys|
  {
    if |keys| > 0 {
      var pre := keys[..|keys| - 1];
      WrittenSharesChanged(state, pre, prev);
      assert forall key :: key in pre ==> key in keys;
    }
  }

  // ---------------------------------------------------------------- one time step

  /** The network the forwarding state is calculated on: each ground station sees only its paired satellite, on interface gid. */
  function PairedNetwork(net: Network): Network
    requires CandidatesShaped(net)
  {
    net.(gidToSatGslIfIdx := seq(net.numGroundStations, gid => gid),
         candidates := seq(net.numGroundStations, gid requires 0 <= gid < net.numGroundStations => Selected(net, gid)))
  }

  /** The shapes the caller builds: distance matrix, ISL counts and in-range lists (the graph itself is checked). */
  predicate InputsShaped(net: Network)
  {
    && |net.dist| == net.numSatellites
    && (forall u :: 0 <= u < net.numSatellites ==> |net.dist[u]| == net.numSatellites)
    && |net.numIslsPerSat| == net.numSatellites
    && CandidatesShaped(net)
  }

  /** The inputs pass the checks of the algorithm. */
  predicate InputsPass(net: Network, gslInfo: seq<InterfacesInfo>)
  {
    && |net.neighbors| == net.numSatellites
    && NeighborsAreSatellites(net, net.numSatellites)
    && forall i :: 0 <= i < |gslInfo| ==> InfoFailure(gslInfo[i], i, net.numSatellites, net.numGroundStations).None?
  }

  /** The ISL neighbours are node ids, so never negative. */
  predicate NeighborsNonNegative(net: Network)
  {
    forall sid, k :: 0 <= sid < |net.neighbors| && 0 <= k < |net.neighbors[sid]| ==> 0 <= net.neighbors[sid][k].node
  }

  /** Inputs that pass the checks give a paired network the forwarding state calculation accepts. */
  lemma PairedNetworkShaped(net: Network, gslInfo: seq<InterfacesInfo>)
    requires InputsShaped(net) && NeighborsNonNegative(net) && InputsPass(net, gslInfo)
    ensures FstateCalculation.Shaped(PairedNetwork(net), FstateCalculation.WithoutGsRelaying)
  {
    var pn := PairedNetwork(net);
    forall gid, k | 0 <= gid < pn.numGroundStations && 0 <= k < |pn.candidates[gid]|
      ensures 0 <= pn.candidates[gid][k].satellite < pn.numSatellites
    {
      NearestIsFirstClosest(net.candidates[gid]);
      ChoiceInRange(net, gid);
    }
  }

  /** The forwarding state decision of the paired network, for inputs that pass the checks. */
  function PairedDecision(net: Network, gslInfo: seq<InterfacesInfo>): FstateCalculation.Decider
    requires InputsShaped(net) && NeighborsNonNegative(net) && InputsPass(net, gslInfo)
  {
    PairedNetworkShaped(net, gslInfo);
    FstateCalculation.DecisionOf(PairedNetwork(net), FstateCalculation.WithoutGsRelaying)
  }

  function PrevBandwidth(prevOutput: Option<PairedOutput>): Option<map<(int, int), real>>
  {
    if prevOutput.None? then None else Some(prevOutput.value.gslIfBandwidthState)
  }

  function PrevFstate(prevOutput: Option<PairedOutput>): Option<map<(int, int), FstateCalculation.NextHop>>
  {
    if prevOutput.None? then None else Some(prevOutput.value.fstate)
  }

  /**
   * One time step of algorithm_paired_many_only_over_isls: the checks, the
   * pairing, the bandwidth state and its delta, then the forwarding state
   * over ISLs only on the paired network.  It succeeds exactly when the
   * checks pass, the previous bandwidth state has every key and the
   * forwarding state calculation succeeds.
   */
  method AlgorithmPairedManyOnlyOverIsls(net: Network, gslInfo: seq<InterfacesInfo>, prevOutput: Option<PairedOutput>)
    returns (r: Result<PairedStep, PairedError>)
    requires InputsShaped(net) && NeighborsNonNegative(net)
    ensures !InputsPass(net, gslInfo) ==> InputsFailure(net, gslInfo).Some? && r == Err(InputsFailure(net, gslInfo).value)
    ensures InputsPass(net, gslInfo) ==>
              var keys := FstateCalculation.Keys(net.numSatellites, net.numGroundStations);
              var prevFstate := PrevFstate(prevOutput);
              var dec := PairedDecision(net, gslInfo);
              var delta := BandwidthDelta(BandwidthState(net), BandwidthKeys(net), PrevBandwidth(prevOutput));
              && (r.Ok? <==> delta.Ok? && FstateCalculation.FirstFailure(dec, prevFstate, keys).None?)
              && (delta.Err? ==> r == Err(delta.error))
              && (delta.Ok? && FstateCalculation.FirstFailure(dec, prevFstate, keys).Some? ==>
                    r == Err(Fstate(FstateCalculation.FirstFailure(dec, prevFstate, keys).value)))
              && (r.Ok? ==>
                    && r.value.output.gslIfBandwidthState == BandwidthState(net)
                    && r.value.bandwidthWritten == delta.value
                    && r.value.output.fstate == FstateCalculation.Table(dec, prevFstate, keys)
                    && r.value.fstateWritten == FstateCalculation.Written(dec, prevFstate, keys))
  {
    var check := CheckInputs(net, gslInfo);
    if check.Fail? {
      return Err(check.error);
    }
    var selected, paired := PairGroundStations(net);
    var state, order := ComputeBandwidthState(net, paired, selected);
    var written := WriteBandwidthDelta(state, order, PrevBandwidth(prevOutput));
    if written.Err? {
      return Err(written.error);
    }
    PairedNetworkShaped(net, gslInfo);
    var pn := net.(gidToSatGslIfIdx := seq(net.numGroundStations, gid => gid), candidates := selected);
    assert pn == PairedNetwork(net);
    var fstate := FstateCalculation.CalculateWithoutGsRelaying(pn, PrevFstate(prevOutput));
    if fstate.Err? {
      return Err(Fstate(fstate.error));
    }
    return Ok(PairedStep(PairedOutput(fstate.value.fstate, state), written.value, fstate.value.written));
  }
}
