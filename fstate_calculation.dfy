/**
 * The forwarding-state calculators of satgenpy: for every node and every
 * destination ground station they choose the next hop and the outgoing and
 * incoming interface ids.  The all-pairs distance matrix (Floyd-Warshall
 * over the graph) is an input; the lines the calculators write to the
 * fstate file are returned in the order they are written.
 */
module FstateCalculation {
  import opened Outcomes
  import ArbiterSingleForwardHelpers

  type FstateLine = ArbiterSingleForwardHelpers.FstateLine

  /** A shortest-path distance in metres; `Inf` when unreachable. */
  datatype Dist = Inf | Fin(m: real)

  /** One neighbour of a node in the graph, with the weight of the edge to it. */
  datatype Edge = Edge(node: int, weight: real)

  /** An in-range satellite of a ground station, as the tuple (distance, satellite id). */
  datatype Candidate = Candidate(distanceM: real, satellite: int)

  /** A next-hop decision: next node, own outgoing interface, next node's incoming interface. */
  datatype NextHop = NextHop(node: int, myIf: int, nextIf: int)

  /** The decision when the destination cannot be reached. */
  const DROP: NextHop := NextHop(-1, -1, -1)

  /** The starting value of `best_distance_m`. */
  const INITIAL_BEST_M: real := 1000000000000000.0

  datatype Variant = WithoutGsRelaying | WithGsRelaying

  /**
   * The calculators' inputs: node counts, the adjacency of the graph (each
   * node's neighbours in the graph's own order), the distance matrix of that
   * graph, the ISL count of every satellite, the GSL interface index of
   * every ground station, the in-range satellites of every ground station,
   * and the ISL interface of every directed satellite pair.
   */
  datatype Network = Network(
    numSatellites: nat,
    numGroundStations: nat,
    neighbors: seq<seq<Edge>>,
    dist: seq<seq<Dist>>,
    numIslsPerSat: seq<int>,
    gidToSatGslIfIdx: seq<int>,
    candidates: seq<seq<Candidate>>,
    satNeighborToIf: map<(int, int), int>)

  datatype FstateError =
    | InterfaceKeyMissing(from: int, to: int)   // KeyError in sat_neighbor_to_if
    | PrevKeyMissing(from: int, to: int)        // KeyError in prev_fstate
    | NeighborUnreachable(from: int, to: int)   // ValueError("Neighbor cannot be unreachable")
    | GsToGsLink(from: int, to: int)            // ValueError("GS-to-GS link cannot exist")

  /** The forwarding state and the lines written to the fstate file. */
  datatype FstateOutput = FstateOutput(fstate: map<(int, int), NextHop>, written: seq<FstateLine>)

  /** The nodes of the graph: satellites only without relaying, all nodes with. */
  function NumNodes(net: Network, v: Variant): nat
  {
    if v == WithoutGsRelaying then net.numSatellites else net.numSatellites + net.numGroundStations
  }

  /** The shapes the lists, the matrix and the graph have by construction. */
  predicate Shaped(net: Network, v: Variant)
  {
    var nodes := NumNodes(net, v);
    && |net.neighbors| == nodes
    && (forall u, k :: 0 <= u < nodes && 0 <= k < |net.neighbors[u]| ==> 0 <= net.neighbors[u][k].node < nodes)
    && |net.dist| == nodes
    && (forall u :: 0 <= u < nodes ==> |net.dist[u]| == nodes)
    && |net.numIslsPerSat| == net.numSatellites
    && |net.gidToSatGslIfIdx| == net.numGroundStations
    && (v == WithoutGsRelaying ==>
          |net.candidates| == net.numGroundStations
          && forall gid, k :: 0 <= gid < net.numGroundStations && 0 <= k < |net.candidates[gid]| ==>
               0 <= net.candidates[gid][k].satellite < net.numSatellites)
  }

  /** A forwarding-state key: any node towards a ground station other than itself. */
  predicate IsKey(n: nat, g: nat, key: (int, int))
  {
    0 <= key.0 < n + g && n <= key.1 < n + g && key.0 != key.1
  }

  // ---------------------------------------------------------------------
  // Choosing among candidates: the head of `sorted(possibilities)`
  // ---------------------------------------------------------------------

  /** The order of Python tuples (distance, satellite id). */
  predicate Before(a: Candidate, b: Candidate)
  {
    a.distanceM < b.distanceM || (a.distanceM == b.distanceM && a.satellite <= b.satellite)
  }

  /** The first element of the sorted list: the least tuple. */
  function LeastPair(ps: seq<Candidate>): (r: Candidate)
    requires |ps| > 0
    ensures r in ps
    ensures forall k :: 0 <= k < |ps| ==> Before(r, ps[k])
  {
    if |ps| == 1 then ps[0]
    else
      var m := LeastPair(ps[1..]);
      assert forall k :: 1 <= k < |ps| ==> ps[k] == ps[1..][k - 1];
      if Before(ps[0], m) then ps[0] else m
  }

  /** The reachable candidates, each with its total distance: `reach` is the distance from each satellite onwards. */
  function Possibilities(reach: seq<Dist>, cands: seq<Candidate>): (r: seq<Candidate>)
    requires forall k :: 0 <= k < |cands| ==> 0 <= cands[k].satellite < |reach|
    ensures forall k :: 0 <= k < |r| ==> 0 <= r[k].satellite < |reach|
    decreases |cands|
  {
    if |cands| == 0 then []
    else
      var prev := Possibilities(reach, cands[..|cands| - 1]);
      var b := cands[|cands| - 1];
      match reach[b.satellite]
      case Inf => prev
      case Fin(d) => prev + [Candidate(d + b.distanceM, b.satellite)]
  }

  /** There is no possibility exactly when no candidate satellite is reachable. */
  lemma {:induction false} PossibilitiesEmptyIff(reach: seq<Dist>, cands: seq<Candidate>)
    requires forall k :: 0 <= k < |cands| ==> 0 <= cands[k].satellite < |reach|
    ensures |Possibilities(reach, cands)| == 0 <==> forall k :: 0 <= k < |cands| ==> reach[cands[k].satellite] == Inf
    decreases |cands|
  {
    if |cands| > 0 {
      var pre := cands[..|cands| - 1];
      PossibilitiesEmptyIff(reach, pre);
      assert forall k :: 0 <= k < |pre| ==> pre[k] == cands[k];
    }
  }

  /** Every possibility is a reachable candidate with the distance onwards added. */
  lemma {:induction false} PossibilityFromCandidate(reach: seq<Dist>, cands: seq<Candidate>, j: int)
    requires forall k :: 0 <= k < |cands| ==> 0 <= cands[k].satellite < |reach|
    requires 0 <= j < |Possibilities(reach, cands)|
    ensures exists k :: 0 <= k < |cands| && reach[cands[k].satellite].Fin?
              && Possibilities(reach, cands)[j] == Candidate(reach[cands[k].satellite].m + cands[k].distanceM, cands[k].satellite)
    decreases |cands|
  {
    var pre := cands[..|cands| - 1];
    var b := cands[|cands| - 1];
    if j < |Possibilities(reach, pre)| {
      PossibilityFromCandidate(reach, pre, j);
      var k :| 0 <= k < |pre| && reach[pre[k].satellite].Fin?
               && Possibilities(reach, pre)[j] == Candidate(reach[pre[k].satellite].m + pre[k].distanceM, pre[k].satellite);
      assert pre[k] == cands[k];
    } else {
      assert Possibilities(reach, cands)[j] == Candidate(reach[b.satellite].m + b.distanceM, b.satellite);
    }
  }

  /** Every reachable candidate is among the possibilities. */
  lemma {:induction false} CandidateIsPossibility(reach: seq<Dist>, cands: seq<Candidate>, k: int)
    requires forall a :: 0 <= a < |cands| ==> 0 <= cands[a].satellite < |reach|
    requires 0 <= k < |cands| && reach[cands[k].satellite].Fin?
    ensures Candidate(reach[cands[k].satellite].m + cands[k].distanceM, cands[k].satellite) in Possibilities(reach, cands)
    decreases |cands|
  {
    var pre := cands[..|cands| - 1];
    if k < |pre| {
      assert pre[k] == cands[k];
      CandidateIsPossibility(reach, pre, k);
    }
  }

  // ---------------------------------------------------------------------
  // The neighbour scans (`best_distance_m` and `next_hop_decision`)
  // ---------------------------------------------------------------------

  /** The scan state: the best distance so far and the decision that goes with it. */
  datatype Scan = Scan(bestM: real, decision: NextHop)

  /** The ISL interfaces of the hop a -> b: `sat_neighbor_to_if[(a, b)]`, then `[(b, a)]`. */
  function IslInterfaces(net: Network, a: int, b: int): (r: Result<(int, int), FstateError>)
    ensures r.Ok? <==> (a, b) in net.satNeighborToIf && (b, a) in net.satNeighborToIf
    ensures r.Ok? ==> r.value == (net.satNeighborToIf[(a, b)], net.satNeighborToIf[(b, a)])
  {
    if (a, b) !in net.satNeighborToIf then Err(InterfaceKeyMissing(a, b))
    else if (b, a) !in net.satNeighborToIf then Err(InterfaceKeyMissing(b, a))
    else Ok((net.satNeighborToIf[(a, b)], net.satNeighborToIf[(b, a)]))
  }

  /** The scan over the ISL neighbours of `curr` towards satellite `dstSat`, without relaying. */
  function IslScan(net: Network, curr: int, dstSat: int, nbrs: seq<Edge>): Result<Scan, FstateError>
    requires Shaped(net, WithoutGsRelaying) && 0 <= dstSat < net.numSatellites
    requires forall k :: 0 <= k < |nbrs| ==> 0 <= nbrs[k].node < net.numSatellites
    decreases |nbrs|
  {
    if |nbrs| == 0 then Ok(Scan(INITIAL_BEST_M, DROP))
    else
      match IslScan(net, curr, dstSat, nbrs[..|nbrs| - 1])
      case Err(e) => Err(e)
      case Ok(s) =>
        var e := nbrs[|nbrs| - 1];
        match net.dist[e.node][dstSat]
        case Inf => Ok(s)
        case Fin(d) =>
          if e.weight + d < s.bestM then
            match IslInterfaces(net, curr, e.node)
            case Err(err) => Err(err)
            case Ok(ifs) => Ok(Scan(e.weight + d, NextHop(e.node, ifs.0, ifs.1)))
          else Ok(s)
  }

  /** The interfaces of a relayed hop, by the kinds of its two ends. */
  function RelayInterfaces(net: Network, cur: int, nbr: int): (r: Result<(int, int), FstateError>)
    requires Shaped(net, WithGsRelaying)
    requires 0 <= cur < net.numSatellites + net.numGroundStations
    requires 0 <= nbr < net.numSatellites + net.numGroundStations
    ensures r == Err(GsToGsLink(cur, nbr)) <==> cur >= net.numSatellites && nbr >= net.numSatellites
    ensures cur >= net.numSatellites && nbr < net.numSatellites ==>
              r == Ok((0, net.numIslsPerSat[nbr] + net.gidToSatGslIfIdx[cur - net.numSatellites]))
    ensures cur < net.numSatellites && nbr >= net.numSatellites ==>
              r == Ok((net.numIslsPerSat[cur] + net.gidToSatGslIfIdx[nbr - net.numSatellites], 0))
    ensures cur < net.numSatellites && nbr < net.numSatellites ==> r == IslInterfaces(net, cur, nbr)
  {
    var n := net.numSatellites;
    if cur >= n && nbr < n then Ok((0, net.numIslsPerSat[nbr] + net.gidToSatGslIfIdx[cur - n]))
    else if cur < n && nbr >= n then Ok((net.numIslsPerSat[cur] + net.gidToSatGslIfIdx[nbr - n], 0))
    else if cur < n && nbr < n then IslInterfaces(net, cur, nbr)
    else Err(GsToGsLink(cur, nbr))
  }

  /** The scan over the neighbours of `cur` towards ground station node `dstGs`, with relaying. */
  function RelayScan(net: Network, cur: int, dstGs: int, nbrs: seq<Edge>): Result<Scan, FstateError>
    requires Shaped(net, WithGsRelaying)
    requires 0 <= cur < net.numSatellites + net.numGroundStations
    requires 0 <= dstGs < net.numSatellites + net.numGroundStations
    requires forall k :: 0 <= k < |nbrs| ==> 0 <= nbrs[k].node < net.numSatellites + net.numGroundStations
    decreases |nbrs|
  {
    if |nbrs| == 0 then Ok(Scan(INITIAL_BEST_M, DROP))
    else
      match RelayScan(net, cur, dstGs, nbrs[..|nbrs| - 1])
      case Err(e) => Err(e)
      case Ok(s) =>
        var e := nbrs[|nbrs| - 1];
        if net.dist[cur][e.node] == Inf then Err(NeighborUnreachable(cur, e.node))
        else
          match net.dist[e.node][dstGs]
          case Inf => Ok(s)
          case Fin(d) =>
            if e.weight + d < s.bestM then
              match RelayInterfaces(net, cur, e.node)
              case Err(err) => Err(err)
              case Ok(ifs) => Ok(Scan(e.weight + d, NextHop(e.node, ifs.0, ifs.1)))
            else Ok(s)
  }

  function ScanDecision(r: Result<Scan, FstateError>): Result<NextHop, FstateError>
  {
    match r
    case Ok(s) => Ok(s.decision)
    case Err(e) => Err(e)
  }

  /** Once the ISL scan fails on a prefix it fails the same way on the whole list. */
  lemma {:induction false} IslScanErrorSticks(net: Network, curr: int, dstSat: int, nbrs: seq<Edge>, i: int)
    requires Shaped(net, WithoutGsRelaying) && 0 <= dstSat < net.numSatellites
    requires forall k :: 0 <= k < |nbrs| ==> 0 <= nbrs[k].node < net.numSatellites
    requires 0 <= i <= |nbrs| && IslScan(net, curr, dstSat, nbrs[..i]).Err?
    ensures IslScan(net, curr, dstSat, nbrs) == IslScan(net, curr, dstSat, nbrs[..i])
    decreases |nbrs|
  {
    if i < |nbrs| {
      var pre := nbrs[..|nbrs| - 1];
      assert pre[..i] == nbrs[..i];
      IslScanErrorSticks(net, curr, dstSat, pre, i);
    } else {
      assert nbrs[..i] == nbrs;
    }
  }

  /** Once the relay scan fails on a prefix it fails the same way on the whole list. */
  lemma {:induction false} RelayScanErrorSticks(net: Network, cur: int, dstGs: int, nbrs: seq<Edge>, i: int)
    requires Shaped(net, WithGsRelaying)
    requires 0 <= cur < net.numSatellites + net.numGroundStations
    requires 0 <= dstGs < net.numSatellites + net.numGroundStations
    requires forall k :: 0 <= k < |nbrs| ==> 0 <= nbrs[k].node < net.numSatellites + net.numGroundStations
    requires 0 <= i <= |nbrs| && RelayScan(net, cur, dstGs, nbrs[..i]).Err?
    ensures RelayScan(net, cur, dstGs, nbrs) == RelayScan(net, cur, dstGs, nbrs[..i])
    decreases |nbrs|
  {
    if i < |nbrs| {
      var pre := nbrs[..|nbrs| - 1];
      assert pre[..i] == nbrs[..i];
      RelayScanErrorSticks(net, cur, dstGs, pre, i);
    } else {
      assert nbrs[..i] == nbrs;
    }
  }

  /**
   * The ISL scan picks the neighbour minimising edge weight plus remaining
   * distance: no reachable neighbour offers less than the best distance,
   * the decision stays the drop exactly when nothing beat the start value,
   * and otherwise it is a hop to a neighbour offering the best distance.
   */
  lemma {:induction false} IslScanChoosesNearest(net: Network, curr: int, dstSat: int, nbrs: seq<Edge>)
    requires Shaped(net, WithoutGsRelaying) && 0 <= dstSat < net.numSatellites
    requires forall k :: 0 <= k < |nbrs| ==> 0 <= nbrs[k].node < net.numSatellites
    requires IslScan(net, curr, dstSat, nbrs).Ok?
    ensures var s := IslScan(net, curr, dstSat, nbrs).value;
            && s.bestM <= INITIAL_BEST_M
            && (forall k :: 0 <= k < |nbrs| && net.dist[nbrs[k].node][dstSat].Fin? ==>
                  s.bestM <= nbrs[k].weight + net.dist[nbrs[k].node][dstSat].m)
            && (s.decision == DROP <==> s.bestM == INITIAL_BEST_M)
            && (s.decision != DROP ==>
                  exists k :: (0 <= k < |nbrs| && nbrs[k].node == s.decision.node
                    && net.dist[nbrs[k].node][dstSat].Fin?
                    && s.bestM == nbrs[k].weight + net.dist[nbrs[k].node][dstSat].m
                    && IslInterfaces(net, curr, s.decision.node) == Ok((s.decision.myIf, s.decision.nextIf))))
    decreases |nbrs|
  {
    if |nbrs| > 0 {
      var pre := nbrs[..|nbrs| - 1];
      IslScanChoosesNearest(net, curr, dstSat, pre);
      assert forall k :: 0 <= k < |pre| ==> pre[k] == nbrs[k];
      var s := IslScan(net, curr, dstSat, nbrs).value;
      var e := nbrs[|nbrs| - 1];
      if s != IslScan(net, curr, dstSat, pre).value {
        assert s.decision.node == e.node && s.decision != DROP;
      }
    }
  }

  /** As for the ISL scan, and besides a relay scan that succeeds saw every neighbour reachable. */
  lemma {:induction false} RelayScanChoosesNearest(net: Network, cur: int, dstGs: int, nbrs: seq<Edge>)
    requires Shaped(net, WithGsRelaying)
    requires 0 <= cur < net.numSatellites + net.numGroundStations
    requires 0 <= dstGs < net.numSatellites + net.numGroundStations
    requires forall k :: 0 <= k < |nbrs| ==> 0 <= nbrs[k].node < net.numSatellites + net.numGroundStations
    requires RelayScan(net, cur, dstGs, nbrs).Ok?
    ensures forall k :: 0 <= k < |nbrs| ==> net.dist[cur][nbrs[k].node].Fin?
    ensures var s := RelayScan(net, cur, dstGs, nbrs).value;
            && s.bestM <= INITIAL_BEST_M
            && (forall k :: 0 <= k < |nbrs| && net.dist[nbrs[k].node][dstGs].Fin? ==>
                  s.bestM <= nbrs[k].weight + net.dist[nbrs[k].node][dstGs].m)
            && (s.decision == DROP <==> s.bestM == INITIAL_BEST_M)
            && (s.decision != DROP ==>
                  exists k :: (0 <= k < |nbrs| && nbrs[k].node == s.decision.node
                    && net.dist[nbrs[k].node][dstGs].Fin?
                    && s.bestM == nbrs[k].weight + net.dist[nbrs[k].node][dstGs].m
                    && RelayInterfaces(net, cur, s.decision.node) == Ok((s.decision.myIf, s.decision.nextIf))))
    decreases |nbrs|
  {
    if |nbrs| > 0 {
      var pre := nbrs[..|nbrs| - 1];
      RelayScanChoosesNearest(net, cur, dstGs, pre);
      assert forall k :: 0 <= k < |pre| ==> pre[k] == nbrs[k];
      var s := RelayScan(net, cur, dstGs, nbrs).value;
      var e := nbrs[|nbrs| - 1];
      if s != RelayScan(net, cur, dstGs, pre).value {
        assert s.decision.node == e.node && s.decision != DROP;
      }
    }
  }

  // ---------------------------------------------------------------------
  // The decision for one forwarding-state key
  // ---------------------------------------------------------------------

  /** The possibilities towards ground station `dstGid` from satellite `curr`, without relaying. */
  function SatPossibilities(net: Network, curr: int, dstGid: int): seq<Candidate>
    requires Shaped(net, WithoutGsRelaying) && 0 <= curr < net.numSatellites && 0 <= dstGid < net.numGroundStations
  {
    Possibilities(net.dist[curr], net.candidates[dstGid])
  }

  /** `dist_satellite_to_ground_station[(curr, dst_gs)]`: the shortest distance via an in-range satellite. */
  function SatGsDistance(net: Network, curr: int, dstGid: int): Dist
    requires Shaped(net, WithoutGsRelaying) && 0 <= curr < net.numSatellites && 0 <= dstGid < net.numGroundStations
  {
    var ps := SatPossibilities(net, curr, dstGid);
    if |ps| == 0 then Inf else Fin(LeastPair(ps).distanceM)
  }

  /** The decision of satellite `curr` towards ground station `dstGid`, without relaying. */
  function SatGsDecision(net: Network, curr: int, dstGid: int): Result<NextHop, FstateError>
    requires Shaped(net, WithoutGsRelaying) && 0 <= curr < net.numSatellites && 0 <= dstGid < net.numGroundStations
  {
    var ps := SatPossibilities(net, curr, dstGid);
    if |ps| == 0 then Ok(DROP)
    else
      var dstSat := LeastPair(ps).satellite;
      if curr != dstSat then ScanDecision(IslScan(net, curr, dstSat, net.neighbors[curr]))
      else Ok(NextHop(net.numSatellites + dstGid, net.numIslsPerSat[dstSat] + net.gidToSatGslIfIdx[dstGid], 0))
  }

  /** The distances of satellites 0 .. k-1 to ground station `dstGid`. */
  function GsReach(net: Network, dstGid: int, k: nat): (r: seq<Dist>)
    requires Shaped(net, WithoutGsRelaying) && 0 <= dstGid < net.numGroundStations && k <= net.numSatellites
    ensures |r| == k
  {
    if k == 0 then [] else GsReach(net, dstGid, k - 1) + [SatGsDistance(net, k - 1, dstGid)]
  }

  /** Entry s of the reach is the saved distance of satellite s. */
  lemma {:induction false} GsReachAt(net: Network, dstGid: int, k: nat, s: int)
    requires Shaped(net, WithoutGsRelaying) && 0 <= dstGid < net.numGroundStations && k <= net.numSatellites
    requires 0 <= s < k
    ensures GsReach(net, dstGid, k)[s] == SatGsDistance(net, s, dstGid)
    decreases k
  {
    if s < k - 1 {
      GsReachAt(net, dstGid, k - 1, s);
    }
  }

  /** The possibilities from ground station `srcGid` to ground station `dstGid`. */
  function GsPossibilities(net: Network, srcGid: int, dstGid: int): seq<Candidate>
    requires Shaped(net, WithoutGsRelaying) && 0 <= srcGid < net.numGroundStations && 0 <= dstGid < net.numGroundStations
  {
    Possibilities(GsReach(net, dstGid, net.numSatellites), net.candidates[srcGid])
  }

  /** The decision of ground station `srcGid` towards ground station `dstGid`, without relaying. */
  function GsGsDecision(net: Network, srcGid: int, dstGid: int): NextHop
    requires Shaped(net, WithoutGsRelaying) && 0 <= srcGid < net.numGroundStations && 0 <= dstGid < net.numGroundStations
  {
    var ps := GsPossibilities(net, srcGid, dstGid);
    if |ps| == 0 then DROP
    else
      var srcSat := LeastPair(ps).satellite;
      NextHop(srcSat, 0, net.numIslsPerSat[srcSat] + net.gidToSatGslIfIdx[srcGid])
  }

  /** The decision the calculator of variant `v` makes for key (current node, destination ground station node). */
  function Decision(net: Network, v: Variant, key: (int, int)): Result<NextHop, FstateError>
    requires Shaped(net, v) && IsKey(net.numSatellites, net.numGroundStations, key)
  {
    var n := net.numSatellites;
    if v == WithoutGsRelaying then
      if key.0 < n then SatGsDecision(net, key.0, key.1 - n)
      else Ok(GsGsDecision(net, key.0 - n, key.1 - n))
    else ScanDecision(RelayScan(net, key.0, key.1, net.neighbors[key.0]))
  }

  // ---------------------------------------------------------------------
  // The keys in loop order, and the table and lines they produce
  // ---------------------------------------------------------------------

  /**
   * The keys visited before node c towards ground station d, in loop order:
   * every node before c towards every ground station, then c towards ground
   * stations 0 .. d-1, each time skipping the key of a node to itself.
   */
  function Visited(n: nat, g: nat, c: nat, d: nat): seq<(int, int)>
    decreases c, d
  {
    if d == 0 then (if c == 0 then [] else Visited(n, g, c - 1, g))
    else Visited(n, g, c, d - 1) + (if c == n + (d - 1) then [] else [(c, n + (d - 1))])
  }

  /** The keys visited before ground station k (node n + k) towards ground station d. */
  function GsVisited(n: nat, g: nat, k: nat, d: nat): seq<(int, int)>
  {
    Visited(n, g, n + k, d)
  }

  /** All keys, in the order both calculators visit them. */
  function Keys(n: nat, g: nat): seq<(int, int)>
  {
    Visited(n, g, n + g, 0)
  }

  /** Position (a, b) comes before position (c, d) in loop order, or is it. */
  predicate NotAfter(a: nat, b: nat, c: nat, d: nat)
  {
    a < c || (a == c && b <= d)
  }

  /** Destination d of node c adds the key (c, n + d) unless that is c itself. */
  lemma {:induction false} InVisitedStep(n: nat, g: nat, c: nat, d: nat, key: (int, int))
    requires d > 0
    ensures key in Visited(n, g, c, d) <==>
              key in Visited(n, g, c, d - 1) || (c != n + (d - 1) && key == (c, n + (d - 1)))
  {
  }

  lemma {:induction false} InVisitedOnly(n: nat, g: nat, c: nat, d: nat, key: (int, int))
    requires d <= g && key in Visited(n, g, c, d)
    ensures 0 <= key.0 && n <= key.1 < n + g && key.0 != key.1
    ensures key.0 < c || (key.0 == c && key.1 < n + d)
    decreases c, d
  {
    if d == 0 {
      if c > 0 {
        assert key in Visited(n, g, c - 1, g);
        InVisitedOnly(n, g, c - 1, g, key);
      }
    } else {
      InVisitedStep(n, g, c, d, key);
      if key in Visited(n, g, c, d - 1) {
        InVisitedOnly(n, g, c, d - 1, key);
      }
    }
  }

  /** The keys visited before an earlier position are a prefix of those visited before a later one. */
  lemma {:induction false} VisitedPrefix(n: nat, g: nat, c: nat, d: nat, c2: nat, d2: nat)
    requires d <= g && d2 <= g && NotAfter(c, d, c2, d2)
    ensures Visited(n, g, c, d) <= Visited(n, g, c2, d2)
    decreases c2, d2
  {
    if c == c2 && d == d2 {
    } else if d2 == 0 {
      VisitedPrefix(n, g, c, d, c2 - 1, g);
      assert Visited(n, g, c2, d2) == Visited(n, g, c2 - 1, g);
    } else {
      var a, b := Visited(n, g, c2, d2 - 1), Visited(n, g, c2, d2);
      VisitedPrefix(n, g, c, d, c2, d2 - 1);
      assert a <= b by {
        assert b == a + (if c2 == n + (d2 - 1) then [] else [(c2 as int, (n + (d2 - 1)) as int)]);
      }
      PrefixTransitive(Visited(n, g, c, d), a, b);
    }
  }

  lemma {:induction false} PrefixTransitive<T>(a: seq<T>, b: seq<T>, c: seq<T>)
    requires a <= b && b <= c
    ensures a <= c
  {
    assert a == c[..|a|] by {
      assert a == b[..|a|] && b == c[..|b|];
    }
  }

  lemma {:induction false} InPrefix<T>(a: seq<T>, b: seq<T>, x: T)
    requires a <= b && x in a
    ensures x in b
  {
    var i :| 0 <= i < |a| && a[i] == x;
    assert b[i] == x;
  }

  lemma {:induction false} InVisitedAll(n: nat, g: nat, c: nat, d: nat, key: (int, int))
    requires d <= g && 0 <= key.0 && n <= key.1 < n + g && key.0 != key.1
    requires key.0 < c || (key.0 == c && key.1 < n + d)
    ensures key in Visited(n, g, c, d)
  {
    var k: nat, j: nat := key.0, key.1 - n;
    assert key == (k, n + j);
    InVisitedStep(n, g, k, j + 1, key);
    VisitedPrefix(n, g, k, j + 1, c, d);
    InPrefix(Visited(n, g, k, j + 1), Visited(n, g, c, d), key);
  }

  /** The calculators visit exactly the keys: every node towards every ground station other than itself. */
  lemma {:induction false} KeysExactly(n: nat, g: nat, key: (int, int))
    ensures key in Keys(n, g) <==> IsKey(n, g, key)
  {
    if key in Keys(n, g) {
      InVisitedOnly(n, g, n + g, 0, key);
    }
    if IsKey(n, g, key) {
      InVisitedAll(n, g, n + g, 0, key);
    }
  }

  /** The keys visited before any position of the loops are a prefix of all keys. */
  lemma {:induction false} VisitedInKeys(n: nat, g: nat, c: nat, d: nat)
    requires c < n + g && d <= g
    ensures Visited(n, g, c, d) <= Keys(n, g)
  {
    VisitedPrefix(n, g, c, d, n + g, 0);
  }

  /** Whether the entry is written: always without a previous state, else when it changed. */
  function ShouldWrite(prev: Option<map<(int, int), NextHop>>, key: (int, int), d: NextHop): (r: Result<bool, FstateError>)
    ensures r.Err? <==> prev.Some? && prev.value != map[] && key !in prev.value
    ensures r == Ok(false) <==> prev.Some? && prev.value != map[] && key in prev.value && prev.value[key] == d
  {
    if prev.None? || prev.value == map[] then Ok(true)
    else if key !in prev.value then Err(PrevKeyMissing(key.0, key.1))
    else Ok(prev.value[key] != d)
  }

  /** The decision for every key, as one total function (a non-key drops). */
  type Decider = ((int, int)) -> Result<NextHop, FstateError>

  /** `dec` makes the decisions of variant `v` on network `net` for every key. */
  ghost predicate Decides(dec: Decider, net: Network, v: Variant)
    requires Shaped(net, v)
  {
    forall key {:trigger Decision(net, v, key)} :: IsKey(net.numSatellites, net.numGroundStations, key) ==> dec(key) == Decision(net, v, key)
  }

  lemma {:induction false} SatelliteDecides(net: Network, dec: Decider, curr: int, dstGid: int)
    requires Shaped(net, WithoutGsRelaying) && Decides(dec, net, WithoutGsRelaying)
    requires 0 <= curr < net.numSatellites && 0 <= dstGid < net.numGroundStations
    ensures dec((curr, net.numSatellites + dstGid)) == SatGsDecision(net, curr, dstGid)
  {
    assert Decision(net, WithoutGsRelaying, (curr, net.numSatellites + dstGid)) == SatGsDecision(net, curr, dstGid);
  }

  lemma {:induction false} GroundStationDecides(net: Network, dec: Decider, srcGid: int, dstGid: int)
    requires Shaped(net, WithoutGsRelaying) && Decides(dec, net, WithoutGsRelaying)
    requires 0 <= srcGid < net.numGroundStations && 0 <= dstGid < net.numGroundStations && srcGid != dstGid
    ensures dec((net.numSatellites + srcGid, net.numSatellites + dstGid)) == Ok(GsGsDecision(net, srcGid, dstGid))
  {
    assert Decision(net, WithoutGsRelaying, (net.numSatellites + srcGid, net.numSatellites + dstGid)) == Ok(GsGsDecision(net, srcGid, dstGid));
  }

  lemma {:induction false} RelayDecides(net: Network, dec: Decider, cur: int, dstGid: int)
    requires Shaped(net, WithGsRelaying) && Decides(dec, net, WithGsRelaying)
    requires 0 <= cur < net.numSatellites + net.numGroundStations && 0 <= dstGid < net.numGroundStations
    requires cur != net.numSatellites + dstGid
    ensures dec((cur, net.numSatellites + dstGid))
            == ScanDecision(RelayScan(net, cur, net.numSatellites + dstGid, net.neighbors[cur]))
  {
    assert Decision(net, WithGsRelaying, (cur, net.numSatellites + dstGid))
           == ScanDecision(RelayScan(net, cur, net.numSatellites + dstGid, net.neighbors[cur]));
  }

  /** The decisions of variant `v` on network `net`. */
  function DecisionOf(net: Network, v: Variant): (dec: Decider)
    requires Shaped(net, v)
    ensures Decides(dec, net, v)
  {
    key => if IsKey(net.numSatellites, net.numGroundStations, key) then Decision(net, v, key) else Ok(DROP)
  }

  /** Why the entry for `key` fails, if it does: its decision, then the comparison with the previous state. */
  function EntryFailure(dec: Decider, prev: Option<map<(int, int), NextHop>>, key: (int, int)): Option<FstateError>
  {
    match dec(key)
    case Err(e) => Some(e)
    case Ok(d) =>
      match ShouldWrite(prev, key, d)
      case Err(e) => Some(e)
      case Ok(_) => None
  }

  /** The failure of the first failing key, if any. */
  function FirstFailure(dec: Decider, prev: Option<map<(int, int), NextHop>>, keys: seq<(int, int)>): Option<FstateError>
    decreases |keys|
  {
    if |keys| == 0 then None
    else
      var f := FirstFailure(dec, prev, keys[..|keys| - 1]);
      if f.Some? then f else EntryFailure(dec, prev, keys[|keys| - 1])
  }

  /** The forwarding state once the keys are stored: each key maps to its decision. */
  function Table(dec: Decider, prev: Option<map<(int, int), NextHop>>, keys: seq<(int, int)>): map<(int, int), NextHop>
    requires FirstFailure(dec, prev, keys).None?
    decreases |keys|
  {
    if |keys| == 0 then map[]
    else
      var key := keys[|keys| - 1];
      Table(dec, prev, keys[..|keys| - 1])[key := dec(key).value]
  }

  function LineOf(key: (int, int), d: NextHop): FstateLine
  {
    ArbiterSingleForwardHelpers.FstateLine(key.0, key.1, d.node, d.myIf, d.nextIf)
  }

  /** The lines written: one per key whose decision is to be written, in key order. */
  function Written(dec: Decider, prev: Option<map<(int, int), NextHop>>, keys: seq<(int, int)>): seq<FstateLine>
    requires FirstFailure(dec, prev, keys).None?
    decreases |keys|
  {
    if |keys| == 0 then []
    else
      var key := keys[|keys| - 1];
      var d := dec(key).value;
      Written(dec, prev, keys[..|keys| - 1]) + (if ShouldWrite(prev, key, d) == Ok(true) then [LineOf(key, d)] else [])
  }

  /** Once some key fails, every longer run of keys fails at the same key. */
  lemma {:induction false} FailureSticks(dec: Decider, prev: Option<map<(int, int), NextHop>>, a: seq<(int, int)>, b: seq<(int, int)>)
    requires a <= b && FirstFailure(dec, prev, a).Some?
    ensures FirstFailure(dec, prev, b) == FirstFailure(dec, prev, a)
    decreases |b|
  {
    if |a| < |b| {
      var pre := b[..|b| - 1];
      assert a <= pre;
      FailureSticks(dec, prev, a, pre);
    } else {
      assert a == b;
    }
  }

  /** Every key of the table maps to its decision, and the table holds no other key. */
  lemma {:induction false} TableHoldsDecisions(dec: Decider, prev: Option<map<(int, int), NextHop>>, keys: seq<(int, int)>)
    requires FirstFailure(dec, prev, keys).None?
    ensures forall key :: key in Table(dec, prev, keys) <==> key in keys
    ensures forall k :: 0 <= k < |keys| ==>
              dec(keys[k]).Ok? && Table(dec, prev, keys)[keys[k]] == dec(keys[k]).value
    decreases |keys|
  {
    if |keys| > 0 {
      var pre := keys[..|keys| - 1];
      TableHoldsDecisions(dec, prev, pre);
      assert forall k :: 0 <= k < |pre| ==> pre[k] == keys[k];
      assert keys == pre + [keys[|keys| - 1]];
    }
  }

  /**
   * The first run (no previous state) writes every key, and recomputing
   * with its own output as the previous state fails nowhere and writes
   * nothing.
   */
  lemma {:induction false} RecomputingWritesNothing(dec: Decider, keys: seq<(int, int)>)
    requires FirstFailure(dec, None, keys).None? && |keys| > 0
    ensures |Written(dec, None, keys)| == |keys|
    ensures var t := Table(dec, None, keys);
            FirstFailure(dec, Some(t), keys).None? && Written(dec, Some(t), keys) == []
  {
    TableHoldsDecisions(dec, None, keys);
    var t := Table(dec, None, keys);
    assert keys[0] in t;
    WrittenAll(dec, keys);
    RewriteNothing(dec, t, keys);
  }

  lemma {:induction false} WrittenAll(dec: Decider, keys: seq<(int, int)>)
    requires FirstFailure(dec, None, keys).None?
    ensures |Written(dec, None, keys)| == |keys|
    decreases |keys|
  {
    if |keys| > 0 {
      WrittenAll(dec, keys[..|keys| - 1]);
    }
  }

  lemma {:induction false} RewriteNothing(dec: Decider, t: map<(int, int), NextHop>, keys: seq<(int, int)>)
    requires t != map[]
    requires forall k :: 0 <= k < |keys| ==> keys[k] in t && dec(keys[k]) == Ok(t[keys[k]])
    ensures FirstFailure(dec, Some(t), keys).None? && Written(dec, Some(t), keys) == []
    decreases |keys|
  {
    if |keys| > 0 {
      var pre := keys[..|keys| - 1];
      assert forall k :: 0 <= k < |pre| ==> pre[k] == keys[k];
      RewriteNothing(dec, t, pre);
    }
  }

  /** Every written line carries the key's new decision, and it differs from the previous one when there is one. */
  lemma {:induction false} WrittenLinesChanged(dec: Decider, prev: Option<map<(int, int), NextHop>>, keys: seq<(int, int)>)
    requires FirstFailure(dec, prev, keys).None?
    ensures forall j :: 0 <= j < |Written(dec, prev, keys)| ==>
              var l := Written(dec, prev, keys)[j];
              var key := (l.current, l.target);
              && key in keys
              && dec(key) == Ok(NextHop(l.next, l.myIf, l.nextIf))
              && (prev.Some? && prev.value != map[] ==> key in prev.value && prev.value[key] != NextHop(l.next, l.myIf, l.nextIf))
    decreases |keys|
  {
    if |keys| > 0 {
      var pre := keys[..|keys| - 1];
      WrittenLinesChanged(dec, prev, pre);
      assert forall key :: key in pre ==> key in keys;
    }
  }

  // ---------------------------------------------------------------------
  // Properties of the decisions
  // ---------------------------------------------------------------------

  /** With no in-range satellite reachable from `curr`, the decision is the drop and the distance infinite. */
  lemma {:induction false} NoReachableSatelliteDrops(net: Network, curr: int, dstGid: int)
    requires Shaped(net, WithoutGsRelaying) && 0 <= curr < net.numSatellites && 0 <= dstGid < net.numGroundStations
    requires forall k :: 0 <= k < |net.candidates[dstGid]| ==> net.dist[curr][net.candidates[dstGid][k].satellite] == Inf
    ensures SatGsDecision(net, curr, dstGid) == Ok(DROP) && SatGsDistance(net, curr, dstGid) == Inf
  {
    PossibilitiesEmptyIff(net.dist[curr], net.candidates[dstGid]);
  }

  /** With no in-range satellite of the source offering a finite distance, a ground station drops. */
  lemma {:induction false} NoReachableSourceSatelliteDrops(net: Network, srcGid: int, dstGid: int)
    requires Shaped(net, WithoutGsRelaying) && 0 <= srcGid < net.numGroundStations && 0 <= dstGid < net.numGroundStations
    requires forall k :: 0 <= k < |net.candidates[srcGid]| ==> SatGsDistance(net, net.candidates[srcGid][k].satellite, dstGid) == Inf
    ensures GsGsDecision(net, srcGid, dstGid) == DROP
  {
    var reach := GsReach(net, dstGid, net.numSatellites);
    forall k | 0 <= k < |net.candidates[srcGid]|
      ensures reach[net.candidates[srcGid][k].satellite] == Inf
    {
      GsReachAt(net, dstGid, net.numSatellites, net.candidates[srcGid][k].satellite);
    }
    PossibilitiesEmptyIff(reach, net.candidates[srcGid]);
  }

  /**
   * When `curr` is itself in range of the destination and its own link
   * beats every route through another in-range satellite, the hop is the
   * ground station, on GSL interface `num_isls + gid_to_if[gid]`.
   */
  lemma {:induction false} DestinationSatelliteHop(net: Network, curr: int, dstGid: int, c: real)
    requires Shaped(net, WithoutGsRelaying) && 0 <= curr < net.numSatellites && 0 <= dstGid < net.numGroundStations
    requires net.dist[curr][curr] == Fin(0.0) && Candidate(c, curr) in net.candidates[dstGid]
    requires forall k :: (0 <= k < |net.candidates[dstGid]| && net.candidates[dstGid][k].satellite != curr
                          && net.dist[curr][net.candidates[dstGid][k].satellite].Fin?) ==>
                c < net.dist[curr][net.candidates[dstGid][k].satellite].m + net.candidates[dstGid][k].distanceM
    ensures SatGsDecision(net, curr, dstGid)
            == Ok(NextHop(net.numSatellites + dstGid, net.numIslsPerSat[curr] + net.gidToSatGslIfIdx[dstGid], 0))
  {
    var cands := net.candidates[dstGid];
    var reach := net.dist[curr];
    var k :| 0 <= k < |cands| && cands[k] == Candidate(c, curr);
    CandidateIsPossibility(reach, cands, k);
    var ps := SatPossibilities(net, curr, dstGid);
    var least := LeastPair(ps);
    var j :| 0 <= j < |ps| && ps[j] == least;
    PossibilityFromCandidate(reach, cands, j);
    assert Before(least, Candidate(0.0 + c, curr));
  }

  /** A ground station's non-drop decision goes to one of its in-range satellites, out of its interface 0. */
  lemma {:induction false} GsToGsDecisionShape(net: Network, srcGid: int, dstGid: int)
    requires Shaped(net, WithoutGsRelaying) && 0 <= srcGid < net.numGroundStations && 0 <= dstGid < net.numGroundStations
    ensures var h := GsGsDecision(net, srcGid, dstGid);
            h != DROP ==>
              && h.myIf == 0
              && 0 <= h.node < net.numSatellites
              && h.nextIf == net.numIslsPerSat[h.node] + net.gidToSatGslIfIdx[srcGid]
              && SatGsDistance(net, h.node, dstGid).Fin?
              && exists k :: 0 <= k < |net.candidates[srcGid]| && net.candidates[srcGid][k].satellite == h.node
  {
    var ps := GsPossibilities(net, srcGid, dstGid);
    if |ps| > 0 {
      var least := LeastPair(ps);
      var j :| 0 <= j < |ps| && ps[j] == least;
      PossibilityFromCandidate(GsReach(net, dstGid, net.numSatellites), net.candidates[srcGid], j);
      GsReachAt(net, dstGid, net.numSatellites, least.satellite);
    }
  }

  // ---------------------------------------------------------------------
  // The calculators
  // ---------------------------------------------------------------------

  /** The ISL neighbour loop of `curr` towards satellite `dstSat`. */
  method ScanIslNeighbors(net: Network, curr: int, dstSat: int) returns (r: Result<NextHop, FstateError>)
    requires Shaped(net, WithoutGsRelaying) && 0 <= curr < net.numSatellites && 0 <= dstSat < net.numSatellites
    ensures r == ScanDecision(IslScan(net, curr, dstSat, net.neighbors[curr]))
  {
    var nbrs := net.neighbors[curr];
    var nextHopDecision := DROP;
    var bestDistanceM := INITIAL_BEST_M;
    var i := 0;
    while i < |nbrs|
      invariant 0 <= i <= |nbrs|
      invariant IslScan(net, curr, dstSat, nbrs[..i]) == Ok(Scan(bestDistanceM, nextHopDecision))
    {
      var e := nbrs[i];
      assert nbrs[..i + 1][..i] == nbrs[..i];
      if net.dist[e.node][dstSat].Fin? && e.weight + net.dist[e.node][dstSat].m < bestDistanceM {
        if (curr, e.node) !in net.satNeighborToIf || (e.node, curr) !in net.satNeighborToIf {
          IslScanErrorSticks(net, curr, dstSat, nbrs, i + 1);
          return if (curr, e.node) !in net.satNeighborToIf then Err(InterfaceKeyMissing(curr, e.node))
                 else Err(InterfaceKeyMissing(e.node, curr));
        }
        nextHopDecision := NextHop(e.node, net.satNeighborToIf[(curr, e.node)], net.satNeighborToIf[(e.node, curr)]);
        bestDistanceM := e.weight + net.dist[e.node][dstSat].m;
      }
      i := i + 1;
    }
    assert nbrs[..i] == nbrs;
    return Ok(nextHopDecision);
  }

  /** The possibilities loop: the reachable candidates with their total distances. */
  method CollectPossibilities(reach: seq<Dist>, cands: seq<Candidate>) returns (possibilities: seq<Candidate>)
    requires forall k :: 0 <= k < |cands| ==> 0 <= cands[k].satellite < |reach|
    ensures possibilities == Possibilities(reach, cands)
  {
    possibilities := [];
    var i := 0;
    while i < |cands|
      invariant 0 <= i <= |cands| && possibilities == Possibilities(reach, cands[..i])
    {
      var b := cands[i];
      assert cands[..i + 1][..i] == cands[..i];
      if reach[b.satellite].Fin? {
        possibilities := possibilities + [Candidate(reach[b.satellite].m + b.distanceM, b.satellite)];
      }
      i := i + 1;
    }
    assert cands[..i] == cands;
  }

  /** One satellite-to-ground-station entry: the decision and the distance saved for the second phase. */
  method SatToGsEntry(net: Network, curr: int, dstGid: int) returns (decision: Result<NextHop, FstateError>, distance: Dist)
    requires Shaped(net, WithoutGsRelaying) && 0 <= curr < net.numSatellites && 0 <= dstGid < net.numGroundStations
    ensures decision == SatGsDecision(net, curr, dstGid) && distance == SatGsDistance(net, curr, dstGid)
  {
    var possibilities := CollectPossibilities(net.dist[curr], net.candidates[dstGid]);
    decision := Ok(DROP);
    distance := Inf;
    if |possibilities| > 0 {
      var dstSat := LeastPair(possibilities).satellite;
      distance := Fin(LeastPair(possibilities).distanceM);
      if curr != dstSat {
        decision := ScanIslNeighbors(net, curr, dstSat);
      } else {
        decision := Ok(NextHop(net.numSatellites + dstGid, net.numIslsPerSat[dstSat] + net.gidToSatGslIfIdx[dstGid], 0));
      }
    }
  }

  /** One ground-station-to-ground-station entry, from the saved distances. */
  method GsToGsEntry(net: Network, distToGs: map<(int, int), Dist>, srcGid: int, dstGid: int) returns (decision: NextHop)
    requires Shaped(net, WithoutGsRelaying) && SavedUpTo(net, distToGs, net.numSatellites)
    requires 0 <= srcGid < net.numGroundStations && 0 <= dstGid < net.numGroundStations
    ensures decision == GsGsDecision(net, srcGid, dstGid)
  {
    var reach := GsReach(net, dstGid, net.numSatellites);
    var cands := net.candidates[srcGid];
    var possibilities := [];
    var i := 0;
    while i < |cands|
      invariant 0 <= i <= |cands| && possibilities == Possibilities(reach, cands[..i])
    {
      var a := cands[i];
      assert cands[..i + 1][..i] == cands[..i];
      GsReachAt(net, dstGid, net.numSatellites, a.satellite);
      SavedAt(net, distToGs, net.numSatellites, a.satellite, net.numSatellites + dstGid);
      var bestDistanceOfferedM := distToGs[(a.satellite, net.numSatellites + dstGid)];
      if bestDistanceOfferedM.Fin? {
        possibilities := possibilities + [Candidate(bestDistanceOfferedM.m + a.distanceM, a.satellite)];
      }
      i := i + 1;
    }
    assert cands[..i] == cands;
    decision := DROP;
    if |possibilities| > 0 {
      var srcSatId := LeastPair(possibilities).satellite;
      decision := NextHop(srcSatId, 0, net.numIslsPerSat[srcSatId] + net.gidToSatGslIfIdx[srcGid]);
    }
  }

  /** The keys `done` are stored in `out`: none failed, the table holds their decisions and the lines are theirs. */
  predicate Stored(dec: Decider, prev: Option<map<(int, int), NextHop>>, done: seq<(int, int)>, out: FstateOutput)
  {
    && FirstFailure(dec, prev, done).None?
    && out == FstateOutput(Table(dec, prev, done), Written(dec, prev, done))
  }

  /** Once node c has visited every ground station, the keys stored are those visited before node c + 1. */
  lemma {:induction false} StoredNextNode(dec: Decider, prev: Option<map<(int, int), NextHop>>, n: nat, g: nat, c: nat, d: nat, out: FstateOutput)
    requires d == g && Stored(dec, prev, Visited(n, g, c, d), out)
    ensures Stored(dec, prev, Visited(n, g, c + 1, 0), out)
  {
    assert Visited(n, g, c + 1, 0) == Visited(n, g, c, d);
  }

  /** Once ground station k has visited every ground station, the keys stored are those visited before ground station k + 1. */
  lemma {:induction false} StoredNextGroundStation(dec: Decider, prev: Option<map<(int, int), NextHop>>, n: nat, g: nat, k: nat, d: nat, out: FstateOutput)
    requires d == g && Stored(dec, prev, GsVisited(n, g, k, d), out)
    ensures Stored(dec, prev, GsVisited(n, g, k + 1, 0), out)
  {
    StoredNextNode(dec, prev, n, g, n + k, d, out);
  }

  /** Storing one entry: the decision is kept and, if it is to be written, its line appended. */
  method StoreEntry(ghost dec: Decider, prev: Option<map<(int, int), NextHop>>, ghost done: seq<(int, int)>,
                    out: FstateOutput, key: (int, int), decision: Result<NextHop, FstateError>)
    returns (r: Result<FstateOutput, FstateError>)
    requires Stored(dec, prev, done, out) && decision == dec(key)
    ensures r.Err? ==> FirstFailure(dec, prev, done + [key]) == Some(r.error)
    ensures r.Ok? ==> Stored(dec, prev, done + [key], r.value)
  {
    ghost var next := done + [key];
    assert next[..|done|] == done && next[|done|] == key;
    if decision.Err? {
      return Err(decision.error);
    }
    var changed := ShouldWrite(prev, key, decision.value);
    if changed.Err? {
      return Err(changed.error);
    }
    var written := out.written;
    if changed.value {
      written := written + [LineOf(key, decision.value)];
    }
    return Ok(FstateOutput(out.fstate[key := decision.value], written));
  }

  /** A failure at a visited key is the failure of the whole run. */
  lemma {:induction false} FailureOfRun(dec: Decider, prev: Option<map<(int, int), NextHop>>, n: nat, g: nat, c: nat, d: nat, e: FstateError)
    requires c < n + g && d < g && c != n + d
    requires FirstFailure(dec, prev, Visited(n, g, c, d) + [(c, n + d)]) == Some(e)
    ensures FirstFailure(dec, prev, Keys(n, g)) == Some(e)
  {
    NextVisited(n, g, c, d);
    VisitedInKeys(n, g, c, d + 1);
    FailureSticks(dec, prev, Visited(n, g, c, d + 1), Keys(n, g));
  }

  /** The distances of satellites 0 .. c-1 to every ground station are saved under (satellite, ground station node). */
  predicate SavedUpTo(net: Network, distToGs: map<(int, int), Dist>, c: int)
    requires Shaped(net, WithoutGsRelaying)
  {
    forall s, t {:trigger distToGs[(s, t)]} :: 0 <= s < c && s < net.numSatellites && net.numSatellites <= t < net.numSatellites + net.numGroundStations ==>
      (s, t) in distToGs && distToGs[(s, t)] == SatGsDistance(net, s, t - net.numSatellites)
  }

  /** The distances of satellite `curr` to ground stations 0 .. d-1 are saved. */
  predicate SavedInRow(net: Network, distToGs: map<(int, int), Dist>, curr: int, d: int)
    requires Shaped(net, WithoutGsRelaying) && 0 <= curr < net.numSatellites
  {
    forall t {:trigger distToGs[(curr, t)]} :: net.numSatellites <= t < net.numSatellites + d && t < net.numSatellites + net.numGroundStations ==>
      (curr, t) in distToGs && distToGs[(curr, t)] == SatGsDistance(net, curr, t - net.numSatellites)
  }

  /** Saving the distance of satellite `curr` to ground station `d` extends the saved row by one. */
  lemma {:induction false} SaveDistance(net: Network, distToGs: map<(int, int), Dist>, curr: int, d: int)
    requires Shaped(net, WithoutGsRelaying) && 0 <= curr < net.numSatellites && 0 <= d < net.numGroundStations
    requires SavedUpTo(net, distToGs, curr) && SavedInRow(net, distToGs, curr, d)
    ensures var saved := distToGs[(curr, net.numSatellites + d) := SatGsDistance(net, curr, d)];
            SavedUpTo(net, saved, curr) && SavedInRow(net, saved, curr, d + 1)
  {
  }

  /** Once the row of satellite `curr` is saved, the distances of satellites 0 .. curr are. */
  lemma {:induction false} SavedNextSatellite(net: Network, distToGs: map<(int, int), Dist>, curr: int)
    requires Shaped(net, WithoutGsRelaying) && 0 <= curr < net.numSatellites
    requires SavedUpTo(net, distToGs, curr) && SavedInRow(net, distToGs, curr, net.numGroundStations)
    ensures SavedUpTo(net, distToGs, curr + 1)
  {
    forall s, t | 0 <= s < curr + 1 && s < net.numSatellites && net.numSatellites <= t < net.numSatellites + net.numGroundStations
      ensures (s, t) in distToGs && distToGs[(s, t)] == SatGsDistance(net, s, t - net.numSatellites)
    {
      if s == curr {
        SavedInRowAt(net, distToGs, curr, net.numGroundStations, t);
      } else {
        SavedAt(net, distToGs, curr, s, t);
      }
    }
  }

  lemma {:induction false} SavedAt(net: Network, distToGs: map<(int, int), Dist>, c: int, s: int, t: int)
    requires Shaped(net, WithoutGsRelaying) && SavedUpTo(net, distToGs, c)
    requires 0 <= s < c && s < net.numSatellites && net.numSatellites <= t < net.numSatellites + net.numGroundStations
    ensures (s, t) in distToGs && distToGs[(s, t)] == SatGsDistance(net, s, t - net.numSatellites)
  {
  }

  lemma {:induction false} SavedInRowAt(net: Network, distToGs: map<(int, int), Dist>, curr: int, d: int, t: int)
    requires Shaped(net, WithoutGsRelaying) && 0 <= curr < net.numSatellites && SavedInRow(net, distToGs, curr, d)
    requires net.numSatellites <= t < net.numSatellites + d && t < net.numSatellites + net.numGroundStations
    ensures (curr, t) in distToGs && distToGs[(curr, t)] == SatGsDistance(net, curr, t - net.numSatellites)
  {
  }

  /** Where node c skips destination d (itself), the keys visited stay the same. */
  lemma {:induction false} SkipVisited(n: nat, g: nat, c: nat, d: nat)
    requires c == n + d
    ensures Visited(n, g, c, d + 1) == Visited(n, g, c, d)
  {
  }

  /** Otherwise destination d adds its key (c, n + d) to the keys visited. */
  lemma {:induction false} NextVisited(n: nat, g: nat, c: nat, d: nat)
    requires c != n + d
    ensures Visited(n, g, c, d + 1) == Visited(n, g, c, d) + [(c as int, (n + d) as int)]
  {
  }

  /**
   * One step of a calculator's inner loop: node `c` towards ground station
   * `d`.  The key (c, n + d) is skipped when it is `c` itself; otherwise its
   * decision is stored.
   */
  method VisitEntry(ghost dec: Decider, prev: Option<map<(int, int), NextHop>>, n: nat, g: nat, c: nat, d: nat,
                    acc: FstateOutput, decision: Result<NextHop, FstateError>)
    returns (r: Result<FstateOutput, FstateError>)
    requires c < n + g && d < g
    requires Stored(dec, prev, Visited(n, g, c, d), acc)
    requires c != n + d ==> decision == dec((c, n + d))
    ensures r.Err? ==> FirstFailure(dec, prev, Keys(n, g)) == Some(r.error)
    ensures r.Ok? ==> Stored(dec, prev, Visited(n, g, c, d + 1), r.value)
  {
    if c == n + d {
      SkipVisited(n, g, c, d);
      return Ok(acc);
    }
    var key: (int, int) := (c, n + d);
    r := StoreEntry(dec, prev, Visited(n, g, c, d), acc, key, decision);
    NextVisited(n, g, c, d);
    if r.Err? {
      FailureOfRun(dec, prev, n, g, c, d, r.error);
    }
  }

  /** One entry of the first phase: satellite `curr` towards ground station `dstGid`. */
  method SatelliteCell(net: Network, prev: Option<map<(int, int), NextHop>>, ghost dec: Decider, curr: nat, dstGid: nat,
                       acc: FstateOutput, distToGs: map<(int, int), Dist>)
    returns (r: Result<FstateOutput, FstateError>, saved: map<(int, int), Dist>)
    requires Shaped(net, WithoutGsRelaying) && Decides(dec, net, WithoutGsRelaying) && curr < net.numSatellites && dstGid < net.numGroundStations
    requires Stored(dec, prev, Visited(net.numSatellites, net.numGroundStations, curr, dstGid), acc)
    requires SavedUpTo(net, distToGs, curr) && SavedInRow(net, distToGs, curr, dstGid)
    ensures r.Err? ==> FirstFailure(dec, prev, Keys(net.numSatellites, net.numGroundStations)) == Some(r.error)
    ensures r.Ok? ==> Stored(dec, prev,
                             Visited(net.numSatellites, net.numGroundStations, curr, dstGid + 1),
                             r.value)
    ensures saved == distToGs[(curr, net.numSatellites + dstGid) := SatGsDistance(net, curr, dstGid)]
    ensures SavedUpTo(net, saved, curr) && SavedInRow(net, saved, curr, dstGid + 1)
  {
    var decision, distance := SatToGsEntry(net, curr, dstGid);
    saved := distToGs[(curr, net.numSatellites + dstGid) := distance];
    SaveDistance(net, distToGs, curr, dstGid);
    SatelliteDecides(net, dec, curr, dstGid);
    r := VisitEntry(dec, prev, net.numSatellites, net.numGroundStations, curr, dstGid, acc, decision);
  }

  /** The inner loop of the first phase: satellite `curr` towards every ground station. */
  method SatelliteRow(net: Network, prev: Option<map<(int, int), NextHop>>, ghost dec: Decider, curr: nat, out: FstateOutput, distToGs: map<(int, int), Dist>)
    returns (r: Result<FstateOutput, FstateError>, saved: map<(int, int), Dist>)
    requires Shaped(net, WithoutGsRelaying) && Decides(dec, net, WithoutGsRelaying) && curr < net.numSatellites
    requires Stored(dec, prev, Visited(net.numSatellites, net.numGroundStations, curr, 0), out)
    requires SavedUpTo(net, distToGs, curr)
    ensures r.Err? ==> FirstFailure(dec, prev, Keys(net.numSatellites, net.numGroundStations)) == Some(r.error)
    ensures r.Ok? ==> Stored(dec, prev, Visited(net.numSatellites, net.numGroundStations, curr + 1, 0), r.value)
    ensures r.Ok? ==> SavedUpTo(net, saved, curr + 1)
  {
    var acc := out;
    saved := distToGs;
    var dstGid := 0;
    while dstGid < net.numGroundStations
      invariant 0 <= dstGid <= net.numGroundStations
      invariant Stored(dec, prev, Visited(net.numSatellites, net.numGroundStations, curr, dstGid), acc)
      invariant SavedUpTo(net, saved, curr)
      invariant SavedInRow(net, saved, curr, dstGid)
    {
      var step;
      step, saved := SatelliteCell(net, prev, dec, curr, dstGid, acc, saved);
      if step.Err? {
        return step, saved;
      }
      acc := step.value;
      dstGid := dstGid + 1;
    }
    StoredNextNode(dec, prev, net.numSatellites, net.numGroundStations, curr, dstGid, acc);
    SavedNextSatellite(net, saved, curr);
    return Ok(acc), saved;
  }

  /** The decision of ground station `srcGid` towards a different ground station `dstGid`; a ground station towards itself is skipped. */
  method GroundStationDecision(net: Network, ghost dec: Decider, srcGid: nat, dstGid: nat, distToGs: map<(int, int), Dist>)
    returns (decision: Result<NextHop, FstateError>)
    requires Shaped(net, WithoutGsRelaying) && Decides(dec, net, WithoutGsRelaying) && srcGid < net.numGroundStations && dstGid < net.numGroundStations
    requires SavedUpTo(net, distToGs, net.numSatellites)
    ensures srcGid != dstGid ==> decision == dec((net.numSatellites + srcGid, net.numSatellites + dstGid))
  {
    decision := Ok(DROP);
    if srcGid != dstGid {
      var hop := GsToGsEntry(net, distToGs, srcGid, dstGid);
      GroundStationDecides(net, dec, srcGid, dstGid);
      decision := Ok(hop);
    }
  }

  /** One entry of the second phase: ground station `srcGid` towards ground station `dstGid`, skipped when they are the same. */
  method GroundStationCell(net: Network, prev: Option<map<(int, int), NextHop>>, ghost dec: Decider, srcGid: nat, dstGid: nat,
                           acc: FstateOutput, distToGs: map<(int, int), Dist>)
    returns (r: Result<FstateOutput, FstateError>)
    requires Shaped(net, WithoutGsRelaying) && Decides(dec, net, WithoutGsRelaying) && srcGid < net.numGroundStations && dstGid < net.numGroundStations
    requires SavedUpTo(net, distToGs, net.numSatellites)
    requires Stored(dec, prev, GsVisited(net.numSatellites, net.numGroundStations, srcGid, dstGid), acc)
    ensures r.Err? ==> FirstFailure(dec, prev, Keys(net.numSatellites, net.numGroundStations)) == Some(r.error)
    ensures r.Ok? ==> Stored(dec, prev, GsVisited(net.numSatellites, net.numGroundStations, srcGid, dstGid + 1), r.value)
  {
    var decision := GroundStationDecision(net, dec, srcGid, dstGid, distToGs);
    r := VisitEntry(dec, prev, net.numSatellites, net.numGroundStations, net.numSatellites + srcGid, dstGid, acc, decision);
  }

  /** The inner loop of the second phase: ground station `srcGid` towards every other ground station. */
  method GroundStationRow(net: Network, prev: Option<map<(int, int), NextHop>>, ghost dec: Decider, srcGid: nat, out: FstateOutput, distToGs: map<(int, int), Dist>)
    returns (r: Result<FstateOutput, FstateError>)
    requires Shaped(net, WithoutGsRelaying) && Decides(dec, net, WithoutGsRelaying) && srcGid < net.numGroundStations
    requires Stored(dec, prev, GsVisited(net.numSatellites, net.numGroundStations, srcGid, 0), out)
    requires SavedUpTo(net, distToGs, net.numSatellites)
    ensures r.Err? ==> FirstFailure(dec, prev, Keys(net.numSatellites, net.numGroundStations)) == Some(r.error)
    ensures r.Ok? ==> Stored(dec, prev, GsVisited(net.numSatellites, net.numGroundStations, srcGid + 1, 0), r.value)
  {
    var acc := out;
    var dstGid := 0;
    while dstGid < net.numGroundStations
      invariant 0 <= dstGid <= net.numGroundStations
      invariant Stored(dec, prev, GsVisited(net.numSatellites, net.numGroundStations, srcGid, dstGid), acc)
    {
      var step := GroundStationCell(net, prev, dec, srcGid, dstGid, acc, distToGs);
      if step.Err? {
        return step;
      }
      acc := step.value;
      dstGid := dstGid + 1;
    }
    StoredNextGroundStation(dec, prev, net.numSatellites, net.numGroundStations, srcGid, dstGid, acc);
    return Ok(acc);
  }

  /** The first phase: every satellite towards every ground station, saving each distance. */
  method SatellitePhase(net: Network, prev: Option<map<(int, int), NextHop>>, ghost dec: Decider)
    returns (r: Result<FstateOutput, FstateError>, distToGs: map<(int, int), Dist>)
    requires Shaped(net, WithoutGsRelaying) && Decides(dec, net, WithoutGsRelaying)
    ensures r.Err? ==> FirstFailure(dec, prev, Keys(net.numSatellites, net.numGroundStations)) == Some(r.error)
    ensures r.Ok? ==> Stored(dec, prev, Visited(net.numSatellites, net.numGroundStations, net.numSatellites, 0), r.value)
    ensures r.Ok? ==> SavedUpTo(net, distToGs, net.numSatellites)
  {
    var out := FstateOutput(map[], []);
    distToGs := map[];
    var curr := 0;
    while curr < net.numSatellites
      invariant 0 <= curr <= net.numSatellites && Stored(dec, prev, Visited(net.numSatellites, net.numGroundStations, curr, 0), out)
      invariant SavedUpTo(net, distToGs, curr)
    {
      var step;
      step, distToGs := SatelliteRow(net, prev, dec, curr, out, distToGs);
      if step.Err? {
        return step, distToGs;
      }
      out := step.value;
      curr := curr + 1;
    }
    return Ok(out), distToGs;
  }

  /** The second phase: every ground station towards every other one, from the saved distances. */
  method GroundStationPhase(net: Network, prev: Option<map<(int, int), NextHop>>, ghost dec: Decider,
                            out: FstateOutput, distToGs: map<(int, int), Dist>)
    returns (r: Result<FstateOutput, FstateError>)
    requires Shaped(net, WithoutGsRelaying) && Decides(dec, net, WithoutGsRelaying)
    requires Stored(dec, prev, Visited(net.numSatellites, net.numGroundStations, net.numSatellites, 0), out)
    requires SavedUpTo(net, distToGs, net.numSatellites)
    ensures r.Err? ==> FirstFailure(dec, prev, Keys(net.numSatellites, net.numGroundStations)) == Some(r.error)
    ensures r.Ok? ==> Stored(dec, prev, Keys(net.numSatellites, net.numGroundStations), r.value)
  {
    var acc := out;
    var srcGid := 0;
    while srcGid < net.numGroundStations
      invariant 0 <= srcGid <= net.numGroundStations && Stored(dec, prev, GsVisited(net.numSatellites, net.numGroundStations, srcGid, 0), acc)
    {
      var step := GroundStationRow(net, prev, dec, srcGid, acc, distToGs);
      if step.Err? {
        return step;
      }
      acc := step.value;
      srcGid := srcGid + 1;
    }
    return Ok(acc);
  }

  /**
   * calculate_fstate_shortest_path_without_gs_relaying: first every
   * satellite towards every ground station, then every ground station
   * towards every other one, through the in-range satellite promising the
   * shortest total distance.
   */
  method CalculateWithoutGsRelaying(net: Network, prev: Option<map<(int, int), NextHop>>)
    returns (r: Result<FstateOutput, FstateError>)
    requires Shaped(net, WithoutGsRelaying)
    ensures r.Err? <==> FirstFailure(DecisionOf(net, WithoutGsRelaying), prev, Keys(net.numSatellites, net.numGroundStations)).Some?
    ensures r.Err? ==> r.error == FirstFailure(DecisionOf(net, WithoutGsRelaying), prev, Keys(net.numSatellites, net.numGroundStations)).value
    ensures r.Ok? ==> r.value == FstateOutput(Table(DecisionOf(net, WithoutGsRelaying), prev, Keys(net.numSatellites, net.numGroundStations)),
                                              Written(DecisionOf(net, WithoutGsRelaying), prev, Keys(net.numSatellites, net.numGroundStations)))
  {
    ghost var dec := DecisionOf(net, WithoutGsRelaying);
    var first, distToGs := SatellitePhase(net, prev, dec);
    if first.Err? {
      return first;
    }
    r := GroundStationPhase(net, prev, dec, first.value, distToGs);
  }

  /** The interfaces of a relayed hop, or the error for a hop between two ground stations. */
  method RelayHopInterfaces(net: Network, cur: int, nbr: int) returns (r: Result<(int, int), FstateError>)
    requires Shaped(net, WithGsRelaying)
    requires 0 <= cur < net.numSatellites + net.numGroundStations
    requires 0 <= nbr < net.numSatellites + net.numGroundStations
    ensures r == RelayInterfaces(net, cur, nbr)
  {
    var n := net.numSatellites;
    if cur >= n && nbr < n {
      return Ok((0, net.numIslsPerSat[nbr] + net.gidToSatGslIfIdx[cur - n]));
    } else if cur < n && nbr >= n {
      return Ok((net.numIslsPerSat[cur] + net.gidToSatGslIfIdx[nbr - n], 0));
    } else if cur < n && nbr < n {
      if (cur, nbr) !in net.satNeighborToIf {
        return Err(InterfaceKeyMissing(cur, nbr));
      }
      if (nbr, cur) !in net.satNeighborToIf {
        return Err(InterfaceKeyMissing(nbr, cur));
      }
      return Ok((net.satNeighborToIf[(cur, nbr)], net.satNeighborToIf[(nbr, cur)]));
    }
    return Err(GsToGsLink(cur, nbr));
  }

  /** The neighbour loop of node `cur` towards ground station node `dstGs`, with relaying. */
  method ScanRelayNeighbors(net: Network, cur: int, dstGs: int) returns (r: Result<NextHop, FstateError>)
    requires Shaped(net, WithGsRelaying)
    requires 0 <= cur < net.numSatellites + net.numGroundStations
    requires 0 <= dstGs < net.numSatellites + net.numGroundStations
    ensures r == ScanDecision(RelayScan(net, cur, dstGs, net.neighbors[cur]))
  {
    var nbrs := net.neighbors[cur];
    var nextHopDecision := DROP;
    var bestDistanceM := INITIAL_BEST_M;
    var i := 0;
    while i < |nbrs|
      invariant 0 <= i <= |nbrs|
      invariant RelayScan(net, cur, dstGs, nbrs[..i]) == Ok(Scan(bestDistanceM, nextHopDecision))
    {
      var e := nbrs[i];
      assert nbrs[..i + 1][..i] == nbrs[..i];
      if net.dist[cur][e.node] == Inf {
        RelayScanErrorSticks(net, cur, dstGs, nbrs, i + 1);
        return Err(NeighborUnreachable(cur, e.node));
      }
      if net.dist[e.node][dstGs].Fin? && e.weight + net.dist[e.node][dstGs].m < bestDistanceM {
        var ifs := RelayHopInterfaces(net, cur, e.node);
        if ifs.Err? {
          RelayScanErrorSticks(net, cur, dstGs, nbrs, i + 1);
          return Err(ifs.error);
        }
        nextHopDecision := NextHop(e.node, ifs.value.0, ifs.value.1);
        bestDistanceM := e.weight + net.dist[e.node][dstGs].m;
      }
      i := i + 1;
    }
    assert nbrs[..i] == nbrs;
    return Ok(nextHopDecision);
  }

  /** One entry with relaying: node `cur` towards ground station `dstGid`, skipped when that is `cur` itself. */
  method RelayCell(net: Network, prev: Option<map<(int, int), NextHop>>, ghost dec: Decider, cur: nat, dstGid: nat,
                   acc: FstateOutput)
    returns (r: Result<FstateOutput, FstateError>)
    requires Shaped(net, WithGsRelaying) && Decides(dec, net, WithGsRelaying) && cur < net.numSatellites + net.numGroundStations && dstGid < net.numGroundStations
    requires Stored(dec, prev, Visited(net.numSatellites, net.numGroundStations, cur, dstGid), acc)
    ensures r.Err? ==> FirstFailure(dec, prev, Keys(net.numSatellites, net.numGroundStations)) == Some(r.error)
    ensures r.Ok? ==> Stored(dec, prev,
                             Visited(net.numSatellites, net.numGroundStations, cur, dstGid + 1),
                             r.value)
  {
    var decision := Ok(DROP);
    if cur != net.numSatellites + dstGid {
      decision := ScanRelayNeighbors(net, cur, net.numSatellites + dstGid);
      RelayDecides(net, dec, cur, dstGid);
    }
    r := VisitEntry(dec, prev, net.numSatellites, net.numGroundStations, cur, dstGid, acc, decision);
  }

  /** The inner loop with relaying: node `cur` towards every ground station other than itself. */
  method RelayRow(net: Network, prev: Option<map<(int, int), NextHop>>, ghost dec: Decider, cur: nat, out: FstateOutput)
    returns (r: Result<FstateOutput, FstateError>)
    requires Shaped(net, WithGsRelaying) && Decides(dec, net, WithGsRelaying) && cur < net.numSatellites + net.numGroundStations
    requires Stored(dec, prev, Visited(net.numSatellites, net.numGroundStations, cur, 0), out)
    ensures r.Err? ==> FirstFailure(dec, prev, Keys(net.numSatellites, net.numGroundStations)) == Some(r.error)
    ensures r.Ok? ==> Stored(dec, prev, Visited(net.numSatellites, net.numGroundStations, cur + 1, 0), r.value)
  {
    var acc := out;
    var dstGid := 0;
    while dstGid < net.numGroundStations
      invariant 0 <= dstGid <= net.numGroundStations
      invariant Stored(dec, prev, Visited(net.numSatellites, net.numGroundStations, cur, dstGid), acc)
    {
      var step := RelayCell(net, prev, dec, cur, dstGid, acc);
      if step.Err? {
        return step;
      }
      acc := step.value;
      dstGid := dstGid + 1;
    }
    StoredNextNode(dec, prev, net.numSatellites, net.numGroundStations, cur, dstGid, acc);
    return Ok(acc);
  }

  /**
   * calculate_fstate_shortest_path_with_gs_relaying: every node, satellite
   * or ground station, towards every ground station other than itself,
   * through the neighbour promising the shortest distance.
   */
  method CalculateWithGsRelaying(net: Network, prev: Option<map<(int, int), NextHop>>)
    returns (r: Result<FstateOutput, FstateError>)
    requires Shaped(net, WithGsRelaying)
    ensures r.Err? <==> FirstFailure(DecisionOf(net, WithGsRelaying), prev, Keys(net.numSatellites, net.numGroundStations)).Some?
    ensures r.Err? ==> r.error == FirstFailure(DecisionOf(net, WithGsRelaying), prev, Keys(net.numSatellites, net.numGroundStations)).value
    ensures r.Ok? ==> r.value == FstateOutput(Table(DecisionOf(net, WithGsRelaying), prev, Keys(net.numSatellites, net.numGroundStations)),
                                              Written(DecisionOf(net, WithGsRelaying), prev, Keys(net.numSatellites, net.numGroundStations)))
  {
    ghost var dec := DecisionOf(net, WithGsRelaying);
    var out := FstateOutput(map[], []);
    var currentNodeId := 0;
    while currentNodeId < net.numSatellites + net.numGroundStations
      invariant 0 <= currentNodeId <= net.numSatellites + net.numGroundStations && Stored(dec, prev, Visited(net.numSatellites, net.numGroundStations, currentNodeId, 0), out)
    {
      var step := RelayRow(net, prev, dec, currentNodeId, out);
      if step.Err? {
        return step;
      }
      out := step.value;
      currentNodeId := currentNodeId + 1;
    }
    return Ok(out);
  }

  // ---------------------------------------------------------------------
  // The hand-built graph with one satellite and two ground stations
  // ---------------------------------------------------------------------

  /** Satellite 0 with ground stations 1 and 2, each 1000 m away; without relaying the graph has no ISL. */
  const ONE_SAT_TWO_GS_ISLS: Network := Network(
    1, 2, [[]], [[Fin(0.0)]], [0], [0, 1],
    [[Candidate(1000.0, 0)], [Candidate(1000.0, 0)]], map[])

  /** The same nodes as one graph, for the relaying calculator. */
  const ONE_SAT_TWO_GS_COMPLETE: Network := Network(
    1, 2, [[Edge(1, 1000.0), Edge(2, 1000.0)], [Edge(0, 1000.0)], [Edge(0, 1000.0)]],
    [[Fin(0.0), Fin(1000.0), Fin(1000.0)], [Fin(1000.0), Fin(0.0), Fin(2000.0)], [Fin(1000.0), Fin(2000.0), Fin(0.0)]],
    [0], [0, 1], [], map[])

  lemma {:induction false} OneSatelliteTwoGroundStationsShaped()
    ensures Shaped(ONE_SAT_TWO_GS_ISLS, WithoutGsRelaying)
  {
  }

  /** The satellite's decisions on that graph: each ground station directly. */
  lemma {:induction false} OneSatelliteTowardsGroundStations()
    ensures Shaped(ONE_SAT_TWO_GS_ISLS, WithoutGsRelaying)
    ensures Decision(ONE_SAT_TWO_GS_ISLS, WithoutGsRelaying, (0, 1)) == Ok(NextHop(1, 0, 0))
    ensures Decision(ONE_SAT_TWO_GS_ISLS, WithoutGsRelaying, (0, 2)) == Ok(NextHop(2, 1, 0))
  {
    var net := ONE_SAT_TWO_GS_ISLS;
    OneSatelliteTwoGroundStationsShaped();
    assert net.candidates[0][..0] == [] && net.candidates[1][..0] == [];
    assert SatPossibilities(net, 0, 0) == [Candidate(1000.0, 0)];
    assert SatPossibilities(net, 0, 1) == [Candidate(1000.0, 0)];
  }

  /** The ground stations' decisions on that graph: each through the satellite. */
  lemma {:induction false} TwoGroundStationsTowardsEachOther()
    ensures Shaped(ONE_SAT_TWO_GS_ISLS, WithoutGsRelaying)
    ensures Decision(ONE_SAT_TWO_GS_ISLS, WithoutGsRelaying, (1, 2)) == Ok(NextHop(0, 0, 0))
    ensures Decision(ONE_SAT_TWO_GS_ISLS, WithoutGsRelaying, (2, 1)) == Ok(NextHop(0, 0, 1))
  {
    var net := ONE_SAT_TWO_GS_ISLS;
    OneSatelliteTwoGroundStationsShaped();
    assert net.candidates[0][..0] == [] && net.candidates[1][..0] == [];
    assert GsReach(net, 1, 1) == [Fin(1000.0)];
    assert GsReach(net, 0, 1) == [Fin(1000.0)];
    assert GsPossibilities(net, 0, 1) == [Candidate(2000.0, 0)];
    assert GsPossibilities(net, 1, 0) == [Candidate(2000.0, 0)];
  }

  /** The decisions the test expects on that graph without relaying. */
  lemma {:induction false} OneSatelliteTwoGroundStationsWithoutRelaying()
    ensures Shaped(ONE_SAT_TWO_GS_ISLS, WithoutGsRelaying)
    ensures Decision(ONE_SAT_TWO_GS_ISLS, WithoutGsRelaying, (0, 1)) == Ok(NextHop(1, 0, 0))
    ensures Decision(ONE_SAT_TWO_GS_ISLS, WithoutGsRelaying, (0, 2)) == Ok(NextHop(2, 1, 0))
    ensures Decision(ONE_SAT_TWO_GS_ISLS, WithoutGsRelaying, (1, 2)) == Ok(NextHop(0, 0, 0))
    ensures Decision(ONE_SAT_TWO_GS_ISLS, WithoutGsRelaying, (2, 1)) == Ok(NextHop(0, 0, 1))
  {
    OneSatelliteTowardsGroundStations();
    TwoGroundStationsTowardsEachOther();
  }

  /** The decisions the test expects on that graph with relaying ("combined"). */
  lemma {:induction false} OneSatelliteTwoGroundStationsCombined()
    ensures Shaped(ONE_SAT_TWO_GS_COMPLETE, WithGsRelaying)
    ensures Decision(ONE_SAT_TWO_GS_COMPLETE, WithGsRelaying, (0, 1)) == Ok(NextHop(1, 0, 0))
    ensures Decision(ONE_SAT_TWO_GS_COMPLETE, WithGsRelaying, (0, 2)) == Ok(NextHop(2, 1, 0))
    ensures Decision(ONE_SAT_TWO_GS_COMPLETE, WithGsRelaying, (1, 2)) == Ok(NextHop(0, 0, 0))
    ensures Decision(ONE_SAT_TWO_GS_COMPLETE, WithGsRelaying, (2, 1)) == Ok(NextHop(0, 0, 1))
  {
    var full := ONE_SAT_TWO_GS_COMPLETE;
    var zero := full.neighbors[0];
    assert zero[..1] == [Edge(1, 1000.0)] && zero[..1][..0] == [] && zero[..2] == zero;
    assert full.neighbors[1][..0] == [] && full.neighbors[2][..0] == [];
    assert full.neighbors[1][..1] == full.neighbors[1] && full.neighbors[2][..1] == full.neighbors[2];
    assert RelayScan(full, 0, 1, zero[..1]) == Ok(Scan(1000.0, NextHop(1, 0, 0)));
    assert RelayScan(full, 0, 2, zero[..1]) == Ok(Scan(3000.0, NextHop(1, 0, 0)));
  }
}
