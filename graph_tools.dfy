/**
 * satgenpy post-analysis graph tools: following a forwarding state from a
 * source to a destination, attaching edge weights to a path, summing them,
 * and checking every hop of a path against the ISL list and the range limits.
 */
module GraphTools {
  import opened Outcomes

  /** The forwarding state: (current, destination) to next hop, -1 for "no path". */
  type ForwardState = map<(int, int), int>

  /** An undirected weighted graph: an edge may be stored under either orientation. */
  type WeightedGraph = map<(int, int), real>

  datatype GraphError =
    | KeyMissing(current: int, destination: int)
    | NoEdge(from: int, to: int)
    | InvalidIslHop
    | InvalidGslHop
    | GroundStationToGroundStation
    | GroundStationIndexOutOfRange

  /**
   * The walk from `curr` towards `dst` stops within `n` steps: it arrives, or
   * it needs a pair the state does not hold.  (On a cyclic state get_path's
   * loop runs forever; the model is for states where it stops.)
   */
  predicate Stops(fstate: ForwardState, curr: int, dst: int, n: nat)
    decreases n
  {
    curr == dst || (curr, dst) !in fstate || (n > 0 && Stops(fstate, fstate[(curr, dst)], dst, n - 1))
  }

  lemma {:induction false} StopsMonotone(fstate: ForwardState, curr: int, dst: int, n: nat, m: nat)
    requires Stops(fstate, curr, dst, n) && n <= m
    ensures Stops(fstate, curr, dst, m)
    decreases n
  {
    if curr != dst && (curr, dst) in fstate {
      StopsMonotone(fstate, fstate[(curr, dst)], dst, n - 1, m - 1);
    }
  }

  /** The nodes the walk visits after `curr`, ending at `dst`, or the first missing pair. */
  function WalkFrom(fstate: ForwardState, curr: int, dst: int, n: nat): Result<seq<int>, GraphError>
    requires Stops(fstate, curr, dst, n)
    decreases n
  {
    if curr == dst then Ok([])
    else if (curr, dst) !in fstate then Err(KeyMissing(curr, dst))
    else
      var next := fstate[(curr, dst)];
      Prepend([next], WalkFrom(fstate, next, dst, n - 1))
  }

  /** A walk result with `prefix` in front of its nodes; an error stays as it is. */
  function Prepend(prefix: seq<int>, r: Result<seq<int>, GraphError>): Result<seq<int>, GraphError>
  {
    match r
    case Ok(rest) => Ok(prefix + rest)
    case Err(e) => Err(e)
  }

  lemma PrependTwice(a: seq<int>, b: seq<int>, r: Result<seq<int>, GraphError>)
    ensures Prepend(a, Prepend(b, r)) == Prepend(a + b, r)
  {
    if r.Ok? {
      assert a + (b + r.value) == (a + b) + r.value;
    }
  }

  /** A path of the forwarding state: it starts at src, ends at dst, and each node's successor is its next hop to dst. */
  predicate FollowsState(fstate: ForwardState, path: seq<int>, src: int, dst: int)
  {
    && |path| > 0 && path[0] == src && path[|path| - 1] == dst
    && (forall i :: 0 <= i < |path| - 1 ==> path[i] != dst)
    && (forall i :: 0 <= i < |path| - 1 ==> (path[i], dst) in fstate && fstate[(path[i], dst)] == path[i + 1])
  }

  /** A walk that arrives follows the state. */
  lemma {:induction false} WalkFromFollowsState(fstate: ForwardState, curr: int, dst: int, n: nat)
    requires Stops(fstate, curr, dst, n) && WalkFrom(fstate, curr, dst, n).Ok?
    ensures FollowsState(fstate, [curr] + WalkFrom(fstate, curr, dst, n).value, curr, dst)
    decreases n
  {
    if curr != dst {
      var next := fstate[(curr, dst)];
      WalkFromFollowsState(fstate, next, dst, n - 1);
      var rest := WalkFrom(fstate, next, dst, n - 1).value;
      var tail := [next] + rest;
      assert [curr] + WalkFrom(fstate, curr, dst, n).value == [curr] + tail;
      forall i | 0 <= i < |[curr] + tail| - 1
        ensures ([curr] + tail)[i] != dst
        ensures (([curr] + tail)[i], dst) in fstate && fstate[(([curr] + tail)[i], dst)] == ([curr] + tail)[i + 1]
      {
        if i > 0 {
          assert ([curr] + tail)[i] == tail[i - 1] && ([curr] + tail)[i + 1] == tail[i];
        }
      }
    }
  }

  /** Conversely, a state path that arrives is the walk: the walk is the only such path. */
  lemma {:induction false} FollowsStateIsWalk(fstate: ForwardState, path: seq<int>, dst: int, n: nat)
    requires |path| > 0 && FollowsState(fstate, path, path[0], dst) && |path| - 1 <= n
    ensures Stops(fstate, path[0], dst, n)
    ensures WalkFrom(fstate, path[0], dst, n) == Ok(path[1..])
    decreases |path|
  {
    if |path| > 1 {
      var tail := path[1..];
      assert FollowsState(fstate, tail, tail[0], dst) by {
        forall i | 0 <= i < |tail| - 1
          ensures tail[i] != dst && (tail[i], dst) in fstate && fstate[(tail[i], dst)] == tail[i + 1]
        {
          assert tail[i] == path[i + 1] && tail[i + 1] == path[i + 2];
        }
      }
      FollowsStateIsWalk(fstate, tail, dst, n - 1);
      assert [tail[0]] + tail[1..] == tail;
    }
  }

  /**
   * get_path: None when the state says there is no path; otherwise the nodes
   * from src to dst, each the next hop of the previous one.  A pair missing
   * from the state raises.
   */
  method GetPath(src: int, dst: int, fstate: ForwardState, ghost bound: nat) returns (r: Result<Option<seq<int>>, GraphError>)
    requires Stops(fstate, src, dst, bound)
    ensures (src, dst) !in fstate ==> r == Err(KeyMissing(src, dst))
    ensures (src, dst) in fstate ==> (r == Ok(None) <==> fstate[(src, dst)] == -1)
    ensures (src, dst) in fstate && fstate[(src, dst)] != -1 ==>
              r == MapSome(Prepend([src], WalkFrom(fstate, src, dst, bound)))
    ensures r.Ok? && r.value.Some? ==> FollowsState(fstate, r.value.value, src, dst)
  {
    if (src, dst) !in fstate {
      return Err(KeyMissing(src, dst));
    }
    if fstate[(src, dst)] == -1 {
      return Ok(None);
    }
    var curr := src;
    var path := [src];
    ghost var fuel: nat := bound;
    assert Prepend(path[1..], WalkFrom(fstate, curr, dst, fuel)) == WalkFrom(fstate, src, dst, bound) by {
      if WalkFrom(fstate, src, dst, bound).Ok? {
        assert path[1..] + WalkFrom(fstate, src, dst, bound).value == WalkFrom(fstate, src, dst, bound).value;
      }
    }
    while curr != dst
      invariant Stops(fstate, curr, dst, fuel) && fuel <= bound
      invariant |path| > 0 && path[0] == src && path[|path| - 1] == curr
      invariant WalkFrom(fstate, src, dst, bound) == Prepend(path[1..], WalkFrom(fstate, curr, dst, fuel))
      decreases fuel
    {
      if (curr, dst) !in fstate {
        return Err(KeyMissing(curr, dst));
      }
      var nextHop := fstate[(curr, dst)];
      PrependTwice(path[1..], [nextHop], WalkFrom(fstate, nextHop, dst, fuel - 1));
      assert (path + [nextHop])[1..] == path[1..] + [nextHop];
      path := path + [nextHop];
      curr := nextHop;
      fuel := fuel - 1;
    }
    assert [src] + path[1..] == path;
    assert WalkFrom(fstate, src, dst, bound) == Ok(path[1..]) by {
      assert path[1..] + [] == path[1..];
    }
    WalkFromFollowsState(fstate, src, dst, bound);
    return Ok(Some(path));
  }

  function MapSome(r: Result<seq<int>, GraphError>): Result<Option<seq<int>>, GraphError>
  {
    match r
    case Ok(p) => Ok(Some(p))
    case Err(e) => Err(e)
  }

  // ---------------------------------------------------------------- weights

  /** One hop of a weighted path. */
  datatype Hop = Hop(from: int, to: int, weight: real)

  /** get_edge_data(u, v)["weight"] on an undirected graph; Python raises when there is no edge. */
  function EdgeWeight(g: WeightedGraph, u: int, v: int): (w: Option<real>)
    ensures w.Some? <==> (u, v) in g || (v, u) in g
    ensures (u, v) in g ==> w == Some(g[(u, v)])
  {
    if (u, v) in g then Some(g[(u, v)]) else if (v, u) in g then Some(g[(v, u)]) else None
  }

  /** The weight does not depend on the direction of travel, unless the graph stores the edge twice. */
  lemma EdgeWeightSymmetric(g: WeightedGraph, u: int, v: int)
    requires !((u, v) in g && (v, u) in g) || g[(u, v)] == g[(v, u)]
    ensures EdgeWeight(g, u, v) == EdgeWeight(g, v, u)
  {
  }

  predicate HasAllEdges(g: WeightedGraph, path: seq<int>)
  {
    forall i :: 0 <= i < |path| - 1 ==> EdgeWeight(g, path[i], path[i + 1]).Some?
  }

  /** The number of hops of a path: one less than its nodes, and none for an empty path. */
  function HopCount(path: seq<int>): nat
  {
    if |path| == 0 then 0 else |path| - 1
  }

  /** The first hop of a path without an edge. */
  function FirstMissingEdge(g: WeightedGraph, path: seq<int>): (k: nat)
    requires !HasAllEdges(g, path)
    ensures k < |path| - 1 && EdgeWeight(g, path[k], path[k + 1]).None?
    ensures forall j :: 0 <= j < k ==> EdgeWeight(g, path[j], path[j + 1]).Some?
  {
    if EdgeWeight(g, path[0], path[1]).None? then 0
    else
      assert !HasAllEdges(g, path[1..]) by {
        var i :| 0 <= i < |path| - 1 && EdgeWeight(g, path[i], path[i + 1]).None?;
        assert path[1..][i - 1] == path[i] && path[1..][i] == path[i + 1];
      }
      var k := FirstMissingEdge(g, path[1..]);
      assert forall j :: 1 <= j < k + 1 ==> path[j] == path[1..][j - 1] && path[j + 1] == path[1..][j];
      k + 1
  }

  /**
   * augment_path_with_weights: one (from, to, weight) triple per hop, in
   * order; the first hop without an edge raises.
   */
  method AugmentPathWithWeights(path: seq<int>, g: WeightedGraph) returns (r: Result<seq<Hop>, GraphError>)
    ensures r.Ok? <==> HasAllEdges(g, path)
    ensures r.Ok? ==>
              |r.value| == HopCount(path)
              && forall i :: 0 <= i < |r.value| ==> r.value[i] == Hop(path[i], path[i + 1], EdgeWeight(g, path[i], path[i + 1]).value)
    ensures r.Err? ==> var k := FirstMissingEdge(g, path); r.error == NoEdge(path[k], path[k + 1])
  {
    var res: seq<Hop> := [];
    var i := 1;
    while i < |path|
      invariant 1 <= i <= |path| || (|path| == 0 && i == 1)
      invariant |res| == i - 1
      invariant forall j :: 0 <= j < i - 1 ==> EdgeWeight(g, path[j], path[j + 1]).Some?
      invariant forall j :: 0 <= j < |res| ==> res[j] == Hop(path[j], path[j + 1], EdgeWeight(g, path[j], path[j + 1]).value)
    {
      var w := EdgeWeight(g, path[i - 1], path[i]);
      if w.None? {
        return Err(NoEdge(path[i - 1], path[i]));
      }
      res := res + [Hop(path[i - 1], path[i], w.value)];
      i := i + 1;
    }
    return Ok(res);
  }

  /** The total weight of a weighted path. */
  function TotalWeight(hops: seq<Hop>): real
  {
    if |hops| == 0 then 0.0 else TotalWeight(hops[..|hops| - 1]) + hops[|hops| - 1].weight
  }

  /** Weights add up over a concatenation. */
  lemma {:induction false} TotalWeightAppend(a: seq<Hop>, b: seq<Hop>)
    ensures TotalWeight(a + b) == TotalWeight(a) + TotalWeight(b)
    decreases |b|
  {
    if |b| == 0 {
      assert a + b == a;
    } else {
      assert (a + b)[..|a + b| - 1] == a + b[..|b| - 1];
      TotalWeightAppend(a, b[..|b| - 1]);
    }
  }

  /** With non-negative weights the total is at least every single hop's weight. */
  lemma {:induction false} TotalWeightBoundsHops(hops: seq<Hop>, k: int)
    requires forall i :: 0 <= i < |hops| ==> hops[i].weight >= 0.0
    requires 0 <= k < |hops|
    ensures TotalWeight(hops) >= hops[k].weight >= 0.0
    decreases |hops|
  {
    if k < |hops| - 1 {
      TotalWeightBoundsHops(hops[..|hops| - 1], k);
      TotalWeightNonNegative(hops[..|hops| - 1]);
    } else {
      TotalWeightNonNegative(hops[..|hops| - 1]);
    }
  }

  lemma {:induction false} TotalWeightNonNegative(hops: seq<Hop>)
    requires forall i :: 0 <= i < |hops| ==> hops[i].weight >= 0.0
    ensures TotalWeight(hops) >= 0.0
    decreases |hops|
  {
    if |hops| > 0 {
      TotalWeightNonNegative(hops[..|hops| - 1]);
    }
  }

  /** sum_path_weights: the sum of the hops' weights. */
  method SumPathWeights(weightedPath: seq<Hop>) returns (res: real)
    ensures res == TotalWeight(weightedPath)
  {
    res := 0.0;
    var k := 0;
    while k < |weightedPath|
      invariant 0 <= k <= |weightedPath| && res == TotalWeight(weightedPath[..k])
    {
      assert weightedPath[..k + 1][..k] == weightedPath[..k];
      res := res + weightedPath[k].weight;
      k := k + 1;
    }
    assert weightedPath[..k] == weightedPath;
  }

  /** compute_path_length_with_graph: the summed weights of the augmented path. */
  method ComputePathLengthWithGraph(path: seq<int>, g: WeightedGraph) returns (r: Result<real, GraphError>)
    ensures r.Ok? <==> HasAllEdges(g, path)
    ensures r.Ok? ==> exists hops :: |hops| == HopCount(path) && r.value == TotalWeight(hops)
                                   && forall i :: 0 <= i < |hops| ==> hops[i] == Hop(path[i], path[i + 1], EdgeWeight(g, path[i], path[i + 1]).value)
  {
    var hops := AugmentPathWithWeights(path, g);
    if hops.Err? {
      return Err(hops.error);
    }
    var total := SumPathWeights(hops.value);
    return Ok(total);
  }

  // ---------------------------------------------------------------- hop checks

  /**
   * What compute_path_length_without_graph knows of the network: node counts,
   * the ISL list, the two distance functions at the time in question (between
   * satellites, and from ground station index to satellite) and the ranges.
   */
  datatype Geometry = Geometry(
    numSatellites: int, numGroundStations: int, isls: seq<(int, int)>,
    satelliteDistance: (int, int) -> real, groundStationDistance: (int, int) -> real,
    maxGslLengthM: real, maxIslLengthM: real)

  /** The length of one hop, or why it is not permitted. */
  function HopLength(geo: Geometry, from: int, to: int): (r: Result<real, GraphError>)
    ensures r == Err(GroundStationToGroundStation) <==> from >= geo.numSatellites && to >= geo.numSatellites
    ensures r.Ok? && from < geo.numSatellites && to < geo.numSatellites ==>
              ((from, to) in geo.isls || (to, from) in geo.isls) && r.value <= geo.maxIslLengthM
    ensures r.Ok? && (from >= geo.numSatellites || to >= geo.numSatellites) ==> r.value <= geo.maxGslLengthM
  {
    var s := geo.numSatellites;
    if from < s && to < s then
      var d := geo.satelliteDistance(from, to);
      if d > geo.maxIslLengthM || ((to, from) !in geo.isls && (from, to) !in geo.isls) then Err(InvalidIslHop) else Ok(d)
    else if from >= s && to < s then
      if from - s >= geo.numGroundStations then Err(GroundStationIndexOutOfRange)
      else
        var d := geo.groundStationDistance(from - s, to);
        if d > geo.maxGslLengthM then Err(InvalidGslHop) else Ok(d)
    else if from < s && to >= s then
      if to - s >= geo.numGroundStations then Err(GroundStationIndexOutOfRange)
      else
        var d := geo.groundStationDistance(to - s, from);
        if d > geo.maxGslLengthM then Err(InvalidGslHop) else Ok(d)
    else Err(GroundStationToGroundStation)
  }

  /** The summed hop lengths of the first n hops, or the first hop's error. */
  function PathLengthPrefix(geo: Geometry, path: seq<int>, n: nat): Result<real, GraphError>
    requires n <= HopCount(path)
  {
    if n == 0 then Ok(0.0)
    else
      match PathLengthPrefix(geo, path, n - 1)
      case Err(e) => Err(e)
      case Ok(total) =>
        match HopLength(geo, path[n - 1], path[n])
        case Err(e) => Err(e)
        case Ok(d) => Ok(total + d)
  }

  /** A path is accepted exactly when each of its hops is. */
  lemma {:induction false} PathLengthPrefixOk(geo: Geometry, path: seq<int>, n: nat)
    requires n <= HopCount(path)
    ensures PathLengthPrefix(geo, path, n).Ok? <==> forall i :: 0 <= i < n ==> HopLength(geo, path[i], path[i + 1]).Ok?
    decreases n
  {
    if n > 0 {
      PathLengthPrefixOk(geo, path, n - 1);
    }
  }

  /** A path that passes the checks has no two ground stations in a row. */
  lemma NoGroundStationPair(geo: Geometry, path: seq<int>, i: int)
    requires PathLengthPrefix(geo, path, HopCount(path)).Ok? && 0 <= i < HopCount(path)
    ensures path[i] < geo.numSatellites || path[i + 1] < geo.numSatellites
  {
    PathLengthPrefixOk(geo, path, HopCount(path));
    assert HopLength(geo, path[i], path[i + 1]).Ok?;
  }

  /**
   * compute_path_length_without_graph: the sum of the hop lengths; an ISL hop
   * not in the list or too long, a GSL hop too long, or a hop between two
   * ground stations raises.
   */
  method ComputePathLengthWithoutGraph(path: seq<int>, geo: Geometry) returns (r: Result<real, GraphError>)
    ensures r == PathLengthPrefix(geo, path, HopCount(path))
  {
    var pathLengthM := 0.0;
    var i := 1;
    while i < |path|
      invariant 1 <= i <= |path| || (|path| == 0 && i == 1)
      invariant PathLengthPrefix(geo, path, i - 1) == Ok(pathLengthM)
    {
      var hop := HopLength(geo, path[i - 1], path[i]);
      if hop.Err? {
        PathLengthPrefixErrorSticks(geo, path, i, HopCount(path));
        return Err(hop.error);
      }
      pathLengthM := pathLengthM + hop.value;
      i := i + 1;
    }
    return Ok(pathLengthM);
  }

  /** Once a prefix fails, every longer prefix fails with the same error. */
  lemma {:induction false} PathLengthPrefixErrorSticks(geo: Geometry, path: seq<int>, n: nat, m: nat)
    requires 0 < n <= m <= HopCount(path) && PathLengthPrefix(geo, path, n).Err?
    ensures PathLengthPrefix(geo, path, m) == PathLengthPrefix(geo, path, n)
    decreases m - n
  {
    if m > n {
      PathLengthPrefixErrorSticks(geo, path, n, m - 1);
    }
  }
}
