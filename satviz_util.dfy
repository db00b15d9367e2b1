/**
 * The satellite bookkeeping of the visualisation scripts: a list of
 * satellites laid out orbit by orbit, the search for a satellite by its
 * (orbit, position in orbit), and the links that draw each orbit and the
 * +Grid.  The orbital elements handed to ephem are left out; the fields the
 * list records are kept.
 */
module SatvizUtil {
  import opened Outcomes
  import opened MachineInts

  datatype UtilError = DivisionByZero

  /** A satellite entry: its orbit, its position in the orbit, its altitude and the angles it was placed at. */
  datatype SatObj = SatObj(orbId: int, orbSatId: int, altKm: real, raanDeg: real, meanAnomalyDeg: real)

  /** A link entry `{"sat1": ..., "sat2": ..., "dist": -1.0}`. */
  datatype Link = Link(sat1: int, sat2: int, dist: real)

  /** Python's `a % b`: the remainder takes the sign of the divisor. */
  function PyMod(a: int, b: int): (r: int)
    requires b != 0
    ensures b > 0 ==> 0 <= r < b && r == a % b
    ensures b < 0 ==> b < r <= 0
  {
    if b > 0 then a % b
    else
      var e := a % (-b);
      if e == 0 then 0 else e + b
  }

  // ---------------------------------------------------------------- generate_sat_obj_list

  /** The entry of satellite nSat of orbit orb: right ascension by orbit, mean anomaly by position, odd orbits shifted by half a slot with phase_diff. */
  function SatObjOf(orb: int, nSat: int, numOrbit: nat, numSatsPerOrbit: nat, phaseDiff: bool, altitude: real): SatObj
    requires numOrbit > 0 && numSatsPerOrbit > 0
  {
    var raan := ((orb * 360) as real) / (numOrbit as real);
    var orbitWiseShift := if orb % 2 == 1 && phaseDiff then 360.0 / ((numSatsPerOrbit * 2) as real) else 0.0;
    SatObj(orb, nSat, altitude / 1000.0, raan, orbitWiseShift + ((nSat * 360) as real) / (numSatsPerOrbit as real))
  }

  /** Entry orb * M + k of a list of M satellites per orbit is satellite k of orbit orb. */
  predicate Layout(sats: seq<SatObj>, numOrbit: nat, numSatsPerOrbit: nat)
  {
    && |sats| == numOrbit * numSatsPerOrbit
    && (numSatsPerOrbit > 0 ==>
          forall i :: 0 <= i < |sats| ==> sats[i].orbId == i / numSatsPerOrbit && sats[i].orbSatId == i % numSatsPerOrbit)
  }

  lemma SlotBelow(orb: int, k: int, n: int, m: int)
    requires 0 <= orb < n && 0 <= k < m
    ensures orb * m + k < n * m
  {
    MultipleAtLeast(n - orb, m);
    assert n * m == orb * m + (n - orb) * m;
  }

  /** An index below N * M lies in one of the N orbits. */
  lemma SlotOf(i: int, n: nat, m: nat)
    requires 0 <= i < n * m
    ensures m > 0 && 0 <= i / m < n && 0 <= i % m < m
  {
  }

  /** The first k entries of s are the entries generate_sat_obj_list computes for them. */
  ghost predicate Generated(s: seq<SatObj>, k: int, n: nat, m: nat, phaseDiff: bool, altitude: real)
  {
    && 0 <= k <= |s|
    && (k > 0 ==> n > 0 && m > 0 && forall j :: 0 <= j < k ==> s[j] == SatObjOf(j / m, j % m, n, m, phaseDiff, altitude))
  }

  lemma GeneratedStep(s: seq<SatObj>, k: int, n: nat, m: nat, phaseDiff: bool, altitude: real, obj: SatObj)
    requires Generated(s, k, n, m, phaseDiff, altitude) && k < |s| && n > 0 && m > 0
    requires obj == SatObjOf(k / m, k % m, n, m, phaseDiff, altitude)
    ensures Generated(s[k := obj], k + 1, n, m, phaseDiff, altitude)
  {
  }

  /** The inner loop of generate_sat_obj_list: the satellites of orbit orb, at indices orb * M .. orb * M + M - 1. */
  method FillOrbit(satObjs: array<SatObj>, orb: nat, n: nat, m: nat, phaseDiff: bool, altitude: real, raan: real, orbitWiseShift: real)
    requires orb < n && satObjs.Length == n * m
    requires orb % 2 == 1 && phaseDiff ==> m > 0
    requires raan == ((orb * 360) as real) / (n as real)
    requires orbitWiseShift == if orb % 2 == 1 && phaseDiff then 360.0 / ((m * 2) as real) else 0.0
    requires Generated(satObjs[..], orb * m, n, m, phaseDiff, altitude)
    modifies satObjs
    ensures Generated(satObjs[..], (orb + 1) * m, n, m, phaseDiff, altitude)
  {
    var counter := orb * m;
    for nSat := 0 to m
      invariant counter == orb * m + nSat
      invariant Generated(satObjs[..], counter, n, m, phaseDiff, altitude)
    {
      var obj := SatObj(orb, nSat, altitude / 1000.0, raan, orbitWiseShift + ((nSat * 360) as real) / (m as real));
      assert counter < satObjs.Length && obj == SatObjOf(counter / m, counter % m, n, m, phaseDiff, altitude) by {
        SlotBelow(orb, nSat, n, m);
        DivModUnique(counter, m, orb, nSat);
      }
      GeneratedStep(satObjs[..], counter, n, m, phaseDiff, altitude, obj);
      satObjs[counter] := obj;
      counter := counter + 1;
    }
    assert counter == (orb + 1) * m;
  }

  /**
   * generate_sat_obj_list: the list has one entry per satellite, orbit by
   * orbit; with phase_diff and no satellites per orbit, the shift of the
   * second orbit divides by zero.
   */
  method GenerateSatObjList(numOrbit: nat, numSatsPerOrbit: nat, phaseDiff: bool, altitude: real)
    returns (r: Result<array<SatObj>, UtilError>)
    ensures r.Err? <==> phaseDiff && numSatsPerOrbit == 0 && numOrbit >= 2
    ensures r.Ok? ==> fresh(r.value) && Layout(r.value[..], numOrbit, numSatsPerOrbit)
    ensures r.Ok? ==> forall i :: 0 <= i < r.value.Length ==>
              r.value[i] == SatObjOf(i / numSatsPerOrbit, i % numSatsPerOrbit, numOrbit, numSatsPerOrbit, phaseDiff, altitude)
  {
    var n, m := numOrbit, numSatsPerOrbit;
    var satObjs := new SatObj[n * m](_ => SatObj(0, 0, 0.0, 0.0, 0.0));
    var counter := 0;
    for orb := 0 to n
      invariant counter == orb * m
      invariant phaseDiff && m == 0 ==> orb <= 1
      invariant Generated(satObjs[..], counter, n, m, phaseDiff, altitude)
    {
      var raan := ((orb * 360) as real) / (n as real);
      var orbitWiseShift := 0.0;
      if orb % 2 == 1 {
        if phaseDiff {
          if m == 0 {
            return Err(DivisionByZero);
          }
          orbitWiseShift := 360.0 / ((m * 2) as real);
        }
      }
      FillOrbit(satObjs, orb, n, m, phaseDiff, altitude, raan, orbitWiseShift);
      counter := counter + m;
      assert counter == (orb + 1) * m;
    }
    assert counter == n * m;
    return Ok(satObjs);
  }

  // ---------------------------------------------------------------- get_neighbor_satellite

  predicate IsAt(s: SatObj, orb: int, pos: int)
  {
    s.orbId == orb && s.orbSatId == pos
  }

  /** The index of the first entry at (orb, pos), or -1 when there is none. */
  function IndexOf(sats: seq<SatObj>, orb: int, pos: int): (i: int)
    ensures i == -1 <==> forall k :: 0 <= k < |sats| ==> !IsAt(sats[k], orb, pos)
    ensures i != -1 ==> 0 <= i < |sats| && IsAt(sats[i], orb, pos) && forall k :: 0 <= k < i ==> !IsAt(sats[k], orb, pos)
    decreases |sats|
  {
    if |sats| == 0 then -1
    else if IsAt(sats[0], orb, pos) then 0
    else
      var j := IndexOf(sats[1..], orb, pos);
      assert forall k :: 1 <= k < |sats| ==> sats[k] == sats[1..][k - 1];
      if j == -1 then -1 else j + 1
  }

  /** The neighbour at relative orbit and position offsets, both taken modulo the constellation's size. */
  function NeighborSatellite(sat1Orb: int, sat1RelId: int, sat2Orb: int, sat2RelId: int, sats: seq<SatObj>,
                             numOrbits: int, numSatsPerOrbit: int): (r: Result<int, UtilError>)
    ensures r.Err? <==> numOrbits == 0 || numSatsPerOrbit == 0
    ensures r.Ok? ==> r.value == -1 || (0 <= r.value < |sats| && IsAt(sats[r.value], PyMod(sat1Orb + sat2Orb, numOrbits),
                                                                      PyMod(sat1RelId + sat2RelId, numSatsPerOrbit)))
  {
    if numOrbits == 0 || numSatsPerOrbit == 0 then Err(DivisionByZero)
    else Ok(IndexOf(sats, PyMod(sat1Orb + sat2Orb, numOrbits), PyMod(sat1RelId + sat2RelId, numSatsPerOrbit)))
  }

  /** get_neighbor_satellite: the search stops at the first match. */
  method GetNeighborSatellite(sat1Orb: int, sat1RelId: int, sat2Orb: int, sat2RelId: int, satPositions: seq<SatObj>,
                              numOrbits: int, numSatsPerOrbit: int) returns (r: Result<int, UtilError>)
    ensures r == NeighborSatellite(sat1Orb, sat1RelId, sat2Orb, sat2RelId, satPositions, numOrbits, numSatsPerOrbit)
  {
    if numOrbits == 0 || numSatsPerOrbit == 0 {
      return Err(DivisionByZero);
    }
    var neighborAbsOrb := PyMod(sat1Orb + sat2Orb, numOrbits);
    var neighborAbsPos := PyMod(sat1RelId + sat2RelId, numSatsPerOrbit);
    var selSatId := -1;
    var i := 0;
    while i < |satPositions|
      invariant 0 <= i <= |satPositions|
      invariant forall k :: 0 <= k < i ==> !IsAt(satPositions[k], neighborAbsOrb, neighborAbsPos)
    {
      if satPositions[i].orbId == neighborAbsOrb && satPositions[i].orbSatId == neighborAbsPos {
        selSatId := i;
        break;
      }
      i := i + 1;
    }
    return Ok(selSatId);
  }

  /** In a laid-out list exactly one entry is at each (orbit, position), at index orb * M + pos. */
  lemma IndexOfLayout(sats: seq<SatObj>, n: nat, m: nat, orb: int, pos: int)
    requires Layout(sats, n, m) && 0 <= orb < n && 0 <= pos < m
    ensures IndexOf(sats, orb, pos) == orb * m + pos
  {
    var i := orb * m + pos;
    SlotBelow(orb, pos, n, m);
    DivModUnique(i, m, orb, pos);
    assert IsAt(sats[i], orb, pos);
    var found := IndexOf(sats, orb, pos);
    assert 0 <= found <= i;
    assert IsAt(sats[found], orb, pos);
    SlotOf(found, n, m);
    DivModParts(found, m);
  }

  lemma DivModParts(x: int, m: nat)
    requires m > 0
    ensures x == (x / m) * m + x % m
  {
  }

  /** The orbit-link neighbour (0, 1) of entry i is the next satellite of its orbit, wrapping round to the first. */
  lemma NextInOrbit(sats: seq<SatObj>, n: nat, m: nat, i: int)
    requires Layout(sats, n, m) && 0 <= i < |sats|
    ensures NeighborSatellite(sats[i].orbId, sats[i].orbSatId, 0, 1, sats, n, m) == Ok((i / m) * m + (i % m + 1) % m)
  {
    SlotOf(i, n, m);
    var s := sats[i];
    assert s.orbId == i / m && s.orbSatId == i % m;
    DivModUnique(i / m, n, 0, i / m);
    assert PyMod(s.orbId + 0, n) == i / m;
    assert PyMod(s.orbSatId + 1, m) == (i % m + 1) % m;
    IndexOfLayout(sats, n, m, i / m, (i % m + 1) % m);
  }

  /** The grid neighbour (1, 0) of entry i is the satellite at the same position of the next orbit, wrapping round. */
  lemma SameSlotNextOrbit(sats: seq<SatObj>, n: nat, m: nat, i: int)
    requires Layout(sats, n, m) && 0 <= i < |sats|
    ensures NeighborSatellite(sats[i].orbId, sats[i].orbSatId, 1, 0, sats, n, m) == Ok(((i / m + 1) % n) * m + i % m)
  {
    SlotOf(i, n, m);
    var s := sats[i];
    assert s.orbId == i / m && s.orbSatId == i % m;
    assert PyMod(s.orbId + 1, n) == (i / m + 1) % n;
    DivModUnique(i % m, m, 0, i % m);
    assert PyMod(s.orbSatId + 0, m) == i % m;
    IndexOfLayout(sats, n, m, (i / m + 1) % n, i % m);
  }

  // ---------------------------------------------------------------- find_orbit_links / find_grid_links

  /** The neighbour of entry i at offsets (dOrb, dPos). */
  function NeighborOf(sats: seq<SatObj>, i: int, dOrb: int, dPos: int, n: int, m: int): Result<int, UtilError>
    requires 0 <= i < |sats|
  {
    NeighborSatellite(sats[i].orbId, sats[i].orbSatId, dOrb, dPos, sats, n, m)
  }

  /** Links 0 .. k-1 are present, and link i joins entry i to its (0, 1) neighbour. */
  ghost predicate OrbitLinked(links: map<int, Link>, k: int, sats: seq<SatObj>, n: int, m: int)
  {
    && 0 <= k <= |sats|
    && (forall c :: c in links <==> 0 <= c < k)
    && forall i :: 0 <= i < k ==> NeighborOf(sats, i, 0, 1, n, m).Ok? && links[i] == Link(i, NeighborOf(sats, i, 0, 1, n, m).value, -1.0)
  }

  /** Links 0 .. 2k-1 are present; link 2i joins entry i to its (0, 1) neighbour and link 2i + 1 to its (1, 0) neighbour. */
  ghost predicate GridLinked(links: map<int, Link>, k: int, sats: seq<SatObj>, n: int, m: int)
  {
    && 0 <= k <= |sats|
    && (forall c :: c in links <==> 0 <= c < 2 * k)
    && forall i :: 0 <= i < k ==>
         && NeighborOf(sats, i, 0, 1, n, m).Ok? && NeighborOf(sats, i, 1, 0, n, m).Ok?
         && links[2 * i] == Link(i, NeighborOf(sats, i, 0, 1, n, m).value, -1.0)
         && links[2 * i + 1] == Link(i, NeighborOf(sats, i, 1, 0, n, m).value, -1.0)
  }

  lemma OrbitLinkedStep(links: map<int, Link>, k: int, sats: seq<SatObj>, n: int, m: int, a: int)
    requires OrbitLinked(links, k, sats, n, m) && k < |sats|
    requires NeighborOf(sats, k, 0, 1, n, m) == Ok(a)
    ensures OrbitLinked(links[k := Link(k, a, -1.0)], k + 1, sats, n, m)
  {
  }

  lemma GridLinkedStep(links: map<int, Link>, k: int, sats: seq<SatObj>, n: int, m: int, a: int, b: int)
    requires GridLinked(links, k, sats, n, m) && k < |sats|
    requires NeighborOf(sats, k, 0, 1, n, m) == Ok(a) && NeighborOf(sats, k, 1, 0, n, m) == Ok(b)
    ensures GridLinked(links[2 * k := Link(k, a, -1.0)][2 * k + 1 := Link(k, b, -1.0)], k + 1, sats, n, m)
  {
    var next := links[2 * k := Link(k, a, -1.0)][2 * k + 1 := Link(k, b, -1.0)];
    forall i | 0 <= i < k + 1
      ensures next[2 * i] == Link(i, NeighborOf(sats, i, 0, 1, n, m).value, -1.0)
      ensures next[2 * i + 1] == Link(i, NeighborOf(sats, i, 1, 0, n, m).value, -1.0)
    {
      if i < k {
        assert 2 * i + 1 < 2 * k;
      }
    }
  }

  /** find_orbit_links: one link per satellite, keyed by a counter, to its (0, 1) neighbour. */
  method FindOrbitLinks(satPositions: seq<SatObj>, numOrbit: int, numSatsPerOrbit: int) returns (r: Result<map<int, Link>, UtilError>)
    ensures r.Err? <==> |satPositions| > 0 && (numOrbit == 0 || numSatsPerOrbit == 0)
    ensures r.Ok? ==> OrbitLinked(r.value, |satPositions|, satPositions, numOrbit, numSatsPerOrbit)
  {
    var orbitLinks: map<int, Link> := map[];
    var cntr := 0;
    for i := 0 to |satPositions|
      invariant cntr == i
      invariant OrbitLinked(orbitLinks, i, satPositions, numOrbit, numSatsPerOrbit)
    {
      var selSatId := GetNeighborSatellite(satPositions[i].orbId, satPositions[i].orbSatId, 0, 1, satPositions, numOrbit, numSatsPerOrbit);
      if selSatId.Err? {
        return Err(selSatId.error);
      }
      OrbitLinkedStep(orbitLinks, i, satPositions, numOrbit, numSatsPerOrbit, selSatId.value);
      orbitLinks := orbitLinks[cntr := Link(i, selSatId.value, -1.0)];
      cntr := cntr + 1;
    }
    if |satPositions| > 0 {
      assert NeighborOf(satPositions, 0, 0, 1, numOrbit, numSatsPerOrbit).Ok?;
    }
    return Ok(orbitLinks);
  }

  /** find_grid_links: two links per satellite, keyed by a counter: 2i to its (0, 1) neighbour, 2i + 1 to its (1, 0) neighbour. */
  method FindGridLinks(satPositions: seq<SatObj>, numOrbit: int, numSatsPerOrbit: int) returns (r: Result<map<int, Link>, UtilError>)
    ensures r.Err? <==> |satPositions| > 0 && (numOrbit == 0 || numSatsPerOrbit == 0)
    ensures r.Ok? ==> GridLinked(r.value, |satPositions|, satPositions, numOrbit, numSatsPerOrbit)
  {
    var gridLinks: map<int, Link> := map[];
    var cntr := 0;
    for i := 0 to |satPositions|
      invariant cntr == 2 * i
      invariant GridLinked(gridLinks, i, satPositions, numOrbit, numSatsPerOrbit)
    {
      var first := GetNeighborSatellite(satPositions[i].orbId, satPositions[i].orbSatId, 0, 1, satPositions, numOrbit, numSatsPerOrbit);
      if first.Err? {
        return Err(first.error);
      }
      var second := GetNeighborSatellite(satPositions[i].orbId, satPositions[i].orbSatId, 1, 0, satPositions, numOrbit, numSatsPerOrbit);
      GridLinkedStep(gridLinks, i, satPositions, numOrbit, numSatsPerOrbit, first.value, second.value);
      gridLinks := gridLinks[cntr := Link(i, first.value, -1.0)];
      cntr := cntr + 1;
      gridLinks := gridLinks[cntr := Link(i, second.value, -1.0)];
      cntr := cntr + 1;
    }
    if |satPositions| > 0 {
      assert NeighborOf(satPositions, 0, 0, 1, numOrbit, numSatsPerOrbit).Ok?;
    }
    return Ok(gridLinks);
  }

  /**
   * On a laid-out constellation the orbit links close every orbit into a
   * ring: satellite i links to the next one of its orbit.
   */
  lemma OrbitLinksOfLayout(sats: seq<SatObj>, n: nat, m: nat, links: map<int, Link>, i: int)
    requires Layout(sats, n, m) && OrbitLinked(links, |sats|, sats, n, m) && 0 <= i < |sats|
    ensures links[i] == Link(i, (i / m) * m + (i % m + 1) % m, -1.0)
  {
    NextInOrbit(sats, n, m, i);
  }

  /**
   * On a laid-out constellation the grid links are the +Grid: satellite i
   * links to the next one of its orbit and to the same position of the next orbit.
   */
  lemma GridLinksOfLayout(sats: seq<SatObj>, n: nat, m: nat, links: map<int, Link>, i: int)
    requires Layout(sats, n, m) && GridLinked(links, |sats|, sats, n, m) && 0 <= i < |sats|
    ensures links[2 * i] == Link(i, (i / m) * m + (i % m + 1) % m, -1.0)
    ensures links[2 * i + 1] == Link(i, ((i / m + 1) % n) * m + i % m, -1.0)
  {
    NextInOrbit(sats, n, m, i);
    SameSlotNextOrbit(sats, n, m, i);
  }
}
