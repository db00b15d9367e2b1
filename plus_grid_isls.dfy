/**
 * The +Grid inter-satellite links: every satellite links to the next one in
 * its orbit and to one satellite of the next orbit, shifted by the ISL
 * shift.  Satellite j of orbit i has id i * m + j (m satellites per orbit);
 * each link is written as (smaller id, larger id), plus an index offset.
 */
module PlusGridIsls {
  import opened Outcomes
  import opened PyText
  import opened MachineInts

  datatype IslError = TooFewOrbitsOrSatellites

  // ---------------------------------------------------------------- arithmetic on satellite ids

  /** Satellite id i * m + j has orbit i and slot j. */
  lemma DecodeSatellite(m: int, i: int, j: int)
    requires m > 0 && 0 <= j < m
    ensures (i * m + j) / m == i && (i * m + j) % m == j
  {
    DivModUnique(i * m + j, m, i, j);
  }

  lemma OrbitBelow(n: int, m: int, s: int)
    requires n > 0 && m > 0 && 0 <= s < n * m
    ensures 0 <= s / m < n
  {
    var i, j := s / m, s % m;
    assert s == i * m + j;
    if i < 0 {
      MultipleAtLeast(-i, m);
    } else if i >= n {
      MultipleAtLeast(i - n + 1, m);
    }
  }

  lemma IdBelow(n: int, m: int, i: int, j: int)
    requires m > 0 && 0 <= i < n && 0 <= j < m
    ensures 0 <= i * m + j < n * m
  {
    assert i * m >= 0;
    MultipleAtLeast(n - i, m);
    assert n * m == (n - i) * m + i * m;
  }

  // ---------------------------------------------------------------- the links

  /** The next satellite in the same orbit. */
  function SameOrbitNeighbour(m: int, s: int): int
    requires m > 0
  {
    (s / m) * m + (s % m + 1) % m
  }

  /** The satellite of the next orbit, its slot shifted by `shift`. */
  function AdjacentOrbitNeighbour(n: int, m: int, shift: int, s: int): int
    requires n > 0 && m > 0
  {
    ((s / m + 1) % n) * m + (s % m + shift) % m
  }

  /** A link as the generator writes it: (min, max), plus the offset. */
  function Link(offset: int, a: int, b: int): (int, int)
  {
    (offset + (if a <= b then a else b), offset + (if a <= b then b else a))
  }

  /** The link generated for satellite s: to its orbit neighbour when t = 0, to the next orbit when t = 1. */
  function IslOf(n: int, m: int, shift: int, offset: int, s: int, t: int): (int, int)
    requires n > 0 && m > 0
  {
    Link(offset, s, if t == 0 then SameOrbitNeighbour(m, s) else AdjacentOrbitNeighbour(n, m, shift, s))
  }

  /** The generated list: two links per satellite, in id order, the orbit link first. */
  predicate IsPlusGrid(isls: seq<(int, int)>, n: int, m: int, shift: int, offset: int)
    requires n > 0 && m > 0
  {
    && |isls| == 2 * (n * m)
    && forall s, t :: 0 <= s < n * m && 0 <= t < 2 ==> isls[2 * s + t] == IslOf(n, m, shift, offset, s, t)
  }

  /** The first c satellites' links are in place, and nothing else. */
  ghost predicate GridPrefix(isls: seq<(int, int)>, n: int, m: int, shift: int, offset: int, c: int)
    requires n > 0 && m > 0
  {
    && |isls| == 2 * c
    && forall s, t :: 0 <= s < c && 0 <= t < 2 ==> isls[2 * s + t] == IslOf(n, m, shift, offset, s, t)
  }

  lemma GridPrefixStep(isls: seq<(int, int)>, n: int, m: int, shift: int, offset: int, c: int)
    requires n > 0 && m > 0 && GridPrefix(isls, n, m, shift, offset, c)
    ensures GridPrefix(isls + [IslOf(n, m, shift, offset, c, 0)] + [IslOf(n, m, shift, offset, c, 1)], n, m, shift, offset, c + 1)
  {
    var next := isls + [IslOf(n, m, shift, offset, c, 0)] + [IslOf(n, m, shift, offset, c, 1)];
    forall s, t | 0 <= s < c + 1 && 0 <= t < 2
      ensures next[2 * s + t] == IslOf(n, m, shift, offset, s, t)
    {
      if s < c {
        assert next[2 * s + t] == isls[2 * s + t];
      }
    }
  }

  /**
   * generate_plus_grid_isls: fewer than 3 orbits or 3 satellites per orbit
   * raises; otherwise the nested loops append both links of every satellite.
   */
  method GeneratePlusGridIsls(nOrbits: int, nSatsPerOrbit: int, islShift: int, idxOffset: int)
    returns (r: Result<seq<(int, int)>, IslError>)
    ensures r.Err? <==> nOrbits < 3 || nSatsPerOrbit < 3
    ensures r.Err? ==> r.error == TooFewOrbitsOrSatellites
    ensures r.Ok? ==> IsPlusGrid(r.value, nOrbits, nSatsPerOrbit, islShift, idxOffset)
  {
    if nOrbits < 3 || nSatsPerOrbit < 3 {
      return Err(TooFewOrbitsOrSatellites);
    }
    var listIsls: seq<(int, int)> := [];
    var i := 0;
    while i < nOrbits
      invariant 0 <= i <= nOrbits
      invariant GridPrefix(listIsls, nOrbits, nSatsPerOrbit, islShift, idxOffset, i * nSatsPerOrbit)
    {
      var j := 0;
      while j < nSatsPerOrbit
        invariant 0 <= j <= nSatsPerOrbit
        invariant GridPrefix(listIsls, nOrbits, nSatsPerOrbit, islShift, idxOffset, i * nSatsPerOrbit + j)
      {
        var sat := i * nSatsPerOrbit + j;
        var satSameOrbit := i * nSatsPerOrbit + ((j + 1) % nSatsPerOrbit);
        var satAdjacentOrbit := ((i + 1) % nOrbits) * nSatsPerOrbit + ((j + islShift) % nSatsPerOrbit);
        DecodeSatellite(nSatsPerOrbit, i, j);
        assert satSameOrbit == SameOrbitNeighbour(nSatsPerOrbit, sat);
        assert satAdjacentOrbit == AdjacentOrbitNeighbour(nOrbits, nSatsPerOrbit, islShift, sat);
        GridPrefixStep(listIsls, nOrbits, nSatsPerOrbit, islShift, idxOffset, sat);
        listIsls := listIsls + [Link(idxOffset, sat, satSameOrbit)];
        listIsls := listIsls + [Link(idxOffset, sat, satAdjacentOrbit)];
        j := j + 1;
      }
      assert i * nSatsPerOrbit + nSatsPerOrbit == (i + 1) * nSatsPerOrbit;
      i := i + 1;
    }
    return Ok(listIsls);
  }

  // ---------------------------------------------------------------- properties of the list

  /** Where the orbit neighbour lies: same orbit, next slot. */
  lemma SameOrbitNeighbourPlace(n: int, m: int, s: int)
    requires n > 0 && m > 0 && 0 <= s < n * m
    ensures 0 <= SameOrbitNeighbour(m, s) < n * m
    ensures SameOrbitNeighbour(m, s) / m == s / m
    ensures SameOrbitNeighbour(m, s) % m == (s % m + 1) % m
  {
    OrbitBelow(n, m, s);
    DecodeSatellite(m, s / m, (s % m + 1) % m);
    IdBelow(n, m, s / m, (s % m + 1) % m);
  }

  /** Where the next-orbit neighbour lies: next orbit, slot shifted. */
  lemma AdjacentOrbitNeighbourPlace(n: int, m: int, shift: int, s: int)
    requires n > 0 && m > 0 && 0 <= s < n * m
    ensures 0 <= AdjacentOrbitNeighbour(n, m, shift, s) < n * m
    ensures AdjacentOrbitNeighbour(n, m, shift, s) / m == (s / m + 1) % n
    ensures AdjacentOrbitNeighbour(n, m, shift, s) % m == (s % m + shift) % m
  {
    var i, j := (s / m + 1) % n, (s % m + shift) % m;
    assert 0 <= i < n && 0 <= j < m;
    DecodeSatellite(m, i, j);
    IdBelow(n, m, i, j);
    assert AdjacentOrbitNeighbour(n, m, shift, s) == i * m + j;
  }

  lemma LinkEqual(offset: int, a: int, b: int, c: int, d: int)
    requires Link(offset, a, b) == Link(offset, c, d)
    ensures (a == c && b == d) || (a == d && b == c)
  {
  }

  /** Two steps forward around a ring of at least three never return to the start. */
  lemma TwoStepsAroundRing(k: int, x: int)
    requires k >= 3 && 0 <= x < k
    ensures ((x + 1) % k + 1) % k != x
  {
    if x + 1 < k {
      DivModUnique(x + 1, k, 0, x + 1);
      if x + 2 < k {
        DivModUnique(x + 2, k, 0, x + 2);
      } else {
        DivModUnique(x + 2, k, 1, 0);
      }
    } else {
      DivModUnique(x + 1, k, 1, 0);
      DivModUnique(1, k, 0, 1);
    }
  }

  lemma OneStepAroundRing(k: int, x: int)
    requires k >= 2 && 0 <= x < k
    ensures (x + 1) % k != x
  {
    if x + 1 < k {
      DivModUnique(x + 1, k, 0, x + 1);
    } else {
      DivModUnique(x + 1, k, 1, 0);
    }
  }

  /** A link within an orbit never equals a link between two orbits. */
  lemma OrbitLinkIsNotCrossLink(n: int, m: int, shift: int, offset: int, s: int, s': int)
    requires n >= 3 && m >= 3 && 0 <= s < n * m && 0 <= s' < n * m
    ensures Link(offset, s, SameOrbitNeighbour(m, s)) != Link(offset, s', AdjacentOrbitNeighbour(n, m, shift, s'))
  {
    if Link(offset, s, SameOrbitNeighbour(m, s)) == Link(offset, s', AdjacentOrbitNeighbour(n, m, shift, s')) {
      LinkEqual(offset, s, SameOrbitNeighbour(m, s), s', AdjacentOrbitNeighbour(n, m, shift, s'));
      SameOrbitNeighbourPlace(n, m, s);
      AdjacentOrbitNeighbourPlace(n, m, shift, s');
      OrbitBelow(n, m, s');
      OneStepAroundRing(n, s' / m);
      // both ends of the first link lie in orbit s / m, the ends of the second in two different orbits
      assert false;
    }
  }

  /** Two satellites with the same orbit link are the same satellite. */
  lemma OrbitLinkInjective(n: int, m: int, offset: int, s: int, s': int)
    requires n >= 3 && m >= 3 && 0 <= s < n * m && 0 <= s' < n * m
    requires Link(offset, s, SameOrbitNeighbour(m, s)) == Link(offset, s', SameOrbitNeighbour(m, s'))
    ensures s == s'
  {
    LinkEqual(offset, s, SameOrbitNeighbour(m, s), s', SameOrbitNeighbour(m, s'));
    if s != s' {
      // then s' is the orbit neighbour of s and s the orbit neighbour of s'
      SameOrbitNeighbourPlace(n, m, s);
      SameOrbitNeighbourPlace(n, m, s');
      OrbitBelow(n, m, s);
      TwoStepsAroundRing(m, s % m);
      assert false;
    }
  }

  /** Two satellites with the same link to the next orbit are the same satellite. */
  lemma CrossLinkInjective(n: int, m: int, shift: int, offset: int, s: int, s': int)
    requires n >= 3 && m >= 3 && 0 <= s < n * m && 0 <= s' < n * m
    requires Link(offset, s, AdjacentOrbitNeighbour(n, m, shift, s)) == Link(offset, s', AdjacentOrbitNeighbour(n, m, shift, s'))
    ensures s == s'
  {
    LinkEqual(offset, s, AdjacentOrbitNeighbour(n, m, shift, s), s', AdjacentOrbitNeighbour(n, m, shift, s'));
    if s != s' {
      // then the orbit of s is two orbits past itself
      AdjacentOrbitNeighbourPlace(n, m, shift, s);
      AdjacentOrbitNeighbourPlace(n, m, shift, s');
      OrbitBelow(n, m, s);
      TwoStepsAroundRing(n, s / m);
      assert false;
    }
  }

  /** No two satellites, and no two slots of one satellite, generate the same link. */
  lemma {:induction false} IslOfInjective(n: int, m: int, shift: int, offset: int, s: int, t: int, s': int, t': int)
    requires n >= 3 && m >= 3
    requires 0 <= s < n * m && 0 <= t < 2 && 0 <= s' < n * m && 0 <= t' < 2
    requires IslOf(n, m, shift, offset, s, t) == IslOf(n, m, shift, offset, s', t')
    ensures s == s' && t == t'
  {
    if t == 0 && t' == 0 {
      OrbitLinkInjective(n, m, offset, s, s');
    } else if t == 1 && t' == 1 {
      CrossLinkInjective(n, m, shift, offset, s, s');
    } else if t == 0 {
      OrbitLinkIsNotCrossLink(n, m, shift, offset, s, s');
    } else {
      OrbitLinkIsNotCrossLink(n, m, shift, offset, s', s);
    }
  }

  /** The links generated for satellite s sit at positions 2 s and 2 s + 1. */
  lemma PlusGridAt(isls: seq<(int, int)>, n: int, m: int, shift: int, offset: int, s: int, t: int)
    requires n > 0 && m > 0 && IsPlusGrid(isls, n, m, shift, offset) && 0 <= s < n * m && 0 <= t < 2
    ensures 0 <= 2 * s + t < |isls| && isls[2 * s + t] == IslOf(n, m, shift, offset, s, t)
  {
  }

  /** The list holds 2 n m links, all different. */
  lemma {:induction false} PlusGridDistinct(isls: seq<(int, int)>, n: int, m: int, shift: int, offset: int)
    requires n >= 3 && m >= 3 && IsPlusGrid(isls, n, m, shift, offset)
    ensures |isls| == 2 * (n * m)
    ensures forall k, k' :: 0 <= k < |isls| && 0 <= k' < |isls| && k != k' ==> isls[k] != isls[k']
  {
    forall k, k' | 0 <= k < |isls| && 0 <= k' < |isls| && isls[k] == isls[k']
      ensures k == k'
    {
      var s, t, s', t' := k / 2, k % 2, k' / 2, k' % 2;
      PlusGridAt(isls, n, m, shift, offset, s, t);
      PlusGridAt(isls, n, m, shift, offset, s', t');
      IslOfInjective(n, m, shift, offset, s, t, s', t');
    }
  }

  /** Every link joins two different satellites, smaller id first, within the offset range. */
  lemma {:induction false} PlusGridLinksInRange(isls: seq<(int, int)>, n: int, m: int, shift: int, offset: int, k: int)
    requires n >= 3 && m >= 3 && IsPlusGrid(isls, n, m, shift, offset) && 0 <= k < |isls|
    ensures offset <= isls[k].0 < isls[k].1 < offset + n * m
  {
    var s, t := k / 2, k % 2;
    PlusGridAt(isls, n, m, shift, offset, s, t);
    OrbitBelow(n, m, s);
    SameOrbitNeighbourPlace(n, m, s);
    AdjacentOrbitNeighbourPlace(n, m, shift, s);
    OneStepAroundRing(n, s / m);
    OneStepAroundRing(m, s % m);
  }

  /** A link does not depend on the order of its ends. */
  lemma LinkSymmetric(offset: int, a: int, b: int)
    ensures Link(offset, a, b) == Link(offset, b, a)
  {
  }

  /** The next satellite of the orbit and the shifted satellite of the next orbit are linked to satellite (i, j). */
  lemma {:induction false} PlusGridNextNeighbours(isls: seq<(int, int)>, n: int, m: int, shift: int, offset: int, i: int, j: int)
    requires n >= 3 && m >= 3 && IsPlusGrid(isls, n, m, shift, offset) && 0 <= i < n && 0 <= j < m
    ensures Link(offset, i * m + j, i * m + (j + 1) % m) in isls
    ensures Link(offset, i * m + j, ((i + 1) % n) * m + (j + shift) % m) in isls
  {
    var s := i * m + j;
    IdBelow(n, m, i, j);
    DecodeSatellite(m, i, j);
    PlusGridAt(isls, n, m, shift, offset, s, 0);
    PlusGridAt(isls, n, m, shift, offset, s, 1);
  }

  /** The previous satellite of the orbit links forward to satellite (i, j). */
  lemma {:induction false} PlusGridPreviousInOrbit(isls: seq<(int, int)>, n: int, m: int, shift: int, offset: int, i: int, j: int)
    requires n >= 3 && m >= 3 && IsPlusGrid(isls, n, m, shift, offset) && 0 <= i < n && 0 <= j < m
    ensures Link(offset, i * m + j, i * m + (j - 1) % m) in isls
  {
    var p := i * m + (j - 1) % m;
    IdBelow(n, m, i, (j - 1) % m);
    DecodeSatellite(m, i, (j - 1) % m);
    RingPredecessor(m, j, 1);
    assert SameOrbitNeighbour(m, p) == i * m + j;
    PlusGridAt(isls, n, m, shift, offset, p, 0);
    LinkSymmetric(offset, p, i * m + j);
  }

  /** The shifted satellite of the previous orbit links across to satellite (i, j). */
  lemma {:induction false} PlusGridPreviousOrbit(isls: seq<(int, int)>, n: int, m: int, shift: int, offset: int, i: int, j: int)
    requires n >= 3 && m >= 3 && IsPlusGrid(isls, n, m, shift, offset) && 0 <= i < n && 0 <= j < m
    ensures Link(offset, i * m + j, ((i - 1) % n) * m + (j - shift) % m) in isls
  {
    var q := ((i - 1) % n) * m + (j - shift) % m;
    IdBelow(n, m, (i - 1) % n, (j - shift) % m);
    DecodeSatellite(m, (i - 1) % n, (j - shift) % m);
    RingPredecessor(n, i, 1);
    RingPredecessor(m, j, shift);
    assert AdjacentOrbitNeighbour(n, m, shift, q) == i * m + j;
    PlusGridAt(isls, n, m, shift, offset, q, 1);
    LinkSymmetric(offset, q, i * m + j);
  }

  /** Stepping back by d and then forward by d around a ring returns to x. */
  lemma RingPredecessor(k: int, x: int, d: int)
    requires k > 0 && 0 <= x < k
    ensures ((x - d) % k + d) % k == x
  {
    var q := (x - d) / k;
    var r := (x - d) % k;
    assert x - d == q * k + r;
    DivModUnique(r + d, k, -q, x);
  }

  // ---------------------------------------------------------------- the ISL file

  /** The line written for a link: its two ids separated by a space. */
  function IslLine(isl: (int, int)): string
  {
    IntToString(isl.0) + " " + IntToString(isl.1)
  }

  lemma IntToStringHasNoSpace(i: int)
    ensures Free(IntToString(i), ' ')
  {
    var d := NatToString(if i < 0 then -i else i);
    assert forall k :: 0 <= k < |d| ==> IsDigit(d[k]);
  }

  /** Splitting a written line at the space and reading both parts gives the link back. */
  lemma IslLineReadsBack(isl: (int, int))
    ensures |Split(IslLine(isl), ' ')| == 2
    ensures ParseInt(Split(IslLine(isl), ' ')[0]) == Some(isl.0)
    ensures ParseInt(Split(IslLine(isl), ' ')[1]) == Some(isl.1)
  {
    var parts := [IntToString(isl.0), IntToString(isl.1)];
    IntToStringHasNoSpace(isl.0);
    IntToStringHasNoSpace(isl.1);
    assert Join(parts, ' ') == IslLine(isl) by {
      assert parts[1..] == [IntToString(isl.1)];
    }
    SplitJoin(parts, ' ');
    ParseIntOfIntToString(isl.0);
    ParseIntOfIntToString(isl.1);
  }
}
