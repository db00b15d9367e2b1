/**
 * TLE files generated from scratch: a header "<orbits> <satellites per
 * orbit>", then per satellite (in id order) a name line "<constellation>
 * <id>" and the two TLE lines, each 68 characters followed by its checksum
 * digit.  The checksum of a line is the sum of its digits, plus one per
 * '-', modulo 10.
 */
module Tles {
  import opened Outcomes
  import opened PyText

  datatype TleError =
    | ChecksumInputLength    // calculate_tle_line_checksum given other than 68 characters
    | Line1ChecksumFailed
    | Line2ChecksumFailed
    | DivisionByZero         // the phase shift 360.0 / (num_sats_per_orbit * 2.0) of an odd orbit

  // ---------------------------------------------------------------- the checksum

  /** What one character adds to the checksum sum. */
  function CharWeight(c: char): (w: nat)
    ensures w < 10
  {
    if IsDigit(c) then DigitValue(c) else if c == '-' then 1 else 0
  }

  /** The sum of the character weights of s. */
  function CharSum(s: string): nat
  {
    if |s| == 0 then 0 else CharSum(s[..|s| - 1]) + CharWeight(s[|s| - 1])
  }

  function Checksum(s: string): (c: nat)
    ensures c < 10
  {
    CharSum(s) % 10
  }

  /** calculate_tle_line_checksum: raises unless the line has exactly 68 characters. */
  method CalculateTleLineChecksum(line: string) returns (r: Result<nat, TleError>)
    ensures |line| != 68 ==> r == Err(ChecksumInputLength)
    ensures |line| == 68 ==> r == Ok(Checksum(line))
    ensures r.Ok? ==> r.value < 10
  {
    if |line| != 68 {
      return Err(ChecksumInputLength);
    }
    var s := 0;
    var i := 0;
    while i < |line|
      invariant 0 <= i <= |line| && s == CharSum(line[..i])
    {
      assert line[..i + 1][..i] == line[..i];
      if IsDigit(line[i]) {
        s := s + DigitValue(line[i]);
      }
      if line[i] == '-' {
        s := s + 1;
      }
      i := i + 1;
    }
    assert line[..i] == line;
    return Ok(s % 10);
  }

  /** Replacing character i of s by c replaces its weight in the sum. */
  lemma {:induction false} CharSumUpdate(s: string, i: nat, c: char)
    requires i < |s|
    ensures CharSum(s[i := c]) + CharWeight(s[i]) == CharSum(s) + CharWeight(c)
    decreases |s|
  {
    var t := s[i := c];
    if i < |s| - 1 {
      assert t[..|t| - 1] == s[..|s| - 1][i := c];
      CharSumUpdate(s[..|s| - 1], i, c);
    } else {
      assert t[..|t| - 1] == s[..|s| - 1];
    }
  }

  /** The checksum detects every change of a single digit into another digit. */
  lemma ChecksumDetectsDigitChange(s: string, i: nat, c: char)
    requires i < |s| && IsDigit(s[i]) && IsDigit(c) && c != s[i]
    ensures Checksum(s[i := c]) != Checksum(s)
  {
    CharSumUpdate(s, i, c);
    var a, b := CharSum(s[i := c]), CharSum(s);
    var d := DigitValue(c) - DigitValue(s[i]);
    assert a == b + d && d != 0 && -10 < d < 10;
  }

  /** A TLE line as the readers accept it: 69 characters, the last the checksum of the first 68. */
  predicate TleLineValid(line: string)
  {
    |line| == 69 && IsDigit(line[68]) && Checksum(line[..68]) == DigitValue(line[68])
  }

  /** `line + str(checksum(line))`. */
  function WithChecksum(line: string): string
  {
    line + NatToString(Checksum(line))
  }

  /** A 68-character line with its checksum appended is a valid TLE line. */
  lemma WithChecksumValid(line: string)
    requires |line| == 68
    ensures TleLineValid(WithChecksum(line))
  {
    var l := WithChecksum(line);
    assert NatToString(Checksum(line)) == [DigitChar(Checksum(line))];
    assert l[..68] == line;
  }

  // ---------------------------------------------------------------- "%05d" and str.rjust

  /** `"%05d" % n`: the digits of n, zero-padded to at least five. */
  function Pad05(n: nat): string
  {
    var d := NatToString(n);
    if |d| >= 5 then d else Zeros(5 - |d|) + d
  }

  function Spaces(n: nat): (s: string)
    ensures |s| == n
  {
    if n == 0 then "" else " " + Spaces(n - 1)
  }

  /** `s.rjust(w)`. */
  function RJust(s: string, w: nat): (r: string)
    ensures |r| == if |s| >= w then |s| else w
  {
    if |s| >= w then s else Spaces(w - |s|) + s
  }

  /** `s[k:]`, which is empty when s is shorter than k. */
  function SliceFrom(s: string, k: nat): (r: string)
    ensures |r| == if k <= |s| then |s| - k else 0
  {
    if k <= |s| then s[k..] else ""
  }

  /** `s[:k]`, which is all of s when s is shorter than k. */
  function SliceTo(s: string, k: nat): (r: string)
    ensures |r| == if k <= |s| then k else |s|
  {
    if k <= |s| then s[..k] else s
  }

  lemma {:induction false} NatToStringLong(n: nat, k: nat)
    requires n >= Pow10(k)
    ensures |NatToString(n)| > k
  {
    if k > 0 {
      assert n >= 10;
      NatToStringLong(n / 10, k - 1);
    }
  }

  /** A satellite number is written in five characters exactly when it is below 100000. */
  lemma Pad05Length(n: nat)
    ensures n < 100000 ==> |Pad05(n)| == 5
    ensures n >= 100000 ==> |Pad05(n)| > 5
  {
    assert Pow10(5) == 100000;
    if n < 100000 {
      NatToStringLength(n, 5);
    } else {
      NatToStringLong(n, 5);
    }
  }

  // ---------------------------------------------------------------- the manual lines

  /** The `%`-formatted text of the line-2 columns, produced by the float formatting. */
  datatype Line2Fields = Line2Fields(
    inclination: string,    // "%3.4f" of the inclination in degrees
    raan: string,           // "%3.4f" of the right ascension of the ascending node
    eccentricity: string,   // "%0.7f" of the eccentricity
    argOfPerigee: string,   // "%3.4f" of the argument of perigee
    meanAnomaly: string,    // "%3.4f" of the mean anomaly
    meanMotion: string)     // "%2.8f" of the mean motion in revolutions per day

  /** Line 1 before its checksum: epoch 2000-01-01, no drag, bogus designator. */
  function Line1Body(satnum: nat): string
  {
    "1 " + Pad05(satnum) + "U 00000ABC 00001.00000000  .00000000  00000-0  00000+0 0    0"
  }

  /** Line 2 before its checksum. */
  function Line2Body(satnum: nat, f: Line2Fields): string
  {
    "2 " + Pad05(satnum) + " " + RJust(f.inclination, 8) + " " + RJust(f.raan, 8) + " "
    + SliceFrom(f.eccentricity, 2) + " " + RJust(f.argOfPerigee, 8) + " " + RJust(f.meanAnomaly, 8) + " "
    + RJust(f.meanMotion, 11) + "    0"
  }

  /** Every column fits its width (the eccentricity's seven decimals after "0."). */
  predicate FieldsFit(f: Line2Fields)
  {
    && |f.inclination| <= 8 && |f.raan| <= 8 && |SliceFrom(f.eccentricity, 2)| == 7
    && |f.argOfPerigee| <= 8 && |f.meanAnomaly| <= 8 && |f.meanMotion| <= 11
  }

  /** Line 1 is 68 characters exactly for satellite numbers below 100000. */
  lemma Line1BodyLength(satnum: nat)
    ensures |Line1Body(satnum)| == 68 <==> satnum < 100000
  {
    Pad05Length(satnum);
  }

  /** Line 2 is 68 characters when the number and the columns fit; a longer number always overflows it. */
  lemma Line2BodyLength(satnum: nat, f: Line2Fields)
    ensures satnum < 100000 && FieldsFit(f) ==> |Line2Body(satnum, f)| == 68
    ensures satnum >= 100000 && |SliceFrom(f.eccentricity, 2)| >= 7 ==> |Line2Body(satnum, f)| > 68
  {
    Pad05Length(satnum);
  }

  /** The two TLE lines of satellite number `satnum` as the manual generator forms them. */
  function ManualTle(satnum: nat, f: Line2Fields): (string, string)
  {
    (WithChecksum(Line1Body(satnum)), WithChecksum(Line2Body(satnum, f)))
  }

  /** Both lines of satellite k (number k + 1) reach the checksum with 68 characters. */
  predicate ManualFits(k: nat, f: Line2Fields)
  {
    |Line1Body(k + 1)| == 68 && |Line2Body(k + 1, f)| == 68
  }

  // ---------------------------------------------------------------- the file

  /**
   * The phase shift of orbit 1 divides by `num_sats_per_orbit * 2.0`: with
   * phase_diff set, no satellites per orbit and at least two orbits it
   * raises ZeroDivisionError.
   */
  predicate PhaseShiftDividesByZero(numOrbits: nat, numSatsPerOrbit: nat, phaseDiff: bool)
  {
    phaseDiff && numSatsPerOrbit == 0 && numOrbits >= 2
  }

  function Header(numOrbits: nat, numSatsPerOrbit: nat): string
  {
    NatToString(numOrbits) + " " + NatToString(numSatsPerOrbit)
  }

  function NameLine(constellationName: string, id: nat): string
  {
    constellationName + " " + NatToString(id)
  }

  /** The lines written for the satellites of `tles`, in order: the header, then per satellite its name line and TLE lines. */
  predicate FilePrefix(lines: seq<string>, name: string, n: nat, m: nat, tles: seq<(string, string)>)
  {
    && |lines| == 1 + 3 * |tles|
    && lines[0] == Header(n, m)
    && forall k :: 0 <= k < |tles| ==>
         lines[1 + 3 * k] == NameLine(name, k) && lines[2 + 3 * k] == tles[k].0 && lines[3 + 3 * k] == tles[k].1
  }

  /**
   * The lines of a TLE file: the header, then for satellite k (orbit
   * k / m, slot k % m) its name line and its two TLE lines.
   */
  predicate IsTleFile(lines: seq<string>, name: string, n: nat, m: nat, tles: seq<(string, string)>)
  {
    |tles| == n * m && FilePrefix(lines, name, n, m, tles)
  }

  /** Writing the next satellite's three lines extends the file by that satellite. */
  lemma {:induction false} FilePrefixStep(lines: seq<string>, name: string, n: nat, m: nat, tles: seq<(string, string)>, tle: (string, string))
    requires FilePrefix(lines, name, n, m, tles)
    ensures FilePrefix(lines + [NameLine(name, |tles|), tle.0, tle.1], name, n, m, tles + [tle])
  {
    var lines', tles' := lines + [NameLine(name, |tles|), tle.0, tle.1], tles + [tle];
    forall k | 0 <= k < |tles'|
      ensures lines'[1 + 3 * k] == NameLine(name, k) && lines'[2 + 3 * k] == tles'[k].0 && lines'[3 + 3 * k] == tles'[k].1
    {
      if k < |tles| {
        assert tles'[k] == tles[k];
      }
    }
  }

  /** The manual generator's lines of satellites 0 .. count-1, each of which fits. */
  predicate ManualUpTo(tles: seq<(string, string)>, fields: seq<Line2Fields>, count: nat)
  {
    |tles| == count <= |fields| && forall k :: 0 <= k < count ==> ManualFits(k, fields[k]) && tles[k] == ManualTle(k + 1, fields[k])
  }

  lemma ManualUpToStep(tles: seq<(string, string)>, fields: seq<Line2Fields>, count: nat)
    requires ManualUpTo(tles, fields, count) && count < |fields| && ManualFits(count, fields[count])
    ensures ManualUpTo(tles + [ManualTle(count + 1, fields[count])], fields, count + 1)
  {
  }

  /** The manual generator's TLE lines, satellite by satellite. */
  predicate ManualTles(tles: seq<(string, string)>, fields: seq<Line2Fields>)
  {
    |tles| == |fields| && forall k :: 0 <= k < |fields| ==> tles[k] == ManualTle(k + 1, fields[k])
  }

  /**
   * generate_tles_from_scratch_manual, with the float columns already
   * formatted: `fields[k]` holds those of satellite k.  The phase shift of
   * orbit 1 raises when it divides by zero; otherwise the checksum raises
   * at the first satellite whose line is not 68 characters long.
   */
  method GenerateTlesFromScratchManual(name: string, numOrbits: nat, numSatsPerOrbit: nat, phaseDiff: bool, fields: seq<Line2Fields>)
    returns (r: Result<seq<string>, TleError>)
    requires |fields| == numOrbits * numSatsPerOrbit
    ensures r.Err? <==> PhaseShiftDividesByZero(numOrbits, numSatsPerOrbit, phaseDiff)
                        || exists k :: 0 <= k < |fields| && !ManualFits(k, fields[k])
    ensures r.Err? ==> r.error == if PhaseShiftDividesByZero(numOrbits, numSatsPerOrbit, phaseDiff) then DivisionByZero
                                  else ChecksumInputLength
    ensures r.Ok? ==> exists tles :: ManualTles(tles, fields) && IsTleFile(r.value, name, numOrbits, numSatsPerOrbit, tles)
  {
    var lines := [Header(numOrbits, numSatsPerOrbit)];
    ghost var tles: seq<(string, string)> := [];
    var orbit := 0;
    while orbit < numOrbits
      invariant 0 <= orbit <= numOrbits
      invariant phaseDiff && numSatsPerOrbit == 0 ==> orbit <= 1
      invariant ManualUpTo(tles, fields, orbit * numSatsPerOrbit) && FilePrefix(lines, name, numOrbits, numSatsPerOrbit, tles)
    {
      if orbit % 2 == 1 && phaseDiff && numSatsPerOrbit == 0 {
        return Err(DivisionByZero);
      }
      var next;
      next, tles := ManualOrbit(name, numOrbits, numSatsPerOrbit, orbit, fields, lines, tles);
      if next.Err? {
        return Err(next.error);
      }
      lines := next.value;
      orbit := orbit + 1;
    }
    assert |tles| == |fields|;
    assert ManualTles(tles, fields);
    return Ok(lines);
  }

  /**
   * One round of the manual generator's orbit loop: the satellites of
   * `orbit`, numbered on from `satellite_counter`, appended in slot order.
   * The result carries the written lines; the ghost `tles` the TLE pairs
   * written so far.
   */
  method ManualOrbit(name: string, numOrbits: nat, numSatsPerOrbit: nat, orbit: nat, fields: seq<Line2Fields>,
                     lines0: seq<string>, ghost tles0: seq<(string, string)>)
    returns (r: Result<seq<string>, TleError>, ghost tles: seq<(string, string)>)
    requires orbit < numOrbits && |fields| == numOrbits * numSatsPerOrbit
    requires ManualUpTo(tles0, fields, orbit * numSatsPerOrbit) && FilePrefix(lines0, name, numOrbits, numSatsPerOrbit, tles0)
    ensures r.Err? ==> numSatsPerOrbit > 0 && r.error == ChecksumInputLength
                       && exists k :: 0 <= k < |fields| && !ManualFits(k, fields[k])
    ensures r.Ok? ==> ManualUpTo(tles, fields, (orbit + 1) * numSatsPerOrbit)
                      && FilePrefix(r.value, name, numOrbits, numSatsPerOrbit, tles)
  {
    var lines := lines0;
    tles := tles0;
    var satelliteCounter := orbit * numSatsPerOrbit;
    var nSat := 0;
    while nSat < numSatsPerOrbit
      invariant 0 <= nSat <= numSatsPerOrbit && satelliteCounter == orbit * numSatsPerOrbit + nSat
      invariant ManualUpTo(tles, fields, satelliteCounter) && FilePrefix(lines, name, numOrbits, numSatsPerOrbit, tles)
    {
      SatelliteBelowCount(numOrbits, numSatsPerOrbit, orbit, nSat);
      var f := fields[satelliteCounter];
      var tleLine1 := Line1Body(satelliteCounter + 1);
      var tleLine2 := Line2Body(satelliteCounter + 1, f);
      var c1 := CalculateTleLineChecksum(tleLine1);
      if c1.Err? {
        assert !ManualFits(satelliteCounter, fields[satelliteCounter]);
        return Err(c1.error), tles;
      }
      var c2 := CalculateTleLineChecksum(tleLine2);
      if c2.Err? {
        assert !ManualFits(satelliteCounter, fields[satelliteCounter]);
        return Err(c2.error), tles;
      }
      tleLine1 := tleLine1 + NatToString(c1.value);
      tleLine2 := tleLine2 + NatToString(c2.value);
      FilePrefixStep(lines, name, numOrbits, numSatsPerOrbit, tles, (tleLine1, tleLine2));
      ManualUpToStep(tles, fields, satelliteCounter);
      lines := lines + [name + " " + NatToString(orbit * numSatsPerOrbit + nSat), tleLine1, tleLine2];
      tles := tles + [(tleLine1, tleLine2)];
      satelliteCounter := satelliteCounter + 1;
      nSat := nSat + 1;
    }
    assert orbit * numSatsPerOrbit + numSatsPerOrbit == (orbit + 1) * numSatsPerOrbit;
    return Ok(lines), tles;
  }

  /** Satellite (orbit, nSat) comes before the last satellite. */
  lemma SatelliteBelowCount(n: nat, m: nat, orbit: nat, nSat: nat)
    requires orbit < n && nSat < m
    ensures orbit * m + nSat < n * m
  {
    var e := n - orbit;
    assert e * m >= m by {
      assert e * m == (e - 1) * m + m;
      assert (e - 1) * m >= 0;
    }
    assert n * m == e * m + orbit * m;
  }

  /** Every line of a successfully generated file is a valid TLE line. */
  lemma ManualLinesValid(tles: seq<(string, string)>, fields: seq<Line2Fields>, k: nat)
    requires ManualTles(tles, fields) && k < |fields| && ManualFits(k, fields[k])
    ensures TleLineValid(tles[k].0) && TleLineValid(tles[k].1)
  {
    WithChecksumValid(Line1Body(k + 1));
    WithChecksumValid(Line2Body(k + 1, fields[k]));
  }

  // ---------------------------------------------------------------- the SGP4-exported lines

  /** The exported line 1 with the designator and the epoch replaced, cut to 68 characters. */
  function RewrittenLine1Body(exported: string): string
  {
    SliceTo(SliceTo(exported, 7) + "U 00000ABC 00001.00000000 " + SliceFrom(exported, 33), 68)
  }

  /** What repairing the exported lines of one satellite fails with, if anything. */
  function RepairFailure(exported: (string, string)): Option<TleError>
  {
    if |RewrittenLine1Body(exported.0)| != 68 then Some(ChecksumInputLength)
    else if !TleLineValid(exported.1) then Some(Line2ChecksumFailed)
    else None
  }

  /**
   * The repair of one satellite in generate_tles_from_scratch_with_sgp:
   * line 1 gets its own designator, epoch and checksum; both lines must then
   * be valid TLE lines, else it raises.
   */
  method RepairExportedTle(line1: string, line2: string) returns (r: Result<(string, string), TleError>)
    ensures RepairFailure((line1, line2)).Some? ==> r == Err(RepairFailure((line1, line2)).value)
    ensures RepairFailure((line1, line2)).None? ==> r == Ok((WithChecksum(RewrittenLine1Body(line1)), line2))
    ensures r.Ok? ==> TleLineValid(r.value.0) && TleLineValid(r.value.1)
  {
    var body := RewrittenLine1Body(line1);
    var c := CalculateTleLineChecksum(body);
    if c.Err? {
      return Err(c.error);
    }
    var tleLine1 := body + NatToString(c.value);
    var tleLine2 := line2;
    WithChecksumValid(body);
    if |tleLine1| != 69 || !IsDigit(tleLine1[68]) {
      return Err(Line1ChecksumFailed);
    }
    var c1 := CalculateTleLineChecksum(tleLine1[..68]);
    if c1.Err? || c1.value != DigitValue(tleLine1[68]) {
      return Err(Line1ChecksumFailed);
    }
    if |tleLine2| != 69 || !IsDigit(tleLine2[68]) {
      return Err(Line2ChecksumFailed);
    }
    var c2 := CalculateTleLineChecksum(tleLine2[..68]);
    if c2.Err? || c2.value != DigitValue(tleLine2[68]) {
      return Err(Line2ChecksumFailed);
    }
    return Ok((tleLine1, tleLine2));
  }

  /** An exported line 1 of at least 68 characters always gives a 68-character body. */
  lemma RewrittenLine1BodyLength(exported: string)
    requires |exported| >= 68
    ensures |RewrittenLine1Body(exported)| == 68
  {
  }

  /** The SGP4 variant's TLE lines of satellites 0 .. count-1, each of which was repaired. */
  predicate SgpUpTo(tles: seq<(string, string)>, exported: seq<(string, string)>, count: nat)
  {
    |tles| == count <= |exported|
    && forall k :: 0 <= k < count ==>
         RepairFailure(exported[k]).None? && tles[k] == (WithChecksum(RewrittenLine1Body(exported[k].0)), exported[k].1)
  }

  lemma SgpUpToStep(tles: seq<(string, string)>, exported: seq<(string, string)>, count: nat, tle: (string, string))
    requires SgpUpTo(tles, exported, count) && count < |exported| && RepairFailure(exported[count]).None?
    requires tle == (WithChecksum(RewrittenLine1Body(exported[count].0)), exported[count].1)
    ensures SgpUpTo(tles + [tle], exported, count + 1)
  {
  }

  /**
   * generate_tles_from_scratch_with_sgp, with the lines SGP4 exports for
   * satellite k given as `exported[k]`.  The phase shift of orbit 1 raises
   * when it divides by zero; otherwise it raises at the first satellite
   * whose lines cannot be repaired.
   */
  method GenerateTlesFromScratchWithSgp(name: string, numOrbits: nat, numSatsPerOrbit: nat, phaseDiff: bool,
                                        exported: seq<(string, string)>)
    returns (r: Result<seq<string>, TleError>)
    requires |exported| == numOrbits * numSatsPerOrbit
    ensures r.Err? <==> PhaseShiftDividesByZero(numOrbits, numSatsPerOrbit, phaseDiff)
                        || exists k :: 0 <= k < |exported| && RepairFailure(exported[k]).Some?
    ensures PhaseShiftDividesByZero(numOrbits, numSatsPerOrbit, phaseDiff) ==> r == Err(DivisionByZero)
    ensures r.Err? && !PhaseShiftDividesByZero(numOrbits, numSatsPerOrbit, phaseDiff) ==>
              exists k :: 0 <= k < |exported| && Some(r.error) == RepairFailure(exported[k])
                          && forall a :: 0 <= a < k ==> RepairFailure(exported[a]).None?
    ensures r.Ok? ==> exists tles :: SgpUpTo(tles, exported, |exported|) && IsTleFile(r.value, name, numOrbits, numSatsPerOrbit, tles)
  {
    var lines := [Header(numOrbits, numSatsPerOrbit)];
    ghost var tles: seq<(string, string)> := [];
    var orbit := 0;
    while orbit < numOrbits
      invariant 0 <= orbit <= numOrbits
      invariant phaseDiff && numSatsPerOrbit == 0 ==> orbit <= 1
      invariant SgpUpTo(tles, exported, orbit * numSatsPerOrbit) && FilePrefix(lines, name, numOrbits, numSatsPerOrbit, tles)
    {
      if orbit % 2 == 1 && phaseDiff && numSatsPerOrbit == 0 {
        return Err(DivisionByZero);
      }
      var next;
      next, tles := SgpOrbit(name, numOrbits, numSatsPerOrbit, orbit, exported, lines, tles);
      if next.Err? {
        return Err(next.error);
      }
      lines := next.value;
      orbit := orbit + 1;
    }
    assert IsTleFile(lines, name, numOrbits, numSatsPerOrbit, tles);
    return Ok(lines);
  }

  /**
   * One round of the SGP4 generator's orbit loop: the satellites of
   * `orbit`, numbered on from `satellite_counter`, appended in slot order.
   * The result carries the written lines; the ghost `tles` the TLE pairs
   * written so far.  It fails at the first satellite whose repair fails.
   */
  method SgpOrbit(name: string, numOrbits: nat, numSatsPerOrbit: nat, orbit: nat, exported: seq<(string, string)>,
                  lines0: seq<string>, ghost tles0: seq<(string, string)>)
    returns (r: Result<seq<string>, TleError>, ghost tles: seq<(string, string)>)
    requires orbit < numOrbits && |exported| == numOrbits * numSatsPerOrbit
    requires SgpUpTo(tles0, exported, orbit * numSatsPerOrbit) && FilePrefix(lines0, name, numOrbits, numSatsPerOrbit, tles0)
    ensures r.Err? ==> numSatsPerOrbit > 0
                       && exists k :: 0 <= k < |exported| && Some(r.error) == RepairFailure(exported[k])
                                      && forall a :: 0 <= a < k ==> RepairFailure(exported[a]).None?
    ensures r.Ok? ==> SgpUpTo(tles, exported, (orbit + 1) * numSatsPerOrbit)
                      && FilePrefix(r.value, name, numOrbits, numSatsPerOrbit, tles)
  {
    var lines := lines0;
    tles := tles0;
    var satelliteCounter := orbit * numSatsPerOrbit;
    var nSat := 0;
    while nSat < numSatsPerOrbit
      invariant 0 <= nSat <= numSatsPerOrbit && satelliteCounter == orbit * numSatsPerOrbit + nSat
      invariant SgpUpTo(tles, exported, satelliteCounter) && FilePrefix(lines, name, numOrbits, numSatsPerOrbit, tles)
    {
      SatelliteBelowCount(numOrbits, numSatsPerOrbit, orbit, nSat);
      var pair := RepairExportedTle(exported[satelliteCounter].0, exported[satelliteCounter].1);
      assert (exported[satelliteCounter].0, exported[satelliteCounter].1) == exported[satelliteCounter];
      if pair.Err? {
        return Err(pair.error), tles;
      }
      FilePrefixStep(lines, name, numOrbits, numSatsPerOrbit, tles, pair.value);
      SgpUpToStep(tles, exported, satelliteCounter, pair.value);
      lines := lines + [name + " " + NatToString(orbit * numSatsPerOrbit + nSat), pair.value.0, pair.value.1];
      tles := tles + [pair.value];
      satelliteCounter := satelliteCounter + 1;
      nSat := nSat + 1;
    }
    assert orbit * numSatsPerOrbit + numSatsPerOrbit == (orbit + 1) * numSatsPerOrbit;
    return Ok(lines), tles;
  }

  /** Every pair of a successful SGP4 run is valid, and line 2 is exported as is. */
  lemma SgpLinesValid(tles: seq<(string, string)>, exported: seq<(string, string)>, k: nat)
    requires SgpUpTo(tles, exported, |exported|) && k < |exported|
    ensures TleLineValid(tles[k].0) && TleLineValid(tles[k].1) && tles[k].1 == exported[k].1
  {
    WithChecksumValid(RewrittenLine1Body(exported[k].0));
  }
}
