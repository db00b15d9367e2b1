/**
 * GslIfBandwidthHelper: loads gsl_if_bandwidth_<t>.txt and sets the data
 * rate of each named GSL interface to the nominal GSL rate times the given
 * fraction, then schedules the next load.
 */
module GslIfBandwidthHelpers {
  import opened Outcomes
  import opened PyText
  import ArbiterSingleForwardHelpers

  /** The net device behind an interface (index 0 is the loop-back device). */
  datatype DeviceKind = GslNetDevice | OtherNetDevice

  /** One parsed line: node id, interface id and bandwidth fraction. */
  datatype BandwidthLine = BandwidthLine(nodeId: int, ifId: int, fraction: real)

  datatype BandwidthError =
    | NegativeValue              // parse_positive_int64 / parse_positive_double throw on a negative value
    | BandwidthFileMissing
    | InvalidNodeId
    | InvalidInterface
    | NotAGslDevice

  /** The rate a line sets, in Mbit/s: the product goes through `std::to_string`, so it keeps six decimals. */
  function LineRate(nominalMbps: real, fraction: real): (r: real)
    ensures -0.0000005 <= r - nominalMbps * fraction <= 0.0000005
  {
    Fixed6(nominalMbps * fraction)
  }

  /**
   * `std::to_string`'s `"%f"` rounds the product to six decimals with an
   * exact tie going to the even millionth, and that rule fixes the rate.
   */
  lemma LineRateRounds(nominalMbps: real, fraction: real, v: real)
    ensures SixDecimalRounding(nominalMbps * fraction, LineRate(nominalMbps, fraction))
    ensures SixDecimalRounding(nominalMbps * fraction, v) ==> LineRate(nominalMbps, fraction) == v
  {
    Fixed6Rounds(nominalMbps * fraction, v);
  }

  /** No field of a line is negative: the three fields are read with parse_positive_*. */
  predicate NonNegativeFields(l: BandwidthLine)
  {
    l.nodeId >= 0 && l.ifId >= 0 && l.fraction >= 0.0
  }

  /** The checks of one line against the nodes' devices, in the order UpdateGslIfBandwidth checks them. */
  function CheckLine(devices: seq<seq<DeviceKind>>, l: BandwidthLine): (r: Outcome<BandwidthError>)
    ensures r == Pass <==>
              NonNegativeFields(l) && l.nodeId < |devices| && l.ifId + 1 < |devices[l.nodeId]|
              && devices[l.nodeId][1 + l.ifId] == GslNetDevice
    ensures r == Fail(NegativeValue) <==> !NonNegativeFields(l)
    ensures r == Fail(InvalidNodeId) <==> NonNegativeFields(l) && l.nodeId >= |devices|
  {
    if !NonNegativeFields(l) then Fail(NegativeValue)
    else if l.nodeId >= |devices| then Fail(InvalidNodeId)
    else if l.ifId + 1 >= |devices[l.nodeId]| then Fail(InvalidInterface)
    else if devices[l.nodeId][1 + l.ifId] != GslNetDevice then Fail(NotAGslDevice)
    else Pass
  }

  /** Rates shaped like the devices: one rate per net device of every node. */
  predicate Shaped(rates: seq<seq<real>>, devices: seq<seq<DeviceKind>>)
  {
    |rates| == |devices| && forall n :: 0 <= n < |devices| ==> |rates[n]| == |devices[n]|
  }

  /** The rates after applying the lines in order. */
  function ApplyRates(rates: seq<seq<real>>, devices: seq<seq<DeviceKind>>, nominalMbps: real, lines: seq<BandwidthLine>): (r: seq<seq<real>>)
    requires Shaped(rates, devices)
    requires forall k :: 0 <= k < |lines| ==> CheckLine(devices, lines[k]) == Pass
    ensures Shaped(r, devices)
    decreases |lines|
  {
    if |lines| == 0 then rates
    else
      var prev := ApplyRates(rates, devices, nominalMbps, lines[..|lines| - 1]);
      var l := lines[|lines| - 1];
      assert CheckLine(devices, l) == Pass;
      prev[l.nodeId := prev[l.nodeId][1 + l.ifId := LineRate(nominalMbps, l.fraction)]]
  }

  /** The rate the last line naming device (n, d) set, or the old rate when no line names it. */
  function LastRate(oldRate: real, nominalMbps: real, lines: seq<BandwidthLine>, n: int, d: int): real
  {
    if |lines| == 0 then oldRate
    else if lines[|lines| - 1].nodeId == n && 1 + lines[|lines| - 1].ifId == d then LineRate(nominalMbps, lines[|lines| - 1].fraction)
    else LastRate(oldRate, nominalMbps, lines[..|lines| - 1], n, d)
  }

  /** Only the named interfaces change, each to the rate of the last line naming it. */
  lemma {:induction false} ApplyRatesLastLineWins(rates: seq<seq<real>>, devices: seq<seq<DeviceKind>>, nominalMbps: real, lines: seq<BandwidthLine>, n: int, d: int)
    requires Shaped(rates, devices)
    requires forall k :: 0 <= k < |lines| ==> CheckLine(devices, lines[k]) == Pass
    requires 0 <= n < |devices| && 0 <= d < |devices[n]|
    ensures ApplyRates(rates, devices, nominalMbps, lines)[n][d] == LastRate(rates[n][d], nominalMbps, lines, n, d)
    decreases |lines|
  {
    if |lines| > 0 {
      ApplyRatesLastLineWins(rates, devices, nominalMbps, lines[..|lines| - 1], n, d);
    }
  }

  /** No line ever names the loop-back device, so its rate never changes. */
  lemma {:induction false} LoopbackRateUnchanged(rates: seq<seq<real>>, devices: seq<seq<DeviceKind>>, nominalMbps: real, lines: seq<BandwidthLine>, n: int)
    requires Shaped(rates, devices)
    requires forall k :: 0 <= k < |lines| ==> CheckLine(devices, lines[k]) == Pass
    requires 0 <= n < |devices| && 0 < |devices[n]|
    ensures ApplyRates(rates, devices, nominalMbps, lines)[n][0] == rates[n][0]
    decreases |lines|
  {
    if |lines| > 0 {
      LoopbackRateUnchanged(rates, devices, nominalMbps, lines[..|lines| - 1], n);
    }
  }

  /** The first failing check among the lines, if any. */
  function FirstLineError(devices: seq<seq<DeviceKind>>, lines: seq<BandwidthLine>): (r: Option<BandwidthError>)
    ensures r.None? <==> forall k :: 0 <= k < |lines| ==> CheckLine(devices, lines[k]) == Pass
  {
    if |lines| == 0 then None
    else if CheckLine(devices, lines[0]).Fail? then Some(CheckLine(devices, lines[0]).error)
    else
      assert forall k :: 1 <= k < |lines| ==> lines[k] == lines[1..][k - 1];
      FirstLineError(devices, lines[1..])
  }

  lemma {:induction false} FirstLineErrorAt(devices: seq<seq<DeviceKind>>, lines: seq<BandwidthLine>, k: int)
    requires 0 <= k < |lines|
    requires forall a :: 0 <= a < k ==> CheckLine(devices, lines[a]) == Pass
    requires CheckLine(devices, lines[k]).Fail?
    ensures FirstLineError(devices, lines) == Some(CheckLine(devices, lines[k]).error)
    decreases k
  {
    if k > 0 {
      FirstLineErrorAt(devices, lines[1..], k - 1);
    }
  }

  class GslIfBandwidthHelper {
    const gslDataRateMbps: real
    const intervalNs: int
    /** The kind of every node's net devices, and the data rate each one currently has. */
    const devices: seq<seq<DeviceKind>>
    var dataRates: seq<seq<real>>

    predicate Valid()
      reads this
    {
      Shaped(dataRates, devices)
    }

    /** The fields the C++ constructor sets before its first update. */
    constructor (nominalMbps: real, interval: int, kinds: seq<seq<DeviceKind>>, initialRates: seq<seq<real>>)
      requires Shaped(initialRates, kinds)
      ensures Valid() && gslDataRateMbps == nominalMbps && intervalNs == interval
      ensures devices == kinds && dataRates == initialRates
    {
      gslDataRateMbps := nominalMbps;
      intervalNs := interval;
      devices := kinds;
      dataRates := initialRates;
    }

    /**
     * UpdateGslIfBandwidth (t): a missing file throws; each line is checked
     * and sets the rate of its interface; the first bad line aborts.  On
     * success the result is the time of the next update, if one is scheduled.
     */
    method UpdateGslIfBandwidth(t: int, file: Option<seq<BandwidthLine>>, forceStatic: bool, endNs: int)
      returns (r: Result<Option<int>, BandwidthError>)
      requires Valid()
      modifies this
      ensures Valid()
      ensures file.None? ==> r == Err(BandwidthFileMissing) && dataRates == old(dataRates)
      ensures file.Some? && FirstLineError(devices, file.value).Some? ==> r == Err(FirstLineError(devices, file.value).value)
      ensures file.Some? && FirstLineError(devices, file.value).None? ==>
                r == Ok(ArbiterSingleForwardHelpers.NextUpdate(t, intervalNs, forceStatic, endNs))
                && dataRates == ApplyRates(old(dataRates), devices, gslDataRateMbps, file.value)
    {
      if file.None? {
        return Err(BandwidthFileMissing);
      }
      var lines := file.value;
      var lineCounter := 0;
      while lineCounter < |lines|
        invariant 0 <= lineCounter <= |lines| && Valid()
        invariant forall a :: 0 <= a < lineCounter ==> CheckLine(devices, lines[a]) == Pass
        invariant dataRates == ApplyRates(old(dataRates), devices, gslDataRateMbps, lines[..lineCounter])
      {
        var l := lines[lineCounter];
        if l.nodeId < 0 || l.ifId < 0 || l.fraction < 0.0 {
          FirstLineErrorAt(devices, lines, lineCounter);
          return Err(NegativeValue);
        }
        if l.nodeId >= |devices| {
          FirstLineErrorAt(devices, lines, lineCounter);
          return Err(InvalidNodeId);
        }
        if l.ifId + 1 >= |devices[l.nodeId]| {
          FirstLineErrorAt(devices, lines, lineCounter);
          return Err(InvalidInterface);
        }
        if devices[l.nodeId][1 + l.ifId] != GslNetDevice {
          FirstLineErrorAt(devices, lines, lineCounter);
          return Err(NotAGslDevice);
        }
        dataRates := dataRates[l.nodeId := dataRates[l.nodeId][1 + l.ifId := LineRate(gslDataRateMbps, l.fraction)]];
        assert lines[..lineCounter + 1][..lineCounter] == lines[..lineCounter];
        lineCounter := lineCounter + 1;
      }
      assert lines[..lineCounter] == lines;
      return Ok(ArbiterSingleForwardHelpers.NextUpdate(t, intervalNs, forceStatic, endNs));
    }
  }

  /**
   * The C++ constructor as a whole: the GSL data rate and then the
   * update interval are read (a negative value throws), then the rates for
   * t = 0 are loaded, which can throw or abort as UpdateGslIfBandwidth does.
   * On success the result is the helper and the time of the next update,
   * if one is scheduled.
   */
  method NewGslIfBandwidthHelper(nominalMbps: real, interval: int, kinds: seq<seq<DeviceKind>>, initialRates: seq<seq<real>>,
                                 file0: Option<seq<BandwidthLine>>, forceStatic: bool, endNs: int)
    returns (r: Result<(GslIfBandwidthHelper, Option<int>), BandwidthError>)
    requires Shaped(initialRates, kinds)
    ensures nominalMbps < 0.0 || interval < 0 ==> r == Err(NegativeValue)
    ensures nominalMbps >= 0.0 && interval >= 0 && file0.None? ==> r == Err(BandwidthFileMissing)
    ensures nominalMbps >= 0.0 && interval >= 0 && file0.Some? && FirstLineError(kinds, file0.value).Some? ==>
              r == Err(FirstLineError(kinds, file0.value).value)
    ensures nominalMbps >= 0.0 && interval >= 0 && file0.Some? && FirstLineError(kinds, file0.value).None? ==>
              && r.Ok? && fresh(r.value.0) && r.value.0.Valid()
              && r.value.0.gslDataRateMbps == nominalMbps && r.value.0.intervalNs == interval && r.value.0.devices == kinds
              && r.value.0.dataRates == ApplyRates(initialRates, kinds, nominalMbps, file0.value)
              && r.value.1 == ArbiterSingleForwardHelpers.NextUpdate(0, interval, forceStatic, endNs)
  {
    if nominalMbps < 0.0 || interval < 0 {
      return Err(NegativeValue);
    }
    var helper := new GslIfBandwidthHelper(nominalMbps, interval, kinds, initialRates);
    var first := helper.UpdateGslIfBandwidth(0, file0, forceStatic, endNs);
    if first.Err? {
      return Err(first.error);
    }
    return Ok((helper, first.value));
  }
}
