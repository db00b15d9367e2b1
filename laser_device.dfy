/**
 * PointToPointLaserNetDevice: the transmit state machine of a laser (ISL)
 * device, its drop-tail queue, the PPP header's protocol numbers and the
 * busy/idle utilization meter.
 */
module LaserNetDevices {
  import opened Outcomes

  datatype TxMachineState = Ready | Busy

  /** A packet: its id, its size, and the PPP protocol number of its header once one is added. */
  datatype Packet = Packet(uid: int, size: nat, pppProtocol: int)

  const ETHER_IPV4: int := 0x0800
  const ETHER_IPV6: int := 0x86DD
  const PPP_IPV4: int := 0x0021
  const PPP_IPV6: int := 0x0057

  /** PppToEther: IPv4 and IPv6 only; any other number is not defined. */
  function PppToEther(proto: int): (r: Option<int>)
    ensures r.Some? <==> proto == PPP_IPV4 || proto == PPP_IPV6
    ensures r.Some? ==> r.value == ETHER_IPV4 || r.value == ETHER_IPV6
  {
    if proto == PPP_IPV4 then Some(ETHER_IPV4)
    else if proto == PPP_IPV6 then Some(ETHER_IPV6)
    else None
  }

  /** EtherToPpp: IPv4 and IPv6 only; any other number is not defined. */
  function EtherToPpp(proto: int): (r: Option<int>)
    ensures r.Some? <==> proto == ETHER_IPV4 || proto == ETHER_IPV6
    ensures r.Some? ==> r.value == PPP_IPV4 || r.value == PPP_IPV6
  {
    if proto == ETHER_IPV4 then Some(PPP_IPV4)
    else if proto == ETHER_IPV6 then Some(PPP_IPV6)
    else None
  }

  /** The two conversions are inverse to each other on every number either one defines. */
  lemma ProtocolConversionsInverse(proto: int)
    ensures EtherToPpp(proto).Some? ==> PppToEther(EtherToPpp(proto).value) == Some(proto)
    ensures PppToEther(proto).Some? ==> EtherToPpp(PppToEther(proto).value) == Some(proto)
  {
  }

  datatype SendError = ProtocolNotDefined

  /** The utilization of a closed interval: its busy time as a fraction of the interval. */
  function IntervalUtilization(busyNs: int, intervalNs: int): (r: real)
    requires 0 <= busyNs <= intervalNs && intervalNs > 0
    ensures 0.0 <= r <= 1.0
    ensures r == 0.0 <==> busyNs == 0
    ensures r == 1.0 <==> busyNs == intervalNs
  {
    busyNs as real / intervalNs as real
  }

  /**
   * The utilization meter of a device: the interval length, the time of the
   * previous state change, the open interval [intervalStart, intervalEnd),
   * the idle and busy time counted in it so far, whether the device is
   * transmitting, and the utilization of every closed interval.
   */
  datatype MeterState = MeterState(
    intervalNs: int, prevTimeNs: int, intervalStart: int, intervalEnd: int,
    idleNs: int, busyNs: int, stateIsOn: bool, utilization: seq<real>)

  predicate Fractions(u: seq<real>)
  {
    forall k :: 0 <= k < |u| ==> 0.0 <= u[k] <= 1.0
  }

  /** The meter's invariant: the open interval accounts for all the time since its start, and closed values are fractions. */
  predicate MeterInvariant(m: MeterState)
  {
    && m.intervalNs > 0
    && m.intervalEnd == m.intervalStart + m.intervalNs
    && m.intervalStart <= m.prevTimeNs < m.intervalEnd
    && m.idleNs >= 0 && m.busyNs >= 0
    && m.idleNs + m.busyNs == m.prevTimeNs - m.intervalStart
    && Fractions(m.utilization)
  }

  /**
   * TrackUtilization at time `now`, when the device is about to switch on
   * (`nextOn`) or off: the time since the previous change was spent in the
   * opposite state; every interval that ends by `now` is closed with its busy
   * fraction, and the rest goes to the open interval.
   */
  function Advance(m: MeterState, nextOn: bool, now: int): (r: MeterState)
    requires MeterInvariant(m) && now >= m.prevTimeNs
    decreases now - m.intervalStart
  {
    if now >= m.intervalEnd then Advance(CloseInterval(m, nextOn), nextOn, now)
    else
      m.(idleNs := if nextOn then m.idleNs + (now - m.prevTimeNs) else m.idleNs,
         busyNs := if nextOn then m.busyNs else m.busyNs + (now - m.prevTimeNs),
         stateIsOn := nextOn, prevTimeNs := now)
  }

  /** The busy time of the open interval once it runs to its end. */
  function BusyAtEnd(m: MeterState, nextOn: bool): int
  {
    if nextOn then m.busyNs else m.busyNs + (m.intervalEnd - m.prevTimeNs)
  }

  /** The busy fraction of the interval the meter closes first, when `now` reaches its end. */
  function FirstClosed(m: MeterState, nextOn: bool): real
    requires MeterInvariant(m)
  {
    IntervalUtilization(BusyAtEnd(m, nextOn), m.intervalNs)
  }

  /** Closing the open interval: its value is appended and the next interval starts empty. */
  function CloseInterval(m: MeterState, nextOn: bool): (r: MeterState)
    requires MeterInvariant(m)
    ensures MeterInvariant(r) && r.intervalNs == m.intervalNs && r.prevTimeNs == m.intervalEnd
    ensures r.intervalStart == m.intervalStart + m.intervalNs
    ensures r.utilization == m.utilization + [FirstClosed(m, nextOn)] && r.busyNs == 0
  {
    m.(utilization := m.utilization + [FirstClosed(m, nextOn)],
       idleNs := 0, busyNs := 0, prevTimeNs := m.intervalEnd,
       intervalStart := m.intervalStart + m.intervalNs,
       intervalEnd := m.intervalEnd + m.intervalNs)
  }

  /**
   * The counters TrackUtilization's loop works on, for an interval of any
   * length, and the number of values it has pushed (the values themselves,
   * 0/0 for an empty interval, are not kept here).
   */
  datatype LoopCounters = LoopCounters(
    prevTimeNs: int, intervalStart: int, intervalEnd: int, idleNs: int, busyNs: int, pushed: nat)

  /** The counters EnableUtilizationTracking sets for interval `intervalNs`. */
  function EnabledCounters(intervalNs: int): LoopCounters
  {
    LoopCounters(0, 0, intervalNs, 0, 0, 0)
  }

  /** The counters of a meter. */
  function CountersOf(m: MeterState): LoopCounters
  {
    LoopCounters(m.prevTimeNs, m.intervalStart, m.intervalEnd, m.idleNs, m.busyNs, |m.utilization|)
  }

  /**
   * One round of the loop as written, for any interval length: the time to
   * the interval end is counted, a value is pushed, the "Not all time is
   * accounted for" abort is checked (None), and the interval moves on.
   */
  function RoundAsWritten(c: LoopCounters, intervalNs: int, nextOn: bool): (r: Option<LoopCounters>)
    ensures r.Some? ==> r.value.intervalEnd == c.intervalEnd + intervalNs && r.value.pushed == c.pushed + 1
  {
    var idle := if nextOn then c.idleNs + (c.intervalEnd - c.prevTimeNs) else c.idleNs;
    var busy := if nextOn then c.busyNs else c.busyNs + (c.intervalEnd - c.prevTimeNs);
    if idle + busy != intervalNs then None
    else Some(LoopCounters(c.intervalEnd, c.intervalStart + intervalNs, c.intervalEnd + intervalNs, 0, 0, c.pushed + 1))
  }

  /** The counters after `k` rounds of the loop as written, or None once a round aborts. */
  function RoundsAsWritten(c: LoopCounters, intervalNs: int, nextOn: bool, k: nat): Option<LoopCounters>
  {
    if k == 0 then Some(c)
    else match RoundsAsWritten(c, intervalNs, nextOn, k - 1)
      case None => None
      case Some(d) => RoundAsWritten(d, intervalNs, nextOn)
  }

  /**
   * With a zero tracking interval the loop never returns: after any number
   * `k` of rounds nothing has aborted, `k` values have been pushed, and the
   * interval end is still 0, so `now >= m_current_interval_end` holds again.
   */
  lemma {:induction false} ZeroIntervalLoopsForeverAsWritten(nextOn: bool, now: int, k: nat)
    requires now >= 0
    ensures RoundsAsWritten(EnabledCounters(0), 0, nextOn, k) == Some(LoopCounters(0, 0, 0, 0, 0, k))
    ensures now >= RoundsAsWritten(EnabledCounters(0), 0, nextOn, k).value.intervalEnd
  {
    if k > 0 {
      ZeroIntervalLoopsForeverAsWritten(nextOn, now, k - 1);
    }
  }

  /** On a meter whose interval is positive, the round as written is CloseInterval and does not abort. */
  lemma RoundAsWrittenIsCloseInterval(m: MeterState, nextOn: bool)
    requires MeterInvariant(m)
    ensures RoundAsWritten(CountersOf(m), m.intervalNs, nextOn) == Some(CountersOf(CloseInterval(m, nextOn)))
  {
  }

  /** After Advance the invariant holds again with `now` in the open interval, and old values are kept. */
  lemma {:induction false} AdvanceShape(m: MeterState, nextOn: bool, now: int)
    requires MeterInvariant(m) && now >= m.prevTimeNs
    ensures var r := Advance(m, nextOn, now);
      && MeterInvariant(r) && r.intervalNs == m.intervalNs
      && r.prevTimeNs == now && r.intervalStart <= now < r.intervalEnd && r.stateIsOn == nextOn
      && |r.utilization| >= |m.utilization| && r.utilization[..|m.utilization|] == m.utilization
      && (|r.utilization| > |m.utilization| <==> now >= m.intervalEnd)
    decreases now - m.intervalStart
  {
    if now >= m.intervalEnd {
      var m' := CloseInterval(m, nextOn);
      AdvanceShape(m', nextOn, now);
      var r := Advance(m', nextOn, now);
      assert r.utilization[..|m.utilization|] == r.utilization[..|m'.utilization|][..|m.utilization|];
    }
  }

  /** Each closed interval moves the bounds by exactly one interval length. */
  lemma {:induction false} AdvanceMovesByIntervals(m: MeterState, nextOn: bool, now: int)
    requires MeterInvariant(m) && now >= m.prevTimeNs
    ensures var r := Advance(m, nextOn, now);
      |r.utilization| >= |m.utilization|
      && r.intervalStart == m.intervalStart + (|r.utilization| - |m.utilization|) * m.intervalNs
    decreases now - m.intervalStart
  {
    if now >= m.intervalEnd {
      var m' := CloseInterval(m, nextOn);
      AdvanceMovesByIntervals(m', nextOn, now);
      var c := |Advance(m', nextOn, now).utilization| - |m'.utilization|;
      assert (c + 1) * m.intervalNs == c * m.intervalNs + m.intervalNs;
    }
  }

  /** The first closed value is the open interval's busy fraction; every later one is all idle or all busy. */
  lemma {:induction false} AdvanceValues(m: MeterState, nextOn: bool, now: int)
    requires MeterInvariant(m) && now >= m.prevTimeNs
    ensures var r := Advance(m, nextOn, now);
      && |r.utilization| >= |m.utilization|
      && (|r.utilization| > |m.utilization| ==> r.utilization[|m.utilization|] == FirstClosed(m, nextOn))
      && (forall k :: |m.utilization| < k < |r.utilization| ==> r.utilization[k] == if nextOn then 0.0 else 1.0)
    decreases now - m.intervalStart
  {
    AdvanceShape(m, nextOn, now);
    if now >= m.intervalEnd {
      var m' := CloseInterval(m, nextOn);
      AdvanceValues(m', nextOn, now);
      AdvanceShape(m', nextOn, now);
      var r := Advance(m', nextOn, now);
      var n := |m.utilization|;
      assert r.utilization[n] == FirstClosed(m, nextOn) by {
        assert r.utilization[..n + 1][n] == m'.utilization[n];
      }
      if |r.utilization| > n + 1 {
        assert r.utilization[n + 1] == FirstClosed(m', nextOn);
        assert BusyAtEnd(m', nextOn) == if nextOn then 0 else m.intervalNs;
      }
    }
  }

  /** The busy time of each interval Advance closes, in order. */
  ghost function ClosedBusy(m: MeterState, nextOn: bool, now: int): seq<int>
    requires MeterInvariant(m) && now >= m.prevTimeNs
    decreases now - m.intervalStart
  {
    if now >= m.intervalEnd then [BusyAtEnd(m, nextOn)] + ClosedBusy(CloseInterval(m, nextOn), nextOn, now) else []
  }

  function Sum(s: seq<int>): int
  {
    if |s| == 0 then 0 else s[0] + Sum(s[1..])
  }

  /** Each value Advance appends is the busy fraction of one closed interval, in order. */
  lemma {:induction false} AdvanceAppendsClosedBusy(m: MeterState, nextOn: bool, now: int)
    requires MeterInvariant(m) && now >= m.prevTimeNs
    ensures var r := Advance(m, nextOn, now);
      var closed := ClosedBusy(m, nextOn, now);
      && |r.utilization| == |m.utilization| + |closed|
      && forall k :: 0 <= k < |closed| ==>
           0 <= closed[k] <= m.intervalNs && r.utilization[|m.utilization| + k] == IntervalUtilization(closed[k], m.intervalNs)
    decreases now - m.intervalStart
  {
    if now >= m.intervalEnd {
      var m' := CloseInterval(m, nextOn);
      AdvanceAppendsClosedBusy(m', nextOn, now);
      AdvanceShape(m', nextOn, now);
      var r := Advance(m', nextOn, now);
      var closed := ClosedBusy(m, nextOn, now);
      var n := |m.utilization|;
      assert closed[1..] == ClosedBusy(m', nextOn, now);
      forall k | 0 <= k < |closed|
        ensures 0 <= closed[k] <= m.intervalNs && r.utilization[n + k] == IntervalUtilization(closed[k], m.intervalNs)
      {
        if k == 0 {
          assert r.utilization[n] == r.utilization[..n + 1][n];
        } else {
          assert closed[k] == ClosedBusy(m', nextOn, now)[k - 1];
        }
      }
    }
  }

  /** No busy time is lost: the busy times of the closed intervals plus the open busy counter are all the busy time since the previous change. */
  lemma {:induction false} AdvanceAccountsForBusyTime(m: MeterState, nextOn: bool, now: int)
    requires MeterInvariant(m) && now >= m.prevTimeNs
    ensures Sum(ClosedBusy(m, nextOn, now)) + Advance(m, nextOn, now).busyNs == m.busyNs + (if nextOn then 0 else now - m.prevTimeNs)
    decreases now - m.intervalStart
  {
    if now >= m.intervalEnd {
      var m' := CloseInterval(m, nextOn);
      AdvanceAccountsForBusyTime(m', nextOn, now);
      assert ClosedBusy(m, nextOn, now)[1..] == ClosedBusy(m', nextOn, now);
    }
  }

  /** TrackUtilization's effect on the meter: nothing while tracking is off. */
  function Track(m: MeterState, enabled: bool, nextOn: bool, now: int): (r: MeterState)
    requires enabled ==> MeterInvariant(m) && now >= m.prevTimeNs
    ensures enabled ==> MeterInvariant(r) && r.prevTimeNs == now
    ensures !enabled ==> r == m
  {
    if enabled then AdvanceShape(m, nextOn, now); Advance(m, nextOn, now) else m
  }

  class PointToPointLaserNetDevice {
    var txMachineState: TxMachineState
    var linkUp: bool
    var currentPkt: Option<Packet>
    /** The device queue and the packet count it holds at most. */
    var queue: seq<Packet>
    const queueCapacity: nat

    var utilizationTrackingEnabled: bool
    var intervalNs: int
    var prevTimeNs: int
    var currentIntervalStart: int
    var currentIntervalEnd: int
    var idleTimeCounterNs: int
    var busyTimeCounterNs: int
    var currentStateIsOn: bool
    var utilization: seq<real>

    /** The meter fields together. */
    function Meter(): MeterState
      reads this
    {
      MeterState(intervalNs, prevTimeNs, currentIntervalStart, currentIntervalEnd,
                 idleTimeCounterNs, busyTimeCounterNs, currentStateIsOn, utilization)
    }

    /** BUSY exactly while a packet is on the wire; the queue never overflows; the meter keeps its invariant. */
    predicate Consistent()
      reads this
    {
      && (txMachineState == Busy <==> currentPkt.Some?)
      && |queue| <= queueCapacity
      && MeterConsistent()
    }

    /** The closed values are fractions, and a tracking meter keeps its invariant. */
    predicate MeterConsistent()
      reads this
    {
      Fractions(utilization) && (utilizationTrackingEnabled ==> MeterInvariant(Meter()))
    }

    /** Between events a READY device has nothing queued. */
    predicate Valid()
      reads this
    {
      Consistent() && (txMachineState == Ready ==> |queue| == 0)
    }

    /** The constructor: READY, link down, no current packet, tracking off. */
    constructor (capacity: nat)
      ensures Valid()
      ensures txMachineState == Ready && !linkUp && currentPkt == None && queue == [] && queueCapacity == capacity
      ensures !utilizationTrackingEnabled && utilization == [] && prevTimeNs == 0
    {
      txMachineState := Ready;
      linkUp := false;
      currentPkt := None;
      queue := [];
      queueCapacity := capacity;
      utilizationTrackingEnabled := false;
      intervalNs := 0;
      prevTimeNs := 0;
      currentIntervalStart := 0;
      currentIntervalEnd := 0;
      idleTimeCounterNs := 0;
      busyTimeCounterNs := 0;
      currentStateIsOn := false;
      utilization := [];
    }

    /** Attach (device side): the device is up once it is attached to a channel. */
    method Attach()
      requires Valid()
      modifies this
      ensures Valid() && linkUp
      ensures txMachineState == old(txMachineState) && currentPkt == old(currentPkt) && queue == old(queue)
      ensures utilizationTrackingEnabled == old(utilizationTrackingEnabled) && Meter() == old(Meter())
    {
      linkUp := true;
    }

    /** EnableUtilizationTracking: a fresh first interval [0, interval); earlier values are kept. */
    method EnableUtilizationTracking(interval: int)
      requires Valid() && interval > 0
      modifies this
      ensures Valid() && utilizationTrackingEnabled
      ensures Meter() == MeterState(interval, 0, 0, interval, 0, 0, false, old(utilization))
      ensures txMachineState == old(txMachineState) && currentPkt == old(currentPkt) && queue == old(queue) && linkUp == old(linkUp)
    {
      utilizationTrackingEnabled := true;
      intervalNs := interval;
      prevTimeNs := 0;
      currentIntervalStart := 0;
      currentIntervalEnd := interval;
      idleTimeCounterNs := 0;
      busyTimeCounterNs := 0;
      currentStateIsOn := false;
    }

    /**
     * TrackUtilization: closes every interval that ends by `now` and counts
     * the rest of the time in the open one; each closed interval has its
     * idle and busy time add up to the interval (TrackUtilization aborts otherwise).
     */
    method TrackUtilization(nextStateIsOn: bool, now: int)
      requires MeterConsistent() && now >= prevTimeNs
      modifies this
      ensures utilizationTrackingEnabled == old(utilizationTrackingEnabled)
      ensures MeterConsistent()
      ensures Meter() == Track(old(Meter()), old(utilizationTrackingEnabled), nextStateIsOn, now)
      ensures utilizationTrackingEnabled ==> prevTimeNs == now
      ensures txMachineState == old(txMachineState) && currentPkt == old(currentPkt) && queue == old(queue) && linkUp == old(linkUp)
    {
      if !utilizationTrackingEnabled {
        return;
      }
      AdvanceShape(Meter(), nextStateIsOn, now);
      while now >= currentIntervalEnd
        invariant MeterInvariant(Meter()) && now >= prevTimeNs
        invariant Advance(Meter(), nextStateIsOn, now) == Advance(old(Meter()), nextStateIsOn, now)
        invariant utilizationTrackingEnabled && txMachineState == old(txMachineState) && currentPkt == old(currentPkt)
        invariant queue == old(queue) && linkUp == old(linkUp)
        decreases now - currentIntervalStart
      {
        CloseOpenInterval(nextStateIsOn);
      }
      ghost var before := Meter();
      if nextStateIsOn {
        idleTimeCounterNs := idleTimeCounterNs + (now - prevTimeNs);
      } else {
        busyTimeCounterNs := busyTimeCounterNs + (now - prevTimeNs);
      }
      currentStateIsOn := nextStateIsOn;
      prevTimeNs := now;
      assert Meter() == Advance(before, nextStateIsOn, now);
    }

    /** One round of TrackUtilization's loop: the open interval is closed with its busy fraction. */
    method CloseOpenInterval(nextStateIsOn: bool)
      requires utilizationTrackingEnabled && MeterInvariant(Meter())
      modifies this
      ensures Meter() == CloseInterval(old(Meter()), nextStateIsOn)
      ensures utilizationTrackingEnabled && txMachineState == old(txMachineState) && currentPkt == old(currentPkt)
      ensures queue == old(queue) && linkUp == old(linkUp)
    {
      ghost var before := Meter();
      if nextStateIsOn {
        idleTimeCounterNs := idleTimeCounterNs + (currentIntervalEnd - prevTimeNs);
      } else {
        busyTimeCounterNs := busyTimeCounterNs + (currentIntervalEnd - prevTimeNs);
      }
      assert idleTimeCounterNs + busyTimeCounterNs == intervalNs;
      assert busyTimeCounterNs == BusyAtEnd(before, nextStateIsOn);
      utilization := utilization + [IntervalUtilization(busyTimeCounterNs, intervalNs)];
      idleTimeCounterNs := 0;
      busyTimeCounterNs := 0;
      prevTimeNs := currentIntervalEnd;
      currentIntervalStart := currentIntervalStart + intervalNs;
      currentIntervalEnd := currentIntervalEnd + intervalNs;
    }

    /** TransmitStart: a READY device becomes BUSY with the packet; the channel's answer is the result. */
    method TransmitStart(p: Packet, now: int, channelAccepts: bool) returns (r: bool)
      requires Consistent() && txMachineState == Ready && now >= prevTimeNs
      modifies this
      ensures utilizationTrackingEnabled == old(utilizationTrackingEnabled)
      ensures Valid()
      ensures txMachineState == Busy && currentPkt == Some(p) && r == channelAccepts
      ensures queue == old(queue) && linkUp == old(linkUp)
      ensures Meter() == Track(old(Meter()), old(utilizationTrackingEnabled), true, now)
      ensures utilizationTrackingEnabled ==> prevTimeNs == now
    {
      txMachineState := Busy;
      currentPkt := Some(p);
      TrackUtilization(true, now);
      r := channelAccepts;
    }

    /**
     * TransmitComplete: a BUSY device becomes READY, then starts the next
     * queued packet if there is one.
     */
    method TransmitComplete(now: int, channelAccepts: bool)
      requires Valid() && txMachineState == Busy && now >= prevTimeNs
      modifies this
      ensures linkUp == old(linkUp) && utilizationTrackingEnabled == old(utilizationTrackingEnabled)
      ensures Valid()
      ensures old(queue) == [] ==>
                txMachineState == Ready && currentPkt == None && queue == []
                && Meter() == Track(old(Meter()), old(utilizationTrackingEnabled), false, now)
      ensures old(queue) != [] ==>
                txMachineState == Busy && currentPkt == Some(old(queue)[0]) && queue == old(queue)[1..]
                && Meter() == Track(Track(old(Meter()), old(utilizationTrackingEnabled), false, now), old(utilizationTrackingEnabled), true, now)
    {
      txMachineState := Ready;
      TrackUtilization(false, now);
      currentPkt := None;
      if queue == [] {
        return;
      }
      var p := queue[0];
      queue := queue[1..];
      var _ := TransmitStart(p, now, channelAccepts);
    }

    /**
     * Send: false when the link is down or the queue is full; otherwise the
     * packet gets its PPP header and is queued, and a READY device starts
     * transmitting it at once.
     */
    method Send(packet: Packet, protocolNumber: int, now: int, channelAccepts: bool) returns (r: Result<bool, SendError>)
      requires Valid() && now >= prevTimeNs
      modifies this
      ensures linkUp == old(linkUp) && utilizationTrackingEnabled == old(utilizationTrackingEnabled)
      ensures Valid()
      ensures !old(linkUp) ==> r == Ok(false) && unchanged(this)
      ensures old(linkUp) && EtherToPpp(protocolNumber).None? ==> r == Err(ProtocolNotDefined) && unchanged(this)
      ensures old(linkUp) && EtherToPpp(protocolNumber).Some? && |old(queue)| >= queueCapacity ==>
                r == Ok(false) && unchanged(this)
      ensures old(linkUp) && EtherToPpp(protocolNumber).Some? && |old(queue)| < queueCapacity && old(txMachineState) == Ready ==>
                var framed := packet.(pppProtocol := EtherToPpp(protocolNumber).value);
                && r == Ok(channelAccepts) && txMachineState == Busy && currentPkt == Some(framed) && queue == []
                && Meter() == Track(old(Meter()), old(utilizationTrackingEnabled), true, now)
      ensures old(linkUp) && EtherToPpp(protocolNumber).Some? && |old(queue)| < queueCapacity && old(txMachineState) == Busy ==>
                var framed := packet.(pppProtocol := EtherToPpp(protocolNumber).value);
                && r == Ok(true) && txMachineState == Busy && currentPkt == old(currentPkt)
                && queue == old(queue) + [framed] && Meter() == old(Meter())
    {
      if !linkUp {
        return Ok(false);
      }
      var ppp := EtherToPpp(protocolNumber);
      if ppp.None? {
        return Err(ProtocolNotDefined);
      }
      var framed := packet.(pppProtocol := ppp.value);
      if |queue| >= queueCapacity {
        return Ok(false);
      }
      queue := queue + [framed];
      if txMachineState == Ready {
        var p := queue[0];
        queue := queue[1..];
        var sent := TransmitStart(p, now, channelAccepts);
        return Ok(sent);
      }
      return Ok(true);
    }

    /** FinalizeUtilization: one last TrackUtilization that flips the state, then the list of closed values. */
    method FinalizeUtilization(now: int) returns (u: seq<real>)
      requires Valid() && now >= prevTimeNs
      modifies this
      ensures utilizationTrackingEnabled == old(utilizationTrackingEnabled)
      ensures Valid()
      ensures Meter() == Track(old(Meter()), old(utilizationTrackingEnabled), !old(currentStateIsOn), now)
      ensures u == utilization && Fractions(u)
      ensures txMachineState == old(txMachineState) && currentPkt == old(currentPkt) && queue == old(queue) && linkUp == old(linkUp)
    {
      TrackUtilization(!currentStateIsOn, now);
      u := utilization;
    }
  }
}
