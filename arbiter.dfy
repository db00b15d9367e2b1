/**
 * The routing arbiters of the satellite network: every node keeps, per
 * destination node, a triple (next node, own interface, next interface).
 * -2 marks an entry that was never set (fatal when used), a next node of -1
 * a drop.
 */
module Arbiters {
  import opened Outcomes

  datatype Triple = Triple(next: int, ownIf: int, nextIf: int)

  /** The entry of the initial forwarding state. */
  const UNSET: Triple := Triple(-2, -2, -2)

  predicate HasUnsetPart(e: Triple)
  {
    e.next == -2 || e.ownIf == -2 || e.nextIf == -2
  }

  /** The decision handed to the IP layer: failed (no route), output interface and gateway address. */
  datatype ArbiterResult = ArbiterResult(failed: bool, outIf: int, gatewayIp: int)

  datatype ArbiterError = InvalidStateNotPermitted | ForwardingStateNotSet

  /**
   * ArbiterSatnet::Decide on the triple the topology decided: an unset part
   * aborts, a drop fails, and a hop leaves on the own interface towards the
   * address of the next node's interface (`gatewayOf`).
   */
  function Classify(e: Triple, gatewayOf: (int, int) -> int): (r: Result<ArbiterResult, ArbiterError>)
    ensures r.Err? <==> HasUnsetPart(e)
    ensures r.Err? ==> r.error == ForwardingStateNotSet
    ensures r.Ok? ==> (r.value.failed <==> e.next == -1)
    ensures r.Ok? && e.next == -1 ==> r.value == ArbiterResult(true, 0, 0)
    ensures r.Ok? && e.next != -1 ==> r.value.outIf == e.ownIf && r.value.gatewayIp == gatewayOf(e.next, e.nextIf)
  {
    if HasUnsetPart(e) then Err(ForwardingStateNotSet)
    else if e.next != -1 then Ok(ArbiterResult(false, e.ownIf, gatewayOf(e.next, e.nextIf)))
    else Ok(ArbiterResult(true, 0, 0))
  }

  /** SetSingleForwardState on a table: a -2 anywhere is refused, otherwise only entry `target` is replaced. */
  function SetEntry(table: seq<Triple>, target: int, e: Triple): (r: Result<seq<Triple>, ArbiterError>)
    requires 0 <= target < |table|
  {
    if HasUnsetPart(e) then Err(InvalidStateNotPermitted) else Ok(table[target := e])
  }

  /** After a successful set, the target's entry is the new triple and every other entry is as before. */
  lemma SetEntryChangesOnlyTarget(table: seq<Triple>, target: int, e: Triple)
    requires 0 <= target < |table|
    ensures SetEntry(table, target, e).Err? <==> HasUnsetPart(e)
    ensures SetEntry(table, target, e).Ok? ==>
              |SetEntry(table, target, e).value| == |table|
              && SetEntry(table, target, e).value[target] == e
              && forall j :: 0 <= j < |table| && j != target ==> SetEntry(table, target, e).value[j] == table[j]
  {
  }

  /** A table entry written by SetEntry is never refused by Decide. */
  lemma SetThenClassify(table: seq<Triple>, target: int, e: Triple, gatewayOf: (int, int) -> int)
    requires 0 <= target < |table| && SetEntry(table, target, e).Ok?
    ensures Classify(SetEntry(table, target, e).value[target], gatewayOf).Ok?
  {
  }

  /** ArbiterSingleForward: the arbiter of one node with its next-hop table. */
  class ArbiterSingleForward {
    const nodeId: int
    var nextHopList: seq<Triple>

    /** The constructor takes the given list as the initial table. */
    constructor (thisNode: int, initialList: seq<Triple>)
      ensures nodeId == thisNode && nextHopList == initialList
    {
      nodeId := thisNode;
      nextHopList := initialList;
    }

    /** TopologySatelliteNetworkDecide: the stored triple of the target; source and packet play no part. */
    function TopologySatelliteNetworkDecide(source: int, target: int, isSocketRequestForSourceIp: bool): (r: Triple)
      requires 0 <= target < |nextHopList|
      reads this
      ensures r in nextHopList
    {
      nextHopList[target]
    }

    /** SetSingleForwardState: aborts on a -2 part, otherwise overwrites the target's entry in place. */
    method SetSingleForwardState(target: int, next: int, ownIf: int, nextIf: int) returns (r: Outcome<ArbiterError>)
      requires 0 <= target < |nextHopList|
      modifies this
      ensures r.Fail? <==> SetEntry(old(nextHopList), target, Triple(next, ownIf, nextIf)).Err?
      ensures r.Fail? ==> r.error == InvalidStateNotPermitted && nextHopList == old(nextHopList)
      ensures r == Pass ==> nextHopList == SetEntry(old(nextHopList), target, Triple(next, ownIf, nextIf)).value
    {
      if next == -2 || ownIf == -2 || nextIf == -2 {
        return Fail(InvalidStateNotPermitted);
      }
      nextHopList := nextHopList[target := Triple(next, ownIf, nextIf)];
      return Pass;
    }

    /** ArbiterSatnet::Decide: the topology's triple for the target, classified. */
    method Decide(source: int, target: int, isSocketRequestForSourceIp: bool, gatewayOf: (int, int) -> int)
      returns (r: Result<ArbiterResult, ArbiterError>)
      requires 0 <= target < |nextHopList|
      ensures r == Classify(nextHopList[target], gatewayOf)
    {
      var e := TopologySatelliteNetworkDecide(source, target, isSocketRequestForSourceIp);
      if e.next == -2 || e.ownIf == -2 || e.nextIf == -2 {
        return Err(ForwardingStateNotSet);
      }
      if e.next != -1 {
        return Ok(ArbiterResult(false, e.ownIf, gatewayOf(e.next, e.nextIf)));
      }
      return Ok(ArbiterResult(true, 0, 0));
    }
  }

  /** The decision does not depend on the source node or the kind of request. */
  lemma DecideIgnoresSource(a: ArbiterSingleForward, s1: int, s2: int, target: int, q1: bool, q2: bool)
    requires 0 <= target < |a.nextHopList|
    ensures a.TopologySatelliteNetworkDecide(s1, target, q1) == a.TopologySatelliteNetworkDecide(s2, target, q2)
    ensures a.TopologySatelliteNetworkDecide(s1, target, q1) == a.nextHopList[target]
  {
  }
}
