/**
 * ArbiterSingleForwardHelper: builds the empty forwarding state, installs
 * one arbiter per node, and loads each fstate_<t>.txt file, validating every
 * line against the network's interfaces before writing it into the arbiter
 * of its current node.
 */
module ArbiterSingleForwardHelpers {
  import opened Outcomes
  import opened Arbiters

  /** One end of an ISL channel: a node and the interface index of its device. */
  datatype Port = Port(node: int, ifIndex: int)

  /** The net device behind an interface: a GSL device, an ISL device on a channel between two ports, or another kind. */
  datatype DeviceKind = GslDevice | IslDevice(end0: Port, end1: Port) | OtherDevice

  /**
   * The interfaces of every node, loop-back at index 0 included:
   * `devices[node][k]` is the device of interface k, and the node has
   * `|devices[node]|` interfaces.
   */
  datatype Network = Network(devices: seq<seq<DeviceKind>>)

  /** One parsed line of a forwarding state file. */
  datatype FstateLine = FstateLine(current: int, target: int, next: int, myIf: int, nextIf: int)

  datatype UpdateError =
    | NegativeValue              // parse_positive_int64 throws on a negative value
    | StateFileMissing
    | InvalidCurrentNode
    | InvalidTargetNode
    | InvalidNextHopNode
    | PartialDrop
    | InvalidCurrentInterface
    | InvalidNextHopInterface
    | UnsupportedDevice
    | DestinationNotGsl
    | DestinationNotIsl
    | NextHopAcrossMismatch
    | NextInterfaceAcrossMismatch

  /** InitialEmptyForwardingState: an n × n table of unset entries. */
  method InitialEmptyForwardingState(n: nat) returns (state: seq<seq<Triple>>)
    ensures |state| == n
    ensures forall i :: 0 <= i < n ==> |state[i]| == n && forall j :: 0 <= j < n ==> state[i][j] == UNSET
  {
    state := [];
    var i := 0;
    while i < n
      invariant 0 <= i <= n && |state| == i
      invariant forall a :: 0 <= a < i ==> |state[a]| == n && forall j :: 0 <= j < n ==> state[a][j] == UNSET
    {
      var nextHopList: seq<Triple> := [];
      var j := 0;
      while j < n
        invariant 0 <= j <= n && |nextHopList| == j
        invariant forall b :: 0 <= b < j ==> nextHopList[b] == UNSET
      {
        nextHopList := nextHopList + [UNSET];
        j := j + 1;
      }
      state := state + [nextHopList];
      i := i + 1;
    }
  }

  predicate WellFormed(net: Network, n: int)
  {
    |net.devices| == n
  }

  function NumInterfaces(net: Network, node: int): int
    requires 0 <= node < |net.devices|
  {
    |net.devices[node]|
  }

  /** An interface id of a line: -1, or an id whose interface 1 + id exists. */
  predicate InterfaceExists(net: Network, node: int, id: int)
    requires 0 <= node < |net.devices|
  {
    id == -1 || (id >= 0 && id + 1 < NumInterfaces(net, node))
  }

  /** The device-kind checks of a hop line; the interfaces are known to exist. */
  function CheckHopDevices(net: Network, l: FstateLine): (r: Outcome<UpdateError>)
    requires 0 <= l.current < |net.devices| && 0 <= l.next < |net.devices|
    requires 0 <= l.myIf && l.myIf + 1 < NumInterfaces(net, l.current)
    requires 0 <= l.nextIf && l.nextIf + 1 < NumInterfaces(net, l.next)
    ensures r == Pass ==>
      match net.devices[l.current][1 + l.myIf]
      case GslDevice => net.devices[l.next][1 + l.nextIf] == GslDevice
      case IslDevice(e0, e1) =>
        net.devices[l.next][1 + l.nextIf].IslDevice?
        && (if e0.node == l.current then e1 else e0) == Port(l.next, 1 + l.nextIf)
      case OtherDevice => false
  {
    var own := net.devices[l.current][1 + l.myIf];
    var across := net.devices[l.next][1 + l.nextIf];
    match own
    case OtherDevice => Fail(UnsupportedDevice)
    case GslDevice => if !across.GslDevice? then Fail(DestinationNotGsl) else Pass
    case IslDevice(e0, e1) =>
      if !across.IslDevice? then Fail(DestinationNotIsl)
      else
        var other := if e0.node == l.current then e1 else e0;
        if other.node != l.next then Fail(NextHopAcrossMismatch)
        else if other.ifIndex != 1 + l.nextIf then Fail(NextInterfaceAcrossMismatch)
        else Pass
  }

  /**
   * The checks UpdateForwardingState makes of one line, in its order: the
   * current and target node ids are read as non-negative numbers, then the
   * node ids, the drop rule, the interfaces and the devices are checked.
   */
  function ValidateLine(net: Network, n: int, l: FstateLine): (r: Outcome<UpdateError>)
    requires WellFormed(net, n)
    ensures r == Pass ==> 0 <= l.current < n && 0 <= l.target < n && -1 <= l.next < n
    ensures r == Pass ==> (l.next == -1 && l.myIf == -1 && l.nextIf == -1) || (l.next != -1 && l.myIf != -1 && l.nextIf != -1)
    ensures r == Pass && l.next != -1 ==> l.myIf >= 0 && l.nextIf >= 0
    ensures r == Pass ==> InterfaceExists(net, l.current, l.myIf) && (l.next == -1 || InterfaceExists(net, l.next, l.nextIf))
    ensures r == Pass && l.next != -1 ==> CheckHopDevices(net, l) == Pass
  {
    if l.current < 0 || l.target < 0 then Fail(NegativeValue)
    else if l.current >= n then Fail(InvalidCurrentNode)
    else if l.target >= n then Fail(InvalidTargetNode)
    else if l.next < -1 || l.next >= n then Fail(InvalidNextHopNode)
    else if !(l.next == -1 && l.myIf == -1 && l.nextIf == -1) && !(l.next != -1 && l.myIf != -1 && l.nextIf != -1)
    then Fail(PartialDrop)
    else if !InterfaceExists(net, l.current, l.myIf) then Fail(InvalidCurrentInterface)
    else if l.nextIf != -1 && !InterfaceExists(net, l.next, l.nextIf) then Fail(InvalidNextHopInterface)
    else if l.next != -1 then CheckHopDevices(net, l)
    else Pass
  }

  /** The triple stored for a line: the interface ids skip the loop-back interface. */
  function StoredEntry(l: FstateLine): Triple
  {
    Triple(l.next, 1 + l.myIf, 1 + l.nextIf)
  }

  /** A validated line is stored without a -2, so setting it never aborts; a drop is stored as (-1, 0, 0). */
  lemma ValidLineIsSettable(net: Network, n: int, l: FstateLine)
    requires WellFormed(net, n) && ValidateLine(net, n, l) == Pass
    ensures !HasUnsetPart(StoredEntry(l))
    ensures l.next == -1 ==> StoredEntry(l) == Triple(-1, 0, 0)
    ensures l.next != -1 ==> StoredEntry(l).ownIf >= 1 && StoredEntry(l).nextIf >= 1
  {
  }

  /** A drop line passes exactly when all three fields are -1 and the nodes are in range. */
  lemma DropLineValid(net: Network, n: int, l: FstateLine)
    requires WellFormed(net, n) && l.next == -1
    ensures ValidateLine(net, n, l) == Pass <==>
              0 <= l.current < n && 0 <= l.target < n && l.myIf == -1 && l.nextIf == -1
  {
  }

  /**
   * A hop line passes exactly when both nodes and the next hop are in
   * range, both interfaces exist (neither is -1) and the devices behind
   * them pass the GSL/ISL checks.
   */
  lemma HopLineValid(net: Network, n: int, l: FstateLine)
    requires WellFormed(net, n) && l.next != -1
    ensures ValidateLine(net, n, l) == Pass <==>
              && 0 <= l.current < n && 0 <= l.target < n && 0 <= l.next < n
              && 0 <= l.myIf && l.myIf + 1 < NumInterfaces(net, l.current)
              && 0 <= l.nextIf && l.nextIf + 1 < NumInterfaces(net, l.next)
              && CheckHopDevices(net, l) == Pass
  {
  }

  /** The first error among the lines, if any. */
  function FirstError(net: Network, n: int, lines: seq<FstateLine>): (r: Option<UpdateError>)
    requires WellFormed(net, n)
    ensures r.None? <==> forall k :: 0 <= k < |lines| ==> ValidateLine(net, n, lines[k]) == Pass
  {
    if |lines| == 0 then None
    else if ValidateLine(net, n, lines[0]).Fail? then Some(ValidateLine(net, n, lines[0]).error)
    else
      assert forall k :: 1 <= k < |lines| ==> lines[k] == lines[1..][k - 1];
      FirstError(net, n, lines[1..])
  }

  predicate Square(tables: seq<seq<Triple>>, n: int)
  {
    |tables| == n && forall i :: 0 <= i < n ==> |tables[i]| == n
  }

  /** The tables after writing the lines in order, each at (current, target). */
  function ApplyLines(tables: seq<seq<Triple>>, n: int, lines: seq<FstateLine>): (r: seq<seq<Triple>>)
    requires Square(tables, n)
    requires forall k :: 0 <= k < |lines| ==> 0 <= lines[k].current < n && 0 <= lines[k].target < n
    ensures Square(r, n)
    decreases |lines|
  {
    if |lines| == 0 then tables
    else
      var prev := ApplyLines(tables, n, lines[..|lines| - 1]);
      var l := lines[|lines| - 1];
      prev[l.current := prev[l.current][l.target := StoredEntry(l)]]
  }

  /** Writing line k after the first k lines is applying the first k + 1 lines. */
  lemma ApplyLinesStep(tables: seq<seq<Triple>>, n: int, lines: seq<FstateLine>, k: nat)
    requires Square(tables, n) && k < |lines|
    requires forall a :: 0 <= a <= k ==> 0 <= lines[a].current < n && 0 <= lines[a].target < n
    ensures var prev := ApplyLines(tables, n, lines[..k]);
            ApplyLines(tables, n, lines[..k + 1])
            == prev[lines[k].current := prev[lines[k].current][lines[k].target := StoredEntry(lines[k])]]
  {
    assert lines[..k + 1][..k] == lines[..k];
  }

  /** The entry the last line for (c, t) wrote, or the old one when no line is for (c, t). */
  function LastWrite(old_entry: Triple, lines: seq<FstateLine>, c: int, t: int): Triple
  {
    if |lines| == 0 then old_entry
    else if lines[|lines| - 1].current == c && lines[|lines| - 1].target == t then StoredEntry(lines[|lines| - 1])
    else LastWrite(old_entry, lines[..|lines| - 1], c, t)
  }

  /** Every entry ends as its last write: later lines overwrite earlier ones, and untouched entries keep their value. */
  lemma {:induction false} ApplyLinesLastWriteWins(tables: seq<seq<Triple>>, n: int, lines: seq<FstateLine>, c: int, t: int)
    requires Square(tables, n)
    requires forall k :: 0 <= k < |lines| ==> 0 <= lines[k].current < n && 0 <= lines[k].target < n
    requires 0 <= c < n && 0 <= t < n
    ensures ApplyLines(tables, n, lines)[c][t] == LastWrite(tables[c][t], lines, c, t)
    decreases |lines|
  {
    if |lines| > 0 {
      ApplyLinesLastWriteWins(tables, n, lines[..|lines| - 1], c, t);
    }
  }

  /** When the next update happens: after the interval, unless the network is static or the run ends first. */
  function NextUpdate(t: int, intervalNs: int, forceStatic: bool, endNs: int): (r: Option<int>)
    ensures r.Some? <==> !forceStatic && t + intervalNs < endNs
    ensures r.Some? ==> r.value == t + intervalNs
  {
    if !forceStatic && t + intervalNs < endNs then Some(t + intervalNs) else None
  }

  /** The forwarding state before any file is loaded: every entry unset. */
  function EmptyTables(n: nat): (r: seq<seq<Triple>>)
    ensures Square(r, n) && forall i, j :: 0 <= i < n && 0 <= j < n ==> r[i][j] == UNSET
  {
    seq(n, _ => seq(n, _ => UNSET))
  }

  /**
   * The C++ constructor as a whole: one arbiter per node with the empty
   * table, then the update interval is read (a negative one throws), then
   * the forwarding state for t = 0 is loaded, which can throw or abort as
   * UpdateForwardingState does.  On success the result is the helper and
   * the time of the next update, if one is scheduled.
   */
  method NewArbiterSingleForwardHelper(n: nat, interval: int, file0: Option<seq<FstateLine>>, net: Network, forceStatic: bool, endNs: int)
    returns (r: Result<(ArbiterSingleForwardHelper, Option<int>), UpdateError>)
    requires WellFormed(net, n)
    ensures interval < 0 ==> r == Err(NegativeValue)
    ensures interval >= 0 && file0.None? ==> r == Err(StateFileMissing)
    ensures interval >= 0 && file0.Some? && FirstError(net, n, file0.value).Some? ==> r == Err(FirstError(net, n, file0.value).value)
    ensures interval >= 0 && file0.Some? && FirstError(net, n, file0.value).None? ==>
              && r.Ok? && fresh(r.value.0) && fresh(r.value.0.arbiters) && r.value.0.Valid()
              && r.value.0.numNodes == n && r.value.0.intervalNs == interval
              && r.value.0.Tables() == ApplyLines(EmptyTables(n), n, file0.value)
              && r.value.1 == NextUpdate(0, interval, forceStatic, endNs)
  {
    var helper := new ArbiterSingleForwardHelper(n, interval);
    if interval < 0 {
      return Err(NegativeValue);
    }
    var tables := helper.Tables();
    forall i | 0 <= i < n
      ensures tables[i] == EmptyTables(n)[i]
    {
      assert tables[i] == helper.arbiters[i].nextHopList;
    }
    assert tables == EmptyTables(n);
    var first := helper.UpdateForwardingState(0, file0, net, forceStatic, endNs);
    if first.Err? {
      return Err(first.error);
    }
    return Ok((helper, first.value));
  }

  /** The helper with one arbiter per node. */
  class ArbiterSingleForwardHelper {
    const numNodes: nat
    const arbiters: seq<ArbiterSingleForward>
    const intervalNs: int

    /** The arbiters are distinct and each has a table entry per node. */
    predicate Valid()
      reads this, arbiters
    {
      && |arbiters| == numNodes
      && (forall i, j :: 0 <= i < j < numNodes ==> arbiters[i] != arbiters[j])
      && (forall i :: 0 <= i < numNodes ==> |arbiters[i].nextHopList| == numNodes)
    }

    /** The next-hop tables of all arbiters. */
    function Tables(): (r: seq<seq<Triple>>)
      reads this, arbiters
      ensures |r| == |arbiters| && forall i :: 0 <= i < |arbiters| ==> r[i] == arbiters[i].nextHopList
    {
      TablesOf(arbiters)
    }

    /** The constructor's set-up: one arbiter per node, each with the empty table. */
    constructor (n: nat, interval: int)
      ensures Valid() && numNodes == n && intervalNs == interval
      ensures forall i :: 0 <= i < n ==> forall j :: 0 <= j < n ==> arbiters[i].nextHopList[j] == UNSET
      ensures fresh(arbiters)
    {
      var initial := InitialEmptyForwardingState(n);
      var list: seq<ArbiterSingleForward> := [];
      var i := 0;
      while i < n
        invariant 0 <= i <= n && |list| == i
        invariant forall a :: 0 <= a < i ==> fresh(list[a]) && list[a].nextHopList == initial[a]
        invariant forall a, b :: 0 <= a < b < i ==> list[a] != list[b]
      {
        var arbiter := new ArbiterSingleForward(i, initial[i]);
        list := list + [arbiter];
        i := i + 1;
      }
      numNodes := n;
      arbiters := list;
      intervalNs := interval;
    }

    /**
     * UpdateForwardingState (t): a missing file throws; each line is
     * validated and written into its current node's arbiter; the first
     * invalid line aborts.  On success the result is the time of the next
     * update, if one is scheduled.
     */
    method UpdateForwardingState(t: int, file: Option<seq<FstateLine>>, net: Network, forceStatic: bool, endNs: int)
      returns (r: Result<Option<int>, UpdateError>)
      requires Valid() && WellFormed(net, numNodes)
      modifies arbiters
      ensures Valid()
      ensures file.None? ==> r == Err(StateFileMissing) && Tables() == old(Tables())
      ensures file.Some? && FirstError(net, numNodes, file.value).Some? ==> r == Err(FirstError(net, numNodes, file.value).value)
      ensures file.Some? && FirstError(net, numNodes, file.value).None? ==>
                r == Ok(NextUpdate(t, intervalNs, forceStatic, endNs))
                && Tables() == ApplyLines(old(Tables()), numNodes, file.value)
    {
      if file.None? {
        return Err(StateFileMissing);
      }
      var lines := file.value;
      ghost var before := Tables();
      var k := 0;
      while k < |lines|
        invariant 0 <= k <= |lines|
        invariant Valid()
        invariant forall a :: 0 <= a < k ==> ValidateLine(net, numNodes, lines[a]) == Pass
        invariant forall a :: 0 <= a < k ==> 0 <= lines[a].current < numNodes && 0 <= lines[a].target < numNodes
        invariant Tables() == ApplyLines(before, numNodes, lines[..k])
      {
        var l := lines[k];
        var check := ValidateLine(net, numNodes, l);
        if check.Fail? {
          FirstErrorAt(net, numNodes, lines, k);
          return Err(check.error);
        }
        ValidLineIsSettable(net, numNodes, l);
        var stored := StoredEntry(l);
        var arbiter := arbiters[l.current];
        ghost var prev := Tables();
        var outcome := arbiter.SetSingleForwardState(l.target, stored.next, stored.ownIf, stored.nextIf);
        assert Tables() == prev[l.current := prev[l.current][l.target := stored]];
        ApplyLinesStep(before, numNodes, lines, k);
        k := k + 1;
      }
      assert lines[..k] == lines;
      return Ok(NextUpdate(t, intervalNs, forceStatic, endNs));
    }
  }

  function TablesOf(arbiters: seq<ArbiterSingleForward>): (r: seq<seq<Triple>>)
    reads arbiters
    ensures |r| == |arbiters| && forall i :: 0 <= i < |arbiters| ==> r[i] == arbiters[i].nextHopList
  {
    if |arbiters| == 0 then [] else TablesOf(arbiters[..|arbiters| - 1]) + [arbiters[|arbiters| - 1].nextHopList]
  }

  /** When the first k lines pass and line k fails, line k's error is the first error. */
  lemma {:induction false} FirstErrorAt(net: Network, n: int, lines: seq<FstateLine>, k: int)
    requires WellFormed(net, n) && 0 <= k < |lines|
    requires forall a :: 0 <= a < k ==> ValidateLine(net, n, lines[a]) == Pass
    requires ValidateLine(net, n, lines[k]).Fail?
    ensures FirstError(net, n, lines) == Some(ValidateLine(net, n, lines[k]).error)
    decreases k
  {
    if k > 0 {
      FirstErrorAt(net, n, lines[1..], k - 1);
    }
  }
}
