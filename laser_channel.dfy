/**
 * PointToPointLaserChannel: the two-wire channel between two laser devices.
 * Each wire runs from one attached device (its source) to the other (its
 * destination) and stays INITIALIZING until both ends are attached.
 */
module LaserChannels {
  import opened Outcomes
  import opened LaserNetDevices

  datatype WireState = Initializing | Idle | Transmitting | Propagating

  /** One wire of the channel. */
  datatype Link = Link(state: WireState, src: Option<PointToPointLaserNetDevice>, dst: Option<PointToPointLaserNetDevice>)

  const N_DEVICES: nat := 2

  /** A wire as it is created: INITIALIZING, with neither end set. */
  const EMPTY_LINK: Link := Link(Initializing, None, None)

  class PointToPointLaserChannel {
    const link: array<Link>
    var nDevices: nat

    /**
     * The attach protocol: the first nDevices wires have their source, the
     * others none; until both ends are attached no wire has a destination and
     * all are INITIALIZING, afterwards both are IDLE and cross-linked.
     */
    predicate Valid()
      reads this, link
    {
      && link.Length == N_DEVICES
      && nDevices <= N_DEVICES
      && (forall i :: 0 <= i < N_DEVICES ==> (link[i].src.Some? <==> i < nDevices))
      && (nDevices < N_DEVICES ==> link[0].dst.None? && link[1].dst.None? && link[0].state == Initializing && link[1].state == Initializing)
      && (nDevices == N_DEVICES ==>
            link[0].state == Idle && link[1].state == Idle
            && link[0].dst == link[1].src && link[1].dst == link[0].src)
    }

    /** The constructor: no device attached, both wires INITIALIZING. */
    constructor ()
      ensures Valid() && nDevices == 0 && fresh(link)
      ensures link[..] == [EMPTY_LINK, EMPTY_LINK]
    {
      var wires := new Link[2](_ => EMPTY_LINK);
      assert wires[..] == [EMPTY_LINK, EMPTY_LINK] by {
        assert wires[0] == EMPTY_LINK && wires[1] == EMPTY_LINK;
      }
      link := wires;
      nDevices := 0;
    }

    /**
     * Attach: the device becomes the source of the next free wire; the second
     * attach cross-links the wires and sets both IDLE.  A third attach is a
     * caller error.
     */
    method Attach(device: PointToPointLaserNetDevice)
      requires Valid() && nDevices < N_DEVICES
      modifies this, link
      ensures Valid() && nDevices == old(nDevices) + 1
      ensures link[old(nDevices)].src == Some(device)
      ensures old(nDevices) == 0 ==> link[..] == [Link(Initializing, Some(device), None), old(link[1])]
      ensures old(nDevices) == 1 ==>
                link[..] == [Link(Idle, old(link[0].src), Some(device)), Link(Idle, Some(device), old(link[0].src))]
    {
      var n := nDevices;
      link[n] := link[n].(src := Some(device));
      nDevices := nDevices + 1;
      if nDevices == N_DEVICES {
        link[0] := link[0].(dst := link[1].src, state := Idle);
        link[1] := link[1].(dst := link[0].src, state := Idle);
      }
      assert link[..] == [link[0], link[1]];
    }

    /** The wire a packet from `src` travels on: wire 0 if `src` is its source, wire 1 otherwise. */
    function Wire(src: PointToPointLaserNetDevice): (w: nat)
      requires Valid()
      reads this, link
      ensures w < N_DEVICES
      ensures w == 0 <==> link[0].src == Some(src)
    {
      if link[0].src == Some(src) then 0 else 1
    }

    /**
     * TransmitStart: both wires must be out of INITIALIZING; the packet is
     * handed to the destination of the sender's wire, and the channel always
     * accepts.
     */
    method TransmitStart(p: Packet, src: PointToPointLaserNetDevice) returns (accepted: bool, receiver: PointToPointLaserNetDevice)
      requires Valid() && link[0].state != Initializing && link[1].state != Initializing
      ensures accepted
      ensures Some(receiver) == link[Wire(src)].dst
    {
      var wire := if src == link[0].src.value then 0 else 1;
      accepted := true;
      receiver := link[wire].dst.value;
    }

    /** GetNDevices: the number of attached devices. */
    method GetNDevices() returns (n: nat)
      requires Valid()
      ensures n == nDevices && n <= N_DEVICES
      ensures forall i :: 0 <= i < N_DEVICES ==> (link[i].src.Some? <==> i < n)
    {
      n := nDevices;
    }

    /** GetPointToPointLaserDevice: the source of wire i, which must be 0 or 1. */
    method GetPointToPointLaserDevice(i: nat) returns (d: Option<PointToPointLaserNetDevice>)
      requires Valid() && i < N_DEVICES
      ensures d == link[i].src
      ensures d.Some? <==> i < nDevices
    {
      d := link[i].src;
    }
  }

  /** Once both ends are attached, each device's packets reach the other one. */
  lemma WiresCrossLink(c: PointToPointLaserChannel, a: PointToPointLaserNetDevice, b: PointToPointLaserNetDevice)
    requires c.Valid() && c.nDevices == N_DEVICES && c.link[0].src == Some(a) && c.link[1].src == Some(b) && a != b
    ensures c.link[c.Wire(a)].dst == Some(b)
    ensures c.link[c.Wire(b)].dst == Some(a)
  {
  }
}
