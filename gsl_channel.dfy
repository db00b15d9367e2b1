/**
 * GSLChannel: the shared ground-satellite channel.  Every attached device is
 * registered under its MAC address; a transmission is delivered to the
 * device registered under the destination address.
 */
module GslChannels {
  import opened Outcomes
  import opened MachineInts

  type Byte = x: int | 0 <= x < 256

  /** A 48-bit MAC address as its six bytes, most significant first. */
  type Mac48Address = s: seq<Byte> | |s| == 6 witness [0, 0, 0, 0, 0, 0]

  /** A GSL net device: its MAC address and the system (MPI rank) of its node. */
  class GslNetDevice {
    const address: Mac48Address
    const systemId: int

    constructor (addr: Mac48Address, system: int)
      ensures address == addr && systemId == system
    {
      address := addr;
      systemId := system;
    }
  }

  datatype GslError = ZeroPointerDevice | AddressNotMapped | DistributedModeUnsupported | DeviceIndexOutOfRange

  /** Four bytes read as a big-endian 32-bit word. */
  function Word(a: Byte, b: Byte, c: Byte, d: Byte): (w: int)
    ensures IsU32(w)
  {
    a * 0x100_0000 + b * 0x1_0000 + c * 0x100 + d
  }

  /** The hash after folding in `bytes`, shifting an `uint32_t` left by 8 before each byte. */
  function HashFold(bytes: seq<Byte>): (h: int)
    ensures IsU32(h)
  {
    if |bytes| == 0 then 0
    else
      var prefix := HashFold(bytes[..|bytes| - 1]);
      ShiftLeavesLowByteFree(prefix);
      U32(prefix * 0x100) + bytes[|bytes| - 1]
  }

  /** A word shifted left by one byte (as uint32_t) keeps only its low three bytes, so its low byte is free. */
  lemma ShiftLeavesLowByteFree(h: int)
    requires IsU32(h)
    ensures U32(h * 0x100) == (h % 0x100_0000) * 0x100
    ensures U32(h * 0x100) <= TWO_32 - 0x100
  {
    var q, r := h / 0x100_0000, h % 0x100_0000;
    assert h * 0x100 == q * TWO_32 + r * 0x100;
    DivModUnique(h * 0x100, TWO_32, q, r * 0x100);
  }

  /** Shifting a word left by one byte pushes its top byte out. */
  lemma ShiftOutTopByte(a: Byte, b: Byte, c: Byte, d: Byte)
    ensures U32(Word(a, b, c, d) * 0x100) == Word(b, c, d, 0)
  {
    assert Word(a, b, c, d) * 0x100 == a * TWO_32 + Word(b, c, d, 0);
    DivModUnique(Word(a, b, c, d) * 0x100, TWO_32, a, Word(b, c, d, 0));
  }

  /**
   * Mac48AddressHash: the fold of the six bytes into an `uint32_t`.  The
   * first two bytes are shifted out, so the hash is the big-endian word of
   * the last four.
   */
  method Mac48AddressHash(x: Mac48Address) returns (host: int)
    ensures host == HashFold(x)
    ensures host == Word(x[2], x[3], x[4], x[5])
  {
    host := 0;
    var i := 0;
    while i < 6
      invariant 0 <= i <= 6 && host == HashFold(x[..i])
    {
      assert x[..i + 1][..i] == x[..i];
      host := U32(host * 0x100) + x[i];
      i := i + 1;
    }
    assert x[..6] == x;
    HashIsLastFourBytes(x);
  }

  /** The fold of a six-byte address is the word of its last four bytes. */
  lemma HashIsLastFourBytes(x: Mac48Address)
    ensures HashFold(x) == Word(x[2], x[3], x[4], x[5])
  {
    assert HashFold(x[..1]) == x[0] by { assert x[..1][..0] == []; }
    assert HashFold(x[..2]) == Word(0, 0, x[0], x[1]) by { assert x[..2][..1] == x[..1]; }
    assert HashFold(x[..3]) == Word(0, x[0], x[1], x[2]) by { assert x[..3][..2] == x[..2]; }
    assert HashFold(x[..4]) == Word(x[0], x[1], x[2], x[3]) by { assert x[..4][..3] == x[..3]; }
    assert HashFold(x[..5]) == Word(x[1], x[2], x[3], x[4]) by {
      assert x[..5][..4] == x[..4];
      ShiftOutTopByte(x[0], x[1], x[2], x[3]);
    }
    assert x[..6][..5] == x[..5] && x[..6] == x;
    ShiftOutTopByte(x[1], x[2], x[3], x[4]);
  }

  /** Two addresses that differ only in their first two bytes hash alike (the map still tells them apart). */
  lemma HashIgnoresFirstTwoBytes(x: Mac48Address, y: Mac48Address)
    requires x[2..] == y[2..]
    ensures HashFold(x) == HashFold(y)
  {
    HashIsLastFourBytes(x);
    HashIsLastFourBytes(y);
    assert x[2] == x[2..][0] && x[3] == x[2..][1] && x[4] == x[2..][2] && x[5] == x[2..][3];
    assert y[2] == y[2..][0] && y[3] == y[2..][1] && y[4] == y[2..][2] && y[5] == y[2..][3];
  }

  class GslChannel {
    /** The address-to-device map and the devices in attach order. */
    var link: map<Mac48Address, GslNetDevice>
    var netDevices: seq<GslNetDevice>

    /** Every mapped device is attached, under its own address. */
    predicate Valid()
      reads this
    {
      forall addr :: addr in link ==> link[addr] in netDevices && link[addr].address == addr
    }

    constructor ()
      ensures Valid() && link == map[] && netDevices == []
    {
      link := map[];
      netDevices := [];
    }

    /**
     * Attach: a null device aborts; otherwise the device is mapped under its
     * address (replacing any device already there) and appended to the list.
     */
    method Attach(device: GslNetDevice?) returns (r: Outcome<GslError>)
      requires Valid()
      modifies this
      ensures Valid()
      ensures device == null ==> r == Fail(ZeroPointerDevice) && link == old(link) && netDevices == old(netDevices)
      ensures device != null ==>
                r == Pass && link == old(link)[device.address := device] && netDevices == old(netDevices) + [device]
    {
      if device == null {
        return Fail(ZeroPointerDevice);
      }
      link := link[device.address := device];
      netDevices := netDevices + [device];
      return Pass;
    }

    /**
     * TransmitStart: an address not in the map aborts; so does (in TransmitTo)
     * a destination on another system; otherwise the packet is delivered to
     * the mapped device and the result is true.
     */
    method TransmitStart(src: GslNetDevice, dstAddress: Mac48Address) returns (r: Result<GslNetDevice, GslError>)
      requires Valid()
      ensures dstAddress !in link ==> r == Err(AddressNotMapped)
      ensures dstAddress in link && link[dstAddress].systemId != src.systemId ==> r == Err(DistributedModeUnsupported)
      ensures dstAddress in link && link[dstAddress].systemId == src.systemId ==> r == Ok(link[dstAddress])
      ensures r.Ok? ==> r.value.address == dstAddress && r.value in netDevices
    {
      if dstAddress in link {
        var dst := link[dstAddress];
        var sameSystem := src.systemId == dst.systemId;
        r := TransmitTo(src, dst, sameSystem);
        return;
      }
      return Err(AddressNotMapped);
    }

    /** TransmitTo: only delivery within one system is supported. */
    method TransmitTo(src: GslNetDevice, dst: GslNetDevice, isSameSystem: bool) returns (r: Result<GslNetDevice, GslError>)
      ensures isSameSystem <==> r == Ok(dst)
      ensures !isSameSystem ==> r == Err(DistributedModeUnsupported)
    {
      if !isSameSystem {
        return Err(DistributedModeUnsupported);
      }
      return Ok(dst);
    }

    /** GetNDevices: the number of attaches. */
    method GetNDevices() returns (n: nat)
      ensures n == |netDevices|
    {
      n := |netDevices|;
    }

    /** GetDevice: the i-th device attached; an index past the end throws. */
    method GetDevice(i: nat) returns (r: Result<GslNetDevice, GslError>)
      ensures i < |netDevices| ==> r == Ok(netDevices[i])
      ensures i >= |netDevices| ==> r == Err(DeviceIndexOutOfRange)
    {
      if i < |netDevices| {
        return Ok(netDevices[i]);
      }
      return Err(DeviceIndexOutOfRange);
    }
  }

  /** After attaching a device, a transmission to its address reaches it (on its own system) or the latest device attached under that address. */
  lemma AttachThenLookup(link: map<Mac48Address, GslNetDevice>, device: GslNetDevice, other: Mac48Address)
    ensures device.address in link[device.address := device] && link[device.address := device][device.address] == device
    ensures other != device.address ==> (other in link[device.address := device] <==> other in link)
    ensures other != device.address && other in link ==> link[device.address := device][other] == link[other]
  {
  }
}
