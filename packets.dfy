/** The I2C data model: a parcel is one address/direction burst with its data
    bytes, a packet is the list of parcels between a START and a STOP.

    Both are values here. The decoder never changes a parcel or a packet after
    handing it on, so the Python objects' identity is not observable in the core. */
module Packets {
  import opened Wrappers

  /** `I2CParcel`: a 7-bit slave address, the R/W direction and the data bytes. */
  datatype Parcel = Parcel(address: nat, isRead: bool, data: seq<nat>) {

    /** `setAddress`: only the address changes. */
    function SetAddress(address: nat): (r: Parcel)
      ensures r.address == address
      ensures r.isRead == isRead && r.data == data
    {
      this.(address := address)
    }

    /** `setIsRead`: only the direction changes. */
    function SetIsRead(isRead: bool): (r: Parcel)
      ensures r.isRead == isRead
      ensures r.address == address && r.data == data
    {
      this.(isRead := isRead)
    }

    /** `addDataByte`: the byte is appended to the data, nothing else changes. */
    function AddDataByte(byte: nat): (r: Parcel)
      ensures |r.data| == |data| + 1 && r.data[|data|] == byte
      ensures r.data[..|data|] == data
      ensures r.address == address && r.isRead == isRead
    {
      this.(data := data + [byte])
    }
  }

  /** A parcel as `I2CParcel()` creates it: address 0, a read, no data. */
  const FreshParcel := Parcel(0, true, [])

  /** Every value fits in eight bits. */
  predicate Bytes(ds: seq<nat>) {
    forall i :: 0 <= i < |ds| ==> ds[i] < 256
  }

  /** What a well-decoded parcel satisfies: a 7-bit address and 8-bit data bytes. */
  ghost predicate WellFormedParcel(p: Parcel) {
    p.address < 128 && Bytes(p.data)
  }

  /** `I2CPacket`: a timestamp (relative to the session's epoch) and its parcels. */
  datatype Packet = Packet(timestamp: int, parcels: seq<Parcel>) {

    /** `addParcel`: the parcel is appended, the timestamp is kept. */
    function AddParcel(parcel: Parcel): (r: Packet)
      ensures |r.parcels| == |parcels| + 1 && r.parcels[|parcels|] == parcel
      ensures r.parcels[..|parcels|] == parcels
      ensures r.timestamp == timestamp
    {
      this.(parcels := parcels + [parcel])
    }

    /** `firstParcel`: `parcels[0]`, an IndexError on a packet without parcels. */
    function FirstParcel(): (r: Result<Parcel>)
      ensures r.Ok? <==> |parcels| >= 1
      ensures r.Ok? ==> r.value == parcels[0]
    {
      PyIndex(parcels, 0)
    }

    /** `secondParcel`: the second parcel, or None when there are fewer than two. */
    function SecondParcel(): (r: Option<Parcel>)
      ensures r.None? <==> |parcels| < 2
      ensures r.Some? ==> r.value == parcels[1]
    {
      if |parcels| > 1 then Some(parcels[1]) else None
    }

    /** `isWritePacket`: exactly one parcel, and it is a write. */
    predicate IsWritePacket() {
      |parcels| == 1 && !FirstParcel().value.isRead
    }

    /** `isReadPacket`: exactly two parcels, a write followed by a read. */
    predicate IsReadPacket() {
      |parcels| == 2 && !FirstParcel().value.isRead && SecondParcel().value.isRead
    }

    /** `getRegister`: the first data byte of the first parcel. Python raises an
        IndexError when there is no parcel, or when the first parcel holds no
        data (an address-only transfer, or a read without a register byte). */
    function GetRegister(): (r: Result<nat>)
      ensures r.Ok? <==> |parcels| >= 1 && |parcels[0].data| >= 1
      ensures r.Ok? ==> r.value == parcels[0].data[0]
    {
      match FirstParcel()
      case Err(e) => Err(e)
      case Ok(first) => PyIndex(first.data, 0)
    }

    /** `getData`: the read parcel's data for a read packet, otherwise the first
        parcel's data after the register byte; an IndexError when there is no
        parcel at all. */
    function GetData(): (r: Result<seq<nat>>)
      ensures r.Ok? <==> |parcels| >= 1
    {
      if IsReadPacket() then Ok(SecondParcel().value.data)
      else match FirstParcel()
        case Err(e) => Err(e)
        case Ok(first) => Ok(PyDropFirst(first.data))
    }
  }

  /** `I2CPacket(timestamp)`: an empty packet stamped `clock - epoch`, where
      `epoch` is the class-level `startTimestamp`. */
  function NewPacket(clock: int, epoch: int): (r: Packet)
    ensures r.parcels == []
    ensures r.timestamp + epoch == clock
  {
    Packet(clock - epoch, [])
  }

  ghost predicate WellFormedPacket(p: Packet) {
    forall i :: 0 <= i < |p.parcels| ==> WellFormedParcel(p.parcels[i])
  }

  /** A packet is never both a write packet and a read packet; a write packet has
      no second parcel. */
  lemma WriteAndReadExclusive(p: Packet)
    ensures !(p.IsWritePacket() && p.IsReadPacket())
    ensures p.IsWritePacket() ==> p.SecondParcel().None?
  {
  }

  /** A packet of one write parcel is a write packet: the register is the first
      data byte and the payload the remaining ones. */
  lemma WritePacketOf(timestamp: int, address: nat, ds: seq<nat>)
    ensures var p := Packet(timestamp, [Parcel(address, false, ds)]);
      && p.IsWritePacket() && !p.IsReadPacket()
      && (|ds| >= 1 ==> p.GetRegister() == Ok(ds[0]) && p.GetData() == Ok(ds[1..]))
      && (|ds| == 0 ==> p.GetRegister() == Err(IndexError) && p.GetData() == Ok([]))
  {
  }

  /** A packet of a write parcel holding one register byte followed by a read
      parcel is a read packet with that register and the read parcel's data. */
  lemma ReadPacketOf(timestamp: int, address: nat, register: nat, ds: seq<nat>)
    ensures var p := Packet(timestamp, [Parcel(address, false, [register]), Parcel(address, true, ds)]);
      && p.IsReadPacket() && !p.IsWritePacket()
      && p.GetRegister() == Ok(register) && p.GetData() == Ok(ds)
  {
  }

  /** For a packet with a parcel that is not a read packet, the payload is the
      first parcel's data after the register byte: the register followed by the
      payload rebuilds that data, and a first parcel without data gives an
      empty payload. */
  lemma RegisterThenData(p: Packet)
    requires |p.parcels| >= 1
    requires !p.IsReadPacket()
    ensures p.GetData().Ok?
    ensures |p.parcels[0].data| >= 1 ==>
      p.GetRegister().Ok? && [p.GetRegister().value] + p.GetData().value == p.parcels[0].data
    ensures p.parcels[0].data == [] ==> p.GetData() == Ok([])
  {
  }

  /** The payload of a read packet is the whole data of its read parcel, with the
      register taken from the preceding write parcel. */
  lemma ReadPacketData(p: Packet)
    requires p.IsReadPacket()
    ensures p.GetData() == Ok(p.parcels[1].data)
    ensures p.parcels[1].isRead && !p.parcels[0].isRead
  {
  }

  /** The `I2CParcel` object the decoder fills in while its bits arrive. Its
      value is a `Parcel`; each method changes the object as the corresponding
      `Parcel` function says. */
  class I2CParcel {
    var address: nat
    var isRead: bool
    var data: seq<nat>

    function Value(): Parcel
      reads this
    {
      Parcel(address, isRead, data)
    }

    /** `I2CParcel(address = 0, is_read = True, data = None)`; the decoder
        calls it with the defaults. */
    constructor (address: nat := 0, isRead: bool := true, data: seq<nat> := [])
      ensures Value() == Parcel(address, isRead, data)
    {
      this.address, this.isRead, this.data := address, isRead, data;
    }

    method SetAddress(address: nat := 0)
      modifies this
      ensures Value() == old(Value()).SetAddress(address)
    {
      this.address := address;
    }

    method SetIsRead(isRead: bool := true)
      modifies this
      ensures Value() == old(Value()).SetIsRead(isRead)
    {
      this.isRead := isRead;
    }

    method AddDataByte(byte: nat)
      modifies this
      ensures Value() == old(Value()).AddDataByte(byte)
    {
      data := data + [byte];
    }
  }

  /** The `I2CPacket` object of the transaction in progress. A parcel is
      attached by value: the decoder never changes a parcel once attached. */
  class I2CPacket {
    var timestamp: int
    var parcels: seq<Parcel>

    function Value(): Packet
      reads this
    {
      Packet(timestamp, parcels)
    }

    /** `I2CPacket()` at clock reading `clock`, for the session epoch `epoch`. */
    constructor (clock: int, epoch: int)
      ensures Value() == NewPacket(clock, epoch)
    {
      timestamp := clock - epoch;
      parcels := [];
    }

    method AddParcel(parcel: I2CParcel)
      modifies this
      ensures Value() == old(Value()).AddParcel(parcel.Value())
    {
      parcels := parcels + [parcel.Value()];
    }
  }
}
