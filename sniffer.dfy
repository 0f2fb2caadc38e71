/** The `I2CSniffer` object: its decoding fields, the `_parse` and `_cb` entry
    points and the history queries. The GPIO plumbing is not modelled; the
    levels arrive as parameters. */
module Sniffer {
  import opened Wrappers
  import opened Packets
  import opened Decoder

  /** The levels `_cb` hands to `_parse` for a level change on pin `gpio`: the
      changed line takes `level`, the other keeps its recorded level. */
  function CallbackLevels(s: State, sclPin: int, sdaPin: int, gpio: int, level: Level): (r: (Level, Level))
    ensures gpio == sclPin ==> r.0 == level
    ensures gpio != sclPin ==> r.0 == s.oldSCL
    ensures gpio == sdaPin ==> r.1 == level
    ensures gpio != sdaPin ==> r.1 == s.oldSDA
  {
    var scl := if gpio == sclPin then level else s.oldSCL;
    var sda := if gpio == sdaPin then level else s.oldSDA;
    (scl, sda)
  }

  /** `_cb(gpio, level, tick)` on the value-level state: the changed line takes
      the new level, the other keeps its recorded one, and the pair is stepped. */
  function OnEdge(epoch: int, sclPin: int, sdaPin: int, s: State, gpio: int, level: Level, clock: int): (r: State)
    requires Consistent(s)
    ensures Consistent(r)
    ensures r.oldSCL == (if gpio == sclPin then level else s.oldSCL)
    ensures r.oldSDA == (if gpio == sdaPin then level else s.oldSDA)
  {
    var (scl, sda) := CallbackLevels(s, sclPin, sdaPin, gpio, level);
    Step(epoch, s, scl, sda, clock)
  }

  /** A change on a pin that is neither SCL nor SDA leaves the decoder as it was. */
  lemma ForeignPinIgnored(epoch: int, sclPin: int, sdaPin: int, s: State, gpio: int, level: Level, clock: int)
    requires Consistent(s)
    requires gpio != sclPin && gpio != sdaPin
    ensures OnEdge(epoch, sclPin, sdaPin, s, gpio, level, clock) == s
  {
    StepSameLevels(epoch, s, clock);
  }

  /** A change on the SDA pin alone never clocks a bit: the bit count and the
      value are unchanged unless it is a START (SDA falls while SCL is high),
      which resets them and opens a fresh parcel. */
  lemma SdaEdgeNeverSamples(epoch: int, sclPin: int, sdaPin: int, s: State, level: Level, clock: int)
    requires Consistent(s)
    requires sclPin != sdaPin
    ensures var r := OnEdge(epoch, sclPin, sdaPin, s, sdaPin, level, clock);
      && r.oldSCL == s.oldSCL && r.oldSDA == level
      && var start := s.oldSCL == 1 && s.oldSDA == 1 && level == 0;
      && (start ==> r.nbits == 0 && r.value == 0 && r.parcel == Some(FreshParcel))
      && (!start ==> r.nbits == s.nbits && r.value == s.value)
  {
  }

  /** A change on the SCL pin alone is never a START or a STOP: the packet, the
      history and whether a parcel is open stay as they were. */
  lemma SclEdgeNeverFrames(epoch: int, sclPin: int, sdaPin: int, s: State, level: Level, clock: int)
    requires Consistent(s)
    requires sclPin != sdaPin
    ensures var r := OnEdge(epoch, sclPin, sdaPin, s, sclPin, level, clock);
      && r.oldSCL == level && r.oldSDA == s.oldSDA
      && r.packet == s.packet && r.history == s.history && r.parcel.Some? == s.parcel.Some?
  {
  }

  class I2CSniffer {
    const sclPin: int
    const sdaPin: int
    /** `I2CPacket.startTimestamp`, fixed once for the session. */
    const epoch: int

    /** The transaction in progress and its current parcel; null when none. */
    var packet: I2CPacket?
    var parcel: I2CParcel?
    var packetHistory: seq<Packet>
    var oldSCL: Level
    var oldSDA: Level
    var value: nat
    var nbits: nat

    /** The decoding fields, with the open packet and parcel by value. */
    ghost function Snapshot(): State
      reads this, packet, parcel
    {
      State(if packet == null then None else Some(packet.Value()),
            if parcel == null then None else Some(parcel.Value()),
            packetHistory, oldSCL, oldSDA, value, nbits)
    }

    ghost predicate Valid()
      reads this, packet, parcel
    {
      Inv(Snapshot())
    }

    /** The decoding part of `__init__`: nothing in progress, an empty history,
        both lines recorded high. */
    constructor (sclPin: int, sdaPin: int, epoch: int)
      ensures Valid() && Snapshot() == Initial
      ensures this.sclPin == sclPin && this.sdaPin == sdaPin && this.epoch == epoch
    {
      this.sclPin, this.sdaPin, this.epoch := sclPin, sdaPin, epoch;
      packet, parcel, packetHistory := null, null, [];
      oldSCL, oldSDA := 1, 1;
      value, nbits := 0, 0;
      InitialInv();
    }

    /** `_parse(SCL, SDA)`. Returns the packet a STOP completed (the one the
        source hands to its callback), None otherwise. */
    method Parse(scl: Level, sda: Level, clock: int) returns (completed: Option<Packet>)
      requires Valid()
      modifies this, packet, parcel
      ensures Valid()
      ensures Snapshot() == Step(epoch, old(Snapshot()), scl, sda, clock)
      ensures completed.Some? <==> |packetHistory| == |old(packetHistory)| + 1
      ensures completed.Some? ==> completed.value == packetHistory[|packetHistory| - 1]
      ensures completed.None? ==> packetHistory == old(packetHistory)
    {
      ghost var before := Snapshot();
      StepPreservesInv(epoch, before, scl, sda, clock);

      var xSCL: Edge;
      if scl != oldSCL {
        oldSCL := scl;
        xSCL := if scl == 1 then Rising else Falling;
      } else {
        xSCL := Steady;
      }
      var xSDA: Edge;
      if sda != oldSDA {
        oldSDA := sda;
        xSDA := if sda == 1 then Rising else Falling;
      } else {
        xSDA := Steady;
      }

      completed := None;
      if xSCL == Rising && parcel != null {
        ClockBit(sda);
      } else if xSCL == Steady && scl == 1 {
        if xSDA == Falling {
          Start(clock);
        } else if xSDA == Rising && parcel != null {
          var done := Stop();
          completed := Some(done);
        }
      }
    }

    /** The rising-SCL branch of `_parse`: count the bit, shift SDA in, and act on
        the bit count. */
    method ClockBit(sda: Level)
      requires parcel != null
      modifies this, parcel
      ensures parcel == old(parcel) && packet == old(packet)
      ensures Snapshot() == Sample(old(Snapshot()), sda)
    {
      nbits := nbits + 1;
      value := 2 * value + sda;
      if nbits == 7 {
        parcel.SetAddress(value);
        value := 0;
      } else if nbits == 8 {
        parcel.SetIsRead(value == 1);
        value := 0;
      } else if (nbits - 10) % 9 + 1 == 8 {
        parcel.AddDataByte(value);
        value := 0;
      } else if (nbits - 10) % 9 + 1 == 9 {
        value := 0;
      }
    }

    /** The START branch of `_parse`: a new packet object on the first START, the
        old parcel attached on a repeated one, then a new parcel object. */
    method Start(clock: int)
      requires Consistent(Snapshot())
      modifies this, packet
      ensures packet != null && parcel != null && fresh(parcel)
      ensures old(packet) == null ==> fresh(packet)
      ensures old(packet) != null ==> packet == old(packet)
      ensures Snapshot() == StartCondition(old(Snapshot()), clock, epoch)
    {
      if packet == null {
        packet := new I2CPacket(clock, epoch);
      } else {
        packet.AddParcel(parcel);
      }
      parcel := new I2CParcel();
      nbits := 0;
      value := 0;
    }

    /** The STOP branch of `_parse`; returns the packet it pushed. */
    method Stop() returns (done: Packet)
      requires parcel != null && packet != null
      modifies this, packet
      ensures Snapshot() == StopCondition(old(Snapshot()))
      ensures packetHistory == old(packetHistory) + [done]
    {
      packet.AddParcel(parcel);
      done := packet.Value();
      parcel := null;
      packetHistory := packetHistory + [done];
      packet := null;
    }

    /** `_cb(gpio, level, tick)`: the changed line takes the new level, the other
        keeps its recorded one, and the pair goes to `_parse`. */
    method Callback(gpio: int, level: Level, clock: int) returns (completed: Option<Packet>)
      requires Valid()
      modifies this, packet, parcel
      ensures Valid()
      ensures Snapshot() == OnEdge(epoch, sclPin, sdaPin, old(Snapshot()), gpio, level, clock)
      ensures completed.Some? <==> |packetHistory| == |old(packetHistory)| + 1
      ensures completed.Some? ==> completed.value == packetHistory[|packetHistory| - 1]
      ensures completed.None? ==> packetHistory == old(packetHistory)
    {
      var scl := oldSCL;
      var sda := oldSDA;
      if gpio == sclPin {
        scl := level;
      }
      if gpio == sdaPin {
        sda := level;
      }
      completed := Parse(scl, sda, clock);
    }

    /** `getPacketHistory`: the completed packets, oldest first; each has at least
        one parcel, a 7-bit address and 8-bit data bytes in every parcel. */
    function GetPacketHistory(): (h: seq<Packet>)
      reads this, packet, parcel
      requires Valid()
      ensures h == packetHistory
      ensures forall i :: 0 <= i < |h| ==> |h[i].parcels| >= 1 && WellFormedPacket(h[i])
    {
      packetHistory
    }

    /** `getLastestPacket`: `packetHistory[len - 1]`, an IndexError on an empty
        history. */
    function LatestPacket(): (r: Result<Packet>)
      reads this
      ensures r.Ok? <==> |packetHistory| >= 1
      ensures r.Ok? ==> r.value == packetHistory[|packetHistory| - 1]
    {
      PyIndex(packetHistory, |packetHistory| - 1)
    }

    /** `getSecondLatestPacket`: `packetHistory[len - 2]`. With exactly one packet
        Python's negative index -1 returns that packet; an empty history raises. */
    function SecondLatestPacket(): (r: Result<Packet>)
      reads this
      ensures r.Ok? <==> |packetHistory| >= 1
      ensures |packetHistory| >= 2 ==> r.value == packetHistory[|packetHistory| - 2]
      ensures |packetHistory| == 1 ==> r.value == packetHistory[0]
    {
      PyIndex(packetHistory, |packetHistory| - 2)
    }

    /** `getLatestWithPredicate`: scans the history newest first and returns the
        first packet satisfying `pred`, or None when no packet does. */
    method LatestWithPredicate(pred: Packet -> bool) returns (r: Option<Packet>)
      ensures r.None? <==> forall i :: 0 <= i < |packetHistory| ==> !pred(packetHistory[i])
      ensures r.Some? ==> exists i :: 0 <= i < |packetHistory| && packetHistory[i] == r.value
                             && pred(r.value)
                             && forall j :: i < j < |packetHistory| ==> !pred(packetHistory[j])
    {
      var i := |packetHistory|;
      while i > 0
        invariant 0 <= i <= |packetHistory|
        invariant forall j :: i <= j < |packetHistory| ==> !pred(packetHistory[j])
      {
        i := i - 1;
        if pred(packetHistory[i]) {
          return Some(packetHistory[i]);
        }
      }
      return None;
    }
  }
}
