/** The bit-level state machine of `I2CSniffer._parse`, as a pure step function on
    a value-level decoder state. The class in module Sniffer is proved to follow
    it step by step. */
module Decoder {
  import opened Wrappers
  import opened Packets

  /** A line level as the sniffer sees it: 0 (low) or 1 (high). */
  type Level = b: nat | b <= 1

  /** The edge classification, `FALLING`, `RISING` or `STEADY` in the source. */
  datatype Edge = Falling | Rising | Steady

  /** The role the bit count gives to a rising SCL edge. */
  datatype Role = AddressLatch | DirectionLatch | DataLatch | AckBit | Shift

  /** The decoder's fields (`packet`, `parcel`, `packetHistory`, `oldSCL`, `oldSDA`,
      `value`, `nbits`). */
  datatype State = State(
    packet: Option<Packet>,
    parcel: Option<Parcel>,
    history: seq<Packet>,
    oldSCL: Level,
    oldSDA: Level,
    value: nat,
    nbits: nat)

  /** The state after construction: both lines idle high, nothing in progress. */
  const Initial := State(None, None, [], 1, 1, 0, 0)

  /** The edge of one line, from its previous level to its new one. */
  function Classify(before: Level, after: Level): (e: Edge)
    ensures e == Rising <==> before == 0 && after == 1
    ensures e == Falling <==> before == 1 && after == 0
    ensures e == Steady <==> before == after
  {
    if after != before then (if after == 1 then Rising else Falling) else Steady
  }

  /** The bit-count dispatch of `_parse`: 7 is the address, 8 the R/W bit, and
      after that `(n - 10) % 9 + 1` picks out data bytes (8) and ACK bits (9).
      Dafny's `%` agrees with Python's for the positive divisor 9. */
  function RoleOf(n: nat): Role {
    if n == 7 then AddressLatch
    else if n == 8 then DirectionLatch
    else if (n - 10) % 9 + 1 == 8 then DataLatch
    else if (n - 10) % 9 + 1 == 9 then AckBit
    else Shift
  }

  /** The bit schedule counted from the START: address at bit 7, direction at
      bit 8, an ACK at every bit 9 + 9k and a data byte at every bit 17 + 9k. */
  lemma RoleSchedule(n: nat)
    requires n >= 1
    ensures RoleOf(n) == AddressLatch <==> n == 7
    ensures RoleOf(n) == DirectionLatch <==> n == 8
    ensures RoleOf(n) == DataLatch <==> n >= 17 && (n - 17) % 9 == 0
    ensures RoleOf(n) == AckBit <==> n >= 9 && (n - 9) % 9 == 0
  {
    if n >= 9 {
      var k := (n - 9) / 9;
      var m := (n - 9) % 9;
      assert n == 9 * k + m + 9;
      assert (n - 10) % 9 == (m + 8) % 9;
    }
  }

  /** Number of bits in `value` since it was last reset. */
  function Pending(n: nat): nat {
    if n <= 6 then n
    else if n <= 8 then 0
    else if (n - 9) % 9 == 8 then 0
    else (n - 9) % 9
  }

  /** Number of data bytes a parcel holds after `n` bits (`(n - 8) / 9`). */
  function DataCount(n: nat): nat {
    if n < 8 then 0 else (n - 8) / 9
  }

  function Pow2(k: nat): (r: nat)
    ensures r >= 1
  {
    if k == 0 then 1 else 2 * Pow2(k - 1)
  }

  /** `packet` is open exactly when `parcel` is. */
  predicate Consistent(s: State) {
    s.packet.Some? <==> s.parcel.Some?
  }

  /** The invariant every reachable decoder state satisfies. */
  ghost predicate Inv(s: State) {
    && Consistent(s)
    && s.value < Pow2(Pending(s.nbits))
    && (s.parcel.Some? ==>
          && WellFormedParcel(s.parcel.value)
          && |s.parcel.value.data| == DataCount(s.nbits)
          && (s.nbits < 7 ==> s.parcel.value.address == 0)
          && (s.nbits < 8 ==> s.parcel.value.isRead))
    && (s.packet.Some? ==> WellFormedPacket(s.packet.value))
    && forall i :: 0 <= i < |s.history| ==>
         |s.history[i].parcels| >= 1 && WellFormedPacket(s.history[i])
  }

  /** What a bit does once it is in `v`, given the role of bit `n`: latch the
      address, the direction or a data byte and reset `value`, drop an ACK, or
      keep shifting. */
  function Latch(s: State, n: nat, v: nat): (r: State)
    requires s.parcel.Some?
    ensures r.parcel.Some? && r.nbits == n
    ensures r.packet == s.packet && r.history == s.history
    ensures r.oldSCL == s.oldSCL && r.oldSDA == s.oldSDA
  {
    var p := s.parcel.value;
    match RoleOf(n)
    case AddressLatch => s.(nbits := n, value := 0, parcel := Some(p.SetAddress(v)))
    case DirectionLatch => s.(nbits := n, value := 0, parcel := Some(p.SetIsRead(v == 1)))
    case DataLatch => s.(nbits := n, value := 0, parcel := Some(p.AddDataByte(v)))
    case AckBit => s.(nbits := n, value := 0)
    case Shift => s.(nbits := n, value := v)
  }

  /** A rising SCL edge with an open parcel: count the bit and shift SDA into
      `value` (`(value << 1) | SDA` is `2 * value + SDA` for SDA in {0, 1}). */
  function Sample(s: State, sda: Level): (r: State)
    requires s.parcel.Some?
    ensures r.parcel.Some? && r.nbits == s.nbits + 1
    ensures r.packet == s.packet && r.history == s.history
  {
    Latch(s, s.nbits + 1, 2 * s.value + sda)
  }

  /** START: open a packet (stamped now) if none is open, otherwise attach the
      current parcel to it; then begin a fresh parcel and reset the counters. */
  function StartCondition(s: State, clock: int, epoch: int): (r: State)
    requires Consistent(s)
    ensures r.packet.Some? && r.parcel == Some(FreshParcel)
    ensures r.nbits == 0 && r.value == 0 && r.history == s.history
  {
    var packet := if s.packet.None? then NewPacket(clock, epoch)
                  else s.packet.value.AddParcel(s.parcel.value);
    s.(packet := Some(packet), parcel := Some(FreshParcel), nbits := 0, value := 0)
  }

  /** STOP with an open parcel: attach it, push the packet onto the history and
      close both. `nbits` and `value` are left as they are. */
  function StopCondition(s: State): (r: State)
    requires s.parcel.Some? && s.packet.Some?
    ensures r.packet.None? && r.parcel.None?
    ensures |r.history| == |s.history| + 1 && r.history[..|s.history|] == s.history
    ensures r.history[|s.history|] == s.packet.value.AddParcel(s.parcel.value)
  {
    var packet := s.packet.value.AddParcel(s.parcel.value);
    s.(parcel := None, packet := None, history := s.history + [packet])
  }

  /** `_parse(SCL, SDA)`; `clock` is what `time.time()` would return should a
      packet be created, and `epoch` is `I2CPacket.startTimestamp`. */
  function Step(epoch: int, s: State, scl: Level, sda: Level, clock: int): (r: State)
    requires Consistent(s)
    ensures Consistent(r)
    ensures r.oldSCL == scl && r.oldSDA == sda
  {
    var xSCL := Classify(s.oldSCL, scl);
    var xSDA := Classify(s.oldSDA, sda);
    var s' := s.(oldSCL := scl, oldSDA := sda);
    if xSCL == Rising && s.parcel.Some? then
      Sample(s', sda)
    else if xSCL == Steady && scl == 1 then
      if xSDA == Falling then
        StartCondition(s', clock, epoch)
      else if xSDA == Rising && s.parcel.Some? then
        StopCondition(s')
      else
        s'
    else
      s'
  }

  /** An event that is neither a clocked bit, nor a START, nor a STOP with an
      open parcel only records the new levels. */
  lemma StepIgnoresOtherEvents(epoch: int, s: State, scl: Level, sda: Level, clock: int)
    requires Consistent(s)
    requires !(Classify(s.oldSCL, scl) == Rising && s.parcel.Some?)
    requires !(Classify(s.oldSCL, scl) == Steady && scl == 1 && Classify(s.oldSDA, sda) == Falling)
    requires !(Classify(s.oldSCL, scl) == Steady && scl == 1 && Classify(s.oldSDA, sda) == Rising
               && s.parcel.Some?)
    ensures Step(epoch, s, scl, sda, clock) == s.(oldSCL := scl, oldSDA := sda)
  {
  }

  /** Feeding the levels already recorded changes nothing at all. */
  lemma StepSameLevels(epoch: int, s: State, clock: int)
    requires Consistent(s)
    ensures Step(epoch, s, s.oldSCL, s.oldSDA, clock) == s
  {
  }

  /** START (SDA falls while SCL stays high) resets the counters and opens a
      fresh parcel; a first START creates an empty packet stamped at this very
      event, a repeated START attaches the previous parcel to the open packet. */
  lemma StartEffect(epoch: int, s: State, sda: Level, clock: int)
    requires Consistent(s)
    requires s.oldSCL == 1 && s.oldSDA == 1 && sda == 0
    ensures var r := Step(epoch, s, 1, sda, clock);
      && r.parcel == Some(Parcel(0, true, []))
      && r.nbits == 0 && r.value == 0 && r.history == s.history
      && (s.packet.None? ==> r.packet == Some(Packet(clock - epoch, [])))
      && (s.packet.Some? ==>
            r.packet == Some(Packet(s.packet.value.timestamp,
                                    s.packet.value.parcels + [s.parcel.value])))
  {
  }

  /** STOP (SDA rises while SCL stays high) with an open parcel appends exactly
      one packet, that packet ends with the parcel, and earlier history is kept. */
  lemma StopEffect(epoch: int, s: State, sda: Level, clock: int)
    requires Consistent(s) && s.parcel.Some?
    requires s.oldSCL == 1 && s.oldSDA == 0 && sda == 1
    ensures var r := Step(epoch, s, 1, sda, clock);
      && r.packet.None? && r.parcel.None?
      && r.history == s.history + [Packet(s.packet.value.timestamp,
                                          s.packet.value.parcels + [s.parcel.value])]
      && r.nbits == s.nbits && r.value == s.value
  {
  }

  /** A STOP without an open parcel is ignored. */
  lemma StopWithoutParcel(epoch: int, s: State, clock: int)
    requires Consistent(s) && s.parcel.None?
    requires s.oldSCL == 1 && s.oldSDA == 0
    ensures Step(epoch, s, 1, 1, clock) == s.(oldSDA := 1)
  {
  }

  /** A clocked bit counts one bit and shifts SDA in; on its role it latches the
      address (bit 7), the direction (bit 8, a read iff SDA is 1), a data byte or
      an ACK, resetting `value`; otherwise `value` doubles plus the bit. The
      packet and history are untouched, so are address and direction once latched. */
  lemma SampleEffect(epoch: int, s: State, sda: Level, clock: int)
    requires Consistent(s) && s.parcel.Some? && s.oldSCL == 0
    ensures var r := Step(epoch, s, 1, sda, clock);
      var p, n, v := s.parcel.value, s.nbits + 1, 2 * s.value + sda;
      && r.nbits == n && r.packet == s.packet && r.history == s.history
      && r.parcel.Some?
      && r.value == (if RoleOf(n) == Shift then v else 0)
      && r.parcel.value.address == (if n == 7 then v else p.address)
      && r.parcel.value.isRead == (if n == 8 then v == 1 else p.isRead)
      && r.parcel.value.data == (if RoleOf(n) == DataLatch then p.data + [v] else p.data)
    ensures Inv(s) && s.nbits == 7 ==>
      Step(epoch, s, 1, sda, clock).parcel.value.isRead == (sda == 1)
  {
  }

  /** How `Pending` and `DataCount` move from one bit count to the next. */
  lemma CountersNext(n: nat)
    ensures RoleOf(n + 1) == Shift ==> Pending(n + 1) == Pending(n) + 1
    ensures RoleOf(n + 1) != Shift ==> Pending(n + 1) == 0
    ensures RoleOf(n + 1) == AddressLatch ==> Pending(n) == 6
    ensures RoleOf(n + 1) == DirectionLatch ==> Pending(n) == 0
    ensures RoleOf(n + 1) == DataLatch ==> Pending(n) == 7
    ensures DataCount(n + 1) == DataCount(n) + (if RoleOf(n + 1) == DataLatch then 1 else 0)
    ensures RoleOf(n + 1) == Shift ==> n + 1 != 7 && n + 1 != 8
  {
    RoleSchedule(n + 1);
    if n >= 9 {
      var k := (n - 9) / 9;
      var m := (n - 9) % 9;
      assert n == 9 * k + m + 9;
      if m == 8 {
        assert (n + 1 - 9) % 9 == 0;
      } else {
        assert (n + 1 - 9) % 9 == m + 1;
        assert (n + 1 - 9) / 9 == k;
      }
      assert (n - 8) / 9 == k + (if m == 8 then 1 else 0);
      assert (n + 1 - 8) / 9 == k + (if m >= 7 then 1 else 0);
    }
  }

  /** A clocked bit keeps the invariant. */
  lemma SamplePreservesInv(s: State, sda: Level)
    requires Inv(s) && s.parcel.Some?
    ensures Inv(Sample(s, sda))
  {
    CountersNext(s.nbits);
    assert Pow2(Pending(s.nbits) + 1) == 2 * Pow2(Pending(s.nbits));
    var n, v := s.nbits + 1, 2 * s.value + sda;
    assert v < Pow2(Pending(s.nbits) + 1);
    var p := s.parcel.value;
    var r := Sample(s, sda);
    match RoleOf(n)
    case AddressLatch =>
      assert r == s.(nbits := n, value := 0, parcel := Some(p.SetAddress(v)));
    case DirectionLatch =>
      assert r == s.(nbits := n, value := 0, parcel := Some(p.SetIsRead(v == 1)));
    case DataLatch =>
      assert v < 256;
      assert r == s.(nbits := n, value := 0, parcel := Some(p.AddDataByte(v)));
    case AckBit =>
      assert r == s.(nbits := n, value := 0);
    case Shift =>
      assert r == s.(nbits := n, value := v);
  }

  /** START keeps the invariant. */
  lemma StartPreservesInv(s: State, clock: int, epoch: int)
    requires Inv(s)
    ensures Inv(StartCondition(s, clock, epoch))
  {
    var r := StartCondition(s, clock, epoch);
    if s.packet.Some? {
      assert r.packet.value == s.packet.value.AddParcel(s.parcel.value);
    }
  }

  /** STOP keeps the invariant; the packet it pushes has at least one parcel. */
  lemma StopPreservesInv(s: State)
    requires Inv(s) && s.parcel.Some? && s.packet.Some?
    ensures Inv(StopCondition(s))
  {
    var r := StopCondition(s);
    var pk := s.packet.value.AddParcel(s.parcel.value);
    assert WellFormedPacket(pk);
    forall i | 0 <= i < |r.history|
      ensures |r.history[i].parcels| >= 1 && WellFormedPacket(r.history[i])
    {
      if i < |s.history| {
        assert r.history[i] == s.history[i];
      }
    }
  }

  /** Every `_parse` step keeps the invariant: `packet` open iff `parcel` open,
      `value` below 2 to the number of bits since its reset, a 7-bit address and
      8-bit bytes in every parcel, exactly `DataCount(nbits)` bytes in the open
      parcel, and at least one parcel in every packet of the history. */
  lemma StepPreservesInv(epoch: int, s: State, scl: Level, sda: Level, clock: int)
    requires Inv(s)
    ensures Inv(Step(epoch, s, scl, sda, clock))
  {
    var xSCL := Classify(s.oldSCL, scl);
    var xSDA := Classify(s.oldSDA, sda);
    var s' := s.(oldSCL := scl, oldSDA := sda);
    assert Inv(s');
    if xSCL == Rising && s.parcel.Some? {
      SamplePreservesInv(s', sda);
    } else if xSCL == Steady && scl == 1 && xSDA == Falling {
      StartPreservesInv(s', clock, epoch);
    } else if xSCL == Steady && scl == 1 && xSDA == Rising && s.parcel.Some? {
      StopPreservesInv(s');
    }
  }

  /** The state after construction satisfies the invariant. */
  lemma InitialInv()
    ensures Inv(Initial)
  {
  }
}
