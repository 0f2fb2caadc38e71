/** Event sequences fed to the decoder, and what complete bus transactions decode
    to. One bit is clocked as the master does it: SDA is set while SCL is low,
    SCL rises (the sniffer samples SDA), SCL falls. */
module Traces {
  import opened Wrappers
  import opened Packets
  import opened Decoder

  /** One call of `_parse`: the two levels and the clock reading at that moment. */
  datatype Event = Event(scl: Level, sda: Level, clock: int)

  /** The decoder state after a sequence of events, one `_parse` call each. */
  function Run(epoch: int, s: State, evs: seq<Event>): (r: State)
    requires Consistent(s)
    ensures Consistent(r)
    decreases |evs|
  {
    if evs == [] then s
    else Run(epoch, Step(epoch, s, evs[0].scl, evs[0].sda, evs[0].clock), evs[1..])
  }

  lemma {:induction false} RunAppend(epoch: int, s: State, a: seq<Event>, b: seq<Event>)
    requires Consistent(s)
    ensures Run(epoch, s, a + b) == Run(epoch, Run(epoch, s, a), b)
    decreases |a|
  {
    if a == [] {
      assert a + b == b;
    } else {
      assert (a + b)[1..] == a[1..] + b;
      RunAppend(epoch, Step(epoch, s, a[0].scl, a[0].sda, a[0].clock), a[1..], b);
    }
  }

  /** Any event sequence keeps the decoder invariant. */
  lemma {:induction false} RunPreservesInv(epoch: int, s: State, evs: seq<Event>)
    requires Inv(s)
    ensures Inv(Run(epoch, s, evs))
    decreases |evs|
  {
    if evs != [] {
      StepPreservesInv(epoch, s, evs[0].scl, evs[0].sda, evs[0].clock);
      RunPreservesInv(epoch, Step(epoch, s, evs[0].scl, evs[0].sda, evs[0].clock), evs[1..]);
    }
  }

  /** The history is append-only: whatever the events, the old history is a
      prefix of the new one. */
  lemma {:induction false} RunExtendsHistory(epoch: int, s: State, evs: seq<Event>)
    requires Consistent(s)
    ensures |Run(epoch, s, evs).history| >= |s.history|
    ensures Run(epoch, s, evs).history[..|s.history|] == s.history
    decreases |evs|
  {
    if evs != [] {
      var s1 := Step(epoch, s, evs[0].scl, evs[0].sda, evs[0].clock);
      assert |s1.history| >= |s.history| && s1.history[..|s.history|] == s.history;
      RunExtendsHistory(epoch, s1, evs[1..]);
      var r := Run(epoch, s, evs);
      assert r.history[..|s.history|] == r.history[..|s1.history|][..|s.history|];
    }
  }

  /** The `w` low bits of `x`, most significant first, as I2C sends them. */
  function ToBits(x: nat, w: nat): (bs: seq<Level>)
    ensures |bs| == w
  {
    if w == 0 then [] else ToBits(x / 2, w - 1) + [x % 2]
  }

  /** One bit clocked by the master. */
  function ClockEvents(b: Level, t: int): seq<Event> {
    [Event(0, b, t), Event(1, b, t), Event(0, b, t)]
  }

  function BitEvents(bs: seq<Level>, t: int): seq<Event>
    decreases |bs|
  {
    if bs == [] then [] else BitEvents(bs[..|bs| - 1], t) + ClockEvents(bs[|bs| - 1], t)
  }

  /** A `w`-bit field with value `x`. */
  function FieldEvents(x: nat, w: nat, t: int): seq<Event> {
    BitEvents(ToBits(x, w), t)
  }

  lemma FieldEventsLast(x: nat, w: nat, t: int)
    requires w >= 1
    ensures FieldEvents(x, w, t) == FieldEvents(x / 2, w - 1, t) + ClockEvents(x % 2, t)
  {
    var bs := ToBits(x, w);
    assert bs[..w - 1] == ToBits(x / 2, w - 1);
  }

  /** Clocking one bit with SCL low and a parcel open is one `Sample`. */
  lemma ClockOneBit(epoch: int, s: State, b: Level, t: int)
    requires Consistent(s) && s.parcel.Some? && s.oldSCL == 0
    ensures Run(epoch, s, ClockEvents(b, t)) == Sample(s.(oldSDA := b), b)
  {
    var s1 := Step(epoch, s, 0, b, t);
    assert s1 == s.(oldSDA := b);
    var s2 := Step(epoch, s1, 1, b, t);
    assert s2 == Sample(s.(oldSCL := 1, oldSDA := b), b);
    var s3 := Step(epoch, s2, 0, b, t);
    assert s3 == s2.(oldSCL := 0);
    assert Run(epoch, s2, [Event(0, b, t)]) == s3;
    assert Run(epoch, s1, [Event(1, b, t), Event(0, b, t)]) == s3;
  }

  /** Running `a` and then clocking one bit is `a` followed by one `Sample`. */
  lemma ThenClock(epoch: int, s: State, a: seq<Event>, m: State, b: Level, t: int)
    requires Consistent(s) && Run(epoch, s, a) == m
    requires m.parcel.Some? && m.oldSCL == 0
    ensures Run(epoch, s, a + ClockEvents(b, t)) == Sample(m.(oldSDA := b), b)
  {
    RunAppend(epoch, s, a, ClockEvents(b, t));
    ClockOneBit(epoch, m, b, t);
  }

  /** Bits that the schedule only shifts accumulate, most significant first, into
      `value`. */
  lemma {:induction false} ShiftIn(epoch: int, s: State, x: nat, w: nat, t: int)
    requires Consistent(s) && s.parcel.Some? && s.oldSCL == 0 && s.value == 0
    requires x < Pow2(w)
    requires forall k :: s.nbits < k <= s.nbits + w ==> RoleOf(k) == Shift
    ensures Run(epoch, s, FieldEvents(x, w, t))
            == s.(nbits := s.nbits + w, value := x, oldSDA := if w == 0 then s.oldSDA else x % 2)
  {
    if w > 0 {
      var s1 := s.(nbits := s.nbits + w - 1, value := x / 2,
                  oldSDA := if w == 1 then s.oldSDA else (x / 2) % 2);
      assert RoleOf(s.nbits + w) == Shift;
      calc {
        Run(epoch, s, FieldEvents(x, w, t));
        { FieldEventsLast(x, w, t); }
        Run(epoch, s, FieldEvents(x / 2, w - 1, t) + ClockEvents(x % 2, t));
        { ShiftIn(epoch, s, x / 2, w - 1, t);
          ThenClock(epoch, s, FieldEvents(x / 2, w - 1, t), s1, x % 2, t); }
        Sample(s1.(oldSDA := x % 2), x % 2);
      }
    }
  }

  /** `Latch` overwrites the bit counter and the shift register, so their
      previous values do not matter. */
  lemma LatchIgnoresCounters(s: State, n: nat, v: nat, nbits: nat, value: nat)
    requires s.parcel.Some?
    ensures Latch(s.(nbits := nbits, value := value), n, v) == Latch(s, n, v)
  {
  }

  /** A `w`-bit field is shifted in and acted on by the role of its last bit. */
  lemma SendField(epoch: int, s: State, x: nat, w: nat, t: int)
    requires Consistent(s) && s.parcel.Some? && s.oldSCL == 0 && s.value == 0
    requires w >= 1 && x < Pow2(w)
    requires forall k :: s.nbits < k < s.nbits + w ==> RoleOf(k) == Shift
    ensures Run(epoch, s, FieldEvents(x, w, t)) == Latch(s.(oldSDA := x % 2), s.nbits + w, x)
  {
    var s1 := s.(nbits := s.nbits + w - 1, value := x / 2,
                oldSDA := if w == 1 then s.oldSDA else (x / 2) % 2);
    var s2 := s.(oldSDA := x % 2);
    calc {
      Run(epoch, s, FieldEvents(x, w, t));
      { FieldEventsLast(x, w, t); }
      Run(epoch, s, FieldEvents(x / 2, w - 1, t) + ClockEvents(x % 2, t));
      { ShiftIn(epoch, s, x / 2, w - 1, t);
        ThenClock(epoch, s, FieldEvents(x / 2, w - 1, t), s1, x % 2, t); }
      Sample(s1.(oldSDA := x % 2), x % 2);
      Latch(s1.(oldSDA := x % 2), s.nbits + w, 2 * (x / 2) + x % 2);
      { assert 2 * (x / 2) + x % 2 == x; }
      Latch(s1.(oldSDA := x % 2), s.nbits + w, x);
      { assert s1.(oldSDA := x % 2) == s2.(nbits := s.nbits + w - 1, value := x / 2);
        LatchIgnoresCounters(s2, s.nbits + w, x, s.nbits + w - 1, x / 2); }
      Latch(s2, s.nbits + w, x);
    }
  }

  /** Inside a data byte that starts after bit `n` (an ACK position): seven
      shifted bits, the byte at the eighth, the ACK at the ninth. */
  lemma ByteRoles(n: nat, j: nat)
    requires n >= 9 && (n - 9) % 9 == 0
    requires 1 <= j <= 9
    ensures RoleOf(n + j) == (if j <= 7 then Shift else if j == 8 then DataLatch else AckBit)
  {
    RoleSchedule(n + j);
    var k := (n - 9) / 9;
    assert n == 9 * k + 9;
    assert (n + j - 17) == 9 * k + (j - 8);
    assert (n + j - 9) == 9 * k + j;
  }

  /** A data byte followed by the receiver's ACK (0) or NACK (1). */
  function ByteEvents(d: nat, ack: Level, t: int): seq<Event> {
    FieldEvents(d, 8, t) + FieldEvents(ack, 1, t)
  }

  function BytesEvents(ds: seq<nat>, acks: seq<Level>, t: int): seq<Event>
    requires |acks| == |ds|
  {
    if ds == [] then [] else ByteEvents(ds[0], acks[0], t) + BytesEvents(ds[1..], acks[1..], t)
  }

  /** Running `a` to `m` and then `b` from `m` to `r` runs `a + b` to `r`. */
  lemma Chain(epoch: int, s: State, a: seq<Event>, b: seq<Event>, m: State, r: State)
    requires Consistent(s) && Run(epoch, s, a) == m && Consistent(m) && Run(epoch, m, b) == r
    ensures Run(epoch, s, a + b) == r
  {
    RunAppend(epoch, s, a, b);
  }

  /** The eight bits of a data byte after an ACK position latch the byte. */
  lemma SendDataBits(epoch: int, s: State, d: nat, t: int)
    requires Consistent(s) && s.parcel.Some? && s.oldSCL == 0 && s.value == 0
    requires s.nbits >= 9 && (s.nbits - 9) % 9 == 0
    requires d < 256
    ensures Run(epoch, s, FieldEvents(d, 8, t))
            == s.(nbits := s.nbits + 8, oldSDA := d % 2,
                  parcel := Some(s.parcel.value.AddDataByte(d)))
  {
    forall k | s.nbits < k < s.nbits + 8 ensures RoleOf(k) == Shift {
      ByteRoles(s.nbits, k - s.nbits);
    }
    ByteRoles(s.nbits, 8);
    assert Pow2(8) == 256;
    SendField(epoch, s, d, 8, t);
  }

  /** An ACK bit is counted and dropped. */
  lemma SendAck(epoch: int, s: State, ack: Level, t: int)
    requires Consistent(s) && s.parcel.Some? && s.oldSCL == 0 && s.value == 0
    requires RoleOf(s.nbits + 1) == AckBit
    ensures Run(epoch, s, FieldEvents(ack, 1, t)) == s.(nbits := s.nbits + 1, oldSDA := ack)
  {
    assert ack % 2 == ack;
    SendField(epoch, s, ack, 1, t);
  }

  /** One byte and its ACK bit: the byte is appended to the parcel, the ACK value
      is dropped, and nine bits are counted. */
  lemma SendByte(epoch: int, s: State, d: nat, ack: Level, t: int)
    requires Consistent(s) && s.parcel.Some? && s.oldSCL == 0 && s.value == 0
    requires s.nbits >= 9 && (s.nbits - 9) % 9 == 0
    requires d < 256
    ensures Run(epoch, s, ByteEvents(d, ack, t))
            == s.(nbits := s.nbits + 9, oldSDA := ack,
                  parcel := Some(s.parcel.value.AddDataByte(d)))
  {
    var s1 := s.(nbits := s.nbits + 8, oldSDA := d % 2,
                parcel := Some(s.parcel.value.AddDataByte(d)));
    assert Run(epoch, s1, FieldEvents(ack, 1, t)) == s1.(nbits := s.nbits + 9, oldSDA := ack) by {
      ByteRoles(s.nbits, 9);
      SendAck(epoch, s1, ack, t);
    }
    SendDataBits(epoch, s, d, t);
    RunAppend(epoch, s, FieldEvents(d, 8, t), FieldEvents(ack, 1, t));
  }

  /** One byte and its ACK bit followed by any events `e`. */
  lemma ByteThen(epoch: int, s: State, d: nat, ack: Level, t: int, e: seq<Event>, r: State)
    requires Consistent(s) && s.parcel.Some? && s.oldSCL == 0 && s.value == 0
    requires s.nbits >= 9 && (s.nbits - 9) % 9 == 0
    requires d < 256
    requires Run(epoch, s.(nbits := s.nbits + 9, oldSDA := ack,
                           parcel := Some(s.parcel.value.AddDataByte(d))), e) == r
    ensures Run(epoch, s, ByteEvents(d, ack, t) + e) == r
  {
    SendByte(epoch, s, d, ack, t);
    RunAppend(epoch, s, ByteEvents(d, ack, t), e);
  }

  /** The state `SendBytes` promises after `ds`, written as the state after the
      first byte followed by the promise for the rest. */
  lemma BytesNext(s: State, ds: seq<nat>, acks: seq<Level>)
    requires s.parcel.Some? && Bytes(ds) && |ds| >= 1 && |acks| == |ds|
    ensures Bytes(ds[1..])
    ensures var s1 := s.(nbits := s.nbits + 9, oldSDA := acks[0],
                         parcel := Some(s.parcel.value.AddDataByte(ds[0])));
            s1.(nbits := s1.nbits + 9 * |ds[1..]|,
                oldSDA := if ds[1..] == [] then s1.oldSDA else acks[1..][|acks[1..]| - 1],
                parcel := Some(s1.parcel.value.(data := s1.parcel.value.data + ds[1..])))
            == s.(nbits := s.nbits + 9 * |ds|,
                  oldSDA := acks[|acks| - 1],
                  parcel := Some(s.parcel.value.(data := s.parcel.value.data + ds)))
  {
    assert s.parcel.value.data + [ds[0]] + ds[1..] == s.parcel.value.data + ds;
  }

  /** A run of bytes, each with its ACK bit, appends exactly those bytes. */
  lemma {:induction false} SendBytes(epoch: int, s: State, ds: seq<nat>, acks: seq<Level>, t: int)
    requires Consistent(s) && s.parcel.Some? && s.oldSCL == 0 && s.value == 0
    requires s.nbits >= 9 && (s.nbits - 9) % 9 == 0
    requires Bytes(ds) && |acks| == |ds|
    ensures Run(epoch, s, BytesEvents(ds, acks, t))
            == s.(nbits := s.nbits + 9 * |ds|,
                  oldSDA := if ds == [] then s.oldSDA else acks[|acks| - 1],
                  parcel := Some(s.parcel.value.(data := s.parcel.value.data + ds)))
    decreases |ds|
  {
    if ds == [] {
      assert s.parcel.value.data + ds == s.parcel.value.data;
    } else {
      var e2 := BytesEvents(ds[1..], acks[1..], t);
      var s1 := s.(nbits := s.nbits + 9, oldSDA := acks[0],
                  parcel := Some(s.parcel.value.AddDataByte(ds[0])));
      var r := s.(nbits := s.nbits + 9 * |ds|,
                  oldSDA := acks[|acks| - 1],
                  parcel := Some(s.parcel.value.(data := s.parcel.value.data + ds)));
      assert Run(epoch, s1, e2) == r by {
        assert s.nbits + 9 - 9 == 9 * ((s.nbits - 9) / 9 + 1);
        BytesNext(s, ds, acks);
        SendBytes(epoch, s1, ds[1..], acks[1..], t);
      }
      ByteThen(epoch, s, ds[0], acks[0], t, e2, r);
    }
  }

  /** The state right after a START: a fresh parcel, counters at zero, SCL high
      and SDA low. */
  predicate JustStarted(s: State) {
    && s.packet.Some? && s.parcel == Some(FreshParcel)
    && s.nbits == 0 && s.value == 0 && s.oldSCL == 1 && s.oldSDA == 0
  }

  /** The header of a parcel after its START: SCL falls, the 7-bit address, the
      R/W bit and the receiver's ACK bit. */
  function HeaderEvents(address: nat, isRead: bool, ack: Level, t: int): seq<Event> {
    [Event(0, 0, t)]
    + FieldEvents(address, 7, t)
    + FieldEvents(if isRead then 1 else 0, 1, t)
    + FieldEvents(ack, 1, t)
  }

  /** SCL falls after the START, then seven bits latch the address; the
      direction keeps its default (read) until bit 8. */
  lemma SendAddress(epoch: int, s: State, address: nat, t: int)
    requires JustStarted(s) && address < 128
    ensures Run(epoch, s, [Event(0, 0, t)] + FieldEvents(address, 7, t))
            == s.(nbits := 7, oldSCL := 0, oldSDA := address % 2,
                  parcel := Some(Parcel(address, true, [])))
  {
    var e0 := [Event(0, 0, t)];
    var ea := FieldEvents(address, 7, t);
    var s0 := s.(oldSCL := 0);
    var s1 := s0.(nbits := 7, oldSDA := address % 2, parcel := Some(Parcel(address, true, [])));
    assert Run(epoch, s, e0) == s0;
    assert Run(epoch, s0, ea) == s1 by {
      forall k | s0.nbits < k < s0.nbits + 7 ensures RoleOf(k) == Shift {
        RoleSchedule(k);
      }
      assert Pow2(7) == 128;
      SendField(epoch, s0, address, 7, t);
    }
    Chain(epoch, s, e0, ea, s0, s1);
  }

  /** The header latches the address at bit 7 and the direction at bit 8 and
      drops the ACK at bit 9. */
  lemma SendHeader(epoch: int, s: State, address: nat, isRead: bool, ack: Level, t: int)
    requires JustStarted(s) && address < 128
    ensures Run(epoch, s, HeaderEvents(address, isRead, ack, t))
            == s.(nbits := 9, oldSCL := 0, oldSDA := ack, parcel := Some(Parcel(address, isRead, [])))
  {
    var rw: Level := if isRead then 1 else 0;
    var ea := [Event(0, 0, t)] + FieldEvents(address, 7, t);
    var er := FieldEvents(rw, 1, t);
    var ek := FieldEvents(ack, 1, t);
    var s1 := s.(nbits := 7, oldSCL := 0, oldSDA := address % 2,
                 parcel := Some(Parcel(address, true, [])));
    var s2 := s1.(nbits := 8, oldSDA := rw, parcel := Some(Parcel(address, isRead, [])));
    var s3 := s2.(nbits := 9, oldSDA := ack);
    assert Run(epoch, s, ea) == s1 by {
      SendAddress(epoch, s, address, t);
    }
    assert Run(epoch, s1, er) == s2 by {
      assert RoleOf(8) == DirectionLatch;
      assert rw % 2 == rw && (rw == 1) == isRead;
      SendField(epoch, s1, rw, 1, t);
      assert Latch(s1.(oldSDA := rw), 8, rw) == s2;
    }
    Chain(epoch, s, ea, er, s1, s2);
    assert Run(epoch, s2, ek) == s3 by {
      assert RoleOf(9) == AckBit;
      SendAck(epoch, s2, ack, t);
    }
    Chain(epoch, s, ea + er, ek, s2, s3);
  }

  /** The header followed by any events `eb`. */
  lemma HeaderThen(epoch: int, s: State, address: nat, isRead: bool, ack: Level, t: int,
                   eb: seq<Event>, r: State)
    requires JustStarted(s) && address < 128
    requires Run(epoch, s.(nbits := 9, oldSCL := 0, oldSDA := ack,
                           parcel := Some(Parcel(address, isRead, []))), eb) == r
    ensures Run(epoch, s, HeaderEvents(address, isRead, ack, t) + eb) == r
  {
    SendHeader(epoch, s, address, isRead, ack, t);
    RunAppend(epoch, s, HeaderEvents(address, isRead, ack, t), eb);
  }

  /** One parcel after its START: the header, then each data byte with its ACK.
      `acks` holds the ACK bit after the address and after each byte. */
  function ParcelEvents(address: nat, isRead: bool, ds: seq<nat>, acks: seq<Level>, t: int): seq<Event>
    requires |acks| == |ds| + 1
  {
    HeaderEvents(address, isRead, acks[0], t) + BytesEvents(ds, acks[1..], t)
  }

  /** A parcel body decodes to exactly that address, direction and data, whatever
      the ACK bits; 9 bits per byte follow the 9 header bits. */
  lemma SendParcel(epoch: int, s: State, address: nat, isRead: bool, ds: seq<nat>,
                   acks: seq<Level>, t: int)
    requires JustStarted(s)
    requires address < 128 && Bytes(ds) && |acks| == |ds| + 1
    ensures Run(epoch, s, ParcelEvents(address, isRead, ds, acks, t))
            == s.(nbits := 9 + 9 * |ds|, value := 0, oldSCL := 0,
                  oldSDA := acks[|acks| - 1],
                  parcel := Some(Parcel(address, isRead, ds)))
  {
    var eb := BytesEvents(ds, acks[1..], t);
    var s1 := s.(nbits := 9, oldSCL := 0, oldSDA := acks[0],
                parcel := Some(Parcel(address, isRead, [])));
    var r := s.(nbits := 9 + 9 * |ds|, value := 0, oldSCL := 0,
                oldSDA := acks[|acks| - 1],
                parcel := Some(Parcel(address, isRead, ds)));
    assert Run(epoch, s1, eb) == r by {
      SendBytes(epoch, s1, ds, acks[1..], t);
      assert [] + ds == ds;
    }
    HeaderThen(epoch, s, address, isRead, acks[0], t, eb, r);
  }

  /** A parcel body followed by any events `e`. */
  lemma ParcelThen(epoch: int, s: State, address: nat, isRead: bool, ds: seq<nat>,
                   acks: seq<Level>, t: int, e: seq<Event>, r: State)
    requires JustStarted(s)
    requires address < 128 && Bytes(ds) && |acks| == |ds| + 1
    requires Run(epoch, s.(nbits := 9 + 9 * |ds|, value := 0, oldSCL := 0,
                           oldSDA := acks[|acks| - 1],
                           parcel := Some(Parcel(address, isRead, ds))), e) == r
    ensures Run(epoch, s, ParcelEvents(address, isRead, ds, acks, t) + e) == r
  {
    SendParcel(epoch, s, address, isRead, ds, acks, t);
    RunAppend(epoch, s, ParcelEvents(address, isRead, ds, acks, t), e);
  }

  /** STOP as the master makes it: SDA low while SCL is low, SCL rises (one more
      bit is counted, which the schedule only shifts), then SDA rises. */
  function StopEvents(t: int): seq<Event> {
    [Event(0, 0, t), Event(1, 0, t), Event(1, 1, t)]
  }

  /** A repeated START: SDA high while SCL is low, SCL rises (one counted bit),
      then SDA falls. */
  function RepeatedStartEvents(t: int): seq<Event> {
    [Event(0, 1, t), Event(1, 1, t), Event(1, 0, t)]
  }

  /** A START from an idle bus: SDA falls while SCL is high. */
  function StartEvents(t: int): seq<Event> {
    [Event(1, 0, t)]
  }

  /** State at an ACK boundary with SCL low: where a parcel body leaves off. */
  predicate AtAckBoundary(s: State) {
    && s.packet.Some? && s.parcel.Some? && s.value == 0 && s.oldSCL == 0
    && s.nbits >= 9 && (s.nbits - 9) % 9 == 0
  }

  /** The STOP events push the open packet, with the open parcel appended. */
  lemma SendStop(epoch: int, s: State, t: int)
    requires AtAckBoundary(s)
    ensures Run(epoch, s, StopEvents(t))
            == s.(packet := None, parcel := None,
                  history := s.history + [s.packet.value.AddParcel(s.parcel.value)],
                  nbits := s.nbits + 1, oldSCL := 1, oldSDA := 1)
  {
    ByteRoles(s.nbits, 1);
    var s1 := Step(epoch, s, 0, 0, t);
    assert s1 == s.(oldSDA := 0);
    var s2 := Step(epoch, s1, 1, 0, t);
    assert s2 == s.(oldSCL := 1, oldSDA := 0, nbits := s.nbits + 1);
    var s3 := Step(epoch, s2, 1, 1, t);
    assert Run(epoch, s2, [Event(1, 1, t)]) == s3;
    assert Run(epoch, s1, [Event(1, 0, t), Event(1, 1, t)]) == s3;
  }

  /** A repeated START attaches the open parcel to the open packet and starts a
      fresh parcel. */
  lemma SendRepeatedStart(epoch: int, s: State, t: int)
    requires AtAckBoundary(s)
    ensures Run(epoch, s, RepeatedStartEvents(t))
            == s.(packet := Some(s.packet.value.AddParcel(s.parcel.value)),
                  parcel := Some(FreshParcel), nbits := 0, value := 0, oldSCL := 1, oldSDA := 0)
  {
    ByteRoles(s.nbits, 1);
    var s1 := Step(epoch, s, 0, 1, t);
    assert s1 == s.(oldSDA := 1);
    var s2 := Step(epoch, s1, 1, 1, t);
    assert s2 == s.(oldSCL := 1, oldSDA := 1, nbits := s.nbits + 1, value := 1);
    var s3 := Step(epoch, s2, 1, 0, t);
    assert Run(epoch, s2, [Event(1, 0, t)]) == s3;
    assert Run(epoch, s1, [Event(1, 1, t), Event(1, 0, t)]) == s3;
  }

  /** A repeated START followed by any events `e`. */
  lemma RepeatedStartThen(epoch: int, s: State, t: int, e: seq<Event>, r: State)
    requires AtAckBoundary(s)
    requires Run(epoch, s.(packet := Some(s.packet.value.AddParcel(s.parcel.value)),
                           parcel := Some(FreshParcel), nbits := 0, value := 0,
                           oldSCL := 1, oldSDA := 0), e) == r
    ensures Run(epoch, s, RepeatedStartEvents(t) + e) == r
  {
    SendRepeatedStart(epoch, s, t);
    RunAppend(epoch, s, RepeatedStartEvents(t), e);
  }

  /** The START from an idle bus opens a packet stamped with this event's clock. */
  lemma SendStart(epoch: int, s: State, t: int)
    requires Consistent(s) && s.packet.None? && s.oldSCL == 1 && s.oldSDA == 1
    ensures Run(epoch, s, StartEvents(t))
            == s.(packet := Some(Packet(t - epoch, [])), parcel := Some(FreshParcel),
                  nbits := 0, value := 0, oldSDA := 0)
  {
    assert Run(epoch, s, StartEvents(t)) == Step(epoch, s, 1, 0, t);
  }

  /** A START from an idle bus followed by any events `et`. */
  lemma StartThen(epoch: int, s: State, t: int, et: seq<Event>, r: State)
    requires Consistent(s) && s.packet.None? && s.oldSCL == 1 && s.oldSDA == 1
    requires Run(epoch, s.(packet := Some(Packet(t - epoch, [])), parcel := Some(FreshParcel),
                         nbits := 0, value := 0, oldSDA := 0), et) == r
    ensures Run(epoch, s, StartEvents(t) + et) == r
  {
    SendStart(epoch, s, t);
    RunAppend(epoch, s, StartEvents(t), et);
  }

  /** The last parcel of a packet, after its START, followed by the STOP: the
      parcel is attached and the packet pushed onto the history. */
  lemma SendLastParcel(epoch: int, s: State, address: nat, isRead: bool, ds: seq<nat>,
                       acks: seq<Level>, t: int)
    requires JustStarted(s)
    requires address < 128 && Bytes(ds) && |acks| == |ds| + 1
    ensures Run(epoch, s, ParcelEvents(address, isRead, ds, acks, t) + StopEvents(t))
            == s.(packet := None, parcel := None,
                  history := s.history + [s.packet.value.AddParcel(Parcel(address, isRead, ds))],
                  nbits := 10 + 9 * |ds|, oldSDA := 1)
  {
    var s1 := s.(nbits := 9 + 9 * |ds|, value := 0, oldSCL := 0,
                 oldSDA := acks[|acks| - 1],
                 parcel := Some(Parcel(address, isRead, ds)));
    var r := s.(packet := None, parcel := None,
                history := s.history + [s.packet.value.AddParcel(Parcel(address, isRead, ds))],
                nbits := 10 + 9 * |ds|, oldSDA := 1);
    assert Run(epoch, s1, StopEvents(t)) == r by {
      assert s1.nbits - 9 == 9 * |ds|;
      SendStop(epoch, s1, t);
    }
    ParcelThen(epoch, s, address, isRead, ds, acks, t, StopEvents(t), r);
  }

  /** `[AAW+RR+XX+...]`: START, address, W, the bytes, STOP. The START is at
      clock `t`, every later event at clock `u`. */
  function WriteTransaction(address: nat, ds: seq<nat>, acks: seq<Level>, t: int, u: int): seq<Event>
    requires |acks| == |ds| + 1
  {
    StartEvents(t) + (ParcelEvents(address, false, ds, acks, u) + StopEvents(u))
  }

  /** The decoder state after a write transaction on an idle bus. */
  lemma WriteRun(epoch: int, s: State, address: nat, ds: seq<nat>,
                 acks: seq<Level>, t: int, u: int)
    requires Consistent(s) && s.packet.None? && s.oldSCL == 1 && s.oldSDA == 1
    requires address < 128 && Bytes(ds) && |acks| == |ds| + 1
    ensures Run(epoch, s, StartEvents(t) + (ParcelEvents(address, false, ds, acks, u) + StopEvents(u)))
            == s.(history := s.history + [Packet(t - epoch, [Parcel(address, false, ds)])],
                  nbits := 10 + 9 * |ds|, value := 0)
  {
    var es := StartEvents(t);
    var et := ParcelEvents(address, false, ds, acks, u) + StopEvents(u);
    var pk := Packet(t - epoch, []);
    var s1 := s.(packet := Some(pk), parcel := Some(FreshParcel), nbits := 0, value := 0, oldSDA := 0);
    var p := Packet(t - epoch, [Parcel(address, false, ds)]);
    var r := s.(history := s.history + [p], nbits := 10 + 9 * |ds|, value := 0);
    assert Run(epoch, s1, et) == r by {
      SendLastParcel(epoch, s1, address, false, ds, acks, u);
      assert pk.AddParcel(Parcel(address, false, ds)) == p;
    }
    StartThen(epoch, s, t, et, r);
  }

  /** A write transaction on an idle bus pushes exactly one packet: one write
      parcel with that address and data, stamped at the START, not at the STOP;
      the register is the first byte and the payload the rest. */
  lemma WriteTransactionDecodes(epoch: int, s: State, address: nat, ds: seq<nat>,
                                acks: seq<Level>, t: int, u: int)
    requires Consistent(s) && s.packet.None? && s.oldSCL == 1 && s.oldSDA == 1
    requires address < 128 && Bytes(ds) && |acks| == |ds| + 1
    ensures var r := Run(epoch, s, WriteTransaction(address, ds, acks, t, u));
      var p := Packet(t - epoch, [Parcel(address, false, ds)]);
      && r == s.(history := s.history + [p], nbits := 10 + 9 * |ds|, value := 0)
      && p.IsWritePacket()
      && (|ds| >= 1 ==> p.GetRegister() == Ok(ds[0]) && p.GetData() == Ok(ds[1..]))
      && (|ds| == 0 ==> p.GetRegister() == Err(IndexError) && p.GetData() == Ok([]))
  {
    WriteRun(epoch, s, address, ds, acks, t, u);
    WritePacketOf(t - epoch, address, ds);
  }

  /** `[AAW+RR+[AAR+XX+...XX-]`: a write of the register byte, a repeated START, a
      read of the data bytes, STOP. */
  function ReadTransaction(address: nat, register: nat, ds: seq<nat>, acks: seq<Level>,
                           t: int, u: int): seq<Event>
    requires |acks| == |ds| + 3
  {
    StartEvents(t)
    + (ParcelEvents(address, false, [register], acks[..2], u)
       + (RepeatedStartEvents(u)
          + (ParcelEvents(address, true, ds, acks[2..], u) + StopEvents(u))))
  }

  /** The register-selecting write parcel of a read transaction, after its
      START, followed by any events `e`. */
  lemma RegisterThen(epoch: int, s: State, address: nat, register: nat, acks: seq<Level>,
                     t: int, e: seq<Event>, r: State)
    requires JustStarted(s) && address < 128 && register < 256 && |acks| == 2
    requires Run(epoch, s.(nbits := 18, oldSCL := 0, oldSDA := acks[1],
                           parcel := Some(Parcel(address, false, [register]))), e) == r
    ensures Run(epoch, s, ParcelEvents(address, false, [register], acks, t) + e) == r
  {
    assert Bytes([register]);
    ParcelThen(epoch, s, address, false, [register], acks, t, e, r);
  }

  /** The second half of a read transaction, from the ACK after the register
      byte: the repeated START, the read parcel and the STOP. */
  lemma ReadTail(epoch: int, s: State, address: nat, ds: seq<nat>, acks: seq<Level>, t: int)
    requires AtAckBoundary(s)
    requires address < 128 && Bytes(ds) && |acks| == |ds| + 1
    ensures Run(epoch, s, RepeatedStartEvents(t)
                          + (ParcelEvents(address, true, ds, acks, t) + StopEvents(t)))
            == s.(packet := None, parcel := None,
                  history := s.history + [s.packet.value.AddParcel(s.parcel.value)
                                                       .AddParcel(Parcel(address, true, ds))],
                  nbits := 10 + 9 * |ds|, value := 0, oldSCL := 1, oldSDA := 1)
  {
    var s3 := s.(packet := Some(s.packet.value.AddParcel(s.parcel.value)),
                 parcel := Some(FreshParcel), nbits := 0, value := 0, oldSCL := 1, oldSDA := 0);
    var et := ParcelEvents(address, true, ds, acks, t) + StopEvents(t);
    var r := s.(packet := None, parcel := None,
                history := s.history + [s.packet.value.AddParcel(s.parcel.value)
                                                     .AddParcel(Parcel(address, true, ds))],
                nbits := 10 + 9 * |ds|, value := 0, oldSCL := 1, oldSDA := 1);
    assert Run(epoch, s3, et) == r by {
      SendLastParcel(epoch, s3, address, true, ds, acks, t);
    }
    RepeatedStartThen(epoch, s, t, et, r);
  }

  /** A read transaction after its START: the register write, the repeated
      START, the read parcel and the STOP. */
  lemma ReadAfterStart(epoch: int, s: State, address: nat, register: nat, ds: seq<nat>,
                       acks: seq<Level>, t: int)
    requires JustStarted(s) && s.packet.value.parcels == []
    requires address < 128 && register < 256 && Bytes(ds) && |acks| == |ds| + 3
    ensures Run(epoch, s, ParcelEvents(address, false, [register], acks[..2], t)
                          + (RepeatedStartEvents(t)
                             + (ParcelEvents(address, true, ds, acks[2..], t) + StopEvents(t))))
            == s.(packet := None, parcel := None,
                  history := s.history + [Packet(s.packet.value.timestamp,
                                                 [Parcel(address, false, [register]),
                                                  Parcel(address, true, ds)])],
                  nbits := 10 + 9 * |ds|, value := 0, oldSCL := 1, oldSDA := 1)
  {
    var e := RepeatedStartEvents(t)
             + (ParcelEvents(address, true, ds, acks[2..], t) + StopEvents(t));
    var w := Parcel(address, false, [register]);
    var p := Packet(s.packet.value.timestamp, [w, Parcel(address, true, ds)]);
    var s2 := s.(nbits := 18, oldSCL := 0, oldSDA := acks[..2][1], parcel := Some(w));
    var r := s.(packet := None, parcel := None, history := s.history + [p],
                nbits := 10 + 9 * |ds|, value := 0, oldSCL := 1, oldSDA := 1);
    assert Run(epoch, s2, e) == r by {
      ReadTail(epoch, s2, address, ds, acks[2..], t);
      assert s.packet.value.AddParcel(w).AddParcel(Parcel(address, true, ds)) == p;
    }
    RegisterThen(epoch, s, address, register, acks[..2], t, e, r);
  }

  /** The decoder state after a read transaction on an idle bus. */
  lemma ReadRun(epoch: int, s: State, address: nat, register: nat, ds: seq<nat>,
                acks: seq<Level>, t: int, u: int)
    requires Consistent(s) && s.packet.None? && s.oldSCL == 1 && s.oldSDA == 1
    requires address < 128 && register < 256 && Bytes(ds) && |acks| == |ds| + 3
    ensures Run(epoch, s, StartEvents(t) + (ParcelEvents(address, false, [register], acks[..2], u)
                          + (RepeatedStartEvents(u)
                             + (ParcelEvents(address, true, ds, acks[2..], u) + StopEvents(u)))))
            == s.(history := s.history + [Packet(t - epoch, [Parcel(address, false, [register]),
                                                             Parcel(address, true, ds)])],
                  nbits := 10 + 9 * |ds|, value := 0)
  {
    var e := ParcelEvents(address, false, [register], acks[..2], u)
             + (RepeatedStartEvents(u)
                + (ParcelEvents(address, true, ds, acks[2..], u) + StopEvents(u)));
    var s1 := s.(packet := Some(Packet(t - epoch, [])), parcel := Some(FreshParcel),
                 nbits := 0, value := 0, oldSDA := 0);
    var r := s.(history := s.history + [Packet(t - epoch, [Parcel(address, false, [register]),
                                                           Parcel(address, true, ds)])],
                nbits := 10 + 9 * |ds|, value := 0);
    assert Run(epoch, s1, e) == r by {
      ReadAfterStart(epoch, s1, address, register, ds, acks, u);
    }
    StartThen(epoch, s, t, e, r);
  }

  /** A read transaction on an idle bus pushes exactly one read packet: the write
      parcel with the register, then the read parcel with the data, stamped at
      the first START, whatever the ACK/NACK bits were. */
  lemma ReadTransactionDecodes(epoch: int, s: State, address: nat, register: nat, ds: seq<nat>,
                               acks: seq<Level>, t: int, u: int)
    requires Consistent(s) && s.packet.None? && s.oldSCL == 1 && s.oldSDA == 1
    requires address < 128 && register < 256 && Bytes(ds) && |acks| == |ds| + 3
    ensures var r := Run(epoch, s, ReadTransaction(address, register, ds, acks, t, u));
      var p := Packet(t - epoch, [Parcel(address, false, [register]), Parcel(address, true, ds)]);
      && r == s.(history := s.history + [p], nbits := 10 + 9 * |ds|, value := 0)
      && p.IsReadPacket()
      && p.GetRegister() == Ok(register) && p.GetData() == Ok(ds)
  {
    ReadRun(epoch, s, address, register, ds, acks, t, u);
    ReadPacketOf(t - epoch, address, register, ds);
  }
}
