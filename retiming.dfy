/** Clock readings in a capture. The decoder reads the clock only when a START
    opens a packet (`I2CPacket()` at the first START), so the transaction
    results in module Traces hold for captures whose events carry any clock
    readings after that START. */
module Retiming {
  import opened Wrappers
  import opened Packets
  import opened Decoder
  import opened Traces

  /** With a packet open, a `_parse` step does not read the clock. */
  lemma StepClockFree(epoch: int, s: State, scl: Level, sda: Level, c1: int, c2: int)
    requires Consistent(s) && s.packet.Some?
    ensures Step(epoch, s, scl, sda, c1) == Step(epoch, s, scl, sda, c2)
  {
  }

  /** Two captures with the same levels, event by event. */
  predicate SameLevels(a: seq<Event>, b: seq<Event>) {
    |a| == |b| && forall k :: 0 <= k < |a| ==> a[k].scl == b[k].scl && a[k].sda == b[k].sda
  }

  /** Captures with the same levels whose clocks agree at every event that
      arrives with no packet open run to the same state. */
  lemma {:induction false} Retime(epoch: int, s: State, a: seq<Event>, b: seq<Event>)
    requires Consistent(s) && SameLevels(a, b)
    requires forall k :: 0 <= k < |a| && Run(epoch, s, a[..k]).packet.None? ==> a[k].clock == b[k].clock
    ensures Run(epoch, s, a) == Run(epoch, s, b)
    decreases |a|
  {
    if a != [] {
      assert a[..0] == [];
      if s.packet.Some? {
        StepClockFree(epoch, s, a[0].scl, a[0].sda, a[0].clock, b[0].clock);
      }
      var s1 := Step(epoch, s, a[0].scl, a[0].sda, a[0].clock);
      assert s1 == Step(epoch, s, b[0].scl, b[0].sda, b[0].clock);
      forall k | 0 <= k < |a[1..]| && Run(epoch, s1, a[1..][..k]).packet.None?
        ensures a[1..][k].clock == b[1..][k].clock
      {
        assert a[..k + 1][1..] == a[1..][..k];
        assert Run(epoch, s, a[..k + 1]) == Run(epoch, s1, a[1..][..k]);
      }
      Retime(epoch, s1, a[1..], b[1..]);
    }
  }

  /** No event of `e` is a STOP, when the levels before it were `scl`, `sda`:
      SDA never rises while SCL stays high. */
  predicate StopFree(scl: Level, sda: Level, e: seq<Event>)
    decreases |e|
  {
    e == [] || (!(scl == 1 && sda == 0 && e[0].scl == 1 && e[0].sda == 1)
                && StopFree(e[0].scl, e[0].sda, e[1..]))
  }

  /** Stop-free whatever the levels before it. */
  predicate AlwaysStopFree(e: seq<Event>) {
    forall scl: Level, sda: Level :: StopFree(scl, sda, e)
  }

  lemma {:induction false} StopFreeAppend(scl: Level, sda: Level, a: seq<Event>, b: seq<Event>)
    requires StopFree(scl, sda, a) && AlwaysStopFree(b)
    ensures StopFree(scl, sda, a + b)
    decreases |a|
  {
    if a == [] {
      assert a + b == b;
    } else {
      assert (a + b)[1..] == a[1..] + b;
      StopFreeAppend(a[0].scl, a[0].sda, a[1..], b);
    }
  }

  lemma AlwaysStopFreeAppend(a: seq<Event>, b: seq<Event>)
    requires AlwaysStopFree(a) && AlwaysStopFree(b)
    ensures AlwaysStopFree(a + b)
  {
    forall scl: Level, sda: Level ensures StopFree(scl, sda, a + b) {
      StopFreeAppend(scl, sda, a, b);
    }
  }

  /** A clocked bit: SDA is only set while SCL is low. */
  lemma ClockStopFree(bit: Level, t: int)
    ensures AlwaysStopFree(ClockEvents(bit, t))
  {
    var e := ClockEvents(bit, t);
    forall scl: Level, sda: Level ensures StopFree(scl, sda, e) {
      assert e[1..][1..][1..] == [];
      assert StopFree(e[1].scl, e[1].sda, e[1..][1..]);
    }
  }

  lemma {:induction false} BitsStopFree(bs: seq<Level>, t: int)
    ensures AlwaysStopFree(BitEvents(bs, t))
    decreases |bs|
  {
    if bs == [] {
      forall scl: Level, sda: Level ensures StopFree(scl, sda, BitEvents(bs, t)) { }
    } else {
      BitsStopFree(bs[..|bs| - 1], t);
      ClockStopFree(bs[|bs| - 1], t);
      AlwaysStopFreeAppend(BitEvents(bs[..|bs| - 1], t), ClockEvents(bs[|bs| - 1], t));
    }
  }

  lemma {:induction false} BytesStopFree(ds: seq<nat>, acks: seq<Level>, t: int)
    requires |acks| == |ds|
    ensures AlwaysStopFree(BytesEvents(ds, acks, t))
    decreases |ds|
  {
    if ds == [] {
      forall scl: Level, sda: Level ensures StopFree(scl, sda, BytesEvents(ds, acks, t)) { }
    } else {
      BitsStopFree(ToBits(ds[0], 8), t);
      BitsStopFree(ToBits(acks[0], 1), t);
      AlwaysStopFreeAppend(FieldEvents(ds[0], 8, t), FieldEvents(acks[0], 1, t));
      BytesStopFree(ds[1..], acks[1..], t);
      AlwaysStopFreeAppend(ByteEvents(ds[0], acks[0], t), BytesEvents(ds[1..], acks[1..], t));
    }
  }

  /** A parcel body (after its START) never looks like a STOP. */
  lemma ParcelStopFree(address: nat, isRead: bool, ds: seq<nat>, acks: seq<Level>, t: int)
    requires |acks| == |ds| + 1
    ensures AlwaysStopFree(ParcelEvents(address, isRead, ds, acks, t))
  {
    var fall := [Event(0, 0, t)];
    forall scl: Level, sda: Level ensures StopFree(scl, sda, fall) {
      assert fall[1..] == [];
    }
    BitsStopFree(ToBits(address, 7), t);
    BitsStopFree(ToBits(if isRead then 1 else 0, 1), t);
    BitsStopFree(ToBits(acks[0], 1), t);
    AlwaysStopFreeAppend(fall, FieldEvents(address, 7, t));
    AlwaysStopFreeAppend(fall + FieldEvents(address, 7, t), FieldEvents(if isRead then 1 else 0, 1, t));
    AlwaysStopFreeAppend(fall + FieldEvents(address, 7, t) + FieldEvents(if isRead then 1 else 0, 1, t),
                         FieldEvents(acks[0], 1, t));
    BytesStopFree(ds, acks[1..], t);
    AlwaysStopFreeAppend(HeaderEvents(address, isRead, acks[0], t), BytesEvents(ds, acks[1..], t));
  }

  /** Everything of a STOP but its last event, and all of a repeated START. */
  lemma FramingStopFree(t: int)
    ensures AlwaysStopFree(StopEvents(t)[..2])
    ensures AlwaysStopFree(RepeatedStartEvents(t))
  {
    var p := StopEvents(t)[..2];
    var q := RepeatedStartEvents(t);
    forall scl: Level, sda: Level ensures StopFree(scl, sda, p) && StopFree(scl, sda, q) {
      assert p[1..][1..] == [];
      assert q[1..][1..][1..] == [];
      assert StopFree(q[1].scl, q[1].sda, q[1..][1..]);
    }
  }

  /** A packet that is open stays open through events none of which is a
      STOP. */
  lemma {:induction false} StaysOpen(epoch: int, m: State, e: seq<Event>, j: nat)
    requires Consistent(m) && m.packet.Some? && StopFree(m.oldSCL, m.oldSDA, e)
    requires j <= |e|
    ensures Run(epoch, m, e[..j]).packet.Some?
    decreases j
  {
    if j > 0 {
      var m1 := Step(epoch, m, e[0].scl, e[0].sda, e[0].clock);
      assert e[..j][1..] == e[1..][..j - 1];
      StaysOpen(epoch, m1, e[1..], j - 1);
    }
  }

  /** A transaction on an idle bus, START then `rest`, where `rest` has no STOP
      before its last event: any capture with the same levels and the START's
      clock decodes to the same state, whatever the later clock readings. */
  lemma RetimeTransaction(epoch: int, s: State, t: int, rest: seq<Event>, evs: seq<Event>)
    requires Consistent(s) && s.packet.None? && s.oldSCL == 1 && s.oldSDA == 1
    requires |rest| >= 1 && AlwaysStopFree(rest[..|rest| - 1])
    requires SameLevels(evs, StartEvents(t) + rest) && evs[0].clock == t
    ensures Run(epoch, s, evs) == Run(epoch, s, StartEvents(t) + rest)
  {
    var a := StartEvents(t) + rest;
    var s1 := Step(epoch, s, 1, 0, t);
    forall k | 0 <= k < |a| && Run(epoch, s, a[..k]).packet.None?
      ensures a[k].clock == evs[k].clock
    {
      if k > 0 {
        assert a[..k] == StartEvents(t) + rest[..|rest| - 1][..k - 1];
        RunAppend(epoch, s, StartEvents(t), rest[..|rest| - 1][..k - 1]);
        assert Run(epoch, s, StartEvents(t)) == s1;
        StaysOpen(epoch, s1, rest[..|rest| - 1], k - 1);
        assert false;
      }
    }
    Retime(epoch, s, a, evs);
  }

  /** `[AAW+RR+XX+...]` with any clock readings after the START decodes to the
      same single write packet, stamped with the START's clock. */
  lemma WriteTransactionAnyClocks(epoch: int, s: State, address: nat, ds: seq<nat>,
                                  acks: seq<Level>, t: int, u: int, evs: seq<Event>)
    requires Consistent(s) && s.packet.None? && s.oldSCL == 1 && s.oldSDA == 1
    requires address < 128 && Bytes(ds) && |acks| == |ds| + 1
    requires SameLevels(evs, WriteTransaction(address, ds, acks, t, u)) && evs[0].clock == t
    ensures Run(epoch, s, evs)
            == s.(history := s.history + [Packet(t - epoch, [Parcel(address, false, ds)])],
                  nbits := 10 + 9 * |ds|, value := 0)
  {
    var body := ParcelEvents(address, false, ds, acks, u);
    var rest := body + StopEvents(u);
    assert rest[..|rest| - 1] == body + StopEvents(u)[..2];
    ParcelStopFree(address, false, ds, acks, u);
    FramingStopFree(u);
    AlwaysStopFreeAppend(body, StopEvents(u)[..2]);
    RetimeTransaction(epoch, s, t, rest, evs);
    WriteTransactionDecodes(epoch, s, address, ds, acks, t, u);
  }

  /** `[AAW+RR+[AAR+XX+...]` with any clock readings after the first START
      decodes to the same single read packet, stamped with that START's clock. */
  lemma ReadTransactionAnyClocks(epoch: int, s: State, address: nat, register: nat, ds: seq<nat>,
                                 acks: seq<Level>, t: int, u: int, evs: seq<Event>)
    requires Consistent(s) && s.packet.None? && s.oldSCL == 1 && s.oldSDA == 1
    requires address < 128 && register < 256 && Bytes(ds) && |acks| == |ds| + 3
    requires SameLevels(evs, ReadTransaction(address, register, ds, acks, t, u)) && evs[0].clock == t
    ensures Run(epoch, s, evs)
            == s.(history := s.history + [Packet(t - epoch, [Parcel(address, false, [register]),
                                                             Parcel(address, true, ds)])],
                  nbits := 10 + 9 * |ds|, value := 0)
  {
    var p1 := ParcelEvents(address, false, [register], acks[..2], u);
    var p2 := ParcelEvents(address, true, ds, acks[2..], u);
    var rs := RepeatedStartEvents(u);
    var rest := p1 + (rs + (p2 + StopEvents(u)));
    assert rest[..|rest| - 1] == p1 + (rs + (p2 + StopEvents(u)[..2]));
    ParcelStopFree(address, false, [register], acks[..2], u);
    ParcelStopFree(address, true, ds, acks[2..], u);
    FramingStopFree(u);
    AlwaysStopFreeAppend(p2, StopEvents(u)[..2]);
    AlwaysStopFreeAppend(rs, p2 + StopEvents(u)[..2]);
    AlwaysStopFreeAppend(p1, rs + (p2 + StopEvents(u)[..2]));
    RetimeTransaction(epoch, s, t, rest, evs);
    ReadTransactionDecodes(epoch, s, address, register, ds, acks, t, u);
  }
}
