# pi2c-sniffer decoder, modelled in Dafny

`pi2c-sniffer.py` is a software I2C bus sniffer. It watches the SCL (clock) and
SDA (data) lines. From the order of their level changes alone it reconstructs
the bus traffic:

- START conditions (SDA falls while SCL stays high);
- STOP conditions (SDA rises while SCL stays high);
- the 7-bit slave address, the R/W bit and the data bytes, each byte followed
  by an ACK bit (section 3.1 of NXP UM10204, the I2C-bus specification).

A *parcel* (`I2CParcel`) is one address/direction burst with its data bytes. A
*packet* (`I2CPacket`) is the list of parcels between a START and a STOP. Each
finished packet is appended to the sniffer's `packetHistory`.

This project models that core:

- `wrappers.dfy`: `Option`, `Result`, and Python's list indexing and `[1:]`
  slicing.
- `packets.dfy` (module `Packets`): parcels and packets as values (`Parcel`,
  `Packet`) with the classification queries (`isWritePacket`,
  `isReadPacket`, `getRegister`, `getData`). The classes `I2CParcel` and
  `I2CPacket` are the objects the decoder fills in. Their mutating methods
  are proved to change the object's value as the value-level functions say.
- `render.dfy` (module `Render`): the parcel's text form
  (`I2CParcel.__str__`), proved to be readable back.
- `decoder.dfy` (module `Decoder`): `_parse` as a pure step function `Step`
  over a state value. It holds the edge classifier and the bit-count schedule,
  and proves the state invariant that every step keeps.
- `sniffer.dfy` (module `Sniffer`): the class `I2CSniffer`. Its fields mirror
  the Python object's fields; the open packet and parcel are `I2CPacket` and
  `I2CParcel` objects, or null. The methods `Parse` (`_parse`) and `Callback`
  (`_cb`) update those fields in place and are proved to follow `Step`. The
  history queries are functions on the class, plus a loop method for
  `getLatestWithPredicate`.
- `traces.dfy` (module `Traces`): event sequences, meaning repeated `_parse`
  calls. It proves that a complete write transaction `[AAW+RR+XX+...]` and a
  complete read transaction `[AAW+RR+[AAR+XX+...]` each decode into exactly
  one packet, with the expected parcels and classification.
- `retiming.dfy` (module `Retiming`): the decoder reads the clock only at the
  START that opens a packet, so those transaction results hold for captures
  whose events carry any clock readings after that START.

Behaviour of the code worth knowing:

- A packet's timestamp is taken when the packet object is created. That happens
  at the first START of the transaction (`I2CPacket()` at line 171), not at
  the STOP that closes it. `Decoder.StartEffect` and the trace lemmas state
  this.
- `getSecondLatestPacket` indexes `len - 2`. On a history of exactly one
  packet, Python's negative index returns that packet rather than failing. An
  empty history raises `IndexError`, modelled as `Err(IndexError)`.
- `getLatestWithPredicate` returns `None` when no packet matches.
- `getRegister` raises `IndexError` when the first parcel holds no data byte.
  The decoder produces such packets: an address-only transfer `[AAW+]`, or a
  read `[AAW+[AAR+XX-]` without a register byte. `firstParcel` and `getData`
  raise on a packet without parcels, which the decoder never pushes to the
  history.
- The watchdog level 2 is not filtered by `_cb`, so levels are restricted to
  0 and 1 by their type `Level`.

## Model

| member | source | states |
|---|---|---|
| `Wrappers.PyIndex` | pi2c-sniffer.py:126-130 | Python's `xs[i]`: defined exactly for `-len <= i < len`, negative indices count from the end, otherwise `IndexError` |
| `Wrappers.PyDropFirst` | pi2c-sniffer.py:55 | `xs[1:]`: empty on an empty list, otherwise the first element followed by the result rebuilds `xs` |
| `Packets.Parcel.SetAddress` | pi2c-sniffer.py:77-78 | only the address changes, to the given value |
| `Packets.Parcel.SetIsRead` | pi2c-sniffer.py:80-81 | only the direction changes, to the given value |
| `Packets.Parcel.AddDataByte` | pi2c-sniffer.py:83-84 | the data grows by exactly the byte at its end; earlier bytes, address and direction are kept |
| `Packets.Packet.AddParcel` | pi2c-sniffer.py:38-39 | the parcel list grows by exactly the given parcel at its end; earlier parcels and the timestamp are kept |
| `Packets.I2CParcel.constructor` | pi2c-sniffer.py:72-75 | a new parcel object holds exactly the given address, direction and data |
| `Packets.I2CParcel.SetAddress` | pi2c-sniffer.py:77-78 | the object's address is replaced in place; direction and data are kept |
| `Packets.I2CParcel.SetIsRead` | pi2c-sniffer.py:80-81 | the object's direction is replaced in place; address and data are kept |
| `Packets.I2CParcel.AddDataByte` | pi2c-sniffer.py:83-84 | the byte is appended in place to the object's data |
| `Packets.I2CPacket.constructor` | pi2c-sniffer.py:34-36 | a new packet object has no parcels and is stamped with the clock reading minus the epoch |
| `Packets.I2CPacket.AddParcel` | pi2c-sniffer.py:38-39 | the parcel's current value is appended in place to the object's parcel list |
| `Packets.Packet.FirstParcel` | pi2c-sniffer.py:41-42 | the parcel at index 0 exactly when there is one, otherwise `IndexError` |
| `Packets.Packet.GetRegister` | pi2c-sniffer.py:52-53 | the first data byte of the first parcel exactly when the packet has a parcel and that parcel has data, otherwise `IndexError` |
| `Packets.Packet.GetData` | pi2c-sniffer.py:54-55 | a result exactly when the packet has a parcel, otherwise `IndexError`; its value for every packet with a parcel is stated by `RegisterThenData` (not a read packet) and `ReadPacketData` (a read packet) |
| `Packets.Packet.SecondParcel` | pi2c-sniffer.py:44-45 | None exactly when there are fewer than two parcels, otherwise the parcel at index 1 |
| `Packets.Packet.IsWritePacket` | pi2c-sniffer.py:47-48 | decides that the packet has exactly one parcel and that it is a write; `WritePacketOf` shows a single write parcel is one, `WriteAndReadExclusive` that such a packet is never a read packet and has no second parcel, and `RegisterThenData` what its register and payload are |
| `Packets.Packet.IsReadPacket` | pi2c-sniffer.py:49-50 | decides that the packet has exactly two parcels, a write followed by a read; `ReadPacketOf` shows a register write followed by a read is one, `ReadPacketData` that its payload is the read parcel's data, and `WriteAndReadExclusive` that it is never a write packet |
| `Packets.NewPacket` | pi2c-sniffer.py:34-36 | a new packet has no parcels and a timestamp equal to the clock reading minus the session epoch |
| `Packets.WriteAndReadExclusive` | pi2c-sniffer.py:44-50 | no packet is both a write packet and a read packet; a write packet has no second parcel |
| `Packets.WritePacketOf` | pi2c-sniffer.py:47-55 | one write parcel is a write packet and not a read packet; its register is the first data byte and its payload the remaining bytes; with no data the register is an `IndexError` and the payload empty |
| `Packets.ReadPacketOf` | pi2c-sniffer.py:49-55 | a write parcel holding the register followed by a read parcel is a read packet and not a write packet, with that register and the read parcel's data as payload |
| `Packets.RegisterThenData` | pi2c-sniffer.py:52-55 | for a packet with a parcel that is not a read packet, the payload is always a result; when the first parcel has data, the register byte followed by the payload is exactly that data, and when it has none the payload is empty |
| `Packets.ReadPacketData` | pi2c-sniffer.py:49-55 | a read packet's payload is its second parcel's data; its first parcel is a write and its second a read |
| `Render.HexRoundTrip` | pi2c-sniffer.py:87-91 | the hex digits of a number read back as that number; at most two digits exactly for values below 256 |
| `Render.Format02XRoundTrip` | pi2c-sniffer.py:87-91 | `{:02X}` reads back as the number it renders, and is exactly two digits wide exactly for values below 256 |
| `Render.JoinLayout` | pi2c-sniffer.py:90 | joining four-character byte strings with ", " places item `i` at offset `6i` and takes `6n - 2` characters |
| `Render.HeaderDecodes` | pi2c-sniffer.py:87-89 | the header is eight characters; its letter is 'R' exactly for a read and 'W' exactly for a write, and the address reads back from characters 4-5 |
| `Render.DataDecodes` | pi2c-sniffer.py:90 | the joined data list has length `6n - 2` (0 when empty), and byte `i` is "0x" plus its two hex digits at offset `6i` |
| `Render.ParcelStringDecodes` | pi2c-sniffer.py:86-91 | a parcel with a 7-bit address and 8-bit bytes renders in a fixed layout from which the direction, the address and every data byte read back |
| `Decoder.Classify` | pi2c-sniffer.py:138-148 | RISING exactly for 0 to 1, FALLING exactly for 1 to 0, STEADY exactly when the level is unchanged |
| `Decoder.RoleOf` | pi2c-sniffer.py:155-166 | the role of bit `n` in the `elif` chain, with Python's `(n - 10) % 9 + 1` (Dafny's `%` agrees for the divisor 9); `RoleSchedule` states the schedule it yields in closed form |
| `Decoder.RoleSchedule` | pi2c-sniffer.py:155-166 | counted from the START, bit 7 is the address, bit 8 the R/W bit, ACK bits fall exactly at `9 + 9k` and data bytes exactly at `17 + 9k` |
| `Decoder.Latch` | pi2c-sniffer.py:155-166 | acting on a bit keeps the parcel open, sets the bit count, and leaves the packet, the history and the recorded levels alone |
| `Decoder.Sample` | pi2c-sniffer.py:151-166 | a clocked bit counts exactly one more bit and leaves the packet and the history alone |
| `Decoder.StartCondition` | pi2c-sniffer.py:169-177 | START leaves an open packet and a fresh parcel (address 0, read, no data), zero counters and the history unchanged |
| `Decoder.StopCondition` | pi2c-sniffer.py:179-185 | STOP closes packet and parcel and appends exactly one packet to the history, the open packet with the open parcel appended; earlier entries are kept |
| `Decoder.Step` | pi2c-sniffer.py:137-185 | after `_parse(SCL, SDA)` the recorded levels are SCL and SDA, and a packet is open exactly when a parcel is |
| `Decoder.StepIgnoresOtherEvents` | pi2c-sniffer.py:151-185 | an event that is not a clocked bit with an open parcel, not a START, and not a STOP with an open parcel only records the new levels |
| `Decoder.StepSameLevels` | pi2c-sniffer.py:137-148 | feeding the levels already recorded changes nothing |
| `Decoder.StartEffect` | pi2c-sniffer.py:168-177 | START gives a fresh parcel and zero counters; a first START creates an empty packet stamped at this event; a repeated START appends the previous parcel to the open packet, which grows by exactly one |
| `Decoder.StopEffect` | pi2c-sniffer.py:179-185 | STOP with an open parcel appends exactly the open packet plus the parcel to the history, closes both, and keeps the bit count and the value |
| `Decoder.StopWithoutParcel` | pi2c-sniffer.py:179 | a STOP with no open parcel only records the new SDA level |
| `Decoder.SampleEffect` | pi2c-sniffer.py:151-166 | a clocked bit shifts SDA in and counts it; bit 7 latches the address, bit 8 the direction (read exactly when the bit is 1), data bits append a byte; `value` resets after each latch and otherwise is `2 * value + SDA` |
| `Decoder.CountersNext` | pi2c-sniffer.py:151-166 | from one bit to the next, the number of pending bits in `value` grows by one or resets at a latch, and the data count grows exactly at a data latch |
| `Decoder.SamplePreservesInv` | pi2c-sniffer.py:151-166 | a clocked bit keeps the invariant, including `value < 2^(pending bits)`, address < 128 and data bytes < 256 |
| `Decoder.StartPreservesInv` | pi2c-sniffer.py:169-177 | START keeps the invariant |
| `Decoder.StopPreservesInv` | pi2c-sniffer.py:179-185 | STOP keeps the invariant; the packet it pushes has at least one parcel |
| `Decoder.StepPreservesInv` | pi2c-sniffer.py:137-185 | every `_parse` step keeps the invariant: packet open iff parcel open, bounded `value`, 7-bit addresses, 8-bit bytes, exactly `(nbits - 8) / 9` bytes in the open parcel, at least one parcel in every packet of the history |
| `Decoder.InitialInv` | pi2c-sniffer.py:105-113 | the freshly constructed sniffer satisfies the invariant |
| `Sniffer.CallbackLevels` | pi2c-sniffer.py:195-202 | the changed pin's line takes the new level; the other line keeps its recorded level |
| `Sniffer.OnEdge` | pi2c-sniffer.py:195-204 | `_cb` on the decoder state: afterwards the changed line's recorded level is the new one, the other line's is unchanged, and packet-open-iff-parcel-open still holds; `ForeignPinIgnored`, `SdaEdgeNeverSamples` and `SclEdgeNeverFrames` state what each kind of change can do |
| `Sniffer.ForeignPinIgnored` | pi2c-sniffer.py:190-204 | a level change on a pin that is neither SCL nor SDA changes nothing |
| `Sniffer.SdaEdgeNeverSamples` | pi2c-sniffer.py:190-204 | an SDA change never clocks a bit: the levels record SDA's new level; when it is a START (SDA falls while SCL was high) the counters reset and a fresh parcel opens, otherwise the counters stay unchanged |
| `Sniffer.SclEdgeNeverFrames` | pi2c-sniffer.py:190-204 | an SCL change is never a START or a STOP: the packet, the history and whether a parcel is open are unchanged |
| `Sniffer.I2CSniffer.constructor` | pi2c-sniffer.py:105-113 | nothing in progress, empty history, both lines recorded high, zero counters; the invariant holds |
| `Sniffer.I2CSniffer.Parse` | pi2c-sniffer.py:137-188 | the fields change exactly as `Step` says and the invariant is kept; the completed packet is returned exactly when the history grew by one, and it is the new last entry |
| `Sniffer.I2CSniffer.ClockBit` | pi2c-sniffer.py:151-166 | the rising-SCL branch updates the fields exactly as `Sample` |
| `Sniffer.I2CSniffer.Start` | pi2c-sniffer.py:169-177 | the START branch updates the fields exactly as `StartCondition` |
| `Sniffer.I2CSniffer.Stop` | pi2c-sniffer.py:179-185 | the STOP branch updates the fields exactly as `StopCondition` and returns the packet it appended |
| `Sniffer.I2CSniffer.Callback` | pi2c-sniffer.py:190-204 | `_cb` updates the fields as `Step` on the levels from `CallbackLevels` and keeps the invariant; it returns the packet a STOP completed, and when it returns none the history is unchanged |
| `Sniffer.I2CSniffer.GetPacketHistory` | pi2c-sniffer.py:123-124 | the history; every packet in it has at least one parcel, 7-bit addresses and 8-bit data bytes |
| `Sniffer.I2CSniffer.LatestPacket` | pi2c-sniffer.py:126-127 | the last packet exactly when the history is non-empty, otherwise `IndexError` |
| `Sniffer.I2CSniffer.SecondLatestPacket` | pi2c-sniffer.py:129-130 | element `len - 2` when there are at least two packets, the only packet when there is one, `IndexError` when there are none |
| `Sniffer.I2CSniffer.LatestWithPredicate` | pi2c-sniffer.py:132-135 | None exactly when no packet satisfies the predicate; otherwise a packet of the history that satisfies it, with no later packet satisfying it |
| `Traces.Run` | pi2c-sniffer.py:137-188 | a sequence of `_parse` calls keeps "packet open iff parcel open" |
| `Traces.RunAppend` | pi2c-sniffer.py:137-188 | running two event sequences one after the other is running their concatenation |
| `Traces.RunPreservesInv` | pi2c-sniffer.py:137-188 | any event sequence keeps the decoder invariant |
| `Traces.RunExtendsHistory` | pi2c-sniffer.py:184 | the history is append-only: the old history is a prefix of the new one |
| `Traces.ShiftIn` | pi2c-sniffer.py:151-153 | bits the schedule only shifts accumulate in `value`, most significant first |
| `Traces.SendField` | pi2c-sniffer.py:151-166 | a `w`-bit field is shifted in and acted on by the role of its last bit |
| `Traces.SendByte` | pi2c-sniffer.py:161-166 | a data byte and its ACK bit append exactly that byte and drop the ACK, whatever its level |
| `Traces.SendBytes` | pi2c-sniffer.py:161-166 | a run of bytes, each with an ACK, appends exactly those bytes in order |
| `Traces.SendHeader` | pi2c-sniffer.py:155-160 | after a START the address bits latch the address at bit 7 and the R/W bit latches the direction at bit 8 |
| `Traces.SendParcel` | pi2c-sniffer.py:151-166 | a parcel body decodes to exactly that address, direction and data |
| `Traces.SendStop` | pi2c-sniffer.py:179-185 | the STOP pushes the open packet with the open parcel appended |
| `Traces.SendRepeatedStart` | pi2c-sniffer.py:169-177 | a repeated START attaches the open parcel to the open packet and opens a fresh parcel |
| `Traces.SendStart` | pi2c-sniffer.py:169-177 | a START on an idle bus opens an empty packet stamped with this event's clock |
| `Traces.WriteTransactionDecodes` | pi2c-sniffer.py:24-26 | `[AAW+RR+XX+...]` on an idle bus appends exactly one packet: one write parcel with address AA and the bytes sent, stamped at the START; it is a write packet with register RR and the remaining bytes as payload; an address-only `[AAW+]` gives a packet whose register is an `IndexError`; the events after the START carry one clock reading, and `Retiming.WriteTransactionAnyClocks` lifts that |
| `Traces.ReadTransactionDecodes` | pi2c-sniffer.py:20-22 | `[AAW+RR+[AAR+XX+...]` on an idle bus appends exactly one read packet, with register RR and the read bytes as payload, stamped at the first START, whatever the ACK/NACK bits were; the events after the START carry one clock reading, and `Retiming.ReadTransactionAnyClocks` lifts that |
| `Retiming.StepClockFree` | pi2c-sniffer.py:137-185 | with a packet open, an event's effect does not depend on the clock reading: only `I2CPacket()` at a START reads the clock |
| `Retiming.Retime` | pi2c-sniffer.py:137-185 | two captures with the same levels whose clock readings agree at every event that arrives with no packet open decode to the same state |
| `Retiming.StaysOpen` | pi2c-sniffer.py:179-185 | an open packet stays open through events none of which is a STOP (SDA rising while SCL is high) |
| `Retiming.RetimeTransaction` | pi2c-sniffer.py:169-185 | a START on an idle bus followed by events with no STOP before the last decodes the same whatever the clock readings after the START |
| `Retiming.WriteTransactionAnyClocks` | pi2c-sniffer.py:24-26 | any capture with the levels of `[AAW+RR+XX+...]` and the START's clock reading appends the same single write packet as `WriteTransactionDecodes`, whatever the later clock readings |
| `Retiming.ReadTransactionAnyClocks` | pi2c-sniffer.py:20-22 | any capture with the levels of `[AAW+RR+[AAR+XX+...]` and the first START's clock reading appends the same single read packet as `ReadTransactionDecodes`, whatever the later clock readings |

## Left out

- pigpio plumbing: the `set_mode` calls, `__del__`, `start`, `stop` and
  `sniff` (lines 115-121 and 206-219) are hardware I/O and foreign library
  calls. The levels arrive as parameters of `Parse` and `Callback`.
- Wall-clock time: `time.time()` and the class-level `startTimestamp`
  (lines 32-35). The current time is a `clock` parameter and the epoch is a
  constant of the sniffer. Timestamps are integers rather than float seconds.
- `I2CPacket.__str__` (lines 57-62): float seconds and microseconds through
  `math.floor`.
- The demo `onPacketCallback` and its module-level globals (lines 222-251):
  printing and a floating-point running average.
- Invoking the user callback (lines 187-188): it is arbitrary foreign code.
  `Parse` and `Callback` return the completed packet instead.
- Identity of attached parcels, of packets in the history, and of the
  history list that `getPacketHistory` returns: once attached, a parcel is
  stored in its packet by value, the history holds packets by value, and
  `GetPacketHistory` returns the list's value rather than the live list that
  `sniff` hands out. The decoder never touches a parcel after attaching it: it creates a
  new `I2CParcel` on every START and drops its references on STOP. The
  history therefore cannot be changed through an alias inside the core.
  Mutation of a packet by the user callback after it has entered the history
  is not captured.
- pigpio watchdog events (level 2): levels are restricted to 0 and 1.
- `(value << 1) | SDA` is written `2 * value + SDA`, which agrees for SDA in
  {0, 1}.
- Concurrency between the two pigpio callbacks: calls are strictly
  sequential.
- The predicate of `getLatestWithPredicate` is a pure total function on
  packets. A Python predicate with side effects, or one that compares object
  identity (`p != p1` in the demo), is not captured.
