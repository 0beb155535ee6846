# WaterRower S4 serial decoder, modelled in Dafny

This project models the decoder at the heart of the WaterRower S4 bridge: the
`readAndDispatch` handler of the `S4` object (`s41.js`). The handler reads the
S4's serial protocol one byte at a time. It keeps a parse state `next` and a
single telemetry record `e` on the object, and it calls `event.notify(e)` when a
record is complete. The protocol has four messages:

- `0xFE d`: distance covered, in 0.1 m units. It is added to `distance_dm`. A zero `d` is the idle signal: it sets stroke rate and speed to 0 and emits the record.
- `0xFF r s`: strokes per minute, then speed in 0.1 m/s units. The speed byte emits the record.
- `0xFC`: end of power stroke. It carries no data for the record.
- `0xFB b`: heart rate. The byte is read and discarded.

Any other byte read while a command is awaited is skipped.

Files and modules:

- `telemetry.dfy` (`Telemetry`): bytes, `Option`, and the record `Snapshot`. Its keys `strokes_per_min` and `speed_dm_s` are `Option`s, because they are absent until first written. `distance_dm` is an unbounded `nat`.
- `protocol.dfy` (`Protocol`): the pure transition function `Step` and `Run`, its fold over a chunk. The source keeps the parse state as a string. The model has one constructor for each of the five strings the decoder assigns (`"CMD"`, `"distance_dm"`, `"strokes_per_min"`, `"speed_dm_s"`, `"BPM"`), and `Other(s)` for any other string `s`. So the `default` branch that calls `event.error` is modelled, and its unreachability is proved rather than built into a type.
- `protocol_properties.dfy` (`ProtocolProperties`): the properties. They cover each message, when and what is emitted, chunking invariance, and the unreachable error branch.
- `rower.dfy` (`Rower`): the class `S4`. Its fields are `next`, `e` and `log`, the calls made on `self.event` in order. `Dispatch` is the body of the source's `for ... of` loop, the `switch` that rewrites `next` and the fields of `e` in place; it is proved equal to `Step`. `ReadAndDispatch` is the loop, calling `Dispatch` once per byte, and is proved equal to `Run`.

Each `event.notify(self.e)` is recorded as a value copy of the record at that moment.

## Model

| member | source | states |
|---|---|---|
| `Protocol.Step` | s41.js:46-95 | One byte. The `default` error branch is taken exactly when the state is not one of the five named ones, and a known state stays known. A record is emitted exactly after a speed byte or after a zero distance byte, and the emitted record is the record as updated by that byte. The distance grows by exactly the byte's value in state `distance_dm` and is untouched otherwise. The distance, speed and heart-rate bytes return to `CMD`. |
| `Protocol.Run` | s41.js:43-97 | One call on a chunk. It makes at most one event call per byte, and `distance_dm` never decreases. |
| `Rower.S4.constructor` | s41.js:35-42 | The object starts in `CMD` with the record `{distance_dm: 0}` (the other two keys absent) and no events, and it is valid. |
| `Rower.S4.Dispatch` | s41.js:46-95 | One byte. The new `next` and `e`, and the call added to the log, are exactly those of `Step`, in every state including the `default` branch. A valid object stays valid. |
| `Rower.S4.ReadAndDispatch` | s41.js:43-97 | The new `next` and `e` are exactly those of `Run` from the old ones, whatever state the object was in. The log grows by exactly `Run`'s events. A valid object stays valid, so a constructed object never calls `event.error`. |
| `Rower.ChunkedCallsMatchWhole` | s41.js:38-46 | Two objects end with the same `next`, `e` and event log when one is fed `a` then `b` in two calls and the other is fed `a + b` in one call. |
| `ProtocolProperties.RunAppend` | s41.js:45-96 | Running `a + b` equals running `a`, then running `b` from where `a` left the state and the record, with `b`'s events after `a`'s. |
| `ProtocolProperties.RunCons` | s41.js:45-96 | Running `[c] + data` is one `Step` on `c` followed by running `data`. |
| `ProtocolProperties.ChunkingInvariance` | s41.js:38-46 | For any cutting of the stream into successive calls, the final state, the final record and the emitted sequence equal one call on the whole stream. |
| `ProtocolProperties.InitialConsistent` | s41.js:38-41 | The constructor's state `CMD` with `{distance_dm: 0}` satisfies the decoder invariant. |
| `ProtocolProperties.StepConsistent` | s41.js:46-95 | From a consistent state, one byte keeps it consistent and never takes the error branch. Any record it emits carries both a stroke rate and a speed. |
| `ProtocolProperties.RunConsistent` | s41.js:46-95 | From a consistent state, for any bytes, `next` stays one of the five named states and no `event.error` call happens. Every emitted record carries both a stroke rate and a speed. |
| `ProtocolProperties.UnknownStateStays` | s41.js:93-95 | From a state outside the five, a string that is none of the five names, every byte gives exactly one call `event.error('Unknown state "<state>"')`, and neither the state nor the record changes. |
| `ProtocolProperties.EmittedDistancesMonotone` | s41.js:82-88 | Each emitted distance lies between the distance before the call and the distance after it, and later emissions never carry a smaller distance. |
| `ProtocolProperties.DistanceMessage` | s41.js:82-90 | `0xFE c` grows `distance_dm` by exactly `c` and returns to `CMD`. If `c` is 0, rate and speed become 0 and exactly one snapshot, the new record, is emitted. Otherwise nothing is emitted and both fields stay as they were. |
| `ProtocolProperties.RateByteAlone` | s41.js:68-71 | `0xFF r` stores `strokes_per_min = r`, emits nothing, and waits for the speed byte. |
| `ProtocolProperties.RateSpeedMessage` | s41.js:68-78 | `0xFF r s` ends in `CMD` and emits exactly one snapshot: the current distance with rate `r` and speed `s`. |
| `ProtocolProperties.StrokeEndMessage` | s41.js:59-63 | `0xFC` leaves the record unchanged, emits nothing, and stays in `CMD`. |
| `ProtocolProperties.HeartRateMessage` | s41.js:79-81 | `0xFB b` discards `b`, leaves the record unchanged, emits nothing, and returns to `CMD`. |
| `ProtocolProperties.UnknownCommand` | s41.js:64-66 | A non-opcode byte in `CMD` stays in `CMD`, leaves the record unchanged, and emits nothing. |
| `ProtocolProperties.UnknownCommandsSkipped` | s41.js:64-66 | Any run of non-opcode bytes before a stream gives, from `CMD`, the same final state, record and emitted sequence as the stream alone. |
| `ProtocolProperties.DistanceAccumulates` | s41.js:82-90 | A series of distance messages adds up all increments and ends in `CMD`. It emits once per zero increment. Rate and speed are set to 0 when some increment was zero, and are untouched otherwise. What is emitted is stated by `DistanceEmissions`. |
| `ProtocolProperties.TallyDistance` | s41.js:82-83 | The reference counter `DistanceTally` ends at its start distance plus the sum of all increments. |
| `ProtocolProperties.DistanceMessageAfter` | s41.js:82-90 | After any stream that ends in `CMD`, a distance message `0xFE c` adds exactly its own events. If `c` is 0 that is one snapshot with the new distance and rate and speed 0; otherwise it adds nothing. |
| `ProtocolProperties.DistanceEmissions` | s41.js:82-90 | A series of distance messages emits exactly the events of the reference counter `DistanceTally`: one snapshot per zero increment, in order, each carrying the distance accumulated up to and including that message with rate 0 and speed 0. |
| `ProtocolProperties.CountZerosPositive` | s41.js:84 | The count of zero increments is positive exactly when some increment is 0, which turns the previous row's condition into "some increment was zero". |
| `ProtocolProperties.IdleExample` | s41.js:82-88 | The stream `FE 05 FE 03 FE 00`, from the constructor's state, emits exactly one snapshot: distance 8, rate 0, speed 0. |

The decoder invariant `Consistent` has three parts:

- the state is one of the five named ones;
- a speed is present only together with a stroke rate;
- the speed byte is awaited only once a stroke rate has been stored.

## Left out

- Stroke bookkeeping in the `0xFC` branch (`self.strokes++` and the `prev_stroke`/`last_stroke` timestamps from `Date.now()`) is not modelled. None of these values reach the record. `self.strokes` is never initialised, so the increment yields NaN.
- Serial port opening and baud configuration (`S4.prototype.open`) are left out: they are I/O through the `serialport` library.
- The promise lifecycle (`start`, `exit`, `startRower`, `stopRower`) is left out. Those functions wrap the `q` library: `notify` delivers asynchronously, and every notification hands over the same mutable `self.e` object. The model takes the value of the record at each notification and does not model that aliasing.
- `fakeRower` is left out: it is a stub driven by `Math.random` and `setTimeout`.
- The `debug` logging calls are left out: they have no effect on state.
- `main41.js` (argument handling and the Bluetooth peripheral) is not part of this model.
- `Protocol.ParseState`: `Other(s)` stands for any string outside the five the decoder assigns. Nothing stops writing one of those five names as `Other`. No operation of the model produces an `Other` from a known state, and `UnknownStateStays` requires that the name is none of the five (`IsStateName`).
- The data values are bytes (0..255), as delivered by iterating a Node `Buffer`.
- The record `e` holds no stroke count, no speed scaling and no timestamp. The stroke counter `self.strokes` exists in `s41.js` but never reaches `e` (see the first line of this list).
- Any byte is accepted as a data byte in the four data states; nothing checks it, and the model follows the source.
- The model assumes `start()` has run before the first chunk arrives. The `data` handler is attached when the port opens (s41.js:109), `start()` creates `self.event` (s41.js:117), and `startRower` calls `start()` only after the open has completed (s41.js:131-133). If a speed byte or a zero distance byte is read while `self.event` is still undefined, `self.event.notify` (s41.js:77, s41.js:87) throws a TypeError, and the rest of the chunk is not read. After a speed byte, `e` is updated and `next` is already `CMD` (s41.js:74-75). After a zero distance byte, `e` is updated (distance added, rate and speed 0) but `next` is still `distance_dm`, because `self.next = 'CMD'` (s41.js:90) comes after the call; the first byte of the next chunk is then read as a distance byte. The model has no undefined event channel and does not model that exception.
