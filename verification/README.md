# Beurer PO 80 USB-HID driver — Dafny model

This project models the protocol logic of the Python driver for the Beurer
PO 80 pulse oximeter, and proves properties of that model. The logic has
three parts:

- **Command frames.** These are the 64-byte HID reports the driver sends:
  `get_model`, `get_user`, `set_time`, `configure` and the keepalive. `connect`
  enqueues them in a fixed handshake order.
- **The inbound decoder `handle_packet`.** The receive loop first renders
  every report as lowercase hex text (`binascii.hexlify`). `handle_packet`
  then matches prefixes of that text (`f1`, `fe03`, `eb01`) and slices it. It
  turns the model and user fields back into bytes with `bytes.fromhex` and
  reads bpm and SpO2 with `int(..., 16)`. A reading of 127 or more is
  suppressed and never reaches its sink.
- **The receive loop's keepalive counter.** The supporting pure pieces are
  modelled too: vendor and product id parsing, the `discover` filter over
  enumerated records, and the two FIFO sample queues behind the `BeurerPO`
  object.

Modules, one per part of the source:

- `Wrappers` holds Option and Result. A Result `Failure(ValueError)` stands
  for a Python exception.
- `Hex` holds `Hexlify`, `FromHex` (`bytes.fromhex`), `ParseHexInt`
  (`int(text, 16)`) and `PySlice` (Python's clamping `s[i:j]`).
- `Frames` holds the outbound builders of `usb_hid.py`. It also holds
  `datetime.weekday()`, computed by Python's own ordinal formula.
- `Packet` holds `handle_packet` on text (`HandlePacket`). It also holds a
  reference decoder that reads the raw bytes by position (`Decode`/`Apply`).
  The two are proved equal for every report.
- `Receive` holds the `connect` handshake, one receive-loop iteration
  (`ReceiveStep`) and the loop over a run of reads (`ReceiveLoop`).
- `Discovery` holds `set_vids`/`set_pids` (`ParseIds`) and `discover`.
- `LegacyHid` holds `src/beurer/transport/hid.py`, the older camelCase copy
  of the driver. Its builders and `handle_packet` are written out as that
  file has them and proved identical to the `usb_hid.py` versions. Its
  `setVID`/`setPID`/`discover` and its receive counter are textually the
  same as `usb_hid.py`'s, so they share the `Discovery` and `Receive`
  definitions.
- `Facade` holds `src/beurer/po.py`: the `BeurerPO` object and the
  module-level `discover`.

Inbound reports are `seq<uint8>` of any length, because `hid.read` may
return fewer than 64 bytes; an empty read is a timeout. Outbound frames are
`seq<int>`, because the driver builds Python lists of ints and `set_time`'s
`year - 2000` need not fit in a byte. A session's `tx` field is the sequence
of frames put on the transmit queue. That is the order in which the transmit
loop writes them.

Behaviour of the code that the model keeps:

- The keepalive goes out on every 11th successful read: `num` is tested
  with `num > 10` after the increment (usb_hid.py:203-207).
- `connect` sets the device clock to the fixed time 2025-08-30 16:24:25, a
  Saturday (usb_hid.py:110).
- `usb_hid.py` tests the prefixes `f1`, `fe03` and `eb01` only; any other
  report, `eb00` included, leaves the state unchanged (usb_hid.py:177-189).
- `connect` gives the transport a new, empty transmit queue before it
  enqueues the handshake (usb_hid.py:94).
- An `eb01` report of two to four bytes makes `int('', 16)` raise
  ValueError before anything is put on a queue, and the exception ends the
  receive thread (usb_hid.py:183-189, 196-202). `ReceiveLoop` then reports
  the error and the session as it stood before that report; readings and
  keepalives enqueued earlier stay where they are.
- The frame builders take no input that could make them fail, so they
  return plain frames.

## Model

| member | source | states |
|---|---|---|
| `Hex.Hexlify` | src/beurer/transport/usb_hid.py:199 | the received report becomes text of exactly two lowercase hex digits per byte |
| `Hex.PySlice` | src/beurer/transport/usb_hid.py:177-185 | Python's `s[i:j]` for non-negative bounds: an in-range slice is the plain cut, a range running past the end stops at the end, a start past the end or a reversed range is empty, and the result is never longer than `s` |
| `Hex.FromHexHexlify` | src/beurer/transport/usb_hid.py:178 | `bytes.fromhex` applied to hexlified text gives back the original bytes |
| `Hex.FromHex` | src/beurer/transport/usb_hid.py:177-182 | `bytes.fromhex` yields one byte per two hex digits and raises on text of odd length; `Hex.FromHexHexlify` is its inverse on hexlified text |
| `Hex.HexlifySlice` | src/beurer/transport/usb_hid.py:177-185 | slicing the hex text at even offsets 2i..2j is the hex text of raw bytes i..j, with Python's clamping on short reports |
| `Hex.HexPrefix` | src/beurer/transport/usb_hid.py:177-183 | the hex text starts with hexlify(p) iff the raw report starts with the bytes p |
| `Hex.ParseHexIntByte` | src/beurer/transport/usb_hid.py:184-185 | `int(text, 16)` on one hexlified byte gives that byte's value |
| `Hex.ParseHexIntPyHex` | src/beurer/transport/usb_hid.py:55 | `int(hex(i), 16) == i` for every integer i, sign and `0x` prefix included |
| `Hex.ParseHexInt` | src/beurer/transport/usb_hid.py:183-185 | `int(text, 16)` raises on empty text, which is what a short `eb 01` report hands it; `Hex.ParseHexIntPyHex` and `Hex.ParseHexIntByte` state what it reads back |
| `Frames.FrameOfUnique` | src/beurer/transport/usb_hid.py:143 | a report built as a prefix followed by zero padding to 64 entries is determined by its prefix, so the builders' contracts below fix every entry |
| `Frames.GetModelFrame` | src/beurer/transport/usb_hid.py:139-144 | the get-model report is 64 entries, `81 01` then zeros, all of them bytes |
| `Frames.GetUserFrame` | src/beurer/transport/usb_hid.py:146-151 | the get-user report is 64 entries, `8e 03 11` then zeros, all of them bytes |
| `Frames.KeepaliveFrame` | src/beurer/transport/usb_hid.py:206 | the keepalive report is 64 entries, `9a 1a` then zeros, all of them bytes |
| `Frames.ConfigureFrames` | src/beurer/transport/usb_hid.py:125-137 | configure yields exactly three 64-entry reports, in order `80`, `9b 01 1c`, `9b 00 1b`, each zero-padded |
| `Frames.Weekday` | src/beurer/transport/usb_hid.py:160 | `weekday()` of a valid date lies in 0..6; `WeekdayOfFirstDay` and `WeekdayNextDay` fix which value each date gets |
| `Frames.NextDayOrdinal` | src/beurer/transport/usb_hid.py:160 | the proleptic Gregorian ordinal behind `weekday()` counts days: the day after any date before 9999-12-31 is valid and has the next ordinal |
| `Frames.WeekdayOfFirstDay` | src/beurer/transport/usb_hid.py:160 | 0001-01-01, day 1 of the calendar, is a Monday (weekday 0), as in Python |
| `Frames.WeekdayNextDay` | src/beurer/transport/usb_hid.py:160 | from each day to the next the weekday advances by one, Sunday (6) wrapping to Monday (0); with the first day this fixes the weekday of every date |
| `Frames.SetTimeFrame` | src/beurer/transport/usb_hid.py:153-162 | set-time is 64 entries: `83`, year-2000, month, day, hour, minute, second, weekday, `04`, then 55 zeros; every entry is a byte iff the year is 2000..2255 |
| `Packet.FreshDevice` | src/beurer/transport/usb_hid.py:33-46 | a new transport has no model and no user yet, and both sinks are empty |
| `Packet.PushReading` | src/beurer/transport/usb_hid.py:186-189 | a value below 127 is appended to its sink and any other value is dropped: the sink only grows at its end, by at most one value, and never by a value of 127 or more |
| `Packet.HandlePacket` | src/beurer/transport/usb_hid.py:173-189 | handling one packet only appends to each sink, and adds at most one value to each |
| `Packet.BranchesExclusive` | src/beurer/transport/usb_hid.py:177-183 | for any text, at most one of the `f1`, `fe03` and `eb01` prefix tests holds |
| `Packet.HandleHexlified` | src/beurer/transport/usb_hid.py:173-189 | for every raw report, matching and slicing its hex text has the same effect as decoding the raw bytes by position |
| `Packet.ModelReport` | src/beurer/transport/usb_hid.py:177-178 | an `f1` report sets the model to raw bytes 1..4 (fewer on a short report) and changes nothing else |
| `Packet.UserReport` | src/beurer/transport/usb_hid.py:180-181 | an `fe 03` report sets the user to raw bytes 2..8 (fewer on a short report) and changes nothing else |
| `Packet.ReadingReport` | src/beurer/transport/usb_hid.py:183-189 | an `eb 01` report puts raw[3] on the bpm sink iff it is below 127, and raw[4] on the SpO2 sink iff it is below 127, independently; model and user are unchanged |
| `Packet.ShortReadingReport` | src/beurer/transport/usb_hid.py:183-185 | an `eb 01` report of two to four bytes raises ValueError |
| `Packet.OtherReport` | src/beurer/transport/usb_hid.py:177-189 | a report that matches none of the three prefixes changes nothing |
| `Receive.Handshake` | src/beurer/transport/usb_hid.py:108-111 | the handshake is six reports in order: `81 01`, `8e 03 11`, `83 19 08 1e 10 18 19 05 04`, `80`, `9b 01 1c`, `9b 00 1b`, each zero-padded to 64 |
| `Receive.Connect` | src/beurer/transport/usb_hid.py:93-111 | after connect, the transmit queue holds exactly the six handshake frames, the counter is 0, and the device fields and sinks are kept |
| `Receive.CounterStep` | src/beurer/transport/usb_hid.py:195-207 | from a counter in 0..10, the counter stays in 0..10; a timeout changes nothing; a keepalive is due iff a read succeeds at 10, and the counter is then 0 |
| `Receive.ReceiveStep` | src/beurer/transport/usb_hid.py:196-207 | a timeout leaves the session unchanged; the transmit queue gains a keepalive iff the read succeeded with the counter at 10, and otherwise gains nothing |
| `Receive.ReceiveStepDecodes` | src/beurer/transport/usb_hid.py:196-203 | a successful read updates the device as the byte-level decoder says; the thread dies iff the report is a two-to-four-byte `eb 01` report |
| `Receive.StepCounter` | src/beurer/transport/usb_hid.py:203-207 | one successful iteration sets the counter as the counter step does, and the transmit queue gains one keepalive exactly when the step says one is due |
| `Receive.ReceiveLoopCounter` | src/beurer/transport/usb_hid.py:195-207 | over any run of reads in which no report raises, the counter depends only on which reads timed out, and the queue gains exactly the counted keepalives, nothing else |
| `Receive.CounterRunClosedForm` | src/beurer/transport/usb_hid.py:203-207 | from a counter in 0..10, a run of reads sends one keepalive per eleven successful reads (counting the starting value) and leaves the counter at the remainder |
| `Receive.CircleIsDivision` | src/beurer/transport/usb_hid.py:203-207 | after n successful reads from zero the counter is n mod 11 and n div 11 keepalives have gone out |
| `Receive.Survived` | src/beurer/transport/usb_hid.py:183-202 | the reports the thread handles before dying are a prefix of the reads in which no report raises, and the report right after it, if any, raises |
| `Receive.ReceiveLoopStops` | src/beurer/transport/usb_hid.py:183-202 | the receive thread dies iff some report raises, and it then stands exactly where the run over the reports before that one leaves it |
| `Receive.ReceiveLoop` | src/beurer/transport/usb_hid.py:195-207 | the receive thread runs over the reads and stops at the first report that raises; the counter stays in 0..10 and the transmit queue is only ever extended; `Receive.ReceiveLoopStops`, `Receive.ReceiveLoopKeepalives` and `Receive.ReceiveLoopSinks` state the rest of its behaviour |
| `Receive.ReceiveLoopCounterAll` | src/beurer/transport/usb_hid.py:183-207 | whether or not the thread dies, the counter and the transmit queue move exactly as the counter alone would over the reports handled before it dies |
| `Receive.ReceiveLoopKeepalives` | src/beurer/transport/usb_hid.py:195-207 | over any run of reads, whether or not the thread dies, the queue gains only keepalives, one per 11 successful reads among the reports handled before the first that raises (counting the starting counter), and the counter ends at the remainder |
| `Receive.StepSinks` | src/beurer/transport/usb_hid.py:196-202 | one iteration appends to each sink exactly that report's unsuppressed reading |
| `Receive.CompleteRunSinks` | src/beurer/transport/usb_hid.py:183-202 | over any run in which no report raises, each sink gains exactly the unsuppressed readings of all the reports, in arrival order |
| `Receive.ReceiveLoopSinks` | src/beurer/transport/usb_hid.py:183-202 | over any run of reads, each sink gains the unsuppressed readings of the reports handled before the first that raises, in arrival order, and nothing else; readings already put stay when the thread dies |
| `Receive.ThreadDeathKeepsReadings` | src/beurer/transport/usb_hid.py:183-202 | when a report that raises follows one that does not (say `eb 01 00 3c 5a` then `eb 01`, checked by `FullReadingValues`), the thread dies, and the first report's unsuppressed bpm and SpO2 stay on their sinks |
| `Discovery.ParseIds` | src/beurer/transport/usb_hid.py:51-61 | set_vids/set_pids raise iff some string entry is not an ASCII base-16 literal (optional sign, optional `0x`, digits); otherwise there is one id per entry, in order, strings parsed as base 16 and ints unchanged (hid.py:24-34 is the same) |
| `Discovery.ParseIdsPyHex` | src/beurer/transport/usb_hid.py:55 | ids given as `hex()` strings parse back to exactly the original ids |
| `Discovery.Filter` | src/beurer/transport/usb_hid.py:73-79 | every record the filter keeps has both a supported vendor id and a supported product id |
| `Discovery.FilterContents` | src/beurer/transport/usb_hid.py:73-79 | the filter keeps every supported record as many times as it was enumerated, and drops every unsupported one |
| `Discovery.FilterAppend` | src/beurer/transport/usb_hid.py:75-78 | filtering preserves enumeration order: filtering a+b gives filter(a) followed by filter(b) |
| `Discovery.Discover` | src/beurer/transport/usb_hid.py:69-79 | discover returns exactly the enumerated records whose vendor and product ids are both supported, with their multiplicity, in enumeration order (hid.py:39-46 is the same) |
| `LegacyHid.GetModel` | src/beurer/transport/hid.py:93-95 | getModel builds the same 64-entry report as usb_hid's get_model |
| `LegacyHid.GetUser` | src/beurer/transport/hid.py:97-99 | getUser builds the same 64-entry report as usb_hid's get_user |
| `LegacyHid.Configure` | src/beurer/transport/hid.py:83-91 | configure builds the same three 64-entry reports, in the same order, as usb_hid's configure |
| `LegacyHid.SetTime` | src/beurer/transport/hid.py:101-105 | setTime builds the same 64-entry report as usb_hid's set_time for every valid date |
| `LegacyHid.Handshake` | src/beurer/transport/hid.py:72-75 | connect enqueues getModel, getUser, setTime(2025-08-30 16:24:25) and configure: the same six frames as usb_hid |
| `LegacyHid.HandlePacketAgrees` | src/beurer/transport/hid.py:113-131 | hid.py's handle_packet, with its early return and its `eb00` branch, behaves like usb_hid's on every text |
| `LegacyHid.HandlePacket` | src/beurer/transport/hid.py:113-131 | hid.py's handle_packet leaves the device unchanged on `eb00` text, and raises only on `f1`, `fe03` or `eb01` text |
| `LegacyHid.HistoryReport` | src/beurer/transport/hid.py:129-131 | an `eb 00` report leaves model, user and both sinks unchanged |
| `LegacyHid.ReceiveStep` | src/beurer/transport/hid.py:134-148 | hid.py's receive iteration equals usb_hid's: same counter, same keepalive, same decoding |
| `Facade.New` | src/beurer/po.py:40-46 | a new BeurerPO keeps its path, both of its queues are empty, and there is no model or user; the transport has no transmit queue yet (usb_hid.py:42), which the session holds as an empty one |
| `Facade.ConnectPO` | src/beurer/po.py:48-52 | connect keeps the path, both queues and the device state, and leaves exactly the six handshake frames on the transmit queue with the counter at 0 |
| `Facade.BpmAvailable` | src/beurer/po.py:61-65 | bpm_available is true iff the bpm queue is non-empty |
| `Facade.Spo2Available` | src/beurer/po.py:73-77 | spo2_available is true iff the SpO2 queue is non-empty |
| `Facade.GetBpm` | src/beurer/po.py:54-59 | get_bpm removes and returns the oldest bpm value; the SpO2 queue and everything else are unchanged |
| `Facade.GetSpo2` | src/beurer/po.py:67-71 | get_spo2 removes and returns the oldest SpO2 value; the bpm queue and everything else are unchanged |
| `Facade.TakeBpmInOrder` | src/beurer/po.py:54-59 | n successive get_bpm calls return the first n queued values in push order; the SpO2 queue is untouched |
| `Facade.TakeSpo2InOrder` | src/beurer/po.py:67-71 | n successive get_spo2 calls return the first n queued values in push order; the bpm queue is untouched |
| `Facade.ReadingsInArrivalOrder` | src/beurer/po.py:43-71 | after the receive loop runs, draining a queue returns its earlier values, then each unsuppressed reading handled before the thread died (all, if none raised), in report-arrival order |
| `Facade.DiscoverDevices` | src/beurer/po.py:12-34 | discover supports vendor 0x28e9 and product 0x028a, and returns one fresh BeurerPO per matching record, in order, each holding that record's path |

## Left out

- Threads and the session lifecycle: the worker threads, the `running` flag,
  `disconnect`'s close-and-join, `cleanup`, and the 0.5 s sleep. The model is
  sequential. The keepalives from the receive thread and the handshake frames
  from `connect` are not interleaved.
- `transmit_packet`, the transmit loop (usb_hid.py:209-220). It is I/O. A
  queue timeout makes it rewrite a stale `data`, or use `data` before it is
  bound; that is not modelled.
- The `hid` library: `enumerate`, `device`, `open_path`, `read`, `write`,
  `close`, and the manufacturer, product and serial getters. `discover` takes
  the enumerated records as a parameter. The receive loop takes the results
  of `read` as a sequence.
- UTF-8 decoding of model, user and device path: these are kept as bytes. The
  UnicodeDecodeError that `.decode()` raises on invalid UTF-8 is not modelled.
  In the code an `f1` or `fe 03` report whose payload is not valid UTF-8
  (`f1 ff`, say) raises and ends the receive thread; in the model only a
  short `eb 01` report does, so `Packet.Raises`, `Receive.Survived`,
  `Receive.ReceiveStepDecodes` and `Receive.ReceiveLoopStops` count those
  reports alone as the ones that end it.
- Discovery.ParseIds: `int(text, 16)` is modelled on ASCII literals only.
  Python also strips surrounding whitespace, accepts single underscores
  between digits and accepts non-ASCII Unicode digits, so `' 28e9'`,
  `'2_8e9'` and `'١f'` parse in Python but raise in the model. The only
  caller in the repository, `discover` in po.py:21-22, passes ints.
- Inside `handle_packet`, Python's leniencies that hexlified text never
  exercises: `bytes.fromhex`
  skipping whitespace, and `int(text, 16)` accepting whitespace and
  underscores.
- `set_bpm_queue`/`set_spo2_queue`: the sinks are always present, as fields of
  the device state. A transport used without them would raise on `put`;
  that is not modelled.
- `get_type`/`getType`, which return a constant, and `rx_queue`, which is
  created but never used.
- Logging.
- `src/beurer/transport/transport.py`: an abstract base class and an enum,
  with no logic.
- `src/hid_pulse_oximeter.py` and `src/hid-pulse-oximeter.py`: command-line
  polling loops.
- Facade.GetBpm: requires a non-empty queue. The source's `get` blocks until
  a value arrives, and blocking is not modelled.
- Facade.GetSpo2: requires a non-empty queue, for the same reason.
