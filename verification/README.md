# Real-time-clock and EEPROM examples of libmpsse, in Dafny

This project models the example programs shipped with the libmpsse library.
These programs set and poll two real-time-clock chips and dump an I2C EEPROM:

- `ds1302.c` and `ds1302.py` drive a DS1302 over its 3-wire serial bus.
- `ds3231.c` and `ds3231.py` drive a DS3231 over I2C.
- `i2ceeprom.py` dumps a 32 KiB I2C EEPROM.

Each program is a pure function from its inputs to the trace of library calls
it makes:

- Every call into the bus library (`Start`, `Write`, `Read`, `GetAck`,
  `SendAcks`, `SendNacks`, `Stop`, `Close`, `SetCSIdle`) is an `Event`.
- Acknowledgement answers come as a sequence, one answer per I2C `Write`.
  Past its end the line reads as NACK.
- Cancellation comes as a sequence of run flags, one per poll iteration.
  Past its end the run is cancelled. The flags mean different things in the
  two languages:
  - in C, a flag is the value of `run` at the loop test, so a SIGINT during
    a sleep still lets that iteration poll;
  - in Python, a false flag is a KeyboardInterrupt during that iteration's
    sleep, which leaves the loop before the poll.
  The same flag sequence therefore stands for different interrupt moments.
  `Ds1302Py.InterruptDuringSleep` relates the two for one moment.
- Clock readings come as a sequence of `time()` values plus the
  broken-down-time conversion.

The modules:

- `Bus` holds the events and the input conventions. It also holds a small
  bus-line monitor, replayed over a trace. The monitor records:
  - whether a transaction is still open;
  - whether every master read ended with exactly one NACKed byte, as section
    3.1.6 of the I2C-bus specification (NXP UM10204) requires.
- `Bcd` holds the packed-BCD encoders of both languages:
  - C: `int8_t_to_bcd` and `int16_t_to_bcd`, including C's narrowing of the
    `int` argument;
  - Python: `to_bcd`.
- `Calendar` holds the `struct tm` and `datetime` fields the programs read, and
  both weekday register formulas.
- `Snapshot` holds the C programs' repeat-until-two-readings-agree capture.
- `Ds3231C`, `Ds3231Py`, `Ds1302C`, `Ds1302Py` and `Eeprom` hold one program
  each. Each has its register frame, its transactions, its poll loop and its
  whole run.

The two implementations of each clock program are related by lemmas:

- For the same wall-clock second from 1900 on, the C and Python DS3231 frames
  are byte for byte equal.
- Their poll loops issue the same events, except on a refused register pointer.
  There C queries the ack a second time and stops a second time.
- The DS1302 programs issue the same bus transactions in the same order, but
  differ in five ways:
  - Python writes the time behind opcode 0xBF instead of 0xBE (see Findings).
  - Python reads the clock once (`ds1302.py:17`). C repeats the capture until
    two clock readings agree (`ds1302.c:153-164`).
  - When the library fails to open, C still calls `Close` (`ds1302.c:125`).
    Python raises before any call.
  - Before 1900 the year registers differ: C encodes the negative `tm_year`,
    Python the calendar year.
  - A Ctrl+C during the sleep of an iteration has different effects. C clears
    `run` and still polls in that iteration (`ds1302.c:99-108`). Python leaves
    the loop from inside the sleep, before the poll (`ds1302.py:84-98`).
- The DS3231 poll reads `sizeof(t_ds3231regs) - 3` = 18 bytes with ACKs, then
  1 byte with a NACK.
- A refused initial write in `ds3231.py`, and a refused leg in
  `i2ceeprom.py`, raise without issuing `Stop`.

## Model

| member | source | states |
|---|---|---|
| Bcd.ToInt8 | src/examples/ds3231.c:190-195 | An `int` passed to an `int8_t` parameter keeps its value modulo 256, and is unchanged when it is in range |
| Bcd.ToInt16 | src/examples/ds3231.c:196 | An `int` passed to an `int16_t` parameter keeps its value modulo 65536, and is unchanged when it is in range |
| Bcd.Pack | src/examples/ds3231.c:166 | A value below 100 becomes a byte whose high nibble is the tens digit, whose low nibble is the units digit, and which decodes back to the value |
| Bcd.Int8ToBcd | src/examples/ds3231.c:163-167 | The result is valid packed BCD, and it stands for the argument read as unsigned 8-bit and reduced modulo 100 |
| Bcd.Int16ToBcd | src/examples/ds3231.c:170-174 | The result is valid packed BCD, and it stands for the argument read as unsigned 16-bit and reduced modulo 100 |
| Bcd.ToBcd | src/examples/ds3231.py:9-11 | The result is valid packed BCD, and it stands for the argument modulo 100 under Python's non-negative `%` |
| Bcd.RoundTrip | src/examples/ds3231.c:163-174 | Decoding undoes all three encoders on 0..99 |
| Bcd.DecodeRoundTrip | src/examples/ds3231.py:9-11 | On packed-BCD bytes, encoding undoes decoding, so the encoders are a bijection between 0..99 and the packed-BCD bytes |
| Bcd.SameValueSameByte | src/examples/ds3231.c:166 | Two packed-BCD bytes that decode to the same value are the same byte |
| Bcd.EncodesAs | src/examples/ds1302.py:10-12 | The encoding of any value is the packed-BCD byte that stands for its last two digits |
| Bcd.Injective | src/examples/ds1302.py:10-12 | Distinct values in 0..99 get distinct encodings |
| Bcd.Wrap | src/examples/ds3231.py:10 | Values 100 apart encode alike, and each value encodes as its remainder modulo 100 |
| Bcd.EncodersAgree | src/examples/ds1302.c:131-142 | On 0..127 both C encoders agree with the Python encoder |
| Bcd.NegativeOneDiffers | src/examples/ds3231.c:165 | -1 encodes as 0x55 in `int8_t_to_bcd`, as 0x35 in `int16_t_to_bcd` and as 0x99 in `to_bcd` |
| Bcd.FieldBcd | src/examples/ds3231.c:190-195 | A time field passed through `int8_t_to_bcd` is packed BCD of its low byte modulo 100, and of the field itself when it is in 0..99 |
| Bcd.YearBcd | src/examples/ds3231.c:196 | `tm_year` passed through `int16_t_to_bcd` is packed BCD of its low 16 bits modulo 100, which is the last two digits of the year for non-negative `tm_year` |
| Bcd.FieldMatches | src/examples/ds1302.c:157-161 | For field values in 0..99 the C call encodes exactly as Python's `to_bcd` |
| Bcd.YearMatches | src/examples/ds1302.c:163 | From 1900 on, the C year register equals Python's encoding of the calendar year |
| Bcd.PreCenturyYear | src/examples/ds3231.c:196 | Before 1900 the C year register stops holding the year's last two digits: 1850 becomes 0x86 in C and 0x50 in Python |
| Calendar.WdayRegister | src/examples/ds3231.c:193 | For `tm_wday` in 0..6 the weekday register is in 1..7 and is `tm_wday` + 1, so Sunday is 1 |
| Calendar.IsoWdayRegister | src/examples/ds3231.py:21 | The weekday register is in 1..7: Sunday (ISO 7) is 1 and Monday..Saturday are 2..7 |
| Calendar.WeekdaysAgree | src/examples/ds1302.py:25 | For the same day, the C and Python weekday registers are equal, and Sunday alone gets 1 |
| Snapshot.StableCapture | src/examples/ds3231.c:185-197 | The captured frame is built from the first attempt whose two clock readings agree, and every earlier attempt was torn. No frame is returned exactly when no attempt is stable |
| Snapshot.FirstStableUnique | src/examples/ds1302.c:153-164 | Only one attempt can be the first stable one, and it comes no later than any stable attempt |
| Snapshot.OneRetry | src/examples/ds3231.c:197 | A clock that ticks during the first attempt and then holds forces exactly one retry, and the frame uses the later second |
| Ds3231C.BuildFrame | src/examples/ds3231.c:183-196 | Address 0xD0, pointer 0, all alarm/control/status/aging/temperature registers 0, and BCD time registers. On a valid `struct tm` each register decodes to its field, the weekday is `tm_wday` + 1 in 1..7, and the year holds its last two digits |
| Ds3231C.PointerWrite | src/examples/ds3231.c:92-95 | The pointer write sends exactly [0xD0, 0], whatever the frame held |
| Ds3231C.ReadAddressWrite | src/examples/ds3231.c:100-102 | The read-address write sends exactly [0xD1] |
| Ds3231C.SetCurrentDate | src/examples/ds3231.c:177-199 | The frame returned is built from the first attempt whose two clock readings agree; no frame is returned exactly when no attempt is stable |
| Ds3231C.PollOnce | src/examples/ds3231.c:92-141 | An iteration fails exactly when either leg is NACKed. A success is Start, Write[0xD0,0], GetAck, Start, Write[0xD1], GetAck, SendAcks, Read(18), SendNacks, Read(1), Stop. A refused pointer is followed by a second GetAck and Stop. A refused read address issues Stop and no Read |
| Ds3231C.PollLoop | src/examples/ds3231.c:85-142 | No event is issued exactly when the run flag is clear at the first test; otherwise the loop ends with a Stop (characterised by Ds3231C.AllAcknowledged and Ds3231C.NackStopsPolling) |
| Ds3231C.Session | src/examples/ds3231.c:76-152 | The session opens with Start, Write(the 21-byte frame), GetAck and ends with Stop, Close; it is that 5-event trace exactly when the frame write is refused (characterised by Ds3231C.SessionQuiet) |
| Ds3231C.Main | src/examples/ds3231.c:51-160 | A bus event is issued exactly when the library opened and the capture settled, and Close is then the last call; a failed open issues nothing |
| Ds3231C.FrameLayout | src/examples/ds3231.c:16-38 | Bytes 0..8 of the frame are 0xD0, 0, sec, min, hour, weekday, date, month, year, and bytes 9..20 are 0 |
| Ds3231C.YearRegister | src/examples/ds3231.c:196 | `tm_year` 124 gives the year register 0x24, and 130 gives 0x30 |
| Ds3231C.ProgramsFirstStableCapture | src/examples/ds3231.c:67-78 | The programming write is Start, Write(the first stable capture's 21 bytes), GetAck |
| Ds3231C.RefusedProgramming | src/examples/ds3231.c:146-152 | A refused programming write performs no poll and no Read, yet still issues Stop and Close |
| Ds3231C.CancelledBeforeFirstPoll | src/examples/ds3231.c:78-152 | If the run flag is clear at the first loop test, nothing is read: the write is stopped, stopped again after the loop, and closed |
| Ds3231C.NackStopsPolling | src/examples/ds3231.c:97-141 | A NACK on either leg ends the loop after that very iteration, with no Read |
| Ds3231C.AllAcknowledged | src/examples/ds3231.c:85-142 | With every leg acknowledged, the loop runs the successful poll once per leading true run flag |
| Ds3231C.PollOnceBytes | src/examples/ds3231.c:113-125 | An iteration reads 19 bytes when both legs were acknowledged, and 0 otherwise |
| Ds3231C.PollReadBytes | src/examples/ds3231.c:115-123 | The loop reads 19 bytes per completed iteration, and completes at most one iteration per leading true flag |
| Ds3231C.PollOnceQuiet | src/examples/ds3231.c:94-141 | Every iteration, on every path, leaves no transaction open and ends any read with exactly one NACKed byte |
| Ds3231C.AcknowledgedPollsQuiet | src/examples/ds3231.c:94-125 | Any number of acknowledged polls in a row leaves no transaction open and ends each read with one NACKed byte |
| Ds3231C.PollLoopQuiet | src/examples/ds3231.c:85-142 | The whole loop keeps the bus quiet |
| Ds3231C.SessionQuiet | src/examples/ds3231.c:76-152 | Whatever the answers and flags, the bus is released, every read ends with one NACKed byte, and Close is the last call |
| Ds3231Py.TimeRegisters | src/examples/ds3231.py:18-25 | 19 registers: BCD seconds, minutes, hours, day, month and year (each its field modulo 100), a weekday in 1..7 that is one more than ISO weekday mod 7, then 12 zeros |
| Ds3231Py.InitTimeCmd | src/examples/ds3231.py:14-26 | The result is the command bytes followed by the 19 time registers, 21 bytes for [0xD0, 0] |
| Ds3231Py.TimeRegistersDecode | src/examples/ds3231.py:18-24 | On a valid `datetime` every time register but the year decodes to its field |
| Ds3231Py.PollLoop | src/examples/ds3231.py:69-108 | The loop ends only by the interrupt or by raising one of the two poll-leg faults |
| Ds3231Py.Session | src/examples/ds3231.py:50-117 | Close is the last call on every way out of the inner `try` |
| Ds3231Py.SessionStopped | src/examples/ds3231.py:110-111 | The corrected session raises the same exception as the original, and is identical to it when the write is acknowledged |
| Ds3231Py.Main | src/examples/ds3231.py:38-120 | The run ends in the open fault exactly when the library failed to open, and then with no bus event; otherwise Close is the last call |
| Ds3231Py.RegistersAgree | src/examples/ds3231.py:18-25 | For the same second from 1900 on, the Python registers equal bytes 2..20 of the C frame |
| Ds3231Py.FramesAgree | src/examples/ds3231.py:53 | For the same second from 1900 on, `init_time_cmd([0xD0, 0])` is exactly the C frame |
| Ds3231Py.InitialNack | src/examples/ds3231.py:110-111 | A refused initial write raises with only Close after the GetAck, so the transaction is left open |
| Ds3231Py.PollNack | src/examples/ds3231.py:103-108 | A refused pointer, or a refused read address, issues Stop and raises the matching fault, with no Read |
| Ds3231Py.PollMatchesC | src/examples/ds3231.py:73-108 | The Python loop issues exactly the C loop's events. The one exception is the refused pointer, where C adds a second GetAck and Stop |
| Ds3231Py.AllAcknowledged | src/examples/ds3231.py:69-101 | With every leg acknowledged, the loop polls once per leading true flag and is left by the interrupt |
| Ds3231Py.PollLoopQuiet | src/examples/ds3231.py:69-108 | The poll loop leaves no transaction open and ends every read with one NACKed byte |
| Ds3231Py.LegsQuiet | src/examples/ds3231.py:78-108 | Each of the three possible iterations (refused pointer, refused read address, success) keeps the bus quiet |
| Ds3231Py.SessionReleased | src/examples/ds3231.py:58-117 | The bus ends released exactly when the initial write was acknowledged, and every read ends with one NACKed byte |
| Ds3231Py.StoppedReleased | src/examples/ds3231.py:104-111 | With Stop before the raise, the bus is released and reads end NACKed on every path |
| Ds1302C.BuildFrame | src/examples/ds1302.c:151-163 | The command and control bytes are 0, and the time registers are BCD. On a valid `struct tm` each register decodes to its field, the weekday is `tm_wday` + 1, and the year holds its last two digits |
| Ds1302C.SetCurrentDate | src/examples/ds1302.c:145-166 | The frame returned is built from the first attempt whose two clock readings agree; no frame is returned exactly when no attempt is stable |
| Ds1302C.ClearWriteProtect | src/examples/ds1302.c:66 | Bit 7 is cleared, bits 0..6 are kept, and the byte is unchanged exactly when bit 7 was already clear |
| Ds1302C.ControlWrite | src/examples/ds1302.c:73-77 | The control write is Start, Write[0x8E], Write[the old value modulo 128], Stop |
| Ds1302C.ProgramWrite | src/examples/ds1302.c:91-95 | The burst write is one Start..Stop transaction whose data is the frame with its command byte replaced by 0xBE and every other byte kept |
| Ds1302C.PollLoop | src/examples/ds1302.c:99-117 | The loop issues four events per leading true run flag (characterised by Ds1302C.PollLoopRepeats) |
| Ds1302C.Session | src/examples/ds1302.c:49-125 | The session is 13 events plus four per poll: SetCSIdle(0) first, the burst write of the frame behind 0xBE at position 10, Close last (characterised by Ds1302C.SessionLayout) |
| Ds1302C.Main | src/examples/ds1302.c:36-128 | A failed open still calls Close and nothing else; the trace ends with Close exactly when the library failed to open or the capture settled |
| Ds1302C.FrameLayout | src/examples/ds1302.c:14-24 | The burst-write frame is 0xBE, sec, min, hour, date, month, weekday, year, 0 |
| Ds1302C.PollLoopRepeats | src/examples/ds1302.c:99-117 | The loop issues Start, Write[0xBF], Read(8), Stop once per leading true flag, and stops only on the flag |
| Ds1302C.PollReadBytes | src/examples/ds1302.c:104-108 | The loop reads 8 bytes per iteration |
| Ds1302C.SessionLayout | src/examples/ds1302.c:49-125 | The order is SetCSIdle(0), the control read, the control write, the burst write of the frame, the burst reads, and Close |
| Ds1302C.OperationOrder | src/examples/ds1302.c:83-95 | The burst write carries the frame of the first stable capture |
| Ds1302C.PollLoopReleases | src/examples/ds1302.c:105-108 | Polling never leaves chip select raised |
| Ds1302C.PollLoopFramed | src/examples/ds1302.c:104-108 | Every Write and Read of the polling is issued inside a Start..Stop transaction |
| Ds1302C.SessionReleased | src/examples/ds1302.c:60-125 | Every Write and Read of the session is issued inside a Start..Stop transaction, and no transaction is left open at the end |
| Ds1302C.AlwaysReleased | src/examples/ds1302.c:47-127 | On every path, including a failed open and a clock that never settles, every Write and Read is inside a Start..Stop transaction and none is left open |
| Ds1302Py.InitTimeCmd | src/examples/ds1302.py:15-28 | The result is 9 bytes: the command byte, 7 registers with the weekday (in 1..7) at position 6, and a control byte of 0 |
| Ds1302Py.InitTimeCmdDecodes | src/examples/ds1302.py:19-27 | Every register but the weekday is packed BCD of its field's last two digits |
| Ds1302Py.InitTimeCmdValid | src/examples/ds1302.py:20-24 | On a valid `datetime` the seconds to month registers decode to their fields |
| Ds1302Py.ClearWriteProtect | src/examples/ds1302.py:63 | `control & ~0x80` on a byte leaves a value below 0x80 |
| Ds1302Py.MasksAgree | src/examples/ds1302.py:63 | Python's mask on an unbounded integer and C's mask give the same byte |
| Ds1302Py.PollMatchesC | src/examples/ds1302.py:84-98 | The Python loop issues exactly the C loop's burst reads |
| Ds1302Py.PollLoop | src/examples/ds1302.py:84-98 | The loop issues four events per iteration before the first interrupt |
| Ds1302Py.InterruptDuringSleep | src/examples/ds1302.py:84-98 | For a Ctrl+C during the sleep of iteration k, C polls k + 1 times and Python k times: the C trace is the Python trace plus one burst read |
| Ds1302Py.SessionWith | src/examples/ds1302.py:46-100 | The session is 13 events plus four per poll, with the time write behind the given opcode at position 10 |
| Ds1302Py.Main | src/examples/ds1302.py:40-104 | A failed open raises before any call, with no Close; an opened run writes the time behind 0xBF |
| Ds1302Py.MainCorrected | src/examples/ds1302.py:74 | With opcode 0xBE the time write starts with the burst-write opcode, and the trace equals the program as written everywhere but at the time write |
| Ds1302Py.FramesAgree | src/examples/ds1302.py:19-27 | For the same second from 1900 on, the Python frame equals the C frame with the same command byte |
| Ds1302Py.MondayFrame | src/examples/ds1302.py:15-28 | 2024-01-15 13:45:30, a Monday, is written as 30 45 13 15 01 02 24 |
| Ds1302Py.MondayFrameC | src/examples/ds1302.c:157-163 | The C program writes the same 9 bytes for the same second |
| Ds1302Py.Year2024 | src/examples/ds1302.py:26 | The year 2024 is written as 0x24 |
| Ds1302Py.Literal | src/examples/ds1302.py:12 | Two decimal digits t and u are written as the byte t * 16 + u |
| Ds1302Py.ProgramsWithReadOpcode | src/examples/ds1302.py:74-76 | As written, the time write starts with the burst-read opcode 0xBF, not 0xBE |
| Ds1302Py.CorrectedMatchesC | src/examples/ds1302.py:74 | With opcode 0xBE the Python program issues exactly the C program's trace for the same second. As written, it does not |
| Ds1302Py.SessionReleased | src/examples/ds1302.py:53-100 | Every Write and Read is issued inside a Start..Stop transaction, no transaction is left open, and Close is the last call |
| Eeprom.Run | src/examples/i2ceeprom.py:10-37 | Data is returned exactly when the bus opened and both legs were acknowledged. The data is then the first 0x8000 bytes the chip sent, and the trace is the full dump. Each refusal raises its own fault |
| Eeprom.RunStopped | src/examples/i2ceeprom.py:27-30 | The corrected script ends the same way as the original, and is identical to it on success |
| Eeprom.RefusedLegs | src/examples/i2ceeprom.py:15-30 | The read leg follows only an acknowledged write leg. A refused leg raises with no Read, no Stop and no Close |
| Eeprom.NeverSendsAcks | src/examples/i2ceeprom.py:15-32 | No SendAcks is issued on any path |
| Eeprom.ReadsOneExtraByte | src/examples/i2ceeprom.py:24-26 | A dump reads 0x8000 + 1 bytes and keeps all but the last |
| Eeprom.Termination | src/examples/i2ceeprom.py:15-32 | Every read ends with one NACKed byte. The bus ends released exactly when the dump succeeded |
| Eeprom.StoppedReleased | src/examples/i2ceeprom.py:27-32 | With Stop before each raise, the bus is released on every path and a refused path reads nothing |

## Left out

- Console output (`printf`, `print`, `print_bytes`): it does not affect the bus.
- Eeprom.Run: the file write of the dump at `i2ceeprom.py:34` is assumed to
  succeed. A failing `open` or `write` raises into the handler and skips the
  `Close` at `i2ceeprom.py:37`, so such a run has no final `Close`.
- `sleep(1)`, `signal`, and the `volatile run` flag set by the SIGINT handler:
  they appear only as the run-flag sequence read at each loop head. A
  KeyboardInterrupt arriving anywhere other than the sleep between polls is not
  modelled.
- `time()`, `localtime_r` and `datetime.now()`: time zones and the OS decide
  them, so the model takes their results as inputs.
- The bus library's own behaviour: libmpsse is not part of this model. Its
  calls are events. `GetAck` answers for the most recent `Write`. The bytes a
  `Read` returns are opaque, except for the EEPROM stream. The library is
  assumed to acknowledge received bytes after it is opened.
- Exceptions raised inside the library calls, and allocation failure of read
  buffers (`malloc`/`free`).
- Snapshot.StableCapture: the C retry loop has no bound. With finitely many
  readings that never settle, the model reports `Unsettled` and the trace
  stops where the program would spin.
- Process exit status: `ds3231.c` always returns 0 and `ds1302.c` always
  returns `EXIT_FAILURE`.
- `list_usb_ports.c`: it only enumerates devices through libudev and prints
  them.
- The conversion of an out-of-range `int` to `int8_t`/`int16_t` is
  implementation-defined in C. The model keeps the low bits, two's complement,
  as GCC and Clang do.

## Findings

| source | as written | input that shows it | evidently intended | confidence | as-written member | corrected member |
|---|---|---|---|---|---|---|
| src/examples/ds1302.py:74 | The time is written with `init_time_cmd(0xBF)`, the DS1302 clock burst-read opcode | any run that opens the bus: the write at position 10 begins with 0xBF | The burst-write opcode 0xBE, as `ds1302.c:92` uses | high, not executed | Ds1302Py.ProgramsWithReadOpcode | Ds1302Py.CorrectedMatchesC |
| src/examples/ds3231.py:110-111 | A refused initial write raises without `Stop`, leaving the I2C transaction open until `Close` | `acks = [Nack]`: trace Start, Write(frame), GetAck, Close | `Stop` before raising, as the two poll legs at lines 104 and 107 do | medium, not executed | Ds3231Py.InitialNack | Ds3231Py.StoppedReleased |
| src/examples/i2ceeprom.py:27-30 | A refused write or read leg raises without `Stop` | `acks = [Nack]`: trace Start, Write[0xA0,0,0], GetAck | `Stop` before raising, so the bus is released on every path | medium, not executed | Eeprom.Termination | Eeprom.StoppedReleased |
