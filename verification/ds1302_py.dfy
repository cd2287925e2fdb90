/** The Python example driving a DS1302 real-time clock over its 3-wire serial bus.

  It follows the C program step by step (control read, control write with the
  write-protect bit cleared, one burst write of the time, burst reads until
  interrupted) with two differences: the time comes from one `datetime.now()`
  call with no retry, and the burst write is sent with the burst-read opcode.
 */
module Ds1302Py {
  import opened Bus
  import opened Bcd
  import opened Calendar
  import Ds1302C

  /** `init_time_cmd(cmd)`: the command byte, the seven clock registers in burst
      order, and a control byte of 0. */
  function InitTimeCmd(cmd: Byte, now: DateTime): (r: seq<Byte>)
    ensures |r| == Ds1302C.FRAME_SIZE
    ensures r[0] == cmd && r[8] == 0
    ensures 1 <= r[6] <= 7 && r[6] - 1 == now.isoWeekday % 7
  {
    [cmd, ToBcd(now.second), ToBcd(now.minute), ToBcd(now.hour), ToBcd(now.day),
     ToBcd(now.month), IsoWdayRegister(now), ToBcd(now.year), 0]
  }

  /** Every clock register but the weekday is packed BCD of its field's last two digits. */
  lemma InitTimeCmdDecodes(cmd: Byte, now: DateTime)
    ensures var r := InitTimeCmd(cmd, now);
      && IsBcd(r[1]) && IsBcd(r[2]) && IsBcd(r[3]) && IsBcd(r[4]) && IsBcd(r[5]) && IsBcd(r[7])
      && Decode(r[1]) == now.second % 100 && Decode(r[2]) == now.minute % 100
      && Decode(r[3]) == now.hour % 100 && Decode(r[4]) == now.day % 100
      && Decode(r[5]) == now.month % 100 && Decode(r[7]) == now.year % 100
  {
    var r := InitTimeCmd(cmd, now);
    assert r[1] == ToBcd(now.second) && r[2] == ToBcd(now.minute) && r[3] == ToBcd(now.hour);
    assert r[4] == ToBcd(now.day) && r[5] == ToBcd(now.month) && r[7] == ToBcd(now.year);
  }

  /** On a valid `datetime` every clock register but the year decodes to its field. */
  lemma InitTimeCmdValid(cmd: Byte, now: DateTime)
    requires ValidDateTime(now)
    ensures var r := InitTimeCmd(cmd, now);
      && Decode(r[1]) == now.second && Decode(r[2]) == now.minute && Decode(r[3]) == now.hour
      && Decode(r[4]) == now.day && Decode(r[5]) == now.month
  {
    var r := InitTimeCmd(cmd, now);
    assert r[1] == ToBcd(now.second) && r[2] == ToBcd(now.minute) && r[3] == ToBcd(now.hour);
    assert r[4] == ToBcd(now.day) && r[5] == ToBcd(now.month);
    RoundTrip(now.second);
    RoundTrip(now.minute);
    RoundTrip(now.hour);
    RoundTrip(now.day);
    RoundTrip(now.month);
  }

  /** `control &= ~0x80` on a Python integer: `~0x80` is -129, whose two's
      complement has every bit set but bit 7, so the AND clears bit 7 alone. */
  function ClearWriteProtect(control: Byte): (r: Byte)
    ensures r < 0x80
  {
    control - 0x80 * ((control / 0x80) % 2)
  }

  /** The `while True` loop: a KeyboardInterrupt (a false flag, or the end of the
      flags) breaks out of it during the sleep before an iteration. */
  function PollLoop(flags: seq<bool>): (t: seq<Event>)
    decreases |flags|
    ensures |t| == 4 * Leading(flags)
  {
    if flags == [] || !flags[0] then []
    else [Start, Write([0xBF]), Read(8), Stop] + PollLoop(flags[1..])
  }

  /** The program once the library is open, for the burst-write opcode `opcode`. */
  function SessionWith(opcode: Byte, control: Byte, now: DateTime, flags: seq<bool>): (t: seq<Event>)
    ensures |t| == 13 + 4 * Leading(flags)
    ensures t[10] == Write(InitTimeCmd(opcode, now)) && t[10].data[0] == opcode
  {
    [SetCSIdle(0),
     Start, Write([0x8F]), Read(1), Stop,
     Start, Write([0x8E]), Write([ClearWriteProtect(control)]), Stop,
     Start, Write(InitTimeCmd(opcode, now)), Stop]
    + PollLoop(flags) + [Close]
  }

  /** `main` as written: the time is written with `init_time_cmd(0xBF)`.  A
      library that fails to open raises into the handler before any event, and
      `Close` is never called. */
  function Main(busOpen: bool, control: Byte, now: DateTime, flags: seq<bool>): (t: seq<Event>)
    ensures t == [] <==> !busOpen
    ensures busOpen ==> |t| > 10 && t[10].Write? && |t[10].data| > 0 && t[10].data[0] == Ds1302C.BURST_READ
  {
    if !busOpen then [] else SessionWith(Ds1302C.BURST_READ, control, now, flags)
  }

  /** `main` with the burst-write opcode 0xBE, as the C program and the DS1302
      command set have it. */
  function MainCorrected(busOpen: bool, control: Byte, now: DateTime, flags: seq<bool>): (t: seq<Event>)
    ensures busOpen ==> |t| > 10 && t[10].Write? && |t[10].data| > 0 && t[10].data[0] == Ds1302C.BURST_WRITE
    ensures var w := Main(busOpen, control, now, flags);
      |t| == |w| && forall k :: 0 <= k < |t| && k != 10 ==> t[k] == w[k]
  {
    if !busOpen then [] else SessionWith(Ds1302C.BURST_WRITE, control, now, flags)
  }

  // ---------------------------------------------------------------- properties

  /** Python's mask and C's mask clear the same bit of the control byte. */
  lemma MasksAgree(control: Byte)
    ensures ClearWriteProtect(control) == Ds1302C.ClearWriteProtect(control)
  {
  }

  /** The Python loop issues exactly the burst reads of the C loop. */
  lemma {:induction false} PollMatchesC(flags: seq<bool>)
    ensures PollLoop(flags) == Ds1302C.PollLoop(flags)
    decreases |flags|
  {
    if flags != [] && flags[0] {
      PollMatchesC(flags[1..]);
    }
  }

  /** A Ctrl+C during the sleep of iteration k, counting from 0, cancels the
      two programs at different points.  The C handler only clears `run`, so
      iteration k still polls and the loop ends at its next test: the flags
      read true k + 1 times.  The Python KeyboardInterrupt leaves the loop from
      inside the sleep, before iteration k polls: the flags read true k times.
      So for the same moment C issues exactly one burst read more. */
  lemma {:induction false} InterruptDuringSleep(k: nat)
    ensures Ds1302C.PollLoop(RunFor(k + 1)) == PollLoop(RunFor(k)) + Ds1302C.PollTransaction
    decreases k
  {
    if k > 0 {
      InterruptDuringSleep(k - 1);
    }
  }

  /** The clock registers Python writes for a `datetime` are the ones C writes
      for the same wall-clock second, from 1900 on, when `tm_year` is not negative. */
  lemma FramesAgree(tm: Tm, now: DateTime, opcode: Byte)
    requires ValidTm(tm) && ValidDateTime(now) && SameTime(tm, now) && now.year >= 1900
    ensures InitTimeCmd(opcode, now) == Ds1302C.BuildFrame(tm).(cmd := opcode).Bytes()
  {
    var r := Ds1302C.BuildFrame(tm).(cmd := opcode);
    WeekdaysAgree(tm, now);
    FieldMatches(tm.sec);
    FieldMatches(tm.min);
    FieldMatches(tm.hour);
    FieldMatches(tm.mday);
    FieldMatches(tm.mon + 1);
    YearMatches(tm.year);
    assert r.Bytes() == [r.cmd, r.sec, r.min, r.hour, r.date, r.mon, r.wday, r.year, r.ctrl];
  }

  /** 2024-01-15 13:45:30, a Monday, is written as 30 45 13 15 01 02 24. */
  lemma MondayFrame()
    ensures InitTimeCmd(0xBE, DateTime(2024, 1, 15, 13, 45, 30, 1))
      == [0xBE, 0x30, 0x45, 0x13, 0x15, 0x01, 0x02, 0x24, 0]
  {
    var now := DateTime(2024, 1, 15, 13, 45, 30, 1);
    var s, m, h, d, mo, y := ToBcd(30), ToBcd(45), ToBcd(13), ToBcd(15), ToBcd(1), ToBcd(2024);
    assert InitTimeCmd(0xBE, now) == [0xBE, s, m, h, d, mo, 2, y, 0];
    Year2024();
    Literal(30, 3, 0);
    Literal(45, 4, 5);
    Literal(13, 1, 3);
    Literal(15, 1, 5);
    Literal(1, 0, 1);
  }

  /** The C program writes the same frame for the same second. */
  lemma MondayFrameC()
    ensures Ds1302C.BuildFrame(Tm(30, 45, 13, 15, 0, 124, 1)).(cmd := Ds1302C.BURST_WRITE).Bytes()
      == [0xBE, 0x30, 0x45, 0x13, 0x15, 0x01, 0x02, 0x24, 0]
  {
    var tm := Tm(30, 45, 13, 15, 0, 124, 1);
    var now := DateTime(2024, 1, 15, 13, 45, 30, 1);
    FramesAgree(tm, now, Ds1302C.BURST_WRITE);
    MondayFrame();
  }

  /** The year register of 2024 holds its last two digits. */
  lemma Year2024()
    ensures ToBcd(2024) == 0x24
  {
    assert 2024 % 100 == 24;
    Literal(24, 2, 4);
    Wrap(2024);
  }

  /** The digits t and u are encoded as the byte `t * 16 + u`. */
  lemma Literal(v: int, t: int, u: int)
    requires 0 <= t <= 9 && 0 <= u <= 9 && v == t * 10 + u
    ensures ToBcd(v) == t * 16 + u
  {
    var b := t * 16 + u;
    assert b / 16 == t && b % 16 == u;
    EncodesAs(v, b);
  }

  /** As written, the time write is sent behind the burst-read opcode 0xBF
      instead of the burst-write opcode 0xBE. */
  lemma ProgramsWithReadOpcode(control: Byte, now: DateTime, flags: seq<bool>)
    ensures var t := Main(true, control, now, flags);
      |t| > 10 && t[10] == Write(InitTimeCmd(0xBF, now))
      && t[10].data[0] == Ds1302C.BURST_READ != Ds1302C.BURST_WRITE
  {
  }

  /** The corrected program issues exactly the C program's trace for the same
      wall-clock second; the program as written differs from it. */
  lemma CorrectedMatchesC(tm: Tm, now: DateTime, control: Byte, flags: seq<bool>)
    requires ValidTm(tm) && ValidDateTime(now) && SameTime(tm, now) && now.year >= 1900
    ensures MainCorrected(true, control, now, flags) == Ds1302C.Session(Ds1302C.BuildFrame(tm), control, flags)
    ensures Main(true, control, now, flags) != Ds1302C.Session(Ds1302C.BuildFrame(tm), control, flags)
  {
    var regs := Ds1302C.BuildFrame(tm);
    FramesAgree(tm, now, Ds1302C.BURST_WRITE);
    MasksAgree(control);
    PollMatchesC(flags);
    var c := Ds1302C.Session(regs, control, flags);
    assert c == [SetCSIdle(0),
     Start, Write([0x8F]), Read(1), Stop,
     Start, Write([0x8E]), Write([Ds1302C.ClearWriteProtect(control)]), Stop,
     Start, Write(regs.(cmd := 0xBE).Bytes()), Stop]
    + Ds1302C.PollLoop(flags) + [Close];
    assert Main(true, control, now, flags)[10] != c[10];
  }

  /** Every command is issued inside a Start..Stop transaction, no transaction
      is left open, and `Close` comes last, unless the library never opened. */
  lemma SessionReleased(opcode: Byte, control: Byte, now: DateTime, flags: seq<bool>)
    ensures Bracketed(SessionWith(opcode, control, now, flags))
    ensures var t := SessionWith(opcode, control, now, flags); t[|t| - 1] == Close
  {
    PollMatchesC(flags);
    MasksAgree(control);
    var setup := [SetCSIdle(0)] + Ds1302C.ControlRead + Ds1302C.ControlWrite(control);
    var body := [Write(InitTimeCmd(opcode, now))];
    var a := setup + ([Start] + body + [Stop]);
    assert a == [SetCSIdle(0),
     Start, Write([0x8F]), Read(1), Stop,
     Start, Write([0x8E]), Write([ClearWriteProtect(control)]), Stop,
     Start, Write(InitTimeCmd(opcode, now)), Stop];
    StopReleases(Idle, a);
    ReplayAppend(Idle, a, PollLoop(flags));
    Ds1302C.PollLoopReleases(Replay(Idle, a), flags);
    ReplayClose(Idle, a + PollLoop(flags));
    Ds1302C.SetupFramed(Idle, control);
    FramedTransaction(Replay(Idle, setup), body);
    FramedAppend(Idle, setup, [Start] + body + [Stop]);
    Ds1302C.PollLoopFramed(Replay(Idle, a), flags);
    FramedAppend(Idle, a, PollLoop(flags));
    FramedControl(Replay(Idle, a + PollLoop(flags)), Close);
    FramedAppend(Idle, a + PollLoop(flags), [Close]);
    assert SessionWith(opcode, control, now, flags) == a + PollLoop(flags) + [Close];
  }
}
