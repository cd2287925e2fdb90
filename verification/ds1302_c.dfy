/** The C example driving a DS1302 real-time clock over its 3-wire serial bus.

  The program reads the control register, writes it back with the
  write-protect bit cleared, writes the 9-byte `t_ds1302regs` frame from a
  stable clock capture in one burst, and then reads the 8 clock registers in
  one burst per loop iteration until the run flag is cleared.  Chip select
  frames every command (Start raises it, Stop drops it); the DS1302 answers no
  acknowledgement, so no transfer is ever refused.
 */
module Ds1302C {
  import opened Bus
  import opened Bcd
  import opened Calendar
  import opened Snapshot

  /** Single-byte read of the control register. */
  const READ_CONTROL: Byte := 0x8F
  /** Single-byte write of the control register. */
  const WRITE_CONTROL: Byte := 0x8E
  /** Clock burst write: the 7 clock registers and the control register. */
  const BURST_WRITE: Byte := 0xBE
  /** Clock burst read. */
  const BURST_READ: Byte := 0xBF
  /** `sizeof(t_ds1302regs)`: the command byte and 8 registers. */
  const FRAME_SIZE := 9

  /** `t_ds1302regs`: the command byte, then the clock registers in burst order
      (seconds, minutes, hours, date, month, weekday, year) and the control register. */
  datatype Regs = Regs(cmd: Byte, sec: Byte, min: Byte, hour: Byte, date: Byte,
                       mon: Byte, wday: Byte, year: Byte, ctrl: Byte)
  {
    /** The struct as the bytes `(char *)&regs` points at, in declaration order. */
    function Bytes(): (b: seq<Byte>)
      ensures |b| == FRAME_SIZE
      ensures b[0] == cmd && b[FRAME_SIZE - 1] == ctrl
    {
      [cmd, sec, min, hour, date, mon, wday, year, ctrl]
    }
  }

  /** One pass of the body of the capture loop in `set_current_date`: the time
      fields are overwritten on the frame cleared by `memset`, so the command
      and control bytes stay 0. */
  function BuildFrame(tm: Tm): (r: Regs)
    ensures r.cmd == 0 && r.ctrl == 0
    ensures IsBcd(r.sec) && IsBcd(r.min) && IsBcd(r.hour) && IsBcd(r.date) && IsBcd(r.mon) && IsBcd(r.year)
    ensures ValidTm(tm) && 0 <= tm.year < 65536 ==>
      && Decode(r.sec) == tm.sec && Decode(r.min) == tm.min && Decode(r.hour) == tm.hour
      && Decode(r.date) == tm.mday && Decode(r.mon) == tm.mon + 1
      && 1 <= r.wday <= 7 && r.wday == tm.wday + 1
      && Decode(r.year) == tm.year % 100
  {
    Regs(0, FieldBcd(tm.sec), FieldBcd(tm.min), FieldBcd(tm.hour), FieldBcd(tm.mday),
         FieldBcd(tm.mon + 1), WdayRegister(tm), YearBcd(tm.year), 0)
  }

  /** `set_current_date`: the frame of the first capture whose clock readings agree. */
  function SetCurrentDate(ts: seq<int>, local: int -> Tm): (c: Capture<Regs>)
    ensures c.Captured? ==> FirstStable(ts, c.retries) && c.frame == BuildFrame(local(ts[2 * c.retries]))
    ensures c.Unsettled? <==> forall j: nat :: !Stable(ts, j)
  {
    StableCapture(ts, local, BuildFrame)
  }

  /** `control[0] &= ~0x80`: clears bit 7, the write-protect bit. */
  function ClearWriteProtect(control: Byte): (r: Byte)
    ensures r < 0x80
    ensures r % 0x80 == control % 0x80
    ensures r == control <==> control < 0x80
  {
    if control >= 0x80 then control - 0x80 else control
  }

  /** Reading the control register. */
  const ControlRead: seq<Event> := [Start, Write([READ_CONTROL]), Read(1), Stop]

  /** Writing back the control value read, its write-protect bit cleared. */
  function ControlWrite(control: Byte): (t: seq<Event>)
    ensures t == [Start, Write([0x8E]), Write([control % 0x80]), Stop]
  {
    [Start, Write([WRITE_CONTROL]), Write([ClearWriteProtect(control)]), Stop]
  }

  /** The burst write of the captured frame, its command byte set to 0xBE. */
  function ProgramWrite(regs: Regs): (t: seq<Event>)
    ensures |t| == 3 && t[0] == Start && t[2] == Stop && t[1].Write?
    ensures t[1].data == [BURST_WRITE] + regs.Bytes()[1..]
  {
    [Start, Write(regs.(cmd := BURST_WRITE).Bytes()), Stop]
  }

  /** One poll iteration: a burst read of the 8 registers. */
  const PollTransaction: seq<Event> := [Start, Write([BURST_READ]), Read(8), Stop]

  /** The `while (run)` loop: the flag is read before each iteration. */
  function PollLoop(flags: seq<bool>): (t: seq<Event>)
    decreases |flags|
    ensures |t| == 4 * Leading(flags)
  {
    if flags == [] || !flags[0] then [] else PollTransaction + PollLoop(flags[1..])
  }

  /** The part of `main` that follows the capture; `control` is the byte the
      control read hands back. */
  function Session(regs: Regs, control: Byte, flags: seq<bool>): (t: seq<Event>)
    ensures |t| == 13 + 4 * Leading(flags)
    ensures t[0] == SetCSIdle(0) && t[10] == Write([BURST_WRITE] + regs.Bytes()[1..]) && t[|t| - 1] == Close
  {
    [SetCSIdle(0)] + ControlRead + ControlWrite(control) + ProgramWrite(regs) + PollLoop(flags) + [Close]
  }

  /** `main`.  A library that fails to open is still closed.  When the clock
      readings never settle the capture never returns, and the trace ends
      after the control write. */
  function Main(busOpen: bool, control: Byte, ts: seq<int>, local: int -> Tm, flags: seq<bool>): (t: seq<Event>)
    ensures !busOpen ==> t == [Close]
    ensures |t| > 0 && (t[|t| - 1] == Close <==> !busOpen || SetCurrentDate(ts, local).Captured?)
  {
    if !busOpen then [Close]
    else match SetCurrentDate(ts, local)
      case Unsettled => [SetCSIdle(0)] + ControlRead + ControlWrite(control)
      case Captured(regs, _) => Session(regs, control, flags)
  }

  // ---------------------------------------------------------------- properties

  /** The burst-write frame: opcode 0xBE, the seven clock registers in burst
      order, and a control byte of 0 that leaves write protection off. */
  lemma FrameLayout(tm: Tm)
    ensures BuildFrame(tm).(cmd := BURST_WRITE).Bytes()
      == [0xBE, FieldBcd(tm.sec), FieldBcd(tm.min), FieldBcd(tm.hour), FieldBcd(tm.mday),
          FieldBcd(tm.mon + 1), WdayRegister(tm), YearBcd(tm.year), 0]
  {
    var f := BuildFrame(tm).(cmd := BURST_WRITE);
    assert f.Bytes() == [f.cmd, f.sec, f.min, f.hour, f.date, f.mon, f.wday, f.year, f.ctrl];
  }

  /** The loop polls once for each leading true run flag. */
  lemma {:induction false} PollLoopRepeats(flags: seq<bool>)
    ensures PollLoop(flags) == Repeat(PollTransaction, Leading(flags))
    decreases |flags|
  {
    if flags != [] && flags[0] {
      PollLoopRepeats(flags[1..]);
    }
  }

  /** Each iteration reads exactly the 8 clock registers. */
  lemma PollReadBytes(flags: seq<bool>)
    ensures BytesRead(PollLoop(flags)) == 8 * Leading(flags)
  {
    PollLoopRepeats(flags);
    assert BytesRead([Stop]) == 0;
    assert BytesRead([Read(8), Stop]) == 8;
    assert BytesRead([Write([BURST_READ]), Read(8), Stop]) == 8;
    assert BytesRead(PollTransaction) == 8;
    RepeatBytesRead(PollTransaction, Leading(flags));
  }

  /** The session once the clock settled on `tm`: the control read, the control
      write, the burst write of the frame, one burst read per leading true run
      flag, and `Close`. */
  lemma SessionLayout(tm: Tm, control: Byte, flags: seq<bool>)
    ensures Session(BuildFrame(tm), control, flags)
      == [SetCSIdle(0),
          Start, Write([0x8F]), Read(1), Stop,
          Start, Write([0x8E]), Write([control % 0x80]), Stop,
          Start, Write([0xBE, FieldBcd(tm.sec), FieldBcd(tm.min), FieldBcd(tm.hour), FieldBcd(tm.mday),
                        FieldBcd(tm.mon + 1), WdayRegister(tm), YearBcd(tm.year), 0]), Stop]
         + Repeat(PollTransaction, Leading(flags)) + [Close]
  {
    FrameLayout(tm);
    PollLoopRepeats(flags);
  }

  /** An opened bus whose clock settles programs the frame of the first stable
      capture, between the control write and the polling. */
  lemma OperationOrder(control: Byte, ts: seq<int>, local: int -> Tm, flags: seq<bool>, k: nat)
    requires FirstStable(ts, k)
    ensures Main(true, control, ts, local, flags) == Session(BuildFrame(local(ts[2 * k])), control, flags)
  {
    var c := SetCurrentDate(ts, local);
    assert !(forall j: nat :: !Stable(ts, j));
    FirstStableUnique(ts, c.retries, k);
    FirstStableUnique(ts, k, c.retries);
  }

  /** Polling never leaves chip select raised. */
  lemma {:induction false} PollLoopReleases(l: Line, flags: seq<bool>)
    requires !l.held
    ensures !Replay(l, PollLoop(flags)).held
    decreases |flags|
  {
    if flags != [] && flags[0] {
      ReplayAppend(l, PollTransaction, PollLoop(flags[1..]));
      StopReleases(l, PollTransaction);
      PollLoopReleases(Replay(l, PollTransaction), flags[1..]);
    }
  }

  /** Every poll is a framed transaction. */
  lemma PollLoopFramed(l: Line, flags: seq<bool>)
    ensures Framed(l, PollLoop(flags))
  {
    var body := [Write([BURST_READ]), Read(8)];
    assert PollTransaction == [Start] + body + [Stop];
    forall m: Line
      ensures Framed(m, PollTransaction)
    {
      FramedTransaction(m, body);
    }
    PollLoopRepeats(flags);
    FramedRepeat(l, PollTransaction, Leading(flags));
  }

  /** The set-up transactions are framed wherever they start. */
  lemma SetupFramed(l: Line, control: Byte)
    ensures Framed(l, [SetCSIdle(0)] + ControlRead + ControlWrite(control))
  {
    var rbody := [Write([READ_CONTROL]), Read(1)];
    var wbody := [Write([WRITE_CONTROL]), Write([ClearWriteProtect(control)])];
    assert ControlRead == [Start] + rbody + [Stop];
    assert ControlWrite(control) == [Start] + wbody + [Stop];
    FramedControl(l, SetCSIdle(0));
    var l1 := Replay(l, [SetCSIdle(0)]);
    FramedTransaction(l1, rbody);
    FramedAppend(l, [SetCSIdle(0)], ControlRead);
    var l2 := Replay(l, [SetCSIdle(0)] + ControlRead);
    FramedTransaction(l2, wbody);
    FramedAppend(l, [SetCSIdle(0)] + ControlRead, ControlWrite(control));
  }

  /** The session issues every command inside a Start..Stop transaction and
      leaves none open. */
  lemma SessionReleased(regs: Regs, control: Byte, flags: seq<bool>)
    ensures Bracketed(Session(regs, control, flags))
  {
    var setup := [SetCSIdle(0)] + ControlRead + ControlWrite(control);
    var a := setup + ProgramWrite(regs);
    StopReleases(Idle, a);
    ReplayAppend(Idle, a, PollLoop(flags));
    PollLoopReleases(Replay(Idle, a), flags);
    ReplayClose(Idle, a + PollLoop(flags));
    SetupFramed(Idle, control);
    var pbody := [Write(regs.(cmd := BURST_WRITE).Bytes())];
    assert ProgramWrite(regs) == [Start] + pbody + [Stop];
    FramedTransaction(Replay(Idle, setup), pbody);
    FramedAppend(Idle, setup, ProgramWrite(regs));
    PollLoopFramed(Replay(Idle, a), flags);
    FramedAppend(Idle, a, PollLoop(flags));
    FramedControl(Replay(Idle, a + PollLoop(flags)), Close);
    FramedAppend(Idle, a + PollLoop(flags), [Close]);
    assert Session(regs, control, flags) == a + PollLoop(flags) + [Close];
  }

  /** Every command the program issues is framed by Start and Stop, and no
      transaction is left open, on every path. */
  lemma AlwaysReleased(busOpen: bool, control: Byte, ts: seq<int>, local: int -> Tm, flags: seq<bool>)
    ensures Bracketed(Main(busOpen, control, ts, local, flags))
  {
    if busOpen {
      match SetCurrentDate(ts, local)
      case Unsettled =>
        StopReleases(Idle, [SetCSIdle(0)] + ControlRead + ControlWrite(control));
        SetupFramed(Idle, control);
      case Captured(regs, _) =>
        SessionReleased(regs, control, flags);
    } else {
      assert Replay(Idle, [Close]) == Idle;
      FramedControl(Idle, Close);
    }
  }
}
