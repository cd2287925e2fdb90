/** The Python example driving a DS3231 real-time clock over I2C.

  It writes the time registers, with twelve zero bytes after them, in one
  acknowledged transfer, then polls the registers once per loop iteration
  until the user interrupts it or the clock refuses a transfer, which raises.
  The `finally` clause closes the library on every way out of the inner `try`.
 */
module Ds3231Py {
  import opened Bus
  import opened Bcd
  import opened Calendar
  import Ds3231C

  /** The register values `init_time_cmd` appends: seconds, minutes, hours,
      weekday, day, month and year, then twelve zero bytes for the alarm,
      control, status, aging and temperature registers. */
  function TimeRegisters(now: DateTime): (r: seq<Byte>)
    ensures |r| == 19
    ensures IsBcd(r[0]) && IsBcd(r[1]) && IsBcd(r[2]) && IsBcd(r[4]) && IsBcd(r[5]) && IsBcd(r[6])
    ensures Decode(r[0]) == now.second % 100 && Decode(r[1]) == now.minute % 100
    ensures Decode(r[2]) == now.hour % 100 && Decode(r[4]) == now.day % 100
    ensures Decode(r[5]) == now.month % 100 && Decode(r[6]) == now.year % 100
    ensures 1 <= r[3] <= 7 && r[3] - 1 == now.isoWeekday % 7
    ensures forall k :: 7 <= k < |r| ==> r[k] == 0
  {
    [ToBcd(now.second), ToBcd(now.minute), ToBcd(now.hour), IsoWdayRegister(now),
     ToBcd(now.day), ToBcd(now.month), ToBcd(now.year),
     0, 0, 0, 0, 0, 0, 0, 0, 0, 0, 0, 0]
  }

  /** `init_time_cmd(WRCMD)`: the given command bytes followed by the time registers. */
  function InitTimeCmd(wrcmd: seq<Byte>, now: DateTime): (r: seq<Byte>)
    ensures |r| == |wrcmd| + 19
    ensures r[..|wrcmd|] == wrcmd && r[|wrcmd|..] == TimeRegisters(now)
  {
    var r := wrcmd + TimeRegisters(now);
    assert r[..|wrcmd|] == wrcmd && r[|wrcmd|..] == TimeRegisters(now);
    r
  }

  /** On a valid `datetime` every time register decodes to its field; the year
      register keeps the last two digits. */
  lemma TimeRegistersDecode(now: DateTime)
    requires ValidDateTime(now)
    ensures var r := TimeRegisters(now);
      && Decode(r[0]) == now.second && Decode(r[1]) == now.minute && Decode(r[2]) == now.hour
      && Decode(r[4]) == now.day && Decode(r[5]) == now.month
  {
    assert now.second % 100 == now.second && now.minute % 100 == now.minute;
    assert now.hour % 100 == now.hour && now.day % 100 == now.day && now.month % 100 == now.month;
  }

  /** The poll iteration whose register pointer was refused: stopped once, then raised. */
  const PointerNack: seq<Event> := [Start, Write([0xD0, 0]), GetAck, Stop]

  /** Where a Python poll ends up: the events issued, and how the loop was left. */
  datatype Outcome = Outcome(trace: seq<Event>, exit: Exit)

  /** The `while True` poll loop.  An interrupt arriving while the loop sleeps
      (a false flag, or the end of the flags) leaves it; a refused pointer or
      read address ends the transaction with `Stop` and raises. */
  function PollLoop(acks: seq<Ack>, flags: seq<bool>): (o: Outcome)
    decreases |flags|
    ensures o.exit == Raised(WriteCommandNack) || o.exit == Raised(ReadCommandNack) || o.exit == Interrupted
  {
    if flags == [] || !flags[0] then Outcome([], Interrupted)
    else
      var writeLeg := [Start, Write([0xD0, 0]), GetAck];
      if AckAt(acks, 0) == Ack then
        var readLeg := [Start, Write([0xD1]), GetAck];
        if AckAt(acks, 1) == Ack then
          var rest := PollLoop(Drop(acks, 2), flags[1..]);
          Outcome(writeLeg + readLeg + [SendAcks, Read(18), SendNacks, Read(1), Stop] + rest.trace, rest.exit)
        else
          Outcome(writeLeg + readLeg + [Stop], Raised(ReadCommandNack))
      else
        Outcome(writeLeg + [Stop], Raised(WriteCommandNack))
  }

  /** The program once the library is open: program the clock, and poll only if
      the clock acknowledged; `Close` comes last on every path. */
  function Session(now: DateTime, acks: seq<Ack>, flags: seq<bool>): (o: Outcome)
    ensures |o.trace| > 0 && o.trace[|o.trace| - 1] == Close
  {
    var program := [Start, Write(InitTimeCmd([0xD0, 0], now)), GetAck];
    if AckAt(acks, 0) == Ack then
      var loop := PollLoop(Drop(acks, 1), flags);
      Outcome(program + [Stop] + loop.trace + [Close], loop.exit)
    else
      Outcome(program + [Close], Raised(InitialWriteNack))
  }

  /** The session with the initial write's NACK branch ending the transaction
      with `Stop` before raising, as both poll legs already do. */
  function SessionStopped(now: DateTime, acks: seq<Ack>, flags: seq<bool>): (o: Outcome)
    ensures o.exit == Session(now, acks, flags).exit
    ensures AckAt(acks, 0) == Ack ==> o == Session(now, acks, flags)
  {
    var program := [Start, Write(InitTimeCmd([0xD0, 0], now)), GetAck];
    if AckAt(acks, 0) == Ack then Session(now, acks, flags)
    else Outcome(program + [Stop, Close], Raised(InitialWriteNack))
  }

  /** `main`: a library that fails to open raises before any bus event. */
  function Main(busOpen: bool, now: DateTime, acks: seq<Ack>, flags: seq<bool>): (o: Outcome)
    ensures o.exit == Raised(OpenFailed) <==> !busOpen
    ensures !busOpen ==> o.trace == []
    ensures busOpen ==> |o.trace| > 0 && o.trace[|o.trace| - 1] == Close
  {
    if !busOpen then Outcome([], Raised(OpenFailed)) else Session(now, acks, flags)
  }

  // ---------------------------------------------------------------- properties

  /** The Python registers are byte for byte the C frame's registers for the
      same wall-clock second, from 1900 on, when `tm_year` is not negative. */
  lemma RegistersAgree(tm: Tm, now: DateTime)
    requires ValidTm(tm) && ValidDateTime(now) && SameTime(tm, now) && now.year >= 1900
    ensures TimeRegisters(now) == Ds3231C.BuildFrame(tm).Bytes()[2..]
  {
    var r := Ds3231C.BuildFrame(tm);
    WeekdaysAgree(tm, now);
    FieldMatches(tm.sec);
    FieldMatches(tm.min);
    FieldMatches(tm.hour);
    FieldMatches(tm.mday);
    FieldMatches(tm.mon + 1);
    YearMatches(tm.year);
    assert r.Bytes()[2..] == [r.sec, r.min, r.hour, r.wday, r.date, r.mon, r.year,
      0, 0, 0, 0, 0, 0, 0, 0, 0, 0, 0, 0];
  }

  /** The Python programming write carries exactly the C frame. */
  lemma FramesAgree(tm: Tm, now: DateTime)
    requires ValidTm(tm) && ValidDateTime(now) && SameTime(tm, now) && now.year >= 1900
    ensures InitTimeCmd([0xD0, 0], now) == Ds3231C.BuildFrame(tm).Bytes()
  {
    var c := Ds3231C.BuildFrame(tm).Bytes();
    RegistersAgree(tm, now);
    Ds3231C.FrameLayout(tm);
    assert c[..2] == [0xD0, 0];
    assert c == c[..2] + c[2..];
  }

  /** A refused initial write raises without a `Stop`: only `Close` follows, so
      the transaction is left open on the bus. */
  lemma InitialNack(now: DateTime, acks: seq<Ack>, flags: seq<bool>)
    requires AckAt(acks, 0) == Nack
    ensures Session(now, acks, flags)
      == Outcome([Start, Write(InitTimeCmd([0xD0, 0], now)), GetAck, Close], Raised(InitialWriteNack))
    ensures !Released(Session(now, acks, flags).trace)
  {
    var data := InitTimeCmd([0xD0, 0], now);
    ReplayAddressedWrite(Idle, data);
    ReplayClose(Idle, [Start, Write(data), GetAck]);
  }

  /** A refused poll leg issues `Stop` and raises, with no Read. */
  lemma PollNack(acks: seq<Ack>, flags: seq<bool>)
    requires flags != [] && flags[0]
    ensures AckAt(acks, 0) == Nack ==>
      PollLoop(acks, flags) == Outcome(PointerNack, Raised(WriteCommandNack))
    ensures AckAt(acks, 0) == Ack && AckAt(acks, 1) == Nack ==>
      PollLoop(acks, flags) == Outcome(Ds3231C.ReadRefused, Raised(ReadCommandNack))
  {
  }

  /** The Python poll loop issues exactly the C loop's events, except that a
      refused pointer is not queried and stopped a second time. */
  lemma {:induction false} PollMatchesC(regs: Ds3231C.Regs, acks: seq<Ack>, flags: seq<bool>)
    ensures PollLoop(acks, flags).exit != Raised(WriteCommandNack) ==>
      PollLoop(acks, flags).trace == Ds3231C.PollLoop(regs, acks, flags)
    ensures PollLoop(acks, flags).exit == Raised(WriteCommandNack) ==>
      PollLoop(acks, flags).trace + [GetAck, Stop] == Ds3231C.PollLoop(regs, acks, flags)
    decreases |flags|
  {
    if flags != [] && flags[0] {
      var p := Ds3231C.PollOnce(regs, acks);
      var o := PollLoop(acks, flags);
      if AckAt(acks, 0) == Nack {
        assert Ds3231C.PollLoop(regs, acks, flags) == Ds3231C.PointerRefused;
      } else if AckAt(acks, 1) == Nack {
        assert Ds3231C.PollLoop(regs, acks, flags) == Ds3231C.ReadRefused + [];
      } else {
        var rest := PollLoop(Drop(acks, 2), flags[1..]);
        PollMatchesC(regs, Drop(acks, 2), flags[1..]);
        assert o.trace == Ds3231C.SuccessfulPoll + rest.trace;
        assert Ds3231C.PollLoop(regs, acks, flags)
          == Ds3231C.SuccessfulPoll + Ds3231C.PollLoop(regs, Drop(acks, 2), flags[1..]);
        if rest.exit == Raised(WriteCommandNack) {
          assert o.trace + [GetAck, Stop] == Ds3231C.SuccessfulPoll + (rest.trace + [GetAck, Stop]);
        }
      }
    }
  }

  /** With every transfer acknowledged, the loop polls once per leading true
      flag and is left by the interrupt. */
  lemma {:induction false} AllAcknowledged(acks: seq<Ack>, flags: seq<bool>)
    requires forall k :: 0 <= k < 2 * Leading(flags) ==> AckAt(acks, k) == Ack
    ensures PollLoop(acks, flags) == Outcome(Repeat(Ds3231C.SuccessfulPoll, Leading(flags)), Interrupted)
    decreases |flags|
  {
    if flags != [] && flags[0] {
      assert AckAt(acks, 0) == Ack && AckAt(acks, 1) == Ack;
      var rest := Drop(acks, 2);
      forall k | 0 <= k < 2 * Leading(flags[1..]) ensures AckAt(rest, k) == Ack {
        assert AckAt(acks, k + 2) == Ack;
      }
      AllAcknowledged(rest, flags[1..]);
    }
  }

  /** The poll loop stays quiet: every transaction it starts is stopped, and
      every read it issues ends with a single NACKed byte. */
  lemma {:induction false} PollLoopQuiet(l: Line, acks: seq<Ack>, flags: seq<bool>)
    requires Quiet(l)
    ensures Quiet(Replay(l, PollLoop(acks, flags).trace))
    decreases |flags|
  {
    if flags != [] && flags[0] {
      LegsQuiet(l);
      if AckAt(acks, 0) == Nack {
        assert PollLoop(acks, flags).trace == PointerNack;
      } else if AckAt(acks, 1) == Nack {
        assert PollLoop(acks, flags).trace == Ds3231C.ReadRefused;
      } else {
        var rest := PollLoop(Drop(acks, 2), flags[1..]);
        assert PollLoop(acks, flags).trace == Ds3231C.SuccessfulPoll + rest.trace;
        ReplayAppend(l, Ds3231C.SuccessfulPoll, rest.trace);
        PollLoopQuiet(Replay(l, Ds3231C.SuccessfulPoll), Drop(acks, 2), flags[1..]);
      }
    }
  }

  lemma LegsQuiet(l: Line)
    requires Quiet(l)
    ensures Quiet(Replay(l, PointerNack))
    ensures Quiet(Replay(l, Ds3231C.ReadRefused))
    ensures Quiet(Replay(l, Ds3231C.SuccessfulPoll))
  {
  }

  /** The bus is released at the end exactly when the initial write was
      acknowledged; every read, on every path, ends with a NACKed byte. */
  lemma SessionReleased(now: DateTime, acks: seq<Ack>, flags: seq<bool>)
    ensures Released(Session(now, acks, flags).trace) <==> AckAt(acks, 0) == Ack
    ensures ReadsNacked(Session(now, acks, flags).trace)
  {
    var data := InitTimeCmd([0xD0, 0], now);
    var program := [Start, Write(data), GetAck];
    ReplayAddressedWrite(Idle, data);
    var held := Replay(Idle, program);
    if AckAt(acks, 0) == Ack {
      var loop := PollLoop(Drop(acks, 1), flags);
      ReplayAppend(Idle, program, [Stop]);
      ReplayAppend(Idle, program + [Stop], loop.trace);
      PollLoopQuiet(Step(held, Stop), Drop(acks, 1), flags);
      ReplayClose(Idle, program + [Stop] + loop.trace);
    } else {
      InitialNack(now, acks, flags);
      ReplayClose(Idle, program);
    }
  }

  /** With `Stop` before the raise, the bus is released on every path. */
  lemma StoppedReleased(now: DateTime, acks: seq<Ack>, flags: seq<bool>)
    ensures Released(SessionStopped(now, acks, flags).trace)
    ensures ReadsNacked(SessionStopped(now, acks, flags).trace)
  {
    SessionReleased(now, acks, flags);
    if AckAt(acks, 0) == Nack {
      var data := InitTimeCmd([0xD0, 0], now);
      var program := [Start, Write(data), GetAck];
      ReplayAddressedWrite(Idle, data);
      ReplayAppend(Idle, program, [Stop, Close]);
      assert Replay(Step(Idle, Start), [Stop, Close]) == Idle;
    }
  }
}
