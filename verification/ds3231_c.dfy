/** The C example driving a DS3231 real-time clock over I2C.

  The program fills the 21-byte `t_ds3231regs` frame from a stable clock
  capture, writes it in one I2C transfer, and, if the clock acknowledged, polls
  the 19 time, alarm, control and temperature registers once per loop
  iteration with a write-pointer-then-read transaction until the run flag is
  cleared, by the interrupt handler or by a refused transfer.
 */
module Ds3231C {
  import opened Bus
  import opened Bcd
  import opened Calendar
  import opened Snapshot

  /** I2C write address of the DS3231 (`WADDR`). */
  const WADDR: Byte := 0xD0
  /** I2C read address of the DS3231 (`RADDR`). */
  const RADDR: Byte := 0xD1
  /** `sizeof(t_ds3231regs)`: address, register pointer and registers 0..18. */
  const FRAME_SIZE := 21

  /** `t_ds3231regs`: the address byte, the register pointer, then registers 0
      to 18 in the order of the DS3231 datasheet. */
  datatype Regs = Regs(
    i2cAddr: Byte, wdAddr: Byte,
    sec: Byte, min: Byte, hour: Byte, wday: Byte, date: Byte, mon: Byte, year: Byte,
    am1Sec: Byte, am1Min: Byte, am1Hour: Byte, am1DayDate: Byte,
    am2Min: Byte, am2Hour: Byte, am2DayDate: Byte,
    control: Byte, ctrlStatus: Byte, agingOffset: Byte, tempMsb: Byte, tempLsb: Byte)
  {
    /** The struct as the bytes `(char *)&regs` points at, in declaration order. */
    function Bytes(): (b: seq<Byte>)
      ensures |b| == FRAME_SIZE
    {
      [i2cAddr, wdAddr, sec, min, hour, wday, date, mon, year,
       am1Sec, am1Min, am1Hour, am1DayDate, am2Min, am2Hour, am2DayDate,
       control, ctrlStatus, agingOffset, tempMsb, tempLsb]
    }

    /** The alarm, control, status, aging and temperature registers are all 0. */
    predicate RestCleared()
    {
      && am1Sec == 0 && am1Min == 0 && am1Hour == 0 && am1DayDate == 0
      && am2Min == 0 && am2Hour == 0 && am2DayDate == 0
      && control == 0 && ctrlStatus == 0 && agingOffset == 0 && tempMsb == 0 && tempLsb == 0
    }
  }

  /** One pass of the body of the capture loop in `set_current_date`: the time
      fields are overwritten on the frame cleared by `memset`, every other
      register stays 0.
      Each `int` field of the `struct tm` is narrowed to the encoder's argument
      type on the call, as C does. */
  function BuildFrame(tm: Tm): (r: Regs)
    ensures r.i2cAddr == WADDR && r.wdAddr == 0 && r.RestCleared()
    ensures IsBcd(r.sec) && IsBcd(r.min) && IsBcd(r.hour) && IsBcd(r.date) && IsBcd(r.mon) && IsBcd(r.year)
    ensures ValidTm(tm) && 0 <= tm.year < 65536 ==>
      && Decode(r.sec) == tm.sec && Decode(r.min) == tm.min && Decode(r.hour) == tm.hour
      && 1 <= r.wday <= 7 && r.wday == tm.wday + 1
      && Decode(r.date) == tm.mday && Decode(r.mon) == tm.mon + 1
      && Decode(r.year) == tm.year % 100
  {
    Regs(WADDR, 0,
         FieldBcd(tm.sec), FieldBcd(tm.min), FieldBcd(tm.hour), WdayRegister(tm),
         FieldBcd(tm.mday), FieldBcd(tm.mon + 1), YearBcd(tm.year),
         0, 0, 0, 0, 0, 0, 0, 0, 0, 0, 0, 0)
  }

  /** The first two bytes of the frame once its address and pointer are reset for
      a register read: `Write(ds3231, (char *)(&ds3231regs), 2)`. */
  function PointerWrite(regs: Regs): (b: seq<Byte>)
    ensures b == [0xD0, 0]
  {
    var r := regs.(i2cAddr := WADDR, wdAddr := 0);
    assert r.Bytes()[..2] == [r.i2cAddr, r.wdAddr];
    r.Bytes()[..2]
  }

  /** The first byte of the frame once its address is switched to the read
      address: `Write(ds3231, (char *)(&ds3231regs), 1)`. */
  function ReadAddressWrite(regs: Regs): (b: seq<Byte>)
    ensures b == [0xD1]
  {
    var r := regs.(i2cAddr := RADDR);
    assert r.Bytes()[..1] == [r.i2cAddr];
    r.Bytes()[..1]
  }

  /** `set_current_date`: the frame of the first capture whose clock readings agree. */
  function SetCurrentDate(ts: seq<int>, local: int -> Tm): (c: Capture<Regs>)
    ensures c.Captured? ==> FirstStable(ts, c.retries) && c.frame == BuildFrame(local(ts[2 * c.retries]))
    ensures c.Unsettled? <==> forall j: nat :: !Stable(ts, j)
  {
    StableCapture(ts, local, BuildFrame)
  }

  /** The poll iteration whose two legs were both acknowledged: 18 registers
      read with ACKs, the last one alone with a NACK. */
  const SuccessfulPoll: seq<Event> :=
    [Start, Write([0xD0, 0]), GetAck, Start, Write([0xD1]), GetAck,
     SendAcks, Read(18), SendNacks, Read(1), Stop]

  /** The poll iteration whose register pointer was refused. */
  const PointerRefused: seq<Event> :=
    [Start, Write([0xD0, 0]), GetAck, Stop, GetAck, Stop]

  /** The poll iteration whose read address was refused. */
  const ReadRefused: seq<Event> :=
    [Start, Write([0xD0, 0]), GetAck, Start, Write([0xD1]), GetAck, Stop]

  /** One iteration of the poll loop: the events, how many ack answers its
      Writes used, and whether it cleared the run flag. */
  datatype Poll = Poll(trace: seq<Event>, used: nat, failed: bool)

  /** One iteration of the polling `while (run)` loop.  The frame's address and
      pointer are reset and its first two bytes sent; on an ACK the address is
      switched to the read address and its first byte sent.  Then `GetAck`
      reports on the most recent Write: the read address if the pointer was
      acknowledged, the pointer again if not, so a refused pointer is answered
      with a second `GetAck` and a second `Stop`.  An acknowledged read fetches
      all registers but the last with ACKs, then the last alone with a NACK. */
  function PollOnce(regs: Regs, acks: seq<Ack>): (p: Poll)
    ensures p.failed <==> AckAt(acks, 0) == Nack || AckAt(acks, 1) == Nack
    ensures !p.failed ==> p.trace == SuccessfulPoll && p.used == 2
    ensures AckAt(acks, 0) == Nack ==> p.trace == PointerRefused && p.used == 1
    ensures AckAt(acks, 0) == Ack && AckAt(acks, 1) == Nack ==> p.trace == ReadRefused && p.used == 2
  {
    var writeLeg := [Start, Write(PointerWrite(regs)), GetAck];
    if AckAt(acks, 0) == Ack then
      var readLeg := [Start, Write(ReadAddressWrite(regs)), GetAck];
      if AckAt(acks, 1) == Ack then
        Poll(writeLeg + readLeg + [SendAcks, Read(FRAME_SIZE - 3), SendNacks, Read(1), Stop], 2, false)
      else
        assert AckAt(acks, 1) == Nack;
        Poll(writeLeg + readLeg + [Stop], 2, true)
    else
      assert AckAt(acks, 0) == Nack;
      Poll(writeLeg + [Stop] + [GetAck, Stop], 1, true)
  }

  /** The polling loop: it tests the run flag at its head before every
      iteration, and a refused transfer clears the flag for good. */
  function PollLoop(regs: Regs, acks: seq<Ack>, flags: seq<bool>): (t: seq<Event>)
    decreases |flags|
    ensures t == [] <==> Leading(flags) == 0
    ensures t != [] ==> t[|t| - 1] == Stop
  {
    if flags == [] || !flags[0] then []
    else
      var p := PollOnce(regs, acks);
      p.trace + (if p.failed then [] else PollLoop(regs, Drop(acks, p.used), flags[1..]))
  }

  /** The program once the bus is open and the frame captured: the whole frame is
      written in one transfer; an acknowledged write is followed by the poll
      loop; on every path a `Stop` and then `Close` end the session. */
  function Session(regs: Regs, acks: seq<Ack>, flags: seq<bool>): (t: seq<Event>)
    ensures |t| >= 5 && t[..3] == [Start, Write(regs.Bytes()), GetAck]
    ensures t[|t| - 2..] == [Stop, Close]
    ensures AckAt(acks, 0) == Nack <==> |t| == 5
  {
    var program := [Start, Write(regs.Bytes()), GetAck];
    if AckAt(acks, 0) == Ack then
      var t := program + [Stop] + PollLoop(regs, Drop(acks, 1), flags) + [Stop, Close];
      assert |t| >= 6;
      t
    else
      assert AckAt(acks, 0) == Nack;
      program + [Stop, Close]
  }

  /** `main`: nothing reaches the bus when the library fails to open, and nothing
      is issued while the clock readings never settle. */
  function Main(busOpen: bool, ts: seq<int>, local: int -> Tm, acks: seq<Ack>, flags: seq<bool>): (t: seq<Event>)
    ensures t != [] <==> busOpen && SetCurrentDate(ts, local).Captured?
    ensures t != [] ==> t[|t| - 1] == Close
  {
    if !busOpen then []
    else
      match SetCurrentDate(ts, local)
      case Unsettled => []
      case Captured(regs, _) => Session(regs, acks, flags)
  }

  // ---------------------------------------------------------------- properties

  /** The frame is laid out as the DS3231 register map requires: write address,
      pointer 0, the seven time registers in datasheet order, twelve zero bytes. */
  lemma FrameLayout(tm: Tm)
    ensures var b := BuildFrame(tm).Bytes();
      && b[..9] == [0xD0, 0, FieldBcd(tm.sec), FieldBcd(tm.min), FieldBcd(tm.hour),
                    WdayRegister(tm), FieldBcd(tm.mday), FieldBcd(tm.mon + 1), YearBcd(tm.year)]
      && forall k :: 9 <= k < |b| ==> b[k] == 0
  {
    var r := BuildFrame(tm);
    var b := r.Bytes();
    assert b == [r.i2cAddr, r.wdAddr, r.sec, r.min, r.hour, r.wday, r.date, r.mon, r.year,
                 0, 0, 0, 0, 0, 0, 0, 0, 0, 0, 0, 0];
  }

  /** The year register holds the last two digits of the calendar year: 2024
      (`tm_year` 124) is 0x24 and 2030 is 0x30. */
  lemma YearRegister()
    ensures BuildFrame(Tm(0, 0, 0, 1, 0, 124, 0)).year == 0x24
    ensures BuildFrame(Tm(0, 0, 0, 1, 0, 130, 0)).year == 0x30
  {
    DecodeRoundTrip(YearBcd(124));
    DecodeRoundTrip(YearBcd(130));
    assert ToBcd(24) == 0x24 && ToBcd(30) == 0x30;
  }

  /** The frame written is the one of the first capture whose two readings agree. */
  lemma ProgramsFirstStableCapture(ts: seq<int>, local: int -> Tm, acks: seq<Ack>, flags: seq<bool>, k: nat)
    requires FirstStable(ts, k)
    ensures var t := Main(true, ts, local, acks, flags);
      |t| >= 3 && t[..3] == [Start, Write(BuildFrame(local(ts[2 * k])).Bytes()), GetAck]
  {
    var c := SetCurrentDate(ts, local);
    assert Stable(ts, k);
    FirstStableUnique(ts, c.retries, k);
  }

  /** A refused programming write issues no poll iteration and no Read, yet still
      ends with `Stop` and `Close`. */
  lemma RefusedProgramming(regs: Regs, acks: seq<Ack>, flags: seq<bool>)
    requires AckAt(acks, 0) == Nack
    ensures Session(regs, acks, flags) == [Start, Write(regs.Bytes()), GetAck, Stop, Close]
    ensures NoReads(Session(regs, acks, flags))
  {
  }

  /** If the run flag is already clear at the loop head, no poll iteration runs. */
  lemma CancelledBeforeFirstPoll(regs: Regs, acks: seq<Ack>, flags: seq<bool>)
    requires AckAt(acks, 0) == Ack
    requires flags == [] || !flags[0]
    ensures Session(regs, acks, flags) == [Start, Write(regs.Bytes()), GetAck, Stop, Stop, Close]
  {
  }

  /** A refused register pointer or read address ends the loop after that very
      iteration, with no Read; the pointer case queries the ack twice and stops twice. */
  lemma NackStopsPolling(regs: Regs, acks: seq<Ack>, flags: seq<bool>)
    requires flags != [] && flags[0]
    ensures AckAt(acks, 0) == Nack ==> PollLoop(regs, acks, flags) == PointerRefused
    ensures AckAt(acks, 0) == Ack && AckAt(acks, 1) == Nack ==> PollLoop(regs, acks, flags) == ReadRefused
    ensures NoReads(PointerRefused) && NoReads(ReadRefused)
  {
    if AckAt(acks, 0) == Nack || AckAt(acks, 1) == Nack {
      assert PollLoop(regs, acks, flags) == PollOnce(regs, acks).trace + [];
    }
  }

  /** With every transfer acknowledged, the loop runs once for each leading true
      run flag, each time issuing the successful poll trace. */
  lemma {:induction false} AllAcknowledged(regs: Regs, acks: seq<Ack>, flags: seq<bool>)
    requires forall k :: 0 <= k < 2 * Leading(flags) ==> AckAt(acks, k) == Ack
    ensures PollLoop(regs, acks, flags) == Repeat(SuccessfulPoll, Leading(flags))
    decreases |flags|
  {
    if flags != [] && flags[0] {
      assert AckAt(acks, 0) == Ack && AckAt(acks, 1) == Ack;
      var rest := Drop(acks, 2);
      forall k | 0 <= k < 2 * Leading(flags[1..]) ensures AckAt(rest, k) == Ack {
        assert AckAt(acks, k + 2) == Ack;
      }
      AllAcknowledged(regs, rest, flags[1..]);
    }
  }

  /** The number of poll iterations that read the registers. */
  function Completed(regs: Regs, acks: seq<Ack>, flags: seq<bool>): nat
    decreases |flags|
  {
    if flags == [] || !flags[0] then 0
    else
      var p := PollOnce(regs, acks);
      if p.failed then 0 else 1 + Completed(regs, Drop(acks, p.used), flags[1..])
  }

  /** One iteration reads 19 register bytes when both legs were acknowledged, none otherwise. */
  lemma PollOnceBytes(regs: Regs, acks: seq<Ack>)
    ensures BytesRead(PollOnce(regs, acks).trace) == if PollOnce(regs, acks).failed then 0 else 19
  {
    var p := PollOnce(regs, acks);
    if !p.failed {
      assert BytesRead(SuccessfulPoll) == 19;
    } else if AckAt(acks, 0) == Nack {
      assert BytesRead(PointerRefused) == 0;
    } else {
      assert BytesRead(ReadRefused) == 0;
    }
  }

  /** Each iteration that reads fetches 19 register bytes, as 18 acknowledged
      bytes and one NACKed byte, never one 19-byte read; the loop never reads in
      more iterations than the run flag allows. */
  lemma {:induction false} PollReadBytes(regs: Regs, acks: seq<Ack>, flags: seq<bool>)
    ensures BytesRead(PollLoop(regs, acks, flags)) == 19 * Completed(regs, acks, flags)
    ensures Completed(regs, acks, flags) <= Leading(flags)
    decreases |flags|
  {
    if flags != [] && flags[0] {
      var p := PollOnce(regs, acks);
      PollOnceBytes(regs, acks);
      if p.failed {
        assert p.trace + [] == p.trace;
        assert PollLoop(regs, acks, flags) == p.trace;
      } else {
        var rest := PollLoop(regs, Drop(acks, p.used), flags[1..]);
        assert PollLoop(regs, acks, flags) == p.trace + rest;
        BytesReadAppend(p.trace, rest);
        PollReadBytes(regs, Drop(acks, p.used), flags[1..]);
      }
    }
  }

  /** Every poll iteration leaves the line quiet: no transaction left open, and
      any read ended by exactly one NACKed byte. */
  lemma PollOnceQuiet(l: Line, regs: Regs, acks: seq<Ack>)
    requires Quiet(l)
    ensures Quiet(Replay(l, PollOnce(regs, acks).trace))
  {
    assert Quiet(Replay(l, SuccessfulPoll));
    assert Quiet(Replay(l, PointerRefused));
    assert Quiet(Replay(l, ReadRefused));
  }

  /** Any number of acknowledged polls in a row leaves the bus quiet: every
      read is ended by its NACKed last byte and every transaction is stopped. */
  lemma AcknowledgedPollsQuiet(l: Line, n: nat)
    requires Quiet(l)
    ensures Quiet(Replay(l, Repeat(SuccessfulPoll, n)))
  {
    forall m: Line | Quiet(m)
      ensures Quiet(Replay(m, SuccessfulPoll))
    {
      PollOnceQuiet(m, Regs(0, 0, 0, 0, 0, 0, 0, 0, 0, 0, 0, 0, 0, 0, 0, 0, 0, 0, 0, 0, 0), [Ack, Ack]);
    }
    RepeatQuiet(l, SuccessfulPoll, n);
  }

  lemma {:induction false} PollLoopQuiet(l: Line, regs: Regs, acks: seq<Ack>, flags: seq<bool>)
    requires Quiet(l)
    ensures Quiet(Replay(l, PollLoop(regs, acks, flags)))
    decreases |flags|
  {
    if flags != [] && flags[0] {
      var p := PollOnce(regs, acks);
      PollOnceQuiet(l, regs, acks);
      if p.failed {
        assert p.trace + [] == p.trace;
        assert PollLoop(regs, acks, flags) == p.trace;
      } else {
        var rest := PollLoop(regs, Drop(acks, p.used), flags[1..]);
        ReplayAppend(l, p.trace, rest);
        PollLoopQuiet(Replay(l, p.trace), regs, Drop(acks, p.used), flags[1..]);
      }
    }
  }

  /** Whatever the clock acknowledges and whenever the user interrupts, the
      program releases the bus, ends every read with a NACKed byte, and closes
      the library last. */
  lemma SessionQuiet(regs: Regs, acks: seq<Ack>, flags: seq<bool>)
    ensures Released(Session(regs, acks, flags))
    ensures ReadsNacked(Session(regs, acks, flags))
    ensures Session(regs, acks, flags)[|Session(regs, acks, flags)| - 1] == Close
  {
    var program := [Start, Write(regs.Bytes()), GetAck];
    ReplayAddressedWrite(Idle, regs.Bytes());
    var held := Replay(Idle, program);
    assert Replay(held, [Stop, Close]) == Step(held, Stop);
    if AckAt(acks, 0) == Ack {
      var loop := PollLoop(regs, Drop(acks, 1), flags);
      ReplayAppend(Idle, program, [Stop]);
      ReplayAppend(Idle, program + [Stop], loop);
      ReplayAppend(Idle, program + [Stop] + loop, [Stop, Close]);
      PollLoopQuiet(Step(held, Stop), regs, Drop(acks, 1), flags);
      var polled := Replay(Idle, program + [Stop] + loop);
      assert Replay(polled, [Stop, Close]) == Step(polled, Stop);
    } else {
      ReplayAppend(Idle, program, [Stop, Close]);
    }
  }
}
