/** The Python example that dumps a 32 KiB I2C EEPROM.

  It sets the EEPROM's address pointer to 0 with an acknowledged write, switches
  to the read address with a second acknowledged write, reads the whole chip
  with acknowledgements, then reads one more byte with a NACK to end the
  transfer.  A refused write raises straight into the handler: neither `Stop`
  nor `Close` is issued on that path.
 */
module Eeprom {
  import opened Bus

  /** `SIZE`: the capacity of the chip in bytes. */
  const SIZE := 0x8000
  /** `WCMD`: the write address, then the 16-bit start address 0. */
  const WCMD: seq<Byte> := [0xA0, 0x00, 0x00]
  /** `RCMD`: the read address. */
  const RCMD: seq<Byte> := [0xA1]

  /** How the script ends: with the chip contents, or with an exception. */
  datatype Result = Dumped(data: seq<Byte>) | Failed(fault: Fault)

  /** The events issued and the way the script ended. */
  datatype Dump = Dump(trace: seq<Event>, result: Result)

  /** The trace of a successful dump. */
  const SuccessfulDump: seq<Event> :=
    [Start, Write(WCMD), GetAck, Start, Write(RCMD), GetAck, Read(SIZE), SendNacks, Read(1), Stop, Close]

  /** The script.  `stream(k)` is the k-th byte the chip sends on the read leg;
      the library acknowledges received bytes until `SendNacks`, as it does
      right after it is opened. */
  function Run(busOpen: bool, acks: seq<Ack>, stream: nat -> Byte): (d: Dump)
    ensures d.result.Dumped? <==> busOpen && AckAt(acks, 0) == Ack && AckAt(acks, 1) == Ack
    ensures d.result.Dumped? ==>
      && |d.result.data| == SIZE
      && (forall k :: 0 <= k < SIZE ==> d.result.data[k] == stream(k))
      && d.trace == SuccessfulDump
    ensures !busOpen ==> d == Dump([], Failed(OpenFailed))
    ensures busOpen && AckAt(acks, 0) == Nack ==> d.result == Failed(WriteCommandNack)
    ensures busOpen && AckAt(acks, 0) == Ack && AckAt(acks, 1) == Nack ==> d.result == Failed(ReadCommandNack)
  {
    if !busOpen then Dump([], Failed(OpenFailed))
    else
      var writeLeg := [Start, Write(WCMD), GetAck];
      if AckAt(acks, 0) == Ack then
        var readLeg := [Start, Write(RCMD), GetAck];
        if AckAt(acks, 1) == Ack then
          var data := seq(SIZE, k requires 0 <= k => stream(k));
          Dump(writeLeg + readLeg + [Read(SIZE), SendNacks, Read(1), Stop, Close], Dumped(data))
        else
          Dump(writeLeg + readLeg, Failed(ReadCommandNack))
      else
        Dump(writeLeg, Failed(WriteCommandNack))
  }

  /** The script with each refused leg ending the transaction with `Stop` before
      raising. */
  function RunStopped(busOpen: bool, acks: seq<Ack>, stream: nat -> Byte): (d: Dump)
    ensures d.result == Run(busOpen, acks, stream).result
    ensures d.result.Dumped? || !busOpen ==> d == Run(busOpen, acks, stream)
  {
    var d := Run(busOpen, acks, stream);
    if d.result.Dumped? || !busOpen then d else Dump(d.trace + [Stop], d.result)
  }

  // ---------------------------------------------------------------- properties

  /** The read leg is issued only after the write leg was acknowledged, and a
      refused leg raises with no Read, no Stop and no Close. */
  lemma RefusedLegs(acks: seq<Ack>, stream: nat -> Byte)
    ensures AckAt(acks, 0) == Nack ==> Run(true, acks, stream).trace == [Start, Write(WCMD), GetAck]
    ensures AckAt(acks, 0) == Ack && AckAt(acks, 1) == Nack ==>
      Run(true, acks, stream).trace == [Start, Write(WCMD), GetAck, Start, Write(RCMD), GetAck]
    ensures !Run(true, acks, stream).result.Dumped? ==>
      var t := Run(true, acks, stream).trace;
      NoReads(t) && Stop !in t && Close !in t
  {
  }

  /** No SendAcks appears on any path: the bulk read relies on the library's
      initial acknowledging mode. */
  lemma NeverSendsAcks(busOpen: bool, acks: seq<Ack>, stream: nat -> Byte)
    ensures SendAcks !in Run(busOpen, acks, stream).trace
  {
  }

  /** The chip is read for one byte more than is kept: `SIZE` acknowledged bytes,
      then one NACKed byte that ends the transfer and is discarded. */
  lemma ReadsOneExtraByte(acks: seq<Ack>, stream: nat -> Byte)
    requires Run(true, acks, stream).result.Dumped?
    ensures BytesRead(Run(true, acks, stream).trace) == SIZE + 1
    ensures |Run(true, acks, stream).result.data| == BytesRead(Run(true, acks, stream).trace) - 1
  {
    var legs: seq<Event> := [Start, Write(WCMD), GetAck, Start, Write(RCMD), GetAck];
    var tail: seq<Event> := [Read(SIZE), SendNacks, Read(1), Stop, Close];
    assert SuccessfulDump == legs + tail;
    BytesReadAppend(legs, tail);
    assert NoReads(legs);
    NoReadsReadsNothing(legs);
    assert tail[1..] == [SendNacks, Read(1), Stop, Close];
    assert tail[1..][1..] == [Read(1), Stop, Close];
    assert tail[1..][1..][1..] == [Stop, Close];
    assert NoReads([Stop, Close]);
    NoReadsReadsNothing([Stop, Close]);
    assert BytesRead([Read(1), Stop, Close]) == 1 + BytesRead([Stop, Close]);
    assert BytesRead([SendNacks, Read(1), Stop, Close]) == BytesRead([Read(1), Stop, Close]);
    assert BytesRead(tail) == SIZE + BytesRead(tail[1..]);
  }

  /** Every read ends with a single NACKed byte on every path, and the bus is
      left released exactly when the dump succeeded. */
  lemma Termination(acks: seq<Ack>, stream: nat -> Byte)
    ensures ReadsNacked(Run(true, acks, stream).trace)
    ensures Released(Run(true, acks, stream).trace) <==> Run(true, acks, stream).result.Dumped?
  {
    var writeLeg := [Start, Write(WCMD), GetAck];
    ReplayAddressedWrite(Idle, WCMD);
    var held := Step(Idle, Start);
    if AckAt(acks, 0) == Ack {
      var readLeg := [Start, Write(RCMD), GetAck];
      ReplayAppend(Idle, writeLeg, readLeg);
      ReplayAddressedWrite(held, RCMD);
      if AckAt(acks, 1) == Ack {
        var tail := [Read(SIZE), SendNacks, Read(1), Stop, Close];
        assert SuccessfulDump == writeLeg + readLeg + tail;
        ReplayAppend(Idle, writeLeg + readLeg, tail);
        var l1 := Step(held, Read(SIZE));
        assert l1 == Line(true, false, true, true);
        assert Replay(held, tail) == Replay(l1, tail[1..]);
        assert tail[1..] == [SendNacks, Read(1), Stop, Close];
        var l2 := Step(l1, SendNacks);
        assert Replay(l1, tail[1..]) == Replay(l2, [Read(1), Stop, Close]);
        var l3 := Step(l2, Read(1));
        assert l3 == Line(true, true, false, true);
        assert Replay(l2, [Read(1), Stop, Close]) == Replay(l3, [Stop, Close]);
        assert Replay(l3, [Stop, Close]) == Line(false, true, false, true);
      }
    }
  }

  /** With `Stop` before each raise, the bus is released on every path, and no
      read is started on a refused path. */
  lemma StoppedReleased(busOpen: bool, acks: seq<Ack>, stream: nat -> Byte)
    ensures Released(RunStopped(busOpen, acks, stream).trace)
    ensures !RunStopped(busOpen, acks, stream).result.Dumped? ==> NoReads(RunStopped(busOpen, acks, stream).trace)
  {
    if busOpen {
      var t := Run(true, acks, stream).trace;
      Termination(acks, stream);
      if !Run(true, acks, stream).result.Dumped? {
        ReplayAppend(Idle, t, [Stop]);
        RefusedLegs(acks, stream);
      }
    }
  }
}
