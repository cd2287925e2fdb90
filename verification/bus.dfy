/** The bus primitives of the MPSSE library, seen from the example programs.

  Every call an example program makes into the library becomes one event of a
  trace; the programs themselves are modelled as pure functions from their
  inputs (acknowledgement answers, cancellation flags, clock readings) to the
  trace they issue.  The bytes a Read hands back are opaque device data.
 */
module Bus {

  /** An unsigned 8-bit value, as carried on the wire. */
  type Byte = b: int | 0 <= b < 256

  /** The answer of the addressed device to the most recent Write. */
  datatype Ack = Ack | Nack

  /** One call into the bus library. */
  datatype Event =
    | SetCSIdle(level: nat)
    | Start
    | Write(data: seq<Byte>)
    | Read(count: nat)
    | GetAck
    | SendAcks
    | SendNacks
    | Stop
    | Close

  /** The exceptions that end a Python program: the library failing to open the
      device, or a transfer the device refused. */
  datatype Fault = OpenFailed | InitialWriteNack | WriteCommandNack | ReadCommandNack

  /** How a Python program leaves its polling: by the user's interrupt or by an exception. */
  datatype Exit = Interrupted | Raised(fault: Fault)

  /** The answer to the i-th Write of a session.  Past the supplied answers nobody
      drives the data line, and an undriven line reads as a NACK. */
  function AckAt(acks: seq<Ack>, i: nat): (a: Ack)
    ensures i >= |acks| ==> a == Nack
  {
    if i < |acks| then acks[i] else Nack
  }

  /** The answers left once the first n have been used. */
  function Drop<T>(s: seq<T>, n: nat): (r: seq<T>)
    ensures |r| == if n <= |s| then |s| - n else 0
    ensures forall k :: 0 <= k < |r| ==> r[k] == s[n + k]
  {
    if n <= |s| then s[n..] else []
  }

  /** The number of leading true values: how many times a loop guarded by the
      flag runs before it first reads false (or the readings end). */
  function Leading(flags: seq<bool>): (n: nat)
    ensures n <= |flags|
    ensures forall k :: 0 <= k < n ==> flags[k]
    ensures n < |flags| ==> !flags[n]
  {
    if flags == [] || !flags[0] then 0 else 1 + Leading(flags[1..])
  }

  /** The run flags of a run that is cancelled after k loop-head tests read true. */
  function RunFor(k: nat): (flags: seq<bool>)
    ensures |flags| == k + 1 && Leading(flags) == k
  {
    if k == 0 then [false] else [true] + RunFor(k - 1)
  }

  /** n copies of a trace, one after another. */
  function Repeat<T>(s: seq<T>, n: nat): (r: seq<T>)
    ensures |r| == n * |s|
  {
    if n == 0 then [] else s + Repeat(s, n - 1)
  }

  /** The number of bytes the Reads of a trace ask for. */
  function BytesRead(t: seq<Event>): nat
  {
    if t == [] then 0
    else (if t[0].Read? then t[0].count else 0) + BytesRead(t[1..])
  }

  /** True when the trace contains no Read at all. */
  predicate NoReads(t: seq<Event>)
  {
    forall k :: 0 <= k < |t| ==> !t[k].Read?
  }

  lemma {:induction false} BytesReadAppend(a: seq<Event>, b: seq<Event>)
    ensures BytesRead(a + b) == BytesRead(a) + BytesRead(b)
  {
    if a == [] {
      assert a + b == b;
    } else {
      assert (a + b)[1..] == a[1..] + b;
      BytesReadAppend(a[1..], b);
    }
  }

  lemma {:induction false} NoReadsReadsNothing(t: seq<Event>)
    requires NoReads(t)
    ensures BytesRead(t) == 0
    decreases |t|
  {
    if t != [] {
      NoReadsReadsNothing(t[1..]);
    }
  }

  /** n repetitions of a trace read n times as many bytes. */
  lemma {:induction false} RepeatBytesRead(s: seq<Event>, n: nat)
    ensures BytesRead(Repeat(s, n)) == n * BytesRead(s)
    decreases n
  {
    if n > 0 {
      BytesReadAppend(s, Repeat(s, n - 1));
      RepeatBytesRead(s, n - 1);
    }
  }

  /** The bus line as an I2C master sees it while replaying a trace.
      - held: a Start has been issued and no Stop since;
      - nacking: the library answers received bytes with NACK (after SendNacks);
      - pending: bytes were received and the last of them was acknowledged, so the
        slave still expects to send more;
      - clean: no Start or Stop was issued while a read was pending, and no read in
        NACK mode asked for anything but exactly one byte.
      A master read ends correctly when its last byte alone is answered with a
      NACK before the Stop, as section 3.1.6 of the I2C-bus specification
      (NXP UM10204) requires. */
  datatype Line = Line(held: bool, nacking: bool, pending: bool, clean: bool)

  /** The line right after the library is opened; it acknowledges received bytes by default. */
  const Idle := Line(false, false, false, true)

  function Step(l: Line, e: Event): Line
  {
    match e
    case Start => l.(held := true, clean := l.clean && !l.pending)
    case Stop => l.(held := false, clean := l.clean && !l.pending)
    case SendAcks => l.(nacking := false)
    case SendNacks => l.(nacking := true)
    case Read(n) =>
      if l.nacking then l.(pending := false, clean := l.clean && n == 1)
      else l.(pending := l.pending || n > 0)
    case _ => l
  }

  function Replay(l: Line, t: seq<Event>): Line
    decreases |t|
  {
    if t == [] then l else Replay(Step(l, t[0]), t[1..])
  }

  /** No transaction is held open, no read is left unterminated, and none was torn. */
  predicate Quiet(l: Line)
  {
    !l.held && !l.pending && l.clean
  }

  /** After the trace no transaction is left open on the bus. */
  predicate Released(t: seq<Event>)
  {
    !Replay(Idle, t).held
  }

  /** Every master read of the trace was ended by exactly one NACKed byte. */
  predicate ReadsNacked(t: seq<Event>)
  {
    var l := Replay(Idle, t);
    l.clean && !l.pending
  }

  /** Replaying a concatenation is replaying the parts one after the other. */
  lemma {:induction false} ReplayAppend(l: Line, a: seq<Event>, b: seq<Event>)
    ensures Replay(l, a + b) == Replay(Replay(l, a), b)
    decreases |a|
  {
    if a == [] {
      assert a + b == b;
    } else {
      assert (a + b)[0] == a[0];
      assert (a + b)[1..] == a[1..] + b;
      ReplayAppend(Step(l, a[0]), a[1..], b);
    }
  }

  /** An addressed write followed by the ack query opens a transaction, whatever the bytes. */
  lemma ReplayAddressedWrite(l: Line, data: seq<Byte>)
    ensures Replay(l, [Start, Write(data), GetAck]) == Step(l, Start)
  {
    var s := Step(l, Start);
    assert [Start, Write(data), GetAck][1..] == [Write(data), GetAck];
    assert Replay(l, [Start, Write(data), GetAck]) == Replay(s, [Write(data), GetAck]);
    assert [Write(data), GetAck][1..] == [GetAck];
    assert Replay(s, [Write(data), GetAck]) == Replay(s, [GetAck]);
  }

  /** Closing the library does not touch the line. */
  lemma ReplayClose(l: Line, t: seq<Event>)
    ensures Replay(l, t + [Close]) == Replay(l, t)
  {
    ReplayAppend(l, t, [Close]);
  }

  /** A trace that ends with Stop leaves nothing held, whatever came before. */
  lemma {:induction false} StopReleases(l: Line, t: seq<Event>)
    requires t != [] && t[|t| - 1] == Stop
    ensures !Replay(l, t).held
  {
    var init := t[..|t| - 1];
    assert t == init + [Stop];
    ReplayAppend(l, init, [Stop]);
  }

  /** Every Write and Read of the trace, replayed from l, is issued inside a
      transaction: after a Start and before the Stop that ends it. */
  predicate Framed(l: Line, t: seq<Event>)
    decreases |t|
  {
    t == [] || ((l.held || !(t[0].Write? || t[0].Read?)) && Framed(Step(l, t[0]), t[1..]))
  }

  /** Every command of the trace is issued inside a Start..Stop transaction, and
      none is left open at the end. */
  predicate Bracketed(t: seq<Event>)
  {
    Framed(Idle, t) && Released(t)
  }

  /** A concatenation is framed exactly when both parts are, the second replayed
      from where the first left the line. */
  lemma {:induction false} FramedAppend(l: Line, a: seq<Event>, b: seq<Event>)
    ensures Framed(l, a + b) <==> Framed(l, a) && Framed(Replay(l, a), b)
    decreases |a|
  {
    if a == [] {
      assert a + b == b;
    } else {
      assert (a + b)[0] == a[0];
      assert (a + b)[1..] == a[1..] + b;
      FramedAppend(Step(l, a[0]), a[1..], b);
    }
  }

  /** Inside a held transaction, commands without Start or Stop stay framed and
      keep the transaction held. */
  lemma {:induction false} FramedHeld(l: Line, body: seq<Event>)
    requires l.held
    requires forall k :: 0 <= k < |body| ==> !body[k].Start? && !body[k].Stop?
    ensures Framed(l, body) && Replay(l, body).held
    decreases |body|
  {
    if body != [] {
      FramedHeld(Step(l, body[0]), body[1..]);
    }
  }

  /** A transaction, Start, commands, Stop, is framed wherever it is issued. */
  lemma FramedTransaction(l: Line, body: seq<Event>)
    requires forall k :: 0 <= k < |body| ==> !body[k].Start? && !body[k].Stop?
    ensures Framed(l, [Start] + body + [Stop])
  {
    var s := Step(l, Start);
    FramedHeld(s, body);
    FramedAppend(s, body, [Stop]);
    assert ([Start] + body + [Stop])[1..] == body + [Stop];
  }

  /** Events other than Write and Read are framed anywhere. */
  lemma FramedControl(l: Line, e: Event)
    requires !e.Write? && !e.Read?
    ensures Framed(l, [e])
  {
    assert [e][1..] == [];
  }

  /** Repeating a trace that is framed from every line stays framed. */
  lemma {:induction false} FramedRepeat(l: Line, s: seq<Event>, n: nat)
    requires forall m :: Framed(m, s)
    ensures Framed(l, Repeat(s, n))
    decreases n
  {
    if n > 0 {
      FramedAppend(l, s, Repeat(s, n - 1));
      FramedRepeat(Replay(l, s), s, n - 1);
    }
  }

  /** A trace that repeats a quiet-preserving transaction keeps the line quiet. */
  lemma {:induction false} RepeatQuiet(l: Line, s: seq<Event>, n: nat)
    requires Quiet(l)
    requires forall m :: Quiet(m) ==> Quiet(Replay(m, s))
    ensures Quiet(Replay(l, Repeat(s, n)))
    decreases n
  {
    if n > 0 {
      ReplayAppend(l, s, Repeat(s, n - 1));
      RepeatQuiet(Replay(l, s), s, n - 1);
    }
  }
}
