/** What whole transfers do: the bus traffic, termination, and the reported result. */
module I2cTransfers {
  import opened Crc
  import opened Errno
  import opened I2cMessages
  import opened I2cMaster
  import opened I2cScript
  import opened Sequences

  /** Bytes read: the last one is acknowledged only if more follow in a later message. */
  function Reads(rx: seq<Byte>, more: bool): seq<BusEvent> {
    seq(|rx|, k requires 0 <= k < |rx| => Rx(rx[k], more || k != |rx| - 1))
  }

  function Writes(p: seq<Byte>): seq<BusEvent> {
    seq(|p|, k requires 0 <= k < |p| => Tx(p[k]))
  }

  /** Bus traffic of messages i, i+1, ... up to the STOP, when the slave supplies the bytes rx to them. */
  function Traffic(ms: seq<Msg>, i: nat, rx: seq<Byte>): seq<BusEvent>
    decreases |ms| - i
  {
    if i >= |ms| then [StopBit]
    else
      (if i == 0 || !ms[i].flags.noStart then [StartAddr(StartByte(ms[i]))] else [])
      + if ms[i].flags.rd then
          var n := if |rx| < |ms[i].buf| then |rx| else |ms[i].buf|;
          Reads(rx[..n], More(ms, i)) + Traffic(ms, i + 1, rx[n..])
        else Writes(ms[i].buf) + Traffic(ms, i + 1, rx)
  }

  // ---------- transfers without an error ----------

  /** No checked slot is refused by its interrupt. */
  ghost predicate Unrefused(script: seq<Slot>, irqs: seq<Irq>) {
    |script| <= |irqs| && forall k :: 0 <= k < |script| ==> !(script[k].Checks() && irqs[k].nak)
  }

  function Events(script: seq<Slot>, irqs: seq<Irq>): seq<BusEvent>
    requires |script| <= |irqs|
  {
    if script == [] then []
    else script[0].Drives() + script[0].Receives(irqs[0].ds) + Events(script[1..], irqs[1..])
  }

  function Received(script: seq<Slot>, irqs: seq<Irq>): seq<Byte>
    requires |script| <= |irqs|
  {
    if script == [] then [] else script[0].Keeps(irqs[0].ds) + Received(script[1..], irqs[1..])
  }

  lemma EventsStep(bus: seq<BusEvent>, script: seq<Slot>, irqs: seq<Irq>, got: seq<Byte>)
    requires script != [] && |script| <= |irqs|
    ensures bus + Events(script, irqs)
         == bus + script[0].Drives() + script[0].Receives(irqs[0].ds) + Events(script[1..], irqs[1..])
    ensures got + Received(script, irqs) == got + script[0].Keeps(irqs[0].ds) + Received(script[1..], irqs[1..])
  {
    hide Slot.Drives, Slot.Receives, Slot.Keeps;
    var s, ds := script[0], irqs[0].ds;
    var es, rs := Events(script[1..], irqs[1..]), Received(script[1..], irqs[1..]);
    assert Events(script, irqs) == s.Drives() + s.Receives(ds) + es && Received(script, irqs) == s.Keeps(ds) + rs;
    hide Events, Received;
    Associate(bus, s.Drives() + s.Receives(ds), es);
    Associate(bus, s.Drives(), s.Receives(ds));
    Associate(got, s.Keeps(ds), rs);
  }

  lemma {:induction false} ExecAccepted(bus: seq<BusEvent>, script: seq<Slot>, irqs: seq<Irq>, num: nat, got: seq<Byte>)
    requires script != [] && Unrefused(script, irqs)
    ensures Exec(bus + script[0].Drives(), script, irqs, num, got)
         == Outcome(bus + Events(script, irqs) + [StopBit], true, num, got + Received(script, irqs))
    decreases |script|
  {
    var s, i := script[0], irqs[0];
    var bus', got' := bus + s.Drives() + s.Receives(i.ds), got + s.Keeps(i.ds);
    assert !(script[0].Checks() && irqs[0].nak);
    if |script| == 1 {
      assert script[1..] == [];
      assert bus + Events(script, irqs) == bus';
      assert got + Received(script, irqs) == got';
    } else {
      var t, js := script[1..], irqs[1..];
      forall k | 0 <= k < |t| ensures !(t[k].Checks() && js[k].nak) {
        assert !(script[k + 1].Checks() && irqs[k + 1].nak);
      }
      ExecAccepted(bus', t, js, num, got');
      EventsStep(bus, script, irqs, got);
    }
  }

  lemma {:induction false} Concat(s: seq<Slot>, t: seq<Slot>, irqs: seq<Irq>)
    requires |s + t| <= |irqs|
    ensures Events(s + t, irqs) == Events(s, irqs) + Events(t, irqs[|s|..])
    ensures Received(s + t, irqs) == Received(s, irqs) + Received(t, irqs[|s|..])
  {
    hide Slot.Drives, Slot.Receives, Slot.Keeps;
    if s == [] {
      assert s + t == t && irqs[0..] == irqs;
    } else {
      Concat(s[1..], t, irqs[1..]);
      assert (s + t)[1..] == s[1..] + t;
      assert irqs[1..][|s[1..]|..] == irqs[|s|..];
    }
  }

  lemma BodyStep(m: Msg, k: nat, more: bool, irqs: seq<Irq>)
    requires k < |m.buf| && |Body(m, k, more)| <= |irqs|
    ensures var b, t := Body(m, k, more), Body(m, k + 1, more);
            && b != [] && b[1..] == t && |t| <= |irqs| - 1
            && Events(b, irqs) == b[0].Drives() + b[0].Receives(irqs[0].ds) + Events(t, irqs[1..])
            && Received(b, irqs) == b[0].Keeps(irqs[0].ds) + Received(t, irqs[1..])
            && b[0] == if m.flags.rd then
                         var last := k == |m.buf| - 1 && !more; ReadSlot(last, !m.flags.ignoreNak && !last)
                       else WriteSlot(m.buf[k])
  {
    assert Body(m, k, more)[1..] == Body(m, k + 1, more);
    hide Slot.Drives, Slot.Receives, Slot.Keeps;
  }

  lemma WritesStep(p: seq<Byte>, k: nat)
    requires k < |p|
    ensures Writes(p[k..]) == [Tx(p[k])] + Writes(p[k + 1..])
  {
  }

  lemma ReadsStep(b: Byte, rx: seq<Byte>, more: bool)
    ensures Reads([b] + rx, more) == [Rx(b, more || rx != [])] + Reads(rx, more)
  {
  }

  lemma {:induction false} WriteBody(m: Msg, k: nat, more: bool, irqs: seq<Irq>)
    requires !m.flags.rd && k <= |m.buf| && |Body(m, k, more)| <= |irqs|
    ensures Received(Body(m, k, more), irqs) == []
    ensures Events(Body(m, k, more), irqs) == Writes(m.buf[k..])
    decreases |m.buf| - k
  {
    if k < |m.buf| {
      BodyStep(m, k, more, irqs);
      WritesStep(m.buf, k);
      hide Body, Events, Received, Writes;
      WriteBody(m, k + 1, more, irqs[1..]);
    }
  }

  lemma {:induction false} ReadBody(m: Msg, k: nat, more: bool, irqs: seq<Irq>)
    requires m.flags.rd && k <= |m.buf| && |Body(m, k, more)| <= |irqs|
    ensures |Received(Body(m, k, more), irqs)| == |m.buf| - k
    ensures Events(Body(m, k, more), irqs) == Reads(Received(Body(m, k, more), irqs), more)
    decreases |m.buf| - k
  {
    if k < |m.buf| {
      BodyStep(m, k, more, irqs);
      hide Body, Events, Received, Reads;
      ReadBody(m, k + 1, more, irqs[1..]);
      ReadsStep(irqs[0].ds, Received(Body(m, k + 1, more), irqs[1..]), more);
    }
  }

  lemma MessageBody(m: Msg, more: bool, irqs: seq<Irq>)
    requires |Body(m, 0, more)| <= |irqs|
    ensures |Received(Body(m, 0, more), irqs)| == if m.flags.rd then |m.buf| else 0
    ensures Events(Body(m, 0, more), irqs)
         == if m.flags.rd then Reads(Received(Body(m, 0, more), irqs), more) else Writes(m.buf)
  {
    if m.flags.rd {
      ReadBody(m, 0, more, irqs);
    } else {
      WriteBody(m, 0, more, irqs);
      assert m.buf[0..] == m.buf;
    }
  }

  lemma AddressEvents(m: Msg, a: seq<Slot>, irqs: seq<Irq>)
    requires a == [] || a == [Address(m)]
    requires |a| <= |irqs|
    ensures Received(a, irqs) == []
    ensures Events(a, irqs) == if a == [] then [] else [StartAddr(StartByte(m))]
  {
    if a != [] {
      assert a[1..] == [];
    }
  }

  lemma ConcatThree(a: seq<Slot>, b: seq<Slot>, c: seq<Slot>, irqs: seq<Irq>)
    requires |a + (b + c)| <= |irqs|
    ensures Events(a + (b + c), irqs)
         == Events(a, irqs) + Events(b, irqs[|a|..]) + Events(c, irqs[|a|..][|b|..])
    ensures Received(a + (b + c), irqs)
         == Received(a, irqs) + Received(b, irqs[|a|..]) + Received(c, irqs[|a|..][|b|..])
  {
    hide Events, Received;
    var js := irqs[|a|..];
    Concat(a, b + c, irqs);
    Concat(b, c, js);
    Associate(Events(a, irqs), Events(b, js), Events(c, js[|b|..]));
    Associate(Received(a, irqs), Received(b, js), Received(c, js[|b|..]));
  }

  /** The events and received bytes of one message's slots in front of later slots c. */
  lemma MessageEvents(m: Msg, more: bool, a: seq<Slot>, c: seq<Slot>, irqs: seq<Irq>)
    returns (later: seq<Irq>, rb: seq<Byte>)
    requires a == [] || a == [Address(m)]
    requires |a + (Body(m, 0, more) + c)| <= |irqs|
    ensures |c| <= |later|
    ensures |rb| == if m.flags.rd then |m.buf| else 0
    ensures Received(a + (Body(m, 0, more) + c), irqs) == rb + Received(c, later)
    ensures Events(a + (Body(m, 0, more) + c), irqs) ==
              (if a == [] then [] else [StartAddr(StartByte(m))])
              + (if m.flags.rd then Reads(rb, more) else Writes(m.buf)) + Events(c, later)
  {
    var b := Body(m, 0, more);
    var js := irqs[|a|..];
    later := js[|b|..];
    rb := Received(b, js);
    hide Body, Events, Received, Reads, Writes;
    ConcatThree(a, b, c, irqs);
    AddressEvents(m, a, irqs);
    MessageBody(m, more, js);
    NothingBefore(Received(a, irqs), rb);
  }

  lemma TrafficStep(ms: seq<Msg>, i: nat, rb: seq<Byte>, rx: seq<Byte>)
    requires i < |ms| && |rb| == if ms[i].flags.rd then |ms[i].buf| else 0
    ensures Traffic(ms, i, rb + rx)
         == (if i == 0 || !ms[i].flags.noStart then [StartAddr(StartByte(ms[i]))] else [])
            + (if ms[i].flags.rd then Reads(rb, More(ms, i)) else Writes(ms[i].buf)) + Traffic(ms, i + 1, rx)
  {
    hide More, Reads, Writes;
    assert (rb + rx)[..|rb|] == rb && (rb + rx)[|rb|..] == rx;
  }

  /** What a script puts on the bus is the traffic of its messages. */
  lemma {:induction false} ScriptEvents(ms: seq<Msg>, i: nat, irqs: seq<Irq>)
    requires i <= |ms| && |Script(ms, i)| <= |irqs|
    ensures |Received(Script(ms, i), irqs)| == ReadLength(ms[i..])
    ensures Events(Script(ms, i), irqs) + [StopBit] == Traffic(ms, i, Received(Script(ms, i), irqs))
    decreases |ms| - i
  {
    if i < |ms| {
      var m := ms[i];
      var a := if i == 0 || !m.flags.noStart then [Address(m)] else [];
      var c := Script(ms, i + 1);
      assert Script(ms, i) == a + (Body(m, 0, More(ms, i)) + c);
      assert ms[i..][1..] == ms[i + 1..];
      hide Body, Events, Received, Address, Reads, Writes, Script, Traffic, More;
      var later, rb := MessageEvents(m, More(ms, i), a, c, irqs);
      ScriptEvents(ms, i + 1, later);
      TrafficStep(ms, i, rb, Received(c, later));
    }
  }

  /** The transfer does what the list means: exactly START and address, the message bytes in order,
      repeated STARTs and one STOP on the bus; the read buffers filled with exactly the slave's bytes, every
      other buffer as it was, and the number of messages reported. */
  ghost predicate Carried(ms: seq<Msg>, irqs: seq<Irq>)
    requires ms != [] && |Script(ms, 0)| <= |irqs|
  {
    var m := Run(Begin(ms), irqs);
    var rx := Received(Script(ms, 0), irqs);
    m.bus == Traffic(ms, 0, rx) && Finished(m, ms, rx, |ms|)
  }

  /** With no refusal, a supported list is carried as it is meant. */
  lemma AcknowledgedTransfer(ms: seq<Msg>, irqs: seq<Irq>)
    requires Supported(ms) && Unrefused(Script(ms, 0), irqs)
    ensures Carried(ms, irqs)
    ensures |Received(Script(ms, 0), irqs)| == ReadLength(ms)
  {
    hide Script, Exec, Run, Begin, Traffic, Events, Received, InProgress, Slot.Drives, ReadLength, Supported, Finished;
    HandlerRefinesScript(ms, irqs);
    var s := Script(ms, 0);
    ExecAccepted([], s, irqs, |ms|, []);
    ScriptEvents(ms, 0, irqs);
    assert ms[0..] == ms;
    assert [] + s[0].Drives() == s[0].Drives();
    assert [] + Events(s, irqs) == Events(s, irqs) && [] + Received(s, irqs) == Received(s, irqs);
  }

  // ---------- termination and errors ----------

  /** The index of the first refused slot, or the script's length. */
  function FirstRefusal(script: seq<Slot>, irqs: seq<Irq>): (k: nat)
    ensures k <= |script| && k <= |irqs|
    ensures forall j :: 0 <= j < k ==> !(script[j].Checks() && irqs[j].nak)
    ensures k < |script| && k < |irqs| ==> script[k].Checks() && irqs[k].nak
  {
    if script == [] || irqs == [] || (script[0].Checks() && irqs[0].nak) then 0
    else 1 + FirstRefusal(script[1..], irqs[1..])
  }

  lemma {:induction false} ExecResult(bus: seq<BusEvent>, script: seq<Slot>, irqs: seq<Irq>, num: nat, got: seq<Byte>)
    requires script != []
    ensures var o := Exec(bus, script, irqs, num, got); var k := FirstRefusal(script, irqs);
            && (o.done <==> k == |script| || k < |irqs|)
            && (k == |script| ==> o.result == num)
            && (k < |script| && k < |irqs| ==> o.result == script[k].Code())
    decreases |irqs|
  {
    if irqs != [] && !(script[0].Checks() && irqs[0].nak) && |script| > 1 {
      var s, i := script[0], irqs[0];
      ExecResult(bus + s.Receives(i.ds) + script[1].Drives(), script[1..], irqs[1..], num, got + s.Keeps(i.ds));
    }
  }

  /** Under any acknowledge pattern the transfer stops as soon as a checked slot is refused, with
      that slot's error, or after its last slot, with the number of messages: at most |Script|
      interrupts. It completes exactly once, and msg_num is 0 exactly when the state is STOP. */
  lemma TransferResult(ms: seq<Msg>, irqs: seq<Irq>)
    requires Supported(ms)
    ensures var m := Run(Begin(ms), irqs); var s := Script(ms, 0); var k := FirstRefusal(s, irqs);
            && (m.state == Stop <==> k == |s| || k < |irqs|)
            && (m.num == 0 <==> m.state == Stop)
            && m.completions == (if m.state == Stop then 1 else 0)
            && !m.fault
            && (m.state == Stop ==> m.idx == if k == |s| then |ms| else s[k].Code())
    ensures |irqs| >= |Script(ms, 0)| ==> Run(Begin(ms), irqs).state == Stop
  {
    HandlerRefinesScript(ms, irqs);
    ExecResult(Script(ms, 0)[0].Drives(), Script(ms, 0), irqs, |ms|, []);
  }

  /** The reported value is the number of messages exactly when no checked slot was refused. */
  lemma SuccessIffAccepted(ms: seq<Msg>, irqs: seq<Irq>)
    requires Supported(ms) && |irqs| >= |Script(ms, 0)|
    ensures Run(Begin(ms), irqs).idx == |ms| <==> Unrefused(Script(ms, 0), irqs)
  {
    TransferResult(ms, irqs);
    var s := Script(ms, 0);
    var k := FirstRefusal(s, irqs);
    assert k < |s| ==> !Unrefused(s, irqs);
  }

  /** The interrupt ends the transfer, with this result, one STOP and the buffers as they are. */
  ghost predicate Breaks(m: Master, i: Irq, result: int) {
    && m.Ok() && var m' := NextByte(m, i);
    m'.state == Stop && m'.idx == result && m'.bus == m.bus + [StopBit] && m'.msgs == m.msgs
  }

  /** The byte k of message i, to be read: the last of the list is not acknowledged, and not checked. */
  lemma ReadSlotChecks(ms: seq<Msg>, i: nat, k: nat)
    requires Supported(ms) && i < |ms| && ms[i].flags.rd && k < |ms[i].buf|
    ensures var last := i == |ms| - 1 && k == |ms[i].buf| - 1;
            Slots(ms, i, k) != [] && Slots(ms, i, k)[0] == ReadSlot(last, !ms[i].flags.ignoreNak && !last)
  {
    ReadGoesOn(ms, i);
    hide Script, More, Supported;
  }

  /** In whatever state of a transfer: a refused address gives -EREMOTEIO, a missing acknowledge when a byte is
      read -ECONNREFUSED unless it is the last byte of the list, and neither if the message ignores it. All
      other interrupts go on, or end the transfer with the number of messages. */
  lemma RefusalIff(m: Master, ms: seq<Msg>, got: seq<Byte>, i: Irq)
    requires Supported(ms) && InProgress(m, ms, got)
    ensures var unseen := !i.nak || ms[m.idx].flags.ignoreNak;
            var last := m.idx == |ms| - 1 && m.ptr == |ms[m.idx].buf| - 1;
            && (m.state == Start && !unseen ==> Breaks(m, i, -121))
            && (m.state == Read && !unseen && !last ==> Breaks(m, i, -111))
            && (unseen || m.state == Write || (m.state == Read && last) ==>
                  NextByte(m, i).state != Stop || NextByte(m, i).idx == |ms|)
  {
    hide Supported, FillReads, ReadLength, RetryWrite, PrepareRead, Slots;
    FilledShape(ms, got, m.idx);
    match m.state
    case Start => StartStep(m, ms, i);
    case Write => WriteStep(m, ms, i);
    case Read =>
      ReadSlotChecks(ms, m.idx, m.ptr);
      ReadStep(m, ms, got, i);
  }

  /** A slave that is not there: START, address, STOP and -EREMOTEIO, whatever comes later. */
  lemma {:induction false} AddressRefused(ms: seq<Msg>, irqs: seq<Irq>)
    requires ms != [] && irqs != [] && irqs[0].nak && !ms[0].flags.ignoreNak
    ensures var r := Run(Begin(ms), irqs);
            && r.state == Stop && r.idx == -121 && r.num == 0 && r.msgs == ms
            && r.bus == [StartAddr(StartByte(ms[0])), StopBit]
  {
    var m := NextByte(Begin(ms), irqs[0]);
    assert m == StopTransfer(Begin(ms), EREMOTEIO);
    StoppedStays(m, irqs[1..]);
  }

  lemma {:induction false} RunConcat(m: Master, a: seq<Irq>, b: seq<Irq>)
    requires m.Ok()
    ensures Run(m, a + b) == Run(Run(m, a), b)
    decreases |a|
  {
    if a == [] {
      assert a + b == b;
    } else {
      RunConcat(NextByte(m, a[0]), a[1..], b);
      assert (a + b)[1..] == a[1..] + b;
    }
  }

  lemma {:induction false} QuietWrite(m: Master)
    requires m.Active() && m.state == Write
    ensures var r := RetryWrite(m); r.state == Stop ==> !r.irq
    decreases m.num - m.idx
  {
    if m.ptr >= |m.Cur().buf| && !m.IsLastMsg() && m.msgs[m.idx + 1].flags.noStart && !m.msgs[m.idx + 1].flags.rd {
      QuietWrite(m.(ptr := 0, idx := m.idx + 1));
    }
  }

  lemma QuietStep(m: Master, i: Irq)
    requires m.Ok() && (m.state == Stop ==> !m.irq)
    ensures var r := NextByte(m, i); r.state == Stop ==> !r.irq
  {
    if m.Active() {
      QuietWrite(m.(state := Write));
    }
    hide RetryWrite;
  }

  lemma {:induction false} StopIsQuiet(m: Master, irqs: seq<Irq>)
    requires m.Ok() && (m.state == Stop ==> !m.irq)
    ensures var r := Run(m, irqs); r.state == Stop ==> !r.irq
    decreases |irqs|
  {
    if irqs != [] {
      QuietStep(m, irqs[0]);
      hide NextByte;
      StopIsQuiet(NextByte(m, irqs[0]), irqs[1..]);
    }
  }

  /** Interrupts after completion change nothing: no buffer, no result, no bus event. */
  lemma LaterInterruptsIgnored(ms: seq<Msg>, irqs: seq<Irq>, later: seq<Irq>)
    requires ms != [] && Run(Begin(ms), irqs).state == Stop
    ensures Run(Begin(ms), irqs + later) == Run(Begin(ms), irqs)
  {
    StopIsQuiet(Begin(ms), irqs);
    RunConcat(Begin(ms), irqs, later);
    StoppedStays(Run(Begin(ms), irqs), later);
  }

  /** While a transfer is in progress each interrupt strictly shortens what remains of the script. */
  lemma EachInterruptProgresses(m: Master, ms: seq<Msg>, got: seq<Byte>, i: Irq)
    requires Supported(ms) && InProgress(m, ms, got)
    ensures var m' := NextByte(m, i);
            m'.state != Stop ==> m'.Active() && |m'.msgs| == |ms| && |Remaining(m', ms)| == |Remaining(m, ms)| - 1
  {
    var s, rest := NextByteFollows(m, ms, got, i);
  }
}
