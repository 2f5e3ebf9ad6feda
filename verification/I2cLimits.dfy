/** Which message lists the controller carries: the exact condition, and what happens to others. */
module I2cLimits {
  import opened Crc
  import opened Errno
  import opened I2cMessages
  import opened I2cMaster
  import opened I2cScript
  import opened I2cTransfers

  // ---------- the handler once it reads ----------

  ghost predicate SameLengths(now: seq<Msg>, ms: seq<Msg>) {
    |now| == |ms| && forall j :: 0 <= j < |ms| ==> |now[j].buf| == |ms[j].buf|
  }

  ghost predicate NonEmpty(ms: seq<Msg>, from: nat, to: int) {
    forall j :: from <= j < to && j < |ms| ==> ms[j].buf != []
  }

  ghost predicate OnlyReceived(bus: seq<BusEvent>, base: nat) {
    base <= |bus| && forall k :: base <= k < |bus| ==> bus[k].Rx?
  }

  /** Reading since message r, when the bus had base events. From then on the handler issues no START and
      sends no byte; it withholds an acknowledge only for the last byte of the last message, and not if
      that message is a single byte to which it came from another message. */
  ghost predicate Receiving(m: Master, ms: seq<Msg>, r: nat, base: nat) {
    && m.Active() && |m.msgs| == |ms| && !m.fault && m.state == Read && r <= m.idx
    && SameLengths(m.msgs, ms) && NonEmpty(ms, r + 1, m.idx) && OnlyReceived(m.bus, base)
    && m.ptr <= |ms[m.idx].buf|
    && (!m.ack ==> m.idx == |ms| - 1 && m.ptr == |ms[m.idx].buf| - 1 && (m.idx == r || m.ptr > 0))
  }

  /** The bus of a transfer that ended with success after reading since message r. */
  ghost predicate ReadToEnd(bus: seq<BusEvent>, ms: seq<Msg>, r: nat, base: nat) {
    && bus != [] && bus[|bus| - 1] == StopBit && OnlyReceived(bus[..|bus| - 1], base)
    && NonEmpty(ms, r + 1, |ms|)
    && (r < |ms| - 1 && |ms[|ms| - 1].buf| == 1 ==> |bus| - 2 >= base && bus[|bus| - 2].Rx? && bus[|bus| - 2].ack)
  }

  ghost predicate Succeeded(m: Master, n: nat) {
    m.state == Stop && !m.fault && m.idx == n
  }

  /** Before the next byte; the byte before it, if there was one since message r, is the last event. */
  ghost predicate AtGap(m: Master, ms: seq<Msg>, r: nat, base: nat) {
    && m.Active() && !m.fault && m.state == Read && r <= m.idx
    && SameLengths(m.msgs, ms) && NonEmpty(ms, r + 1, m.idx) && OnlyReceived(m.bus, base)
    && m.ptr <= |ms[m.idx].buf|
    && (m.ptr < |ms[m.idx].buf| ==> m.ack)
    && (m.idx > r ==> m.ptr > 0)
    && (m.idx > r && m.ptr == |ms[m.idx].buf| == 1 && m.IsLastMsg() ==>
          |m.bus| > base && m.bus[|m.bus| - 1].ack)
    && (m.ptr == |ms[m.idx].buf| && !m.IsLastMsg() ==> m.ack)
  }

  lemma GapPrepared(m: Master, ms: seq<Msg>, r: nat, base: nat)
    requires AtGap(m, ms, r, base)
    ensures var m' := PrepareRead(m);
            if m'.state == Stop then Succeeded(m', |ms|) && ReadToEnd(m'.bus, ms, r, base) && !m'.irq
            else Receiving(m', ms, r, base) && m'.bus == m.bus
  {
    assert |m.bus| > base ==> m.bus[|m.bus| - 1].Rx?;
    hide OnlyReceived;
    var m' := PrepareRead(m);
    if m'.state == Stop {
      assert m'.bus[..|m'.bus| - 1] == m.bus;
    }
  }

  lemma ByteStored(m: Master, ms: seq<Msg>, r: nat, base: nat, b: Byte)
    requires Receiving(m, ms, r, base) && m.ptr < |m.Cur().buf|
    ensures var c := m.Cur();
            AtGap(m.(msgs := m.msgs[m.idx := c.(buf := c.buf[m.ptr := b])], ptr := m.ptr + 1,
                     bus := m.bus + [Rx(b, m.ack)]), ms, r, base)
  {
  }

  /** One interrupt while reading: it reads on, fails, faults, or ends the transfer. */
  lemma ReceivingStep(m: Master, ms: seq<Msg>, r: nat, base: nat, i: Irq)
    requires Receiving(m, ms, r, base)
    ensures var m' := NextByte(m, i);
            || m'.fault
            || (m'.state == Stop && !m'.irq && (m'.idx < 0 || (Succeeded(m', |ms|) && ReadToEnd(m'.bus, ms, r, base))))
            || Receiving(m', ms, r, base)
  {
    hide PrepareRead, AtGap, ReadToEnd;
    var c := m.Cur();
    if m.ptr < |c.buf| {
      var m1 := m.(msgs := m.msgs[m.idx := c.(buf := c.buf[m.ptr := i.ds])], ptr := m.ptr + 1,
                   bus := m.bus + [Rx(i.ds, m.ack)]);
      ByteStored(m, ms, r, base, i.ds);
      GapPrepared(m1, ms, r, base);
    }
  }

  lemma {:induction false} ReceivingRun(m: Master, ms: seq<Msg>, r: nat, base: nat, irqs: seq<Irq>)
    requires Receiving(m, ms, r, base)
    ensures var e := Run(m, irqs); Succeeded(e, |ms|) ==> ReadToEnd(e.bus, ms, r, base)
    decreases |irqs|
  {
    if irqs != [] {
      ReceivingStep(m, ms, r, base, irqs[0]);
      var m' := NextByte(m, irqs[0]);
      hide NextByte, ReadToEnd, Receiving;
      if m'.fault || m'.state == Stop {
        StoppedStays(m', irqs[1..]);
      } else {
        ReceivingRun(m', ms, r, base, irqs[1..]);
      }
    }
  }

  // ---------- scripts that only receive ----------

  ghost predicate AllReads(script: seq<Slot>) {
    forall k :: 0 <= k < |script| ==> script[k].ReadSlot?
  }

  lemma {:induction false} ReceivedOnly(script: seq<Slot>, irqs: seq<Irq>)
    requires |script| <= |irqs| && OnlyReceived(Events(script, irqs), 0)
    ensures AllReads(script) && |Events(script, irqs)| == |script|
    ensures script != [] && script[|script| - 1].last ==> !Events(script, irqs)[|script| - 1].ack
  {
    if script != [] {
      var s, e := script[0], Events(script[1..], irqs[1..]);
      var d := s.Drives() + s.Receives(irqs[0].ds);
      var all := Events(script, irqs);
      assert all == d + e;
      assert all[|d|..] == e;
      assert |d| == 1 && all[0] == d[0];
      forall k | 0 <= k < |e| ensures e[k].Rx? {
        assert all[|d| + k] == e[k];
      }
      ReceivedOnly(script[1..], irqs[1..]);
    }
  }

  lemma HeadSlot(ms: seq<Msg>, i: nat)
    requires 0 < i < |ms| && ms[i].buf != []
    ensures var b, t, s := Body(ms[i], 0, More(ms, i)), Script(ms, i + 1), Script(ms, i);
            && b != [] && s != []
            && if ms[i].flags.noStart then s == b + t && s[0] == b[0] else s[0] == Address(ms[i])
  {
    assert Slots(ms, i, 0) == Body(ms[i], 0, More(ms, i)) + Script(ms, i + 1);
    hide More;
  }

  lemma HeadRead(ms: seq<Msg>, i: nat)
    requires 0 < i < |ms| && AllReads(Script(ms, i)) && ms[i].buf != []
    ensures ms[i].flags.rd && ms[i].flags.noStart
    ensures Script(ms, i) == Body(ms[i], 0, More(ms, i)) + Script(ms, i + 1)
    ensures AllReads(Script(ms, i + 1))
  {
    HeadSlot(ms, i);
    hide Script, More;
    var b, t, s := Body(ms[i], 0, More(ms, i)), Script(ms, i + 1), Script(ms, i);
    assert s[0].ReadSlot?;
    hide Body;
    forall k | 0 <= k < |t| ensures t[k].ReadSlot? {
      assert s[|b| + k] == t[k];
    }
  }

  lemma {:induction false} LastSlot(m: Msg, k: nat, more: bool)
    requires m.flags.rd && k < |m.buf| && !more
    ensures var b := Body(m, k, more); b != [] && b[|b| - 1] == ReadSlot(true, false)
    decreases |m.buf| - k
  {
    if k < |m.buf| - 1 {
      LastSlot(m, k + 1, more);
    }
  }

  /** The messages of such a script are reads without START. */
  lemma {:induction false} ReadsOnly(ms: seq<Msg>, i: nat, j: nat)
    requires 0 < i <= j < |ms| && AllReads(Script(ms, i)) && NonEmpty(ms, i, |ms|)
    ensures ms[j].flags.rd && ms[j].flags.noStart
    ensures var s := Script(ms, i); s != [] && s[|s| - 1].last
    decreases |ms| - i
  {
    HeadRead(ms, i);
    if i + 1 < |ms| {
      hide Body, Script, More, AllReads;
      ReadsOnly(ms, i + 1, if j > i then j else i + 1);
    } else {
      LastSlot(ms[i], 0, More(ms, i));
    }
  }

  // ---------- what a carried transfer says about its list ----------

  lemma TailFollows(ms: seq<Msg>, r: nat, s: seq<Slot>, t: seq<Slot>, e: seq<BusEvent>)
    requires r < |ms| && ms[r].flags.rd && UpTo(ms, r) && NonEmpty(ms, r + 1, |ms|)
    requires t == Script(ms, r + 1) && AllReads(t) && |t| <= |s| == |e| && (t != [] ==> s[|s| - 1] == t[|t| - 1])
    requires s != [] && s[|s| - 1].ReadSlot? && s[|s| - 1].last ==> e[|s| - 1].Rx? && !e[|s| - 1].ack
    requires r < |ms| - 1 && |ms[|ms| - 1].buf| == 1 && e != [] ==> e[|e| - 1].Rx? && e[|e| - 1].ack
    ensures Supported(ms)
  {
    hide Script;
    forall i | r < i < |ms| ensures MayFollow(ms, i) {
      ReadsOnly(ms, r + 1, i);
      if i - 1 > r {
        ReadsOnly(ms, r + 1, i - 1);
      }
    }
  }

  /** A transfer that reads since message r and puts on the bus what its script says. */
  lemma CarriedTail(ms: seq<Msg>, r: nat, bus: seq<BusEvent>, bus': seq<BusEvent>, irqs: seq<Irq>)
    requires r < |ms| && ms[r].flags.rd && UpTo(ms, r)
    requires |Slots(ms, r, 0)| <= |irqs| && bus' == bus + Events(Slots(ms, r, 0), irqs) + [StopBit]
    requires ReadToEnd(bus', ms, r, |bus|)
    ensures Supported(ms)
  {
    var s := Slots(ms, r, 0);
    var e := Events(s, irqs);
    forall k | 0 <= k < |e| ensures e[k].Rx? {
      assert bus'[..|bus'| - 1][|bus| + k] == e[k];
    }
    ReceivedOnly(s, irqs);
    var b, t := Body(ms[r], 0, More(ms, r)), Script(ms, r + 1);
    assert s == b + t;
    assert AllReads(t) by {
      forall k | 0 <= k < |t| ensures t[k].ReadSlot? {
        assert s[|b| + k] == t[k];
      }
    }
    assert r < |ms| - 1 && |ms[|ms| - 1].buf| == 1 ==> bus'[|bus'| - 2].ack;
    assert e != [] ==> bus'[|bus'| - 2] == e[|e| - 1];
    hide Body, Script, Slots, Events, ReadToEnd;
    TailFollows(ms, r, s, t, e);
  }

  lemma ReadingStarts(m: Master, ms: seq<Msg>, irqs: seq<Irq>)
    requires InProgress(m, ms, []) && m.state == Start && m.Cur().flags.rd && UpTo(ms, m.idx) && irqs != []
    requires !(irqs[0].nak && !m.Cur().flags.ignoreNak) && |Slots(ms, m.idx, 0)| <= |irqs| - 1
    requires var e := Run(m, irqs);
             Succeeded(e, |ms|) && e.bus == m.bus + Events(Slots(ms, m.idx, 0), irqs[1..]) + [StopBit]
    ensures Supported(ms)
  {
    hide Slots, Events, PrepareRead, ReadToEnd, Receiving;
    EmptyRead(m, irqs[0]);
    var m', base := NextByte(m, irqs[0]), |m.bus|;
    GapPrepared(m.(state := Read), ms, m.idx, base);
    if m'.state == Stop {
      StoppedStays(m', irqs[1..]);
    } else {
      ReceivingRun(m', ms, m.idx, base, irqs[1..]);
    }
    CarriedTail(ms, m.idx, m.bus, Run(m, irqs).bus, irqs[1..]);
  }

  lemma EventsShift(bus: seq<BusEvent>, s: seq<Slot>, irqs: seq<Irq>)
    requires s != [] && |s| <= |irqs|
    ensures bus + Events(s, irqs) + [StopBit]
         == bus + s[0].Drives() + s[0].Receives(irqs[0].ds) + Events(s[1..], irqs[1..]) + [StopBit]
  {
    hide Slot.Drives, Slot.Receives;
  }

  lemma UnrefusedRest(s: seq<Slot>, irqs: seq<Irq>)
    requires s != [] && Unrefused(s, irqs)
    ensures Unrefused(s[1..], irqs[1..]) && !(s[0].Checks() && irqs[0].nak)
  {
    forall k | 0 <= k < |s[1..]| ensures !(s[1..][k].Checks() && irqs[1..][k].nak) {
      assert !(s[k + 1].Checks() && irqs[k + 1].nak);
    }
  }

  /** The interrupt of a slot that the master drives continues with writing. */
  lemma DrivenStep(m: Master, ms: seq<Msg>, i: Irq)
    requires InProgress(m, ms, []) && UpTo(ms, m.idx)
    requires m.state == Write || (m.state == Start && !m.Cur().flags.rd && !(i.nak && !m.Cur().flags.ignoreNak))
    ensures var m', s := NextByte(m, i), Remaining(m, ms);
            && s != [] && s[0].Receives(i.ds) == [] && s[1..] == Slots(ms, m.idx, m.ptr) && m'.state != Read
            && if m'.fault then !Supported(ms)
               else Follows(m', ms, [], m.bus, s[1..]) && UpTo(ms, Reached(m', ms))
  {
    hide RetryWrite, PrepareRead, Slots, Follows;
    var w := m.(state := Write);
    if m.state == Start {
      EmptyWrite(m, i);
    }
    assert NextByte(m, i) == RetryWrite(w);
    RetryWriteFollows(w, ms);
  }

  /** The rest of an unrefused run ends with success, and with what the script says on the bus. */
  ghost predicate Ends(e: Master, m: Master, s: seq<Slot>, n: nat, irqs: seq<Irq>) {
    && s != [] && Unrefused(s, irqs) && Succeeded(e, n)
    && e.bus == m.bus + s[0].Receives(irqs[0].ds) + Events(s[1..], irqs[1..]) + [StopBit]
  }

  lemma EndsStep(e: Master, m: Master, m': Master, s: seq<Slot>, n: nat, irqs: seq<Irq>)
    requires Ends(e, m, s, n, irqs) && |s| > 1 && s[0].Receives(irqs[0].ds) == []
    requires m'.bus == m.bus + s[1].Drives()
    ensures Ends(e, m', s[1..], n, irqs[1..])
  {
    hide Slot.Receives, Slot.Drives, Events;
    UnrefusedRest(s, irqs);
    hide Unrefused;
    EventsShift(m.bus, s[1..], irqs[1..]);
    assert m.bus + [] == m.bus;
  }

  lemma StillEnds(e: Master, m: Master, m': Master, ms: seq<Msg>, s: seq<Slot>, irqs: seq<Irq>)
    requires Ends(e, m, s, |ms|, irqs) && |s| > 1 && s[0].Receives(irqs[0].ds) == []
    requires Follows(m', ms, [], m.bus, s[1..])
    ensures InProgress(m', ms, []) && Remaining(m', ms) == s[1..] && Ends(e, m', s[1..], |ms|, irqs[1..])
  {
    hide Ends, InProgress, Remaining;
    EndsStep(e, m, m', s, |ms|, irqs);
  }

  /** Such a run, from the writing part of a transfer on, shows that the list is supported. */
  lemma {:induction false} CarriedRest(m: Master, ms: seq<Msg>, irqs: seq<Irq>)
    requires InProgress(m, ms, []) && m.state != Read && UpTo(ms, m.idx)
    requires Ends(Run(m, irqs), m, Remaining(m, ms), |ms|, irqs)
    ensures Supported(ms)
    decreases |irqs|
  {
    var s, i, js, e := Remaining(m, ms), irqs[0], irqs[1..], Run(m, irqs);
    UnrefusedRest(s, irqs);
    if m.state == Start && m.Cur().flags.rd {
      assert s[1..] == Slots(ms, m.idx, 0) && s[0].Receives(i.ds) == [] && m.bus + [] == m.bus;
      ReadingStarts(m, ms, irqs);
    } else {
      DrivenStep(m, ms, i);
      var m' := NextByte(m, i);
      assert Run(m', js) == e;
      hide NextByte, Remaining, UpTo, Slot.Receives, Slot.Drives, Run;
      if m'.fault || |s| == 1 {
        StoppedStays(m', js);
      } else {
        hide Ends;
        StillEnds(e, m, m', ms, s, irqs);
        CarriedRest(m', ms, js);
      }
    }
  }

  /** The controller carries a list as it is meant, when nothing is refused, exactly if it is supported: for
      every other list the transfer never ends, faults, or goes wrong on the bus, whatever the slave does. */
  lemma CarriedIffSupported(ms: seq<Msg>, irqs: seq<Irq>)
    requires ms != [] && Unrefused(Script(ms, 0), irqs)
    ensures Carried(ms, irqs) <==> Supported(ms)
  {
    if Supported(ms) {
      AcknowledgedTransfer(ms, irqs);
    } else if Carried(ms, irqs) {
      Begins(ms);
      var m, s := Begin(ms), Script(ms, 0);
      ScriptEvents(ms, 0, irqs);
      EventsShift([], s, irqs);
      assert UpTo(ms, m.idx);
      hide Script, Events, Run, Received, Traffic, Slot.Receives, Slot.Drives, UpTo, Remaining, Unrefused;
      CarriedRest(m, ms, irqs);
    }
  }

  // ---------- two lists that are not supported ----------

  /** A read that is not last: the handler sends no further START, overwrites the next message's
      buffer with received bytes, and still reports success. */
  lemma ReadMustBeLast(a: Word, d: Byte, b0: Byte, b1: Byte)
    ensures var rd := Flags(true, false, false, false, false);
            var wr := Flags(false, false, false, false, false);
            var ms := [Msg(a, rd, [ZERO]), Msg(a, wr, [d])];
            var m := Run(Begin(ms), [Irq(false, ZERO), Irq(false, b0), Irq(false, b1)]);
            && m.state == Stop && m.idx == 2 && |m.msgs| == 2
            && m.bus == [StartAddr(StartByte(ms[0])), Rx(b0, true), Rx(b1, true), StopBit]
            && m.msgs[1].buf == [b1]
  {
    var rd := Flags(true, false, false, false, false);
    var wr := Flags(false, false, false, false, false);
    var ms := [Msg(a, rd, [ZERO]), Msg(a, wr, [d])];
    var irqs := [Irq(false, ZERO), Irq(false, b0), Irq(false, b1)];
    var m1 := NextByte(Begin(ms), irqs[0]);
    var m2 := NextByte(m1, irqs[1]);
    assert m2.msgs[0].buf == [b0];
    var m3 := NextByte(m2, irqs[2]);
    assert m3.msgs[1].buf == [b1];
    assert irqs[1..][1..] == [irqs[2]];
    assert Run(m2, [irqs[2]]) == Run(m3, []);
    assert Run(Begin(ms), irqs) == Run(m1, irqs[1..]) == Run(m2, irqs[1..][1..]);
  }

  /** Switching to read without a START stops the bus and then dereferences the cleared message. */
  lemma NoStartReadFaults(a: Word, d: Byte)
    ensures var ms := [Msg(a, Flags(false, false, false, false, false), [d]),
                       Msg(a, Flags(true, true, false, false, false), [ZERO])];
            var m := Run(Begin(ms), [Irq(false, ZERO), Irq(false, ZERO)]);
            m.fault && m.idx == EINVAL && m.state == Stop
  {
    var ms := [Msg(a, Flags(false, false, false, false, false), [d]),
               Msg(a, Flags(true, true, false, false, false), [ZERO])];
    var irqs := [Irq(false, ZERO), Irq(false, ZERO)];
    var m1 := NextByte(Begin(ms), irqs[0]);
    var m2 := NextByte(m1, irqs[1]);
    assert Run(m1, irqs[1..]) == Run(m2, irqs[1..][1..]) == m2;
  }

  // ---------- refused data ----------

  lemma WritingIgnores(m: Master, i: Irq, x: Irq)
    requires m.Ok() && m.state == Write
    ensures NextByte(m, i) == NextByte(m, x)
  {
  }

  lemma FinishedStays(m: Master, ms: seq<Msg>, got: seq<Byte>, result: int, irqs: seq<Irq>)
    requires Finished(m, ms, got, result)
    ensures Run(m, irqs) == m
  {
    StoppedStays(m, irqs);
  }

  lemma WriteSlotState(m: Master, ms: seq<Msg>, got: seq<Byte>)
    requires InProgress(m, ms, got)
    ensures Remaining(m, ms) != [] && (Remaining(m, ms)[0].WriteSlot? <==> m.state == Write)
  {
    hide Slots;
    if m.state == Read {
      ReadSlotNext(ms, m.idx, m.ptr);
    }
  }

  /** Whether a slave acknowledges a data byte of a write makes no difference at all. */
  lemma {:induction false} DataRefusalIgnored(m: Master, ms: seq<Msg>, got: seq<Byte>, irqs: seq<Irq>, k: nat, x: Irq)
    requires Supported(ms) && InProgress(m, ms, got) && k < |irqs|
    requires k < |Remaining(m, ms)| && Remaining(m, ms)[k].WriteSlot?
    ensures Run(m, irqs[k := x]) == Run(m, irqs)
    decreases k
  {
    var i, js, ks := irqs[0], irqs[1..], irqs[k := x];
    if k == 0 {
      WriteSlotState(m, ms, got);
      WritingIgnores(m, i, x);
      assert ks[1..] == js;
    } else {
      hide NextByte, Remaining, Supported, InProgress, Finished, Slot.Keeps, Slot.Receives, Slot.Drives;
      var s, rest := NextByteFollows(m, ms, got, i);
      var m' := NextByte(m, i);
      assert ks[0] == i && ks[1..] == js[k - 1 := x];
      if s.Checks() && i.nak {
        FinishedStays(m', ms, got, s.Code(), js);
        FinishedStays(m', ms, got, s.Code(), ks[1..]);
      } else {
        DataRefusalIgnored(m', ms, got + s.Keeps(i.ds), js, k - 1, x);
      }
    }
  }

  /** A slave that refuses data bytes of writes, any number of them, goes unnoticed: the bus, the buffers
      and the result are those of the transfer in which it accepts byte k. */
  lemma RefusedDataReported(ms: seq<Msg>, irqs: seq<Irq>, k: nat)
    requires Supported(ms) && Unrefused(Script(ms, 0), irqs) && k < |Script(ms, 0)| && Script(ms, 0)[k].WriteSlot?
    ensures var m := Run(Begin(ms), irqs[k := Irq(true, irqs[k].ds)]);
            m == Run(Begin(ms), irqs) && m.state == Stop && m.idx == |ms|
  {
    Begins(ms);
    hide Script, Remaining, Run, Supported;
    DataRefusalIgnored(Begin(ms), ms, [], irqs, k, Irq(true, irqs[k].ds));
    AcknowledgedTransfer(ms, irqs);
  }
}
