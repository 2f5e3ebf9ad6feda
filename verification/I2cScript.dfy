/** What a message list means on the bus, and the proof that the interrupt handler does exactly that
    for every acknowledge pattern. */
module I2cScript {
  import opened Crc
  import opened Errno
  import opened I2cMessages
  import opened I2cMaster

  /** One byte time on the bus; checked slots abort the transfer when they are not acknowledged. */
  datatype Slot =
    | AddressSlot(b: Byte, checked: bool)
    | WriteSlot(b: Byte)
    | ReadSlot(last: bool, checked: bool)
  {
    predicate Checks() {
      !WriteSlot? && checked
    }

    function Code(): int {
      if AddressSlot? then EREMOTEIO else ECONNREFUSED
    }

    /** What the master drives before the slot's interrupt. */
    function Drives(): seq<BusEvent> {
      match this
      case AddressSlot(b, _) => [StartAddr(b)]
      case WriteSlot(b) => [Tx(b)]
      case ReadSlot(_, _) => []
    }

    /** What the slot's interrupt adds: a byte read, acknowledged unless it is the last. */
    function Receives(ds: Byte): seq<BusEvent> {
      if ReadSlot? then [Rx(ds, !last)] else []
    }

    function Keeps(ds: Byte): seq<Byte> {
      if ReadSlot? then [ds] else []
    }
  }

  /** Message i is a read that goes on in later messages without a START. */
  predicate More(ms: seq<Msg>, i: nat)
    decreases |ms| - i
  {
    && i + 1 < |ms| && ms[i + 1].flags.rd && ms[i + 1].flags.noStart
    && (ms[i + 1].buf != [] || More(ms, i + 1))
  }

  /** The slots of a message from byte k on; more tells that its read goes on afterwards. */
  function Body(m: Msg, k: nat, more: bool): seq<Slot>
    decreases |m.buf| - k
  {
    if k >= |m.buf| then []
    else
      var last := k == |m.buf| - 1 && !more;
      [if m.flags.rd then ReadSlot(last, !m.flags.ignoreNak && !last) else WriteSlot(m.buf[k])] + Body(m, k + 1, more)
  }

  function Address(m: Msg): Slot {
    AddressSlot(StartByte(m), !m.flags.ignoreNak)
  }

  /** The slots of messages i, i+1, ...; only the first message and those without I2C_M_NOSTART get
      a START, and a read acknowledges every byte but the last before a START or the STOP. */
  function Script(ms: seq<Msg>, i: nat): seq<Slot>
    decreases |ms| - i, 1
  {
    if i >= |ms| then []
    else (if i == 0 || !ms[i].flags.noStart then [Address(ms[i])] else []) + Slots(ms, i, 0)
  }

  /** The slots from byte k of message i on. */
  function Slots(ms: seq<Msg>, i: nat, k: nat): seq<Slot>
    requires i < |ms|
    decreases |ms| - i, 0
  {
    Body(ms[i], k, More(ms, i)) + Script(ms, i + 1)
  }

  /** Message i may come after the one before it: a write may be followed by anything but a read without
      START, a read by nothing but a read without START that has at least one byte, two if it is the last. */
  predicate MayFollow(ms: seq<Msg>, i: nat)
    requires 0 < i < |ms|
  {
    var joins := ms[i].flags.rd && ms[i].flags.noStart;
    if ms[i - 1].flags.rd then joins && |ms[i].buf| >= if i == |ms| - 1 then 2 else 1 else !joins
  }

  ghost predicate UpTo(ms: seq<Msg>, n: int) {
    forall i :: 0 < i <= n && i < |ms| ==> MayFollow(ms, i)
  }

  /** The lists that the controller carries as they are meant. */
  ghost predicate Supported(ms: seq<Msg>) {
    ms != [] && UpTo(ms, |ms| - 1)
  }

  /** Reference execution of a script whose first slot is already on the bus. */
  datatype Outcome = Outcome(bus: seq<BusEvent>, done: bool, result: int, received: seq<Byte>)

  function Exec(bus: seq<BusEvent>, script: seq<Slot>, irqs: seq<Irq>, num: nat, got: seq<Byte>): Outcome
    requires script != []
    decreases |irqs|
  {
    if irqs == [] then Outcome(bus, false, 0, got)
    else
      var s, i := script[0], irqs[0];
      if s.Checks() && i.nak then Outcome(bus + [StopBit], true, s.Code(), got)
      else
        var bus', got' := bus + s.Receives(i.ds), got + s.Keeps(i.ds);
        if |script| == 1 then Outcome(bus' + [StopBit], true, num, got')
        else Exec(bus' + script[1].Drives(), script[1..], irqs[1..], num, got')
  }

  // ---------- received bytes and buffers ----------

  /** Number of bytes that the reads of a list take. */
  function ReadLength(ms: seq<Msg>): nat {
    if ms == [] then 0 else (if ms[0].flags.rd then |ms[0].buf| else 0) + ReadLength(ms[1..])
  }

  /** The list with the bytes rx at the front of its read buffers, one buffer after the other. */
  function FillReads(ms: seq<Msg>, rx: seq<Byte>): (r: seq<Msg>)
    ensures |r| == |ms|
    ensures forall i :: 0 <= i < |ms| ==> r[i].flags == ms[i].flags && |r[i].buf| == |ms[i].buf|
    decreases |ms|
  {
    if ms == [] then []
    else if !ms[0].flags.rd then [ms[0]] + FillReads(ms[1..], rx)
    else
      var b := ms[0].buf;
      var n := if |rx| < |b| then |rx| else |b|;
      [ms[0].(buf := rx[..n] + b[n..])] + FillReads(ms[1..], rx[n..])
  }

  lemma {:induction false} NothingFilled(ms: seq<Msg>)
    ensures FillReads(ms, []) == ms
  {
    if ms != [] {
      NothingFilled(ms[1..]);
      var b := ms[0].buf;
      assert [] + b[0..] == b;
    }
  }

  /** The first message's buffer with the bytes that go there. */
  function FillHead(b: seq<Byte>, rx: seq<Byte>): (r: seq<Byte>)
    ensures |r| == |b|
  {
    var n := if |rx| < |b| then |rx| else |b|;
    rx[..n] + b[n..]
  }

  /** The received bytes that are left for later messages. */
  function Rest(m: Msg, rx: seq<Byte>): seq<Byte> {
    if !m.flags.rd then rx else rx[if |rx| < |m.buf| then |rx| else |m.buf|..]
  }

  lemma FillUnfold(ms: seq<Msg>, rx: seq<Byte>)
    requires ms != []
    ensures FillReads(ms, rx)
         == [if ms[0].flags.rd then ms[0].(buf := FillHead(ms[0].buf, rx)) else ms[0]]
            + FillReads(ms[1..], Rest(ms[0], rx))
  {
  }

  lemma HeadNext(b: seq<Byte>, got: seq<Byte>, x: Byte)
    requires |got| < |b|
    ensures FillHead(b, got + [x]) == FillHead(b, got)[|got| := x]
  {
    var l, r := FillHead(b, got + [x]), FillHead(b, got)[|got| := x];
    forall k | 0 <= k < |b| ensures l[k] == r[k] {
    }
    assert l == r;
  }

  lemma RestNext(m: Msg, got: seq<Byte>, x: Byte)
    requires m.flags.rd ==> |got| >= |m.buf|
    ensures Rest(m, got + [x]) == Rest(m, got) + [x]
    ensures |Rest(m, got)| == |got| - if m.flags.rd then |m.buf| else 0
    ensures m.flags.rd ==> FillHead(m.buf, got + [x]) == FillHead(m.buf, got)
  {
    if m.flags.rd {
      assert (got + [x])[..|m.buf|] == got[..|m.buf|];
      assert (got + [x])[|m.buf|..] == got[|m.buf|..] + [x];
    }
  }

  lemma ConsUpdate<T>(h: T, t: seq<T>, i: nat, x: T)
    requires 0 < i <= |t|
    ensures ([h] + t)[i] == t[i - 1] && ([h] + t)[i := x] == [h] + t[i - 1 := x]
  {
  }

  /** Storing the next byte at the cursor. */
  lemma {:induction false} FillNext(ms: seq<Msg>, got: seq<Byte>, i: nat, p: nat, b: Byte)
    requires i < |ms| && ms[i].flags.rd && p < |ms[i].buf| && |got| == ReadLength(ms[..i]) + p
    ensures var c := FillReads(ms, got)[i];
            FillReads(ms, got + [b]) == FillReads(ms, got)[i := c.(buf := c.buf[p := b])]
    decreases |ms|
  {
    FillUnfold(ms, got);
    FillUnfold(ms, got + [b]);
    var m := ms[0];
    if i == 0 {
      assert ms[..0] == [];
      HeadNext(m.buf, got, b);
      assert Rest(m, got) == [] == Rest(m, got + [b]);
      hide FillReads, FillHead, Rest, ReadLength;
    } else {
      assert ms[..i][1..] == ms[1..][..i - 1] && ms[..i][0] == m;
      assert ReadLength(ms[..i]) == (if m.flags.rd then |m.buf| else 0) + ReadLength(ms[1..][..i - 1]);
      hide FillReads, FillHead, Rest, ReadLength;
      RestNext(m, got, b);
      var t := FillReads(ms[1..], Rest(m, got));
      FillNext(ms[1..], Rest(m, got), i - 1, p, b);
      var h := if m.flags.rd then m.(buf := FillHead(m.buf, got)) else m;
      var c := t[i - 1];
      ConsUpdate(h, t, i, c.(buf := c.buf[p := b]));
    }
  }

  lemma {:induction false} ReadLengthNext(ms: seq<Msg>, i: nat)
    requires i < |ms|
    ensures ReadLength(ms[..i + 1]) == ReadLength(ms[..i]) + if ms[i].flags.rd then |ms[i].buf| else 0
  {
    if i == 0 {
      assert ms[..1][1..] == [] && ms[..0] == [];
    } else {
      assert ms[..i + 1][1..] == ms[1..][..i] && ms[..i][1..] == ms[1..][..i - 1];
      ReadLengthNext(ms[1..], i - 1);
    }
  }

  ghost predicate WritesBefore(ms: seq<Msg>, n: int) {
    forall i :: 0 <= i < n && i < |ms| ==> !ms[i].flags.rd
  }

  lemma {:induction false} NothingReadYet(ms: seq<Msg>, n: nat)
    requires n <= |ms| && WritesBefore(ms, n)
    ensures ReadLength(ms[..n]) == 0
  {
    if n > 0 {
      NothingReadYet(ms, n - 1);
      ReadLengthNext(ms, n - 1);
    }
  }

  // ---------- the handler follows the script ----------

  function Remaining(m: Master, ms: seq<Msg>): seq<Slot>
    requires m.Active() && |ms| == |m.msgs|
  {
    match m.state
    case Start => [Address(ms[m.idx])] + Slots(ms, m.idx, 0)
    case Write =>
      (if 0 < m.ptr <= |ms[m.idx].buf| then [WriteSlot(ms[m.idx].buf[m.ptr - 1])] else []) + Slots(ms, m.idx, m.ptr)
    case _ => Slots(ms, m.idx, m.ptr)
  }

  ghost predicate Addressing(m: Master, ms: seq<Msg>)
    requires m.Active()
  {
    m.msgs == ms && WritesBefore(ms, m.idx) && m.ptr == 0 && m.ack
  }

  /** A transfer that writes: in the middle of a message, or about to leave it. */
  ghost predicate Writing(m: Master, ms: seq<Msg>) {
    && m.Active() && !m.fault && m.completions == 0 && m.irq && m.state == Write
    && m.msgs == ms && WritesBefore(ms, m.idx + 1) && m.ptr <= |m.Cur().buf|
  }

  ghost predicate Reading(m: Master, ms: seq<Msg>, got: seq<Byte>)
    requires m.Active()
  {
    && m.msgs == FillReads(ms, got) && ms[m.idx].flags.rd
    && m.ptr < |ms[m.idx].buf| && |got| == ReadLength(ms[..m.idx]) + m.ptr
    && m.ack == !(m.IsLastMsg() && m.ptr == |ms[m.idx].buf| - 1)
  }

  /** A transfer in progress that has received got. */
  ghost predicate InProgress(m: Master, ms: seq<Msg>, got: seq<Byte>) {
    && m.Active() && |m.msgs| == |ms| && !m.fault && m.completions == 0 && m.irq
    && match m.state
       case Start => Addressing(m, ms) && got == []
       case Write => Writing(m, ms) && 0 < m.ptr && got == []
       case Read => Reading(m, ms, got)
       case _ => false
  }

  ghost predicate Finished(m: Master, ms: seq<Msg>, got: seq<Byte>, result: int) {
    && m.state == Stop && m.num == 0 && m.completions == 1 && !m.irq && !m.fault
    && m.idx == result && m.msgs == FillReads(ms, got)
  }

  /** What one interrupt must do when its slot succeeds: rest is what remains of the script. */
  ghost predicate Follows(m: Master, ms: seq<Msg>, got: seq<Byte>, bus: seq<BusEvent>, rest: seq<Slot>) {
    if rest == [] then Finished(m, ms, got, |ms|) && m.bus == bus + [StopBit]
    else InProgress(m, ms, got) && Remaining(m, ms) == rest && m.bus == bus + rest[0].Drives()
  }

  lemma WriteSlotNext(ms: seq<Msg>, i: nat, k: nat)
    requires i < |ms| && !ms[i].flags.rd && k < |ms[i].buf|
    ensures Slots(ms, i, k) == [WriteSlot(ms[i].buf[k])] + Slots(ms, i, k + 1)
  {
    hide Script, More;
  }

  lemma ByteWritten(m: Master, ms: seq<Msg>)
    requires Writing(m, ms) && m.ptr < |m.Cur().buf|
    ensures Follows(RetryWrite(m), ms, [], m.bus, Slots(ms, m.idx, m.ptr))
  {
    var c := m.Cur();
    var r := m.(bus := m.bus + [Tx(c.buf[m.ptr])], ptr := m.ptr + 1);
    assert RetryWrite(m) == r;
    WriteSlotNext(ms, m.idx, m.ptr);
    hide Slots, RetryWrite;
    assert Remaining(r, ms) == Slots(ms, m.idx, m.ptr);
  }

  lemma NextStarted(m: Master, ms: seq<Msg>)
    requires Writing(m, ms) && m.ptr == |m.Cur().buf| && !m.IsLastMsg() && !ms[m.idx + 1].flags.noStart
    ensures Follows(RetryWrite(m), ms, [], m.bus, Slots(ms, m.idx, m.ptr))
  {
    hide More;
    var n := ms[m.idx + 1];
    var r := m.(ptr := 0, idx := m.idx + 1, bus := m.bus + [StartAddr(StartByte(n))], ack := true, state := Start);
    assert RetryWrite(m) == r;
    assert Remaining(r, ms) == Slots(ms, m.idx, m.ptr);
  }

  lemma AllWritten(m: Master, ms: seq<Msg>)
    requires Writing(m, ms) && m.ptr == |m.Cur().buf| && m.IsLastMsg()
    ensures Follows(RetryWrite(m), ms, [], m.bus, Slots(ms, m.idx, m.ptr))
  {
    assert Slots(ms, m.idx, m.ptr) == [];
    assert RetryWrite(m) == StopTransfer(m, 0);
    NothingFilled(ms);
  }

  /** The last message that the handler has come to. */
  function Reached(m: Master, ms: seq<Msg>): int {
    if m.state == Stop then |ms| - 1 else m.idx
  }

  lemma Continued(ms: seq<Msg>, i: nat)
    requires 0 < i < |ms| && ms[i].flags.noStart
    ensures Script(ms, i) == Slots(ms, i, 0)
  {
  }

  lemma NextSlots(ms: seq<Msg>, i: nat, k: nat)
    requires i < |ms| && k == |ms[i].buf|
    ensures Slots(ms, i, k) == Script(ms, i + 1)
  {
    hide Script, More;
  }

  /** Writing follows the script, unless it comes to a read without START. */
  lemma {:induction false} RetryWriteFollows(m: Master, ms: seq<Msg>)
    requires Writing(m, ms) && UpTo(ms, m.idx)
    ensures var r := RetryWrite(m);
            r.state != Read &&
            if r.fault then !Supported(ms)
            else Follows(r, ms, [], m.bus, Slots(ms, m.idx, m.ptr)) && UpTo(ms, Reached(r, ms))
    decreases m.num - m.idx
  {
    hide Follows, Slots, Script, More;
    if m.ptr < |m.Cur().buf| {
      ByteWritten(m, ms);
    } else if m.IsLastMsg() {
      AllWritten(m, ms);
    } else if ms[m.idx + 1].flags.noStart {
      assert ms[m.idx + 1].flags.rd == !MayFollow(ms, m.idx + 1);
      if !ms[m.idx + 1].flags.rd {
        var m' := m.(ptr := 0, idx := m.idx + 1);
        RetryWriteFollows(m', ms);
        assert RetryWrite(m) == RetryWrite(m');
        NextSlots(ms, m.idx, m.ptr);
        Continued(ms, m.idx + 1);
      }
    } else {
      NextStarted(m, ms);
    }
  }

  /** In a supported list a read goes on exactly when it is not the last message. */
  lemma ReadGoesOn(ms: seq<Msg>, i: nat)
    requires Supported(ms) && i < |ms| && ms[i].flags.rd
    ensures More(ms, i) <==> i < |ms| - 1
    ensures i < |ms| - 1 ==> MayFollow(ms, i + 1) && Script(ms, i + 1) == Slots(ms, i + 1, 0)
  {
    if i < |ms| - 1 {
      assert MayFollow(ms, i + 1);
    }
  }

  /** A read between two bytes, or behind the last byte of a message. */
  ghost predicate BetweenBytes(m: Master, ms: seq<Msg>, got: seq<Byte>) {
    && m.Active() && |m.msgs| == |ms| && !m.fault && m.completions == 0 && m.irq
    && m.state == Read && m.msgs == FillReads(ms, got) && ms[m.idx].flags.rd
    && m.ptr <= |ms[m.idx].buf| && |got| == ReadLength(ms[..m.idx]) + m.ptr
    && (m.ack || (m.IsLastMsg() && m.ptr == |ms[m.idx].buf|))
  }

  lemma ReadSlotNext(ms: seq<Msg>, i: nat, k: nat)
    requires i < |ms| && ms[i].flags.rd && k < |ms[i].buf|
    ensures Slots(ms, i, k) != [] && Slots(ms, i, k)[0].ReadSlot?
  {
    hide Script, More;
  }

  /** At a byte to read, the script's rest begins with that byte. */
  lemma AtByte(m: Master, ms: seq<Msg>, got: seq<Byte>)
    requires m.Active() && |m.msgs| == |ms| && !m.fault && m.completions == 0 && m.irq && m.state == Read
    requires Reading(m, ms, got)
    ensures Follows(m, ms, got, m.bus, Slots(ms, m.idx, m.ptr))
  {
    hide Slots, FillReads, ReadLength;
    ReadSlotNext(ms, m.idx, m.ptr);
  }

  lemma FilledShape(ms: seq<Msg>, got: seq<Byte>, i: nat)
    requires i < |ms|
    ensures FillReads(ms, got)[i].flags == ms[i].flags && |FillReads(ms, got)[i].buf| == |ms[i].buf|
  {
  }

  lemma WithinMessage(m: Master, ms: seq<Msg>, got: seq<Byte>)
    requires BetweenBytes(m, ms, got) && m.ptr < |ms[m.idx].buf|
    ensures Follows(PrepareRead(m), ms, got, m.bus, Slots(ms, m.idx, m.ptr))
  {
    FilledShape(ms, got, m.idx);
    hide Slots, FillReads, ReadLength, Follows;
    AtByte(PrepareRead(m), ms, got);
  }

  lemma LastMessageRead(m: Master, ms: seq<Msg>, got: seq<Byte>)
    requires BetweenBytes(m, ms, got) && m.ptr == |ms[m.idx].buf| && m.IsLastMsg()
    ensures Follows(PrepareRead(m), ms, got, m.bus, Slots(ms, m.idx, m.ptr))
  {
    FilledShape(ms, got, m.idx);
    hide More, FillReads, ReadLength;
    assert Slots(ms, m.idx, m.ptr) == [];
  }

  lemma NextMessageRead(m: Master, ms: seq<Msg>, got: seq<Byte>)
    requires Supported(ms) && BetweenBytes(m, ms, got) && m.ptr == |ms[m.idx].buf| && !m.IsLastMsg()
    ensures Follows(PrepareRead(m), ms, got, m.bus, Slots(ms, m.idx, m.ptr))
  {
    hide Slots, FillReads, ReadLength, Follows, Supported, More, Script;
    FilledShape(ms, got, m.idx);
    ReadGoesOn(ms, m.idx);
    ReadLengthNext(ms, m.idx);
    NextSlots(ms, m.idx, m.ptr);
    var r := PrepareRead(m);
    assert r == m.(ptr := 0, idx := m.idx + 1);
    AtByte(r, ms, got);
  }

  /** The handler looks for the next byte to read. */
  lemma PrepareFollows(m: Master, ms: seq<Msg>, got: seq<Byte>)
    requires Supported(ms) && BetweenBytes(m, ms, got)
    ensures Follows(PrepareRead(m), ms, got, m.bus, Slots(ms, m.idx, m.ptr))
  {
    hide Supported, Follows, PrepareRead, Slots;
    if m.ptr < |ms[m.idx].buf| {
      WithinMessage(m, ms, got);
    } else if m.IsLastMsg() {
      LastMessageRead(m, ms, got);
    } else {
      NextMessageRead(m, ms, got);
    }
  }

  lemma EmptyRead(m: Master, i: Irq)
    requires m.Active() && !m.fault && m.state == Start && m.Cur().flags.rd && !(i.nak && !m.Cur().flags.ignoreNak)
    requires m.ptr == 0
    ensures NextByte(m, i) == PrepareRead(m.(state := Read))
  {
  }

  lemma EmptyWrite(m: Master, i: Irq)
    requires m.Active() && !m.fault && m.state == Start && !m.Cur().flags.rd && !(i.nak && !m.Cur().flags.ignoreNak)
    requires m.ptr == 0
    ensures NextByte(m, i) == RetryWrite(m.(state := Write))
  {
  }

  lemma StartFollows(m: Master, ms: seq<Msg>, i: Irq)
    requires Supported(ms) && InProgress(m, ms, []) && m.state == Start && !(i.nak && !m.Cur().flags.ignoreNak)
    ensures Follows(NextByte(m, i), ms, [], m.bus, Slots(ms, m.idx, 0))
  {
    hide RetryWrite, PrepareRead, Follows, Script, More;
    NothingFilled(ms);
    if m.Cur().flags.rd {
      NothingReadYet(ms, m.idx);
      PrepareFollows(m.(state := Read), ms, []);
      EmptyRead(m, i);
    } else {
      RetryWriteFollows(m.(state := Write), ms);
      EmptyWrite(m, i);
    }
  }

  lemma ReadFollows(m: Master, ms: seq<Msg>, got: seq<Byte>, i: Irq)
    requires Supported(ms) && InProgress(m, ms, got) && m.state == Read
    requires Remaining(m, ms) != [] && !(Remaining(m, ms)[0].Checks() && i.nak)
    ensures Follows(NextByte(m, i), ms, got + [i.ds], m.bus + [Rx(i.ds, m.ack)], Remaining(m, ms)[1..])
  {
    hide PrepareRead, Follows, Supported, More, Script, FillReads, ReadLength;
    ReadGoesOn(ms, m.idx);
    FillNext(ms, got, m.idx, m.ptr, i.ds);
    var c := m.Cur();
    var m' := m.(msgs := m.msgs[m.idx := c.(buf := c.buf[m.ptr := i.ds])], ptr := m.ptr + 1,
                 bus := m.bus + [Rx(i.ds, m.ack)]);
    assert c.flags == ms[m.idx].flags && |c.buf| == |ms[m.idx].buf|;
    assert NextByte(m, i) == PrepareRead(m');
    assert Remaining(m, ms)[1..] == Slots(ms, m.idx, m.ptr + 1);
    PrepareFollows(m', ms, got + [i.ds]);
  }

  /** The effect of one interrupt i on a transfer whose current slot is s and whose later slots are rest. */
  ghost predicate Stepped(m: Master, m': Master, ms: seq<Msg>, got: seq<Byte>, i: Irq, s: Slot, rest: seq<Slot>) {
    if s.Checks() && i.nak then Finished(m', ms, got, s.Code()) && m'.bus == m.bus + [StopBit]
    else Follows(m', ms, got + s.Keeps(i.ds), m.bus + s.Receives(i.ds), rest)
  }

  lemma StartStep(m: Master, ms: seq<Msg>, i: Irq)
    requires Supported(ms) && InProgress(m, ms, []) && m.state == Start
    ensures Stepped(m, NextByte(m, i), ms, [], i, Address(m.Cur()), Slots(ms, m.idx, 0))
  {
    hide Follows, Script, More, Supported, RetryWrite, PrepareRead;
    var s := Address(m.Cur());
    NothingFilled(ms);
    assert m.bus + s.Receives(i.ds) == m.bus && [] + s.Keeps(i.ds) == [];
    if i.nak && s.Checks() {
      assert NextByte(m, i) == StopTransfer(m, EREMOTEIO);
    } else {
      StartFollows(m, ms, i);
    }
  }

  lemma WriteStep(m: Master, ms: seq<Msg>, i: Irq)
    requires Supported(ms) && InProgress(m, ms, []) && m.state == Write
    ensures Stepped(m, NextByte(m, i), ms, [], i, WriteSlot(m.Cur().buf[m.ptr - 1]), Slots(ms, m.idx, m.ptr))
  {
    var s := WriteSlot(m.Cur().buf[m.ptr - 1]);
    assert m.bus + s.Receives(i.ds) == m.bus && [] + s.Keeps(i.ds) == [];
    assert NextByte(m, i) == RetryWrite(m);
    RetryWriteFollows(m, ms);
  }

  lemma ReadStep(m: Master, ms: seq<Msg>, got: seq<Byte>, i: Irq)
    requires Supported(ms) && InProgress(m, ms, got) && m.state == Read
    ensures Remaining(m, ms) != []
    ensures Stepped(m, NextByte(m, i), ms, got, i, Remaining(m, ms)[0], Remaining(m, ms)[1..])
  {
    hide Follows, Script, More, FillReads, ReadLength, Supported, PrepareRead;
    ReadGoesOn(ms, m.idx);
    FilledShape(ms, got, m.idx);
    var s := Remaining(m, ms)[0];
    if s.Checks() && i.nak {
      assert NextByte(m, i) == StopTransfer(m, ECONNREFUSED);
    } else {
      ReadFollows(m, ms, got, i);
    }
  }

  /** One interrupt consumes the first remaining slot. */
  lemma NextByteFollows(m: Master, ms: seq<Msg>, got: seq<Byte>, i: Irq) returns (s: Slot, rest: seq<Slot>)
    requires Supported(ms) && InProgress(m, ms, got)
    ensures Remaining(m, ms) == [s] + rest
    ensures Stepped(m, NextByte(m, i), ms, got, i, s, rest)
  {
    hide Supported, Stepped, NextByte, Slots;
    match m.state
    case Start =>
      StartStep(m, ms, i);
      s, rest := Address(m.Cur()), Slots(ms, m.idx, 0);
    case Write =>
      WriteStep(m, ms, i);
      s, rest := WriteSlot(m.Cur().buf[m.ptr - 1]), Slots(ms, m.idx, m.ptr);
    case Read =>
      ReadStep(m, ms, got, i);
      s, rest := Remaining(m, ms)[0], Remaining(m, ms)[1..];
  }

  lemma {:induction false} StoppedStays(m: Master, irqs: seq<Irq>)
    requires m.fault || (m.state == Stop && !m.irq)
    ensures Run(m, irqs) == m
  {
    if irqs != [] {
      StoppedStays(m, irqs[1..]);
    }
  }

  /** The state agrees with an outcome of the reference execution. */
  ghost predicate Agrees(m: Master, ms: seq<Msg>, o: Outcome) {
    && m.bus == o.bus
    && if o.done then Finished(m, ms, o.received, o.result) else InProgress(m, ms, o.received)
  }

  lemma {:induction false} RunFollows(m: Master, ms: seq<Msg>, got: seq<Byte>, irqs: seq<Irq>)
    requires Supported(ms) && InProgress(m, ms, got)
    ensures Remaining(m, ms) != []
    ensures Agrees(Run(m, irqs), ms, Exec(m.bus, Remaining(m, ms), irqs, |ms|, got))
    decreases |irqs|
  {
    hide NextByte, Remaining, Supported;
    if irqs == [] {
      var _, _ := NextByteFollows(m, ms, got, Irq(false, ZERO));
    } else {
      var s, rest := NextByteFollows(m, ms, got, irqs[0]);
      var m' := NextByte(m, irqs[0]);
      if (s.Checks() && irqs[0].nak) || rest == [] {
        StoppedStays(m', irqs[1..]);
      } else {
        RunFollows(m', ms, got + s.Keeps(irqs[0].ds), irqs[1..]);
      }
    }
  }

  lemma Begins(ms: seq<Msg>)
    requires ms != []
    ensures InProgress(Begin(ms), ms, []) && Remaining(Begin(ms), ms) == Script(ms, 0) != []
    ensures Begin(ms).bus == Script(ms, 0)[0].Drives()
  {
  }

  /** For every supported list and every interrupt sequence (any acknowledge pattern, any data, any
      length) the handler does what the script says, completes at most once, and afterwards ignores
      further interrupts. */
  lemma HandlerRefinesScript(ms: seq<Msg>, irqs: seq<Irq>)
    requires Supported(ms)
    ensures Script(ms, 0) != []
    ensures Agrees(Run(Begin(ms), irqs), ms, Exec(Script(ms, 0)[0].Drives(), Script(ms, 0), irqs, |ms|, []))
  {
    Begins(ms);
    RunFollows(Begin(ms), ms, [], irqs);
  }
}
