/** The emulation itself: building the two i2c_msg structures, PEC, the transfer, and the reply. */
module SmbusXfer {
  import opened Errno
  import opened Gf2
  import opened Crc
  import opened I2cMessages
  import opened SmbusSlave
  import opened Wrappers
  import opened Smbus

  /** What the switch over the protocols leaves behind. */
  ghost predicate Built(p: Plan, addr: Word, status: int, m0: I2cMsg, m1: I2cMsg, num: nat)
    reads m0, m1, m0.buf
  {
    match p
    case Fail(e) => status == e
    case Go(t) =>
      && status == 0 && Transferable(m0, m1, num) && m0.addr == addr && m1.addr == addr
      && m0.buf != m1.buf && m0.buf.Length == BLOCK_MAX + 3 && m1.buf.Length == BLOCK_MAX + 2
      && AsTransfer(m0, m1, num) == t
  }

  /** The longest I2C block read for which the buffers have room. */
  const READ_MAX: nat := BLOCK_MAX + 1

  /** Byte i of an I2C block read is at index i of its message's buffer and goes to index i + 1 of the caller's
      block; both have BLOCK_MAX + 2 bytes. */
  predicate ReadsWithin(i: nat) {
    i < BLOCK_MAX + 2 && i + 1 < BLOCK_MAX + 2
  }

  /** Every index of an I2C block read of count bytes is in bounds exactly up to READ_MAX, which the code does
      not check. */
  lemma ReadBound(count: nat)
    ensures (forall i: nat :: i < count ==> ReadsWithin(i)) <==> count <= READ_MAX
  {
    if count > READ_MAX {
      assert !ReadsWithin(READ_MAX);
    }
  }

  /** Whether the transaction ends with a read: the process calls always do. */
  predicate Reads(size: Size, read: bool) {
    read || size == ProcCall || size == BlockProcCall
  }

  method CopyIn(buf: array<Byte>, src: seq<Byte>, from: nat, len: nat)
    requires 1 <= len <= buf.Length && from + len - 1 <= |src|
    modifies buf
    ensures buf[..len] == [old(buf[0])] + src[from..from + len - 1]
  {
    for i := 1 to len
      invariant buf[..i] == [old(buf[0])] + src[from..from + i - 1]
    {
      buf[i] := src[from + i - 1];
      assert buf[..i + 1] == buf[..i] + [src[from + i - 1]];
    }
  }

  const WRITE_FLAGS: Flags := Flags(false, false, false, false, false)
  const READ_FLAGS: Flags := Flags(true, false, false, false, false)

  /** The default values before the switch: a one-byte write of the command, and an empty read. */
  ghost predicate Defaults(m0: I2cMsg, m1: I2cMsg, addr: Word, command: Byte)
    reads m0, m1, m0.buf
  {
    && m0 != m1 && m0.buf != m1.buf && m0.buf.Length == BLOCK_MAX + 3 && m1.buf.Length == BLOCK_MAX + 2
    && m0.addr == addr && m1.addr == addr && m0.len == 1 && m1.len == 0 && m0.buf[0] == command
    && m0.flags == WRITE_FLAGS && m1.flags == READ_FLAGS
  }

  /** The cases of one and two bytes. */
  method BuildShort(m0: I2cMsg, m1: I2cMsg, ghost addr: Word, read: bool, command: Byte, size: Size, d: Data)
    returns (num: nat)
    requires |d.block| == BLOCK_MAX + 2 && Defaults(m0, m1, addr, command)
    requires size == Quick || size == SingleByte || size == ByteData || size == WordData || size == ProcCall
    modifies m0`len, m0`flags, m1`len, m0.buf
    ensures Built(PlanOf(size, read, command, d), addr, 0, m0, m1, num)
  {
    var msgbuf0 := m0.buf;
    assert msgbuf0[..1] == [command];
    num := if read then 2 else 1;
    match size
    case Quick =>
      m0.len := 0;
      m0.flags := if read then READ_FLAGS else WRITE_FLAGS;
      num := 1;
      assert msgbuf0[..0] == [];
    case SingleByte =>
      if read {
        m0.flags := READ_FLAGS;
        num := 1;
      }
    case ByteData =>
      if read {
        m1.len := 1;
      } else {
        m0.len := 2;
        msgbuf0[1] := d.byte;
        assert msgbuf0[..2] == [command, d.byte];
      }
    case WordData =>
      if read {
        m1.len := 2;
      } else {
        m0.len := 3;
        msgbuf0[1] := Low(d.word);
        msgbuf0[2] := High(d.word);
        assert msgbuf0[..3] == [command, Low(d.word), High(d.word)];
      }
    case ProcCall =>
      num := 2;
      m0.len := 3;
      m1.len := 2;
      msgbuf0[1] := Low(d.word);
      msgbuf0[2] := High(d.word);
      assert msgbuf0[..3] == [command, Low(d.word), High(d.word)];
  }

  /** The block cases. */
  method BuildBlock(m0: I2cMsg, m1: I2cMsg, ghost addr: Word, read: bool, command: Byte, size: Size, d: Data)
    returns (status: int, num: nat)
    requires |d.block| == BLOCK_MAX + 2 && Defaults(m0, m1, addr, command)
    requires size == BlockData || size == BlockProcCall || size == I2cBlockData
    requires size == I2cBlockData && read ==> d.Count() <= READ_MAX
    modifies m0`len, m1`flags, m1`len, m0.buf
    ensures Built(PlanOf(size, read, command, d), addr, status, m0, m1, num)
  {
    var msgbuf0 := m0.buf;
    assert msgbuf0[..1] == [command];
    num := if read then 2 else 1;
    status := 0;
    var count := Val(d.block[0]);
    match size
    case BlockData =>
      if read {
        m1.flags := m1.flags.(recvLen := true);
        m1.len := 1;
      } else {
        m0.len := count + 2;
        if m0.len > BLOCK_MAX + 2 {
          status := EINVAL;
          return;
        }
        CopyIn(msgbuf0, d.block, 0, m0.len);
      }
    case BlockProcCall =>
      num := 2;
      if count > BLOCK_MAX {
        status := EINVAL;
        return;
      }
      m0.len := count + 2;
      CopyIn(msgbuf0, d.block, 0, m0.len);
      m1.flags := m1.flags.(recvLen := true);
      m1.len := 1;
    case I2cBlockData =>
      if read {
        m1.len := count;
      } else {
        m0.len := count + 1;
        if m0.len > BLOCK_MAX + 1 {
          status := EINVAL;
          return;
        }
        CopyIn(msgbuf0, d.block, 1, m0.len);
      }
  }

  method BuildMessages(addr: Word, read: bool, command: Byte, size: Size, d: Data)
    returns (status: int, m0: I2cMsg, m1: I2cMsg, num: nat)
    requires |d.block| == BLOCK_MAX + 2
    requires size == I2cBlockData && read ==> d.Count() <= READ_MAX
    ensures fresh(m0) && fresh(m1) && fresh(m0.buf) && fresh(m1.buf) && m0 != m1
    ensures Built(PlanOf(size, read, command, d), addr, status, m0, m1, num)
  {
    var msgbuf0 := new Byte[BLOCK_MAX + 3](_ => ZERO);
    var msgbuf1 := new Byte[BLOCK_MAX + 2](_ => ZERO);
    m0 := new I2cMsg(addr, WRITE_FLAGS, 1, msgbuf0);
    m1 := new I2cMsg(addr, READ_FLAGS, 0, msgbuf1);
    status, num := 0, 1;
    msgbuf0[0] := command;
    if size == BlockData || size == BlockProcCall || size == I2cBlockData {
      status, num := BuildBlock(m0, m1, addr, read, command, size, d);
    } else if size == Unsupported {
      status := EOPNOTSUPP;
    } else {
      num := BuildShort(m0, m1, addr, read, command, size, d);
    }
  }

  method CopyBlock(buf1: array<Byte>, data: SmbusData)
    requires |data.block| == BLOCK_MAX + 2 == buf1.Length && Val(buf1[0]) <= BLOCK_MAX
    modifies data`block
    ensures data.block == buf1[..Val(buf1[0]) + 1] + old(data.block[Val(buf1[0]) + 1..])
  {
    for i := 0 to Val(buf1[0]) + 1
      invariant data.block == buf1[..i] + old(data.block[i..])
    {
      data.block := data.block[i := buf1[i]];
    }
  }

  function Stored(b0: seq<Byte>, b1: seq<Byte>, size: Size, d: Data): Data
    requires |d.block| == BLOCK_MAX + 2 == |b1| && b0 != []
    requires size == I2cBlockData ==> d.Count() <= READ_MAX
    requires size == BlockData || size == BlockProcCall ==> Val(b1[0]) <= BLOCK_MAX
  {
    match size
    case SingleByte => d.(byte := b0[0])
    case ByteData => d.(byte := b1[0])
    case WordData => d.(word := MakeWord(b1[..2]))
    case ProcCall => d.(word := MakeWord(b1[..2]))
    case I2cBlockData => d.(block := d.block[..1] + b1[..d.Count()] + d.block[d.Count() + 1..])
    case BlockData => d.(block := b1[..Val(b1[0]) + 1] + d.block[Val(b1[0]) + 1..])
    case BlockProcCall => d.(block := b1[..Val(b1[0]) + 1] + d.block[Val(b1[0]) + 1..])
    case _ => d
  }

  /** The data bytes of the reply go to the caller: the switch after the transfer. */
  method StoreReply(buf0: array<Byte>, buf1: array<Byte>, size: Size, reading: bool, data: SmbusData)
    requires |data.block| == BLOCK_MAX + 2 && buf0.Length > 0 && buf1.Length == BLOCK_MAX + 2
    requires reading && size == I2cBlockData ==> Val(data.block[0]) <= READ_MAX
    requires reading && (size == BlockData || size == BlockProcCall) ==> Val(buf1[0]) <= BLOCK_MAX
    modifies data
    ensures data.View() == if reading then Stored(buf0[..], buf1[..], size, old(data.View())) else old(data.View())
  {
    if reading {
      match size
      case SingleByte =>
        data.byte := buf0[0];
      case ByteData =>
        data.byte := buf1[0];
      case WordData =>
        data.word := MakeWord([buf1[0], buf1[1]]);
      case ProcCall =>
        data.word := MakeWord([buf1[0], buf1[1]]);
      case I2cBlockData =>
        var n := Val(data.block[0]);
        for i := 0 to n
          invariant data.byte == old(data.byte) && data.word == old(data.word)
          invariant data.block == old(data.block[..1]) + buf1[..i] + old(data.block[i + 1..])
        {
          data.block := data.block[i + 1 := buf1[i]];
        }
      case BlockData =>
        CopyBlock(buf1, data);
      case BlockProcCall =>
        CopyBlock(buf1, data);
      case _ =>
    }
  }

  /** The bytes of a reply, in the buffer that the transfer reads into. */
  ghost predicate Replied(dev: Device, addr: Word, t: Transfer, b0: seq<Byte>, b1: seq<Byte>) {
    var r := Serve(dev, addr, t, false);
    var b := if t.write.Some? then b1 else b0;
    r.status == 0 && (t.read.Some? ==> |r.bytes| <= |b| && b[..|r.bytes|] == r.bytes)
  }

  lemma StoredBlock(dev: Device, addr: Word, p: seq<Byte>, b0: seq<Byte>, b1: seq<Byte>)
    requires p != [] && Replied(dev, addr, Transfer(Some(p), Some(ReadPart(1, true))), b0, b1)
    ensures |b1| > 0 && Val(b1[0]) <= BLOCK_MAX && Val(b1[0]) < |b1|
    ensures b1[0] == Take(dev.Answer(p), 1)[0] && b1[..Val(b1[0]) + 1] == Take(dev.Answer(p), Val(b1[0]) + 1)
    ensures Serve(dev, addr, Transfer(Some(p), Some(ReadPart(1, true))), false).dev == dev
  {
    hide Val, Device.Answer, WireOf;
    var r := Serve(dev, addr, Transfer(Some(p), Some(ReadPart(1, true))), false);
    var n := Val(Take(dev.Answer(p), 1)[0]);
    assert r == Reply(dev, 0, Take(dev.Answer(p), n + 1));
    assert b1[0] == r.bytes[0] == Take(dev.Answer(p), 1)[0];
  }

  lemma StoredBytes(dev: Device, addr: Word, p: seq<Byte>, n: nat, b0: seq<Byte>, b1: seq<Byte>)
    requires p != [] && Replied(dev, addr, Transfer(Some(p), Some(ReadPart(n, false))), b0, b1)
    ensures |b1| >= n && b1[..n] == Take(dev.Answer(p), n)
    ensures Serve(dev, addr, Transfer(Some(p), Some(ReadPart(n, false))), false).dev == dev
  {
    assert Serve(dev, addr, Transfer(Some(p), Some(ReadPart(n, false))), false).bytes == Take(dev.Answer(p), n);
  }

  /** A reply to a write followed by a read, stored, is the prescribed result. */
  lemma AnswerIsPrescribed(dev: Device, addr: Word, size: Size, read: bool, command: Byte, d: Data,
                           t: Transfer, b0: seq<Byte>, b1: seq<Byte>)
    requires |d.block| == BLOCK_MAX + 2 == |b1| && b0 != []
    requires size == I2cBlockData && read ==> d.Count() <= READ_MAX
    requires PlanOf(size, read, command, d) == Go(t) && t.read.Some? && t.write.Some? && t.write.value != []
    requires Replied(dev, addr, t, b0, b1)
    ensures Reads(size, read)
    ensures size == BlockData || size == BlockProcCall ==> Val(b1[0]) <= BLOCK_MAX
    ensures Prescribed(dev, size, read, command, d)
         == Result(0, Serve(dev, addr, t, false).dev, Stored(b0, b1, size, d))
  {
    hide Serve, Replied, Val, WithPec;
    var p := t.write.value;
    if t.read.value.recvLen {
      StoredBlock(dev, addr, p, b0, b1);
    } else {
      StoredBytes(dev, addr, p, t.read.value.len, b0, b1);
    }
    assert p == [command] ==> dev.Answer(p) == dev.Register(command);
    assert |p| > 1 ==> dev.Answer(p) == dev.Call(command, p[1..]);
  }

  /** The reply that Serve computes, stored, is the prescribed result. */
  lemma StoredIsPrescribed(dev: Device, addr: Word, size: Size, read: bool, command: Byte, d: Data,
                           t: Transfer, b0: seq<Byte>, b1: seq<Byte>)
    requires |d.block| == BLOCK_MAX + 2 == |b1| && b0 != []
    requires size == I2cBlockData && read ==> d.Count() <= READ_MAX
    requires PlanOf(size, read, command, d) == Go(t) && Replied(dev, addr, t, b0, b1)
    ensures size == I2cBlockData && Reads(size, read) ==> d.Count() <= READ_MAX
    ensures (size == BlockData || size == BlockProcCall) && Reads(size, read) ==> Val(b1[0]) <= BLOCK_MAX
    ensures Prescribed(dev, size, read, command, d)
         == Result(0, Serve(dev, addr, t, false).dev,
                   if Reads(size, read) then Stored(b0, b1, size, d) else d)
  {
    if t.read.Some? && t.write.Some? {
      AnswerIsPrescribed(dev, addr, size, read, command, d, t, b0, b1);
    } else {
      hide Val;
    }
  }

  lemma RefusedPlan(dev: Device, size: Size, read: bool, command: Byte, d: Data)
    requires |d.block| == BLOCK_MAX + 2 && PlanOf(size, read, command, d).Fail?
    ensures Prescribed(dev, size, read, command, d) == Result(PlanOf(size, read, command, d).status, dev, d)
  {
  }

  /** The only transfers that the device refuses are block replies of more than 32 bytes. */
  lemma RefusedTransfer(dev: Device, addr: Word, size: Size, read: bool, command: Byte, d: Data, t: Transfer)
    requires |d.block| == BLOCK_MAX + 2 && PlanOf(size, read, command, d) == Go(t)
    requires Serve(dev, addr, t, false).status < 0
    ensures Prescribed(dev, size, read, command, d)
         == Result(Serve(dev, addr, t, false).status, Serve(dev, addr, t, false).dev, d)
  {
  }

  /** The reply that the master hears to a transfer that the device serves, its PEC byte included. */
  function HeardReply(dev: Device, addr: Word, t: Transfer, pec: bool, heard: Option<seq<Byte>>): (r: seq<Byte>)
    requires t.read.Some?
    ensures pec ==> r != []
  {
    var r := t.read.value;
    Hear(heard, WithPec(addr, t.write, Serve(dev, addr, t, false).bytes, pec), if pec then r.(len := r.len + 1) else r)
  }

  /** The master's check of a heard reply. */
  predicate ReplyAccepted(addr: Word, w: Option<seq<Byte>>, h: seq<Byte>)
    requires h != []
  {
    Accepted(Pec(ZERO, WireOf(addr, w)), [AddressByte(addr, true)] + h)
  }

  /** What i2c_transfer and the PEC check make of a transfer. */
  function Verdict(dev: Device, addr: Word, t: Transfer, pec: bool, heard: Option<seq<Byte>>): int {
    var r := Serve(dev, addr, t, false);
    if r.status < 0 then r.status
    else if pec && t.read.Some? && !ReplyAccepted(addr, t.write, HeardReply(dev, addr, t, pec, heard)) then EBADMSG
    else 0
  }

  /** The bytes of a heard reply that are data. */
  function HeardData(dev: Device, addr: Word, t: Transfer, pec: bool, heard: Option<seq<Byte>>): seq<Byte>
    requires t.read.Some?
  {
    var h := HeardReply(dev, addr, t, pec, heard);
    if pec then h[..|h| - 1] else h
  }

  /** The adapter does not fail, and replies arrive as they were sent. */
  predicate Clean(adapter: Adapter) {
    adapter.error >= 0 && adapter.heard == None
  }

  lemma VerdictZero(dev: Device, addr: Word, t: Transfer, pec: bool, heard: Option<seq<Byte>>)
    ensures Verdict(dev, addr, t, pec, heard) <= 0
    ensures Verdict(dev, addr, t, pec, heard) == 0 ==> Serve(dev, addr, t, false).status == 0
  {
    hide ReplyAccepted, HeardReply;
  }

  /** On a clean line the check accepts, and the data are the slave's. */
  lemma CleanLine(dev: Device, addr: Word, t: Transfer, pec: bool)
    ensures Verdict(dev, addr, t, pec, None) == Serve(dev, addr, t, false).status
    ensures t.read.Some? ==> HeardData(dev, addr, t, pec, None) == Serve(dev, addr, t, false).bytes
  {
    hide Serve, Pec, WireOf;
    if t.read.Some? && pec {
      PecReply(addr, t.write, Serve(dev, addr, t, false).bytes);
    }
  }

  /** The count of a block reply that reaches the caller's buffer is legal. */
  lemma CountKept(dev: Device, addr: Word, t: Transfer, pec: bool, heard: Option<seq<Byte>>)
    requires t.read.Some? && t.read.value.recvLen && t.read.value.len == 1 && Serve(dev, addr, t, false).status == 0
    requires t.write.Some?
    ensures var h := HeardData(dev, addr, t, pec, heard); h != [] && Val(h[0]) <= BLOCK_MAX
  {
    var p := Serve(dev, addr, t, false).bytes;
    assert p != [] && Val(p[0]) <= BLOCK_MAX by {
      hide Val, Device.Answer;
      assert p == Take(dev.Answer(t.write.value), Val(Take(dev.Answer(t.write.value), 1)[0]) + 1);
      assert p[0] == Take(dev.Answer(t.write.value), 1)[0];
    }
    hide Val, Serve;
    assert WithPec(addr, t.write, p, pec)[0] == p[0];
  }

  lemma ReplyFits(dev: Device, addr: Word, size: Size, read: bool, command: Byte, d: Data, pec: bool,
                  heard: Option<seq<Byte>>, b0: seq<Byte>, b1: seq<Byte>)
    requires |d.block| == BLOCK_MAX + 2 && PlanOf(size, read, command, d).Go?
    requires var t := PlanOf(size, read, command, d).t;
             && Serve(dev, addr, t, false).status == 0
             && (t.read.Some? ==>
                   var h := HeardData(dev, addr, t, pec, heard); var b := if t.write.Some? then b1 else b0;
                   |h| <= |b| && b[..|h|] == h)
    ensures (size == BlockData || size == BlockProcCall) && Reads(size, read) ==> b1 != [] && Val(b1[0]) <= BLOCK_MAX
  {
    hide Serve, HeardData, Val;
    var t := PlanOf(size, read, command, d).t;
    if (size == BlockData || size == BlockProcCall) && Reads(size, read) {
      CountKept(dev, addr, t, pec, heard);
      var h := HeardData(dev, addr, t, pec, heard);
      assert b1[0] == b1[..|h|][0] == h[0];
    }
  }

  /** The reply of a transfer that succeeded goes to the caller. */
  method Deliver(buf0: array<Byte>, buf1: array<Byte>, read: bool, command: Byte, size: Size, data: SmbusData,
                 ghost dev: Device, ghost addr: Word, ghost pec: bool, ghost heard: Option<seq<Byte>>)
    requires |data.block| == BLOCK_MAX + 2 == buf1.Length && buf0.Length > 0
    requires size == I2cBlockData && read ==> Val(data.block[0]) <= READ_MAX
    requires var p := PlanOf(size, read, command, data.View());
             p.Go? && Serve(dev, addr, p.t, false).status == 0
             && (p.t.read.Some? ==>
                   var h := HeardData(dev, addr, p.t, pec, heard);
                   var b := if p.t.write.Some? then buf1[..] else buf0[..];
                   |h| <= |b| && b[..|h|] == h)
    modifies data
    ensures heard == None ==>
              var t := PlanOf(size, read, command, old(data.View())).t;
              Result(0, Serve(dev, addr, t, false).dev, data.View())
              == Prescribed(dev, size, read, command, old(data.View()))
  {
    hide Serve, Prescribed, Stored, HeardData, PlanOf, Val;
    ghost var d := data.View();
    ghost var t := PlanOf(size, read, command, d).t;
    CleanLine(dev, addr, t, pec);
    ReplyFits(dev, addr, size, read, command, d, pec, heard, buf0[..], buf1[..]);
    if heard == None {
      StoredIsPrescribed(dev, addr, size, read, command, d, t, buf0[..], buf1[..]);
    }
    StoreReply(buf0, buf1, size, Reads(size, read), data);
  }

  /** A transfer that may carry PEC, in buffers with room for it. */
  ghost predicate PecReady(m0: I2cMsg, m1: I2cMsg, num: nat, t: Transfer)
    reads m0, m1, m0.buf
  {
    && Transferable(m0, m1, num) && AsTransfer(m0, m1, num) == t && m0 != m1 && m0.buf != m1.buf
    && m1.buf.Length == BLOCK_MAX + 2 && m0.len < m0.buf.Length == BLOCK_MAX + 3
    && (t.write.Some? ==> t.write.value != [])
    && (t.read.Some? ==> 0 < t.read.value.len <= 2)
    && (t.read.Some? && t.read.value.recvLen ==> t.write.Some? && t.read.value.len == 1)
  }

  /** The messages of every protocol that carries PEC have room for it. */
  lemma BuiltPecReady(addr: Word, read: bool, command: Byte, size: Size, d: Data, m0: I2cMsg, m1: I2cMsg, num: nat)
    requires |d.block| == BLOCK_MAX + 2 && PlanOf(size, read, command, d).Go? && m0 != m1
    requires Built(PlanOf(size, read, command, d), addr, 0, m0, m1, num)
    ensures size != Quick && size != I2cBlockData ==> PecReady(m0, m1, num, PlanOf(size, read, command, d).t)
    ensures Transferable(m0, m1, num) && AsTransfer(m0, m1, num) == PlanOf(size, read, command, d).t
    ensures m0.addr == addr && m0.buf != m1.buf
    ensures PlanOf(size, read, command, d).t.read.Some? ==>
              LastMsg(m0, m1, num).buf == if PlanOf(size, read, command, d).t.write.Some? then m1.buf else m0.buf
  {
    hide Pec, WireOf, Val;
    var t := PlanOf(size, read, command, d).t;
    assert |m0.buf[..m0.len]| == m0.len;
    assert t.write.Some? ==> |t.write.value| <= BLOCK_MAX + 2;
  }

  lemma PlanFails(size: Size, read: bool, command: Byte, d: Data)
    requires |d.block| == BLOCK_MAX + 2
    ensures var p := PlanOf(size, read, command, d); p.Fail? ==> p.status < 0
  {
  }

  /** PEC generation: append it to a lone write, or ask for it in the read. */
  method RequestPec(m0: I2cMsg, m1: I2cMsg, num: nat, ghost t: Transfer) returns (partial_pec: Byte)
    requires PecReady(m0, m1, num, t)
    modifies m0`len, m1`len, m0.buf
    ensures Transferable(m0, m1, num) && AsTransfer(m0, m1, num) == AddPecTo(m0.addr, t)
    ensures t.read.Some? ==> partial_pec == Pec(ZERO, WireOf(m0.addr, t.write))
  {
    partial_pec := ZERO;
    if !m0.flags.rd {
      assert m0.Wire() == WireOf(m0.addr, t.write);
      if num == 1 {
        m0.AddPec();
        assert m0.buf[..m0.len] == m0.Wire()[1..] == t.write.value + [Pec(ZERO, WireOf(m0.addr, t.write))];
      } else {
        partial_pec := m0.MsgPec(ZERO);
      }
    }
    var last := LastMsg(m0, m1, num);
    if last.flags.rd {
      last.len := last.len + 1;
    }
  }

  /** The PEC check on a reply: its last byte goes, and tells whether the rest is accepted. */
  method CheckReply(last: I2cMsg, partial_pec: Byte, ghost w: Option<seq<Byte>>) returns (status: int)
    requires last.Valid() && last.flags.rd && last.len > 0
    requires partial_pec == Pec(ZERO, WireOf(last.addr, w))
    modifies last`len
    ensures last.Valid() && last.len == old(last.len) - 1
    ensures status == if ReplyAccepted(last.addr, w, old(last.buf[..last.len])) then 0 else EBADMSG
  {
    var ok := last.CheckPec(partial_pec);
    status := if ok then 0 else EBADMSG;
  }

  method TransactPec(adapter: Adapter, m0: I2cMsg, m1: I2cMsg, num: nat, ghost t: Transfer) returns (status: int)
    requires PecReady(m0, m1, num, t)
    modifies adapter, m0`len, m1`len, m0.buf, m1.buf
    ensures adapter.carried == old(adapter.carried) + [(m0.addr, AddPecTo(m0.addr, t))]
    ensures adapter.error < 0 ==> status == adapter.error && adapter.dev == old(adapter.dev)
    ensures adapter.error >= 0 ==>
              && status == Verdict(old(adapter.dev), m0.addr, t, true, adapter.heard)
              && adapter.dev == Serve(old(adapter.dev), m0.addr, t, false).dev
              && (status == 0 && t.read.Some? ==>
                    var b := LastMsg(m0, m1, num).buf;
                    var h := HeardData(old(adapter.dev), m0.addr, t, true, adapter.heard);
                    |h| <= b.Length && b[..|h|] == h)
  {
    hide Serve, ReplyAccepted, Pec, WireOf, WithPec;
    var last := LastMsg(m0, m1, num);
    ghost var dev := adapter.dev;
    var partial_pec := RequestPec(m0, m1, num, t);
    status := adapter.I2cTransfer(m0, m1, num, true);
    if adapter.error < 0 {
      return;
    }
    if !last.flags.rd {
      PecWrite(dev, m0.addr, t.write.value);
    } else {
      PecRead(dev, m0.addr, t.write, t.read.value);
      if status == 0 {
        status := CheckReply(last, partial_pec, t.write);
      }
    }
  }

  /** PEC generation, i2c_transfer and the PEC check. */
  method Transact(adapter: Adapter, m0: I2cMsg, m1: I2cMsg, num: nat, pec: bool, ghost t: Transfer)
    returns (status: int)
    requires Transferable(m0, m1, num) && AsTransfer(m0, m1, num) == t && m0 != m1 && m0.buf != m1.buf
    requires pec ==> PecReady(m0, m1, num, t)
    modifies adapter, m0`len, m1`len, m0.buf, m1.buf
    ensures adapter.carried == old(adapter.carried) + [(m0.addr, if pec then AddPecTo(m0.addr, t) else t)]
    ensures adapter.error < 0 ==> status == adapter.error && adapter.dev == old(adapter.dev)
    ensures adapter.error >= 0 ==>
              && status == Verdict(old(adapter.dev), m0.addr, t, pec, adapter.heard)
              && adapter.dev == Serve(old(adapter.dev), m0.addr, t, false).dev
              && (status == 0 && t.read.Some? ==>
                    var b := LastMsg(m0, m1, num).buf;
                    var h := HeardData(old(adapter.dev), m0.addr, t, pec, adapter.heard);
                    |h| <= b.Length && b[..|h|] == h)
  {
    hide Serve, ReplyAccepted, PecReady, WireOf, Pec;
    if !pec {
      status := adapter.I2cTransfer(m0, m1, num, false);
    } else {
      status := TransactPec(adapter, m0, m1, num, t);
    }
  }

  /** For every protocol, with PEC or without, over a clean line: the device and the caller's data end up as
      prescribed, with the prescribed status. An error of the adapter is returned, and nothing changes.
      With PEC a reply is refused exactly when the check does not accept what was heard, and then the
      caller's data are unchanged. */
  method XferEmulated(adapter: Adapter, addr: Word, pec: bool, read: bool, command: Byte, size: Size, data: SmbusData)
    returns (status: int)
    requires |data.block| == BLOCK_MAX + 2
    requires size == I2cBlockData && read ==> Val(data.block[0]) <= READ_MAX
    modifies adapter, data
    ensures Clean(adapter) ==>
              Result(status, adapter.dev, data.View())
              == Prescribed(old(adapter.dev), size, read, command, old(data.View()))
    ensures var p := PlanOf(size, read, command, old(data.View()));
            adapter.carried == old(adapter.carried)
              + if p.Fail? then []
                else [(addr, if pec && size != Quick && size != I2cBlockData then AddPecTo(addr, p.t) else p.t)]
    ensures PlanOf(size, read, command, old(data.View())).Go? && adapter.error < 0 ==>
              status == adapter.error && adapter.dev == old(adapter.dev) && data.View() == old(data.View())
    ensures PlanOf(size, read, command, old(data.View())).Go? && adapter.error >= 0 ==>
              var t := PlanOf(size, read, command, old(data.View())).t;
              && status == Verdict(old(adapter.dev), addr, t, pec && size != Quick && size != I2cBlockData,
                                   adapter.heard)
              && adapter.dev == Serve(old(adapter.dev), addr, t, false).dev
              && (status < 0 ==> data.View() == old(data.View()))
  {
    hide Serve, Prescribed, Stored, Verdict, HeardData, PlanOf, PecReady, Val, AddPecTo;
    ghost var d := data.View();
    PlanFails(size, read, command, d);
    var m0, m1, num;
    status, m0, m1, num := BuildMessages(addr, read, command, size, Data(data.byte, data.word, data.block));
    if status < 0 {
      RefusedPlan(adapter.dev, size, read, command, d);
      return;
    }
    ghost var dev, t := adapter.dev, PlanOf(size, read, command, d).t;
    BuiltPecReady(addr, read, command, size, d, m0, m1, num);
    var i := pec && size != Quick && size != I2cBlockData;
    CleanLine(dev, addr, t, i);
    VerdictZero(dev, addr, t, i, adapter.heard);
    hide Transferable, AsTransfer, Built;
    status := Transact(adapter, m0, m1, num, i, t);
    if status < 0 {
      if Clean(adapter) {
        RefusedTransfer(dev, addr, size, read, command, d, t);
      }
      return;
    }
    Deliver(m0.buf, m1.buf, read, command, size, data, dev, addr, i, adapter.heard);
    status := 0;
  }
}
