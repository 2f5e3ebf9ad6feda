/** Laws that span several SMBus transactions, and the link to the controller that carries them. */
module SmbusLaws {
  import opened Gf2
  import opened Crc
  import opened I2cMessages
  import opened SmbusSlave
  import opened Wrappers
  import opened Smbus
  import M = I2cMaster
  import S = I2cScript
  import T = I2cTransfers

  /** A byte written to a register is read back, and nothing else of the caller changes. */
  lemma ByteRoundTrip(dev: Device, command: Byte, d: Data, d': Data)
    requires |d.block| == |d'.block| == BLOCK_MAX + 2
    ensures var w := Prescribed(dev, ByteData, false, command, d);
            Prescribed(w.dev, ByteData, true, command, d') == Result(0, w.dev, d'.(byte := d.byte))
  {
    assert Take([d.byte], 1)[0] == d.byte;
  }

  function Pow2(n: nat): nat {
    if n == 0 then 1 else 2 * Pow2(n - 1)
  }

  lemma DoubleProduct(x: nat, y: nat)
    ensures 2 * x * y == 2 * (x * y)
  {
  }

  lemma {:induction false} ValSplit(p: Poly, q: Poly, n: nat)
    requires |p| == n
    ensures Val(p + q) == Val(p) + Pow2(n) * Val(q)
  {
    if n == 0 {
      assert p + q == q;
    } else {
      assert (p + q)[1..] == p[1..] + q && (p + q)[0] == p[0];
      ValSplit(p[1..], q, n - 1);
      DoubleProduct(Pow2(n - 1), Val(q));
      assert Pow2(n) == 2 * Pow2(n - 1);
      hide Pow2;
      assert Val(p) == (if p[0] then 1 else 0) + 2 * Val(p[1..]);
      assert Val(p + q) == (if p[0] then 1 else 0) + 2 * Val(p[1..] + q);
    }
  }

  lemma Pow2Byte()
    ensures Pow2(8) == 256
  {
    assert Pow2(4) == 16;
  }

  lemma ValConcat(p: Poly, q: Poly)
    requires |p| == 8
    ensures Val(p + q) == Val(p) + 256 * Val(q)
  {
    Pow2Byte();
    hide Val, Pow2;
    ValSplit(p, q, 8);
  }

  lemma {:induction false} ValBelow(p: Poly, n: nat)
    requires |p| == n
    ensures Val(p) < Pow2(n)
  {
    if n > 0 {
      ValBelow(p[1..], n - 1);
    }
  }

  lemma ValBound(b: Byte)
    ensures Val(b) < 256
  {
    Pow2Byte();
    hide Val, Pow2;
    ValBelow(b, 8);
  }

  /** Words go over the bus low byte first, both ways: behind the command a word write and a process call send
      the word modulo 256 and then its quotient, and of a reply the first byte is the low one. */
  lemma WordsLowFirst(command: Byte, d: Data, reply: seq<Byte>)
    requires |d.block| == BLOCK_MAX + 2 && |reply| == 2
    ensures var p := PlanOf(WordData, false, command, d);
            && p.Go? && p.t.read.None? && p.t.write.Some? && |p.t.write.value| == 3 && p.t.write.value[0] == command
            && Val(p.t.write.value[1]) == Val(d.word) % 256 && Val(p.t.write.value[2]) == Val(d.word) / 256
            && PlanOf(ProcCall, false, command, d) == Go(Transfer(p.t.write, Some(ReadPart(2, false))))
    ensures Val(MakeWord(reply)) == Val(reply[0]) + 256 * Val(reply[1])
  {
    hide Val;
    var lo: Poly, hi: Poly := Low(d.word), High(d.word);
    assert lo + hi == d.word;
    ValConcat(lo, hi);
    ValBound(lo);
    ValConcat(reply[0], reply[1]);
  }

  /** What is not even tried: a written block of more than 32 bytes gives -EINVAL, an unknown protocol
      -EOPNOTSUPP, and nothing else is refused. */
  lemma RefusedCalls(size: Size, read: bool, command: Byte, d: Data)
    requires |d.block| == BLOCK_MAX + 2
    ensures var p := PlanOf(size, read, command, d);
            var block := size == BlockProcCall || (!read && (size == BlockData || size == I2cBlockData));
            p.Fail? <==> (block && Val(d.block[0]) > 32) || size == Unsupported
    ensures var p := PlanOf(size, read, command, d); p.Fail? ==> p.status == if size == Unsupported then -95 else -22
  {
    hide Val;
  }

  /** A word written to a register is read back unchanged, and nothing else of the caller changes. */
  lemma WordRoundTrip(dev: Device, command: Byte, d: Data, d': Data)
    requires |d.block| == |d'.block| == BLOCK_MAX + 2
    ensures var w := Prescribed(dev, WordData, false, command, d);
            Prescribed(w.dev, WordData, true, command, d') == Result(0, w.dev, d'.(word := d.word))
  {
    var lohi := [Low(d.word), High(d.word)];
    assert Take(lohi, 2) == lohi;
    assert MakeWord(lohi) == d.word;
  }

  /** A block of any legal length written to a register is read back with its count, and the rest of
      the caller's block is unchanged. */
  lemma BlockRoundTrip(dev: Device, command: Byte, d: Data, d': Data)
    requires |d.block| == |d'.block| == BLOCK_MAX + 2 && d.Count() <= BLOCK_MAX
    ensures var w := Prescribed(dev, BlockData, false, command, d);
            var r := Prescribed(w.dev, BlockData, true, command, d');
            && w.status == r.status == 0 && r.dev == w.dev && |r.data.block| == BLOCK_MAX + 2
            && r.data.block[..d.Count() + 1] == d.block[..d.Count() + 1]
            && r.data.block[d.Count() + 1..] == d'.block[d.Count() + 1..]
  {
    var p := d.block[..d.Count() + 1];
    var w := Prescribed(dev, BlockData, false, command, d);
    assert w.dev.Register(command) == p;
    assert Take(p, 1)[0] == p[0] == d.block[0];
    assert Take(p, d.Count() + 1) == p;
  }

  /** An I2C block write and a read of the same length are inverse, except at length 0, where the lone
      command byte is a Send Byte. */
  lemma I2cBlockRoundTrip(dev: Device, command: Byte, d: Data, d': Data)
    requires |d.block| == |d'.block| == BLOCK_MAX + 2 && d.Count() <= BLOCK_MAX && d'.block[0] == d.block[0]
    ensures var n := d.Count();
            var w := Prescribed(dev, I2cBlockData, false, command, d);
            var r := Prescribed(w.dev, I2cBlockData, true, command, d');
            && w.status == r.status == 0 && r.dev == w.dev && |r.data.block| == BLOCK_MAX + 2
            && r.data.block[..n + 1] == d.block[..n + 1]
            && r.data.block[n + 1..] == d'.block[n + 1..]
            && (n == 0 ==> w.dev.regs == dev.regs && w.dev.latch == command)
  {
    var n := d.Count();
    var p := d.block[1..n + 1];
    var w := Prescribed(dev, I2cBlockData, false, command, d);
    if n > 0 {
      assert w.dev.Register(command) == p;
    }
    assert Take(w.dev.Register(command), n) == p;
    assert [d'.block[0]] + p == d.block[..n + 1];
  }

  // ---------- carried by the S3C2410 controller ----------

  /** The messages of a transfer; a read buffer starts as zeros. */
  function Messages(addr: Word, t: Transfer): seq<M.Msg> {
    (match t.write
     case None => []
     case Some(p) => [M.Msg(addr, Flags(false, false, false, false, false), p)])
    + (match t.read
       case None => []
       case Some(r) => [M.Msg(addr, Flags(true, false, false, false, r.recvLen), Take([], r.len))])
  }

  /** The transfer that a transaction puts on the bus. */
  function BusTransfer(addr: Word, size: Size, read: bool, command: Byte, d: Data, pec: bool): Transfer
    requires |d.block| == BLOCK_MAX + 2 && PlanOf(size, read, command, d).Go?
  {
    var t := PlanOf(size, read, command, d).t;
    if pec && size != Quick && size != I2cBlockData then AddPecTo(addr, t) else t
  }

  /** PEC on the bus, for every protocol but Quick and I2C block: a lone write ends in the PEC of its address
      byte and its bytes, and a read asks for one byte more than without. Quick, I2C block and everything
      without PEC go out as they are. */
  lemma PecOnTheBus(addr: Word, size: Size, read: bool, command: Byte, d: Data, pec: bool)
    requires |d.block| == BLOCK_MAX + 2 && PlanOf(size, read, command, d).Go?
    ensures var t, b := PlanOf(size, read, command, d).t, BusTransfer(addr, size, read, command, d, pec);
            if !pec || size == Quick || size == I2cBlockData then b == t
            else if t.read.None? then
              && t.write.Some? && b.read.None?
              && b.write == Some(t.write.value + [Pec(ZERO, [AddressByte(addr, false)] + t.write.value)])
            else b == Transfer(t.write, Some(ReadPart(t.read.value.len + 1, t.read.value.recvLen)))
  {
    hide Pec;
  }

  /** START, address and the bytes written, a repeated START, address and the bytes read, and one STOP. */
  function TransferBus(addr: Word, t: Transfer, rx: seq<Byte>): seq<M.BusEvent> {
    (if t.write.Some? then [M.StartAddr(AddressByte(addr, false))] + T.Writes(t.write.value) else [])
    + (if t.read.Some? then [M.StartAddr(AddressByte(addr, true))] + T.Reads(rx, false) else [])
    + [M.StopBit]
  }

  lemma TrafficOf(addr: Word, t: Transfer, rx: seq<Byte>)
    requires t.write.Some? || t.read.Some?
    requires |rx| == if t.read.Some? then t.read.value.len else 0
    ensures T.Traffic(Messages(addr, t), 0, rx) == TransferBus(addr, t, rx)
  {
    hide T.Reads, T.Writes;
    var ms := Messages(addr, t);
    assert rx[..|rx|] == rx && rx[|rx|..] == [];
    assert T.Traffic(ms, |ms|, []) == [M.StopBit];
    if |ms| == 2 {
      T.TrafficStep(ms, 1, rx, []);
      T.TrafficStep(ms, 0, [], rx);
      assert rx + [] == rx && [] + rx == rx;
    }
  }

  lemma SupportedTransfer(addr: Word, t: Transfer)
    requires t.write.Some? || t.read.Some?
    ensures S.Supported(Messages(addr, t))
  {
  }

  lemma TransferLength(addr: Word, t: Transfer)
    ensures S.ReadLength(Messages(addr, t)) == if t.read.Some? then t.read.value.len else 0
  {
    var ms := Messages(addr, t);
    if |ms| == 2 {
      assert ms[1..] == [ms[1]] && [ms[1]][1..] == [];
      assert S.ReadLength(ms) == S.ReadLength([ms[1]]) == |ms[1].buf| + S.ReadLength([]);
    } else if |ms| == 1 {
      assert ms[1..] == [];
      assert S.ReadLength(ms) == (if ms[0].flags.rd then |ms[0].buf| else 0) + S.ReadLength([]);
    }
  }

  /** The list of a transfer is one the controller carries: it reads exactly the bytes that the read message
      has room for, whatever the slave sends. */
  lemma TransferTraffic(addr: Word, t: Transfer, irqs: seq<M.Irq>) returns (rx: seq<Byte>)
    requires t.write.Some? || t.read.Some?
    requires T.Unrefused(S.Script(Messages(addr, t), 0), irqs)
    ensures var ms := Messages(addr, t);
            && S.Supported(ms) && T.Carried(ms, irqs)
            && rx == T.Received(S.Script(ms, 0), irqs) && |rx| == (if t.read.Some? then t.read.value.len else 0)
            && M.Run(M.Begin(ms), irqs).idx == |ms|
            && M.Run(M.Begin(ms), irqs).bus == TransferBus(addr, t, rx)
  {
    hide Messages, S.Script, T.Received, M.Run, S.Supported, T.Traffic, TransferBus;
    var ms := Messages(addr, t);
    SupportedTransfer(addr, t);
    TransferLength(addr, t);
    T.AcknowledgedTransfer(ms, irqs);
    rx := T.Received(S.Script(ms, 0), irqs);
    TrafficOf(addr, t, rx);
  }

  /** The bytes that a protocol has the master read: with a count in front of the reply, that many more. */
  function Prescribes(size: Size, read: bool, command: Byte, d: Data, pec: bool, rx: seq<Byte>): nat
    requires |d.block| == BLOCK_MAX + 2 && PlanOf(size, read, command, d).Go?
  {
    var r := PlanOf(size, read, command, d).t.read;
    (if r.None? then 0 else r.value.len + if r.value.recvLen && rx != [] then Val(rx[0]) else 0)
    + if r.Some? && pec && size != Quick && size != I2cBlockData then 1 else 0
  }

  /** The reply of the protocol starts with its length. */
  predicate Counted(size: Size, read: bool) {
    (size == BlockData && read) || size == BlockProcCall
  }

  lemma PlanReads(addr: Word, size: Size, read: bool, command: Byte, d: Data, pec: bool)
    requires |d.block| == BLOCK_MAX + 2 && PlanOf(size, read, command, d).Go?
    ensures var t, b := PlanOf(size, read, command, d).t, BusTransfer(addr, size, read, command, d, pec);
            && (b.write.Some? || b.read.Some?) && (b.read.Some? <==> t.read.Some?)
            && (t.read.Some? ==>
                  b.read.value.len == t.read.value.len
                                       + if pec && size != Quick && size != I2cBlockData then 1 else 0)
            && (Counted(size, read) <==> t.read.Some? && t.read.value.recvLen)
            && (Counted(size, read) ==> t.read.value.len == 1)
  {
    hide Pec, WireOf;
  }

  /** Every emulated transaction is carried by the controller, with START, address and the bytes written, a
      repeated START, address and the bytes read, and one STOP. The bytes read are those of the protocol
      exactly when its reply does not start with a count, or with count 0: the controller does not look
      at I2C_M_RECV_LEN, and of a block read or block process call reads the count alone, and with PEC one
      more byte. */
  lemma EmulatedTraffic(addr: Word, size: Size, read: bool, command: Byte, d: Data, pec: bool, irqs: seq<M.Irq>)
    returns (rx: seq<Byte>)
    requires |d.block| == BLOCK_MAX + 2 && PlanOf(size, read, command, d).Go?
    requires T.Unrefused(S.Script(Messages(addr, BusTransfer(addr, size, read, command, d, pec)), 0), irqs)
    ensures var t := BusTransfer(addr, size, read, command, d, pec); var ms := Messages(addr, t);
            && S.Supported(ms) && rx == T.Received(S.Script(ms, 0), irqs)
            && M.Run(M.Begin(ms), irqs).idx == |ms| && M.Run(M.Begin(ms), irqs).bus == TransferBus(addr, t, rx)
    ensures var counted := Counted(size, read);
            && (counted ==> |rx| == if pec then 2 else 1)
            && (|rx| == Prescribes(size, read, command, d, pec, rx) <==> !counted || Val(rx[0]) == 0)
  {
    hide Messages, S.Script, T.Received, M.Run, S.Supported, TransferBus, T.Unrefused, T.Carried, Val;
    PlanReads(addr, size, read, command, d, pec);
    hide PlanOf, AddPecTo, BusTransfer;
    rx := TransferTraffic(addr, BusTransfer(addr, size, read, command, d, pec), irqs);
  }
}
