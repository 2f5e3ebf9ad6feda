/** i2c_smbus_xfer_emulated: every SMBus protocol as I2C messages, with or without PEC. */
module Smbus {
  import opened Errno
  import opened Gf2
  import opened Crc
  import opened I2cMessages
  import opened SmbusSlave
  import opened Wrappers

  datatype Size =
    | Quick | SingleByte | ByteData | WordData | ProcCall
    | BlockData | BlockProcCall | I2cBlockData | Unsupported

  /** union i2c_smbus_data; no protocol reads one member after writing another. */
  datatype Data = Data(byte: Byte, word: Word, block: seq<Byte>)
  {
    /** block[0]. */
    function Count(): nat
      requires block != []
    {
      Val(block[0])
    }
  }

  class SmbusData {
    var byte: Byte
    var word: Word
    var block: seq<Byte>

    ghost function View(): Data
      reads this
    {
      Data(byte, word, block)
    }

    constructor (byte: Byte, word: Word, block: seq<Byte>)
      ensures View() == Data(byte, word, block)
    {
      this.byte, this.word, this.block := byte, word, block;
    }
  }

  datatype Result = Result(status: int, dev: Device, data: Data)

  /** The block d with p in front. */
  function Overlay(p: seq<Byte>, d: seq<Byte>): seq<Byte> {
    if |p| <= |d| then p + d[|p|..] else d
  }

  /** A block reply in which the first byte counts the others. */
  function ReadBlock(dev: Device, dev': Device, answer: seq<Byte>, d: Data): Result {
    var n := Val(Take(answer, 1)[0]);
    if n > BLOCK_MAX then Result(EPROTO, dev, d)
    else Result(0, dev', d.(block := Overlay(Take(answer, n + 1), d.block)))
  }

  function Low(w: Word): Byte { w[..8] }
  function High(w: Word): Byte { w[8..] }

  function MakeWord(p: seq<Byte>): Word
    requires |p| == 2
  {
    var lo: Poly, hi: Poly := p[0], p[1];
    lo + hi
  }

  /** The effect that System Management Bus Specification 2.0, section 5.5, prescribes for each protocol, on
      the device and on the caller's data. PEC does not occur in it. */
  function Prescribed(dev: Device, size: Size, read: bool, command: Byte, d: Data): Result
    requires |d.block| == BLOCK_MAX + 2
  {
    var lohi := [Low(d.word), High(d.word)];
    match size
    case Quick => Result(0, dev.(quick := read), d)
    case SingleByte => if read then Result(0, dev, d.(byte := dev.current)) else Result(0, dev.(latch := command), d)
    case ByteData =>
      if read then Result(0, dev, d.(byte := Take(dev.Register(command), 1)[0]))
      else Result(0, dev.(regs := dev.regs[command := [d.byte]]), d)
    case WordData =>
      if read then Result(0, dev, d.(word := MakeWord(Take(dev.Register(command), 2))))
      else Result(0, dev.(regs := dev.regs[command := lohi]), d)
    case ProcCall => Result(0, dev, d.(word := MakeWord(Take(dev.Call(command, lohi), 2))))
    case BlockData =>
      if read then ReadBlock(dev, dev, dev.Register(command), d)
      else if d.Count() > BLOCK_MAX then Result(EINVAL, dev, d)
      else Result(0, dev.(regs := dev.regs[command := d.block[..d.Count() + 1]]), d)
    case BlockProcCall =>
      if d.Count() > BLOCK_MAX then Result(EINVAL, dev, d)
      else ReadBlock(dev, dev, dev.Call(command, d.block[..d.Count() + 1]), d)
    case I2cBlockData =>
      if read then
        Result(0, dev, d.(block := Overlay([d.block[0]] + Take(dev.Register(command), d.Count()), d.block)))
      else if d.Count() > BLOCK_MAX then Result(EINVAL, dev, d)
      else if d.Count() == 0 then Result(0, dev.(latch := command), d)  // a lone command byte is Send Byte
      else Result(0, dev.(regs := dev.regs[command := d.block[1..d.Count() + 1]]), d)
    case Unsupported => Result(EOPNOTSUPP, dev, d)
  }

  // ---------- what goes over the bus ----------

  datatype Plan = Fail(status: int) | Go(t: Transfer)

  function Sends(p: seq<Byte>): Plan {
    Go(Transfer(Some(p), None))
  }

  function Fetches(p: seq<Byte>, len: nat, recvLen: bool): Plan {
    Go(Transfer(Some(p), Some(ReadPart(len, recvLen))))
  }

  /** The transfer of each protocol without PEC (System Management Bus Specification 2.0, section 5.5). */
  function PlanOf(size: Size, read: bool, command: Byte, d: Data): (p: Plan)
    requires |d.block| == BLOCK_MAX + 2
  {
    match size
    case Quick => if read then Go(Transfer(None, Some(ReadPart(0, false)))) else Sends([])
    case SingleByte => if read then Go(Transfer(None, Some(ReadPart(1, false)))) else Sends([command])
    case ByteData => if read then Fetches([command], 1, false) else Sends([command, d.byte])
    case WordData => if read then Fetches([command], 2, false) else Sends([command, Low(d.word), High(d.word)])
    case ProcCall => Fetches([command, Low(d.word), High(d.word)], 2, false)
    case BlockData =>
      if read then Fetches([command], 1, true)
      else if d.Count() > BLOCK_MAX then Fail(EINVAL)
      else Sends([command] + d.block[..d.Count() + 1])
    case BlockProcCall =>
      if d.Count() > BLOCK_MAX then Fail(EINVAL) else Fetches([command] + d.block[..d.Count() + 1], 1, true)
    case I2cBlockData =>
      if read then Fetches([command], d.Count(), false)
      else if d.Count() > BLOCK_MAX then Fail(EINVAL)
      else Sends([command] + d.block[1..d.Count() + 1])
    case Unsupported => Fail(EOPNOTSUPP)
  }

  /** The same transfer with PEC: a PEC byte behind a lone write, one more byte in a read. */
  function AddPecTo(addr: Word, t: Transfer): Transfer {
    match t
    case Transfer(Some(p), None) => Transfer(Some(p + [Pec(ZERO, WireOf(addr, Some(p)))]), None)
    case Transfer(w, Some(r)) => Transfer(w, Some(r.(len := r.len + 1)))
    case _ => t
  }

  /** The slave accepts a lone write with its PEC and acts as without. */
  lemma PecWrite(dev: Device, addr: Word, p: seq<Byte>)
    requires p != []
    ensures Serve(dev, addr, AddPecTo(addr, Transfer(Some(p), None)), true)
         == Serve(dev, addr, Transfer(Some(p), None), false)
  {
    var w := WireOf(addr, Some(p));
    var q := p + [Pec(ZERO, w)];
    assert WireOf(addr, Some(q)) == w + [Pec(ZERO, w)];
    assert WireOf(addr, Some(q))[..|w|] == w;
    assert q[..|q| - 1] == p;
  }

  /** The master accepts data with the PEC that the slave appended. */
  lemma PecReply(addr: Word, w: Option<seq<Byte>>, data: seq<Byte>)
    ensures Accepted(Pec(ZERO, WireOf(addr, w)), [AddressByte(addr, true)] + WithPec(addr, w, data, true))
  {
    var a := [AddressByte(addr, true)];
    var pec := Pec(ZERO, WireOf(addr, w) + a + data);
    PecConcat(ZERO, WireOf(addr, w), a + data);
    assert WireOf(addr, w) + (a + data) == WireOf(addr, w) + a + data;
    var all := a + (data + [pec]);
    assert all[..|all| - 1] == a + data;
  }

  /** PEC changes neither the effect of a read on the device nor the bytes before the PEC byte. */
  lemma PecRead(dev: Device, addr: Word, w: Option<seq<Byte>>, r: ReadPart)
    requires w.Some? ==> w.value != []
    requires r.len > 0 && (r.recvLen ==> w.Some?)
    ensures var plain := Serve(dev, addr, Transfer(w, Some(r)), false);
            var full := Serve(dev, addr, AddPecTo(addr, Transfer(w, Some(r))), true);
            && full.dev == plain.dev && full.status == plain.status
            && (full.status == 0 ==> full.bytes == WithPec(addr, w, plain.bytes, true))
  {
    hide Pec, WireOf, Val, Device.Answer;
  }
}
