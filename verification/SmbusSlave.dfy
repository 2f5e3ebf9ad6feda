/** The SMBus protocols of System Management Bus Specification 2.0, section 5.5, seen from a slave
    device, and the adapter that carries messages to it. */
module SmbusSlave {
  import opened Errno
  import opened Wrappers
  import opened Gf2
  import opened Crc
  import opened I2cMessages

  const BLOCK_MAX: nat := 32

  /** A register-file device: each command code holds a byte string (one byte, a word low byte first,
      or a block with its count in front); process calls are answered from a table. */
  datatype Device = Device(quick: bool, latch: Byte, current: Byte,
                           regs: map<Byte, seq<Byte>>, answers: map<(Byte, seq<Byte>), seq<Byte>>)
  {
    function Register(command: Byte): seq<Byte> {
      if command in regs then regs[command] else []
    }

    function Call(command: Byte, p: seq<Byte>): seq<Byte> {
      if (command, p) in answers then answers[(command, p)] else []
    }

    /** A write of p: a lone byte is Send Byte, otherwise the first byte selects the register. */
    function Write(p: seq<Byte>): Device
      requires p != []
    {
      if |p| == 1 then this.(latch := p[0]) else this.(regs := regs[p[0] := p[1..]])
    }

    /** What a read after a write of p returns. */
    function Answer(p: seq<Byte>): seq<Byte>
      requires p != []
    {
      if |p| == 1 then Register(p[0]) else Call(p[0], p[1..])
    }
  }

  /** The first n bytes; a device with fewer sends zeros. */
  function Take(p: seq<Byte>, n: nat): (r: seq<Byte>)
    ensures |r| == n
  {
    seq(n, i => if 0 <= i < |p| then p[i] else ZERO)
  }

  /** The byte to read in a transfer: its length, or with recvLen the length on top of the count byte. */
  datatype ReadPart = ReadPart(len: nat, recvLen: bool)

  /** A transfer: an optional write followed by an optional read. */
  datatype Transfer = Transfer(write: Option<seq<Byte>>, read: Option<ReadPart>)

  datatype Reply = Reply(dev: Device, status: int, bytes: seq<Byte>)

  function WireOf(addr: Word, w: Option<seq<Byte>>): seq<Byte> {
    match w
    case None => []
    case Some(p) => [AddressByte(addr, false)] + p
  }

  function WithPec(addr: Word, w: Option<seq<Byte>>, data: seq<Byte>, pec: bool): (r: seq<Byte>)
    ensures |r| == |data| + if pec then 1 else 0
  {
    if pec then data + [Pec(ZERO, WireOf(addr, w) + [AddressByte(addr, true)] + data)] else data
  }

  /** What the device does with a transfer, and the bytes it sends back. With PEC it checks the byte
      at the end of a lone write and appends one to every read. */
  function Serve(dev: Device, addr: Word, t: Transfer, pec: bool): (r: Reply)
    ensures r.status <= 0
    ensures r.status == 0 && t.read.Some? ==>
              t.read.value.len <= |r.bytes| <= t.read.value.len + if t.read.value.recvLen then BLOCK_MAX else 0
    ensures r.status == 0 && t.read.Some? && !t.read.value.recvLen ==> |r.bytes| == t.read.value.len
  {
    match t
    case Transfer(Some(p), None) =>
      if p == [] then Reply(dev.(quick := false), 0, [])
      else if !pec then Reply(dev.Write(p), 0, [])
      else if |p| > 1 && Accepted(ZERO, WireOf(addr, Some(p))) then Reply(dev.Write(p[..|p| - 1]), 0, [])
      else Reply(dev, EREMOTEIO, [])
    case Transfer(None, Some(r)) =>
      if r.len == 0 then
        if r.recvLen then Reply(dev, EPROTO, []) else Reply(dev.(quick := true), 0, [])
      else if r.recvLen then Reply(dev, EPROTO, [])
      else Reply(dev, 0, WithPec(addr, None, Take([dev.current], if pec then r.len - 1 else r.len), pec))
    case Transfer(Some(p), Some(r)) =>
      if p == [] || (pec && r.len == 0) then Reply(dev, EREMOTEIO, [])
      else
        var a := dev.Answer(p);
        var count := if r.recvLen then Val(Take(a, 1)[0]) else 0;
        if count > BLOCK_MAX then Reply(dev, EPROTO, [])
        else Reply(dev, 0, WithPec(addr, Some(p), Take(a, count + if pec then r.len - 1 else r.len), pec))
    case Transfer(None, None) => Reply(dev, 0, [])
  }

  /** The last of num messages. */
  function LastMsg(m0: I2cMsg, m1: I2cMsg, num: nat): I2cMsg {
    if num == 2 then m1 else m0
  }

  /** What i2c_transfer may be given: one message, or a write followed by a read, for one address. */
  ghost predicate Transferable(m0: I2cMsg, m1: I2cMsg, num: nat)
    reads m0, m1
  {
    && m0.Valid() && (num == 1 || num == 2)
    && (num == 2 ==> m1.Valid() && !m0.flags.rd && m1.flags.rd && m1.addr == m0.addr)
    && var l := LastMsg(m0, m1, num);
       l.flags.rd && l.flags.recvLen ==> l.len + BLOCK_MAX <= l.buf.Length
  }

  /** The transfer that the messages ask for. */
  ghost function AsTransfer(m0: I2cMsg, m1: I2cMsg, num: nat): Transfer
    requires Transferable(m0, m1, num)
    reads m0, m1, m0.buf
  {
    var l := LastMsg(m0, m1, num);
    Transfer(if m0.flags.rd then None else Some(m0.buf[..m0.len]),
             if l.flags.rd then Some(ReadPart(l.len, l.flags.recvLen)) else None)
  }

  /** What the master hears of a reply to a read: the line may change any bytes of it. If it changes the count
      in front of a block, the adapter, which knows by it how much to read, reads that many bytes. (It refuses a
      count above the limit, which is an error of its own.) */
  function Hear(heard: Option<seq<Byte>>, sent: seq<Byte>, r: ReadPart): (h: seq<Byte>)
    ensures h == sent || r.len <= |h| <= r.len + if r.recvLen then BLOCK_MAX else 0
    ensures h == sent || !r.recvLen || (h != [] && Val(h[0]) <= BLOCK_MAX)
  {
    match heard
    case None => sent
    case Some(b) =>
      var n := if r.recvLen && b != [] then Val(b[0]) else 0;
      if (r.recvLen ==> b != [] && n <= BLOCK_MAX) && |b| == r.len + n then b else sent
  }

  /** An adapter with one device on its bus. error is its own error code, if that is negative; carried are the
      transfers that it was given. */
  class Adapter {
    var dev: Device
    var carried: seq<(Word, Transfer)>
    const error: int
    const heard: Option<seq<Byte>>

    constructor (dev: Device, error: int, heard: Option<seq<Byte>>)
      ensures this.dev == dev && this.error == error && this.heard == heard && carried == []
    {
      this.dev, this.error, this.heard, carried := dev, error, heard, [];
    }

    /** i2c_transfer: carry the messages to the device, and put what is heard of its bytes into the read
        message, or fail. */
    method I2cTransfer(m0: I2cMsg, m1: I2cMsg, num: nat, pec: bool) returns (status: int)
      requires Transferable(m0, m1, num)
      modifies this`dev, this`carried, LastMsg(m0, m1, num)`len, LastMsg(m0, m1, num).buf
      ensures LastMsg(m0, m1, num).Valid()
      ensures carried == old(carried) + [(m0.addr, old(AsTransfer(m0, m1, num)))]
      ensures error < 0 ==> status == error && dev == old(dev)
      ensures error >= 0 ==>
                var r := Serve(old(dev), m0.addr, old(AsTransfer(m0, m1, num)), pec);
                var l := LastMsg(m0, m1, num);
                && status == r.status && dev == r.dev
                && (status == 0 && l.flags.rd ==>
                      l.buf[..l.len] == Hear(heard, r.bytes, ReadPart(old(l.len), l.flags.recvLen)))
    {
      var l := LastMsg(m0, m1, num);
      var t := Transfer(if m0.flags.rd then None else Some(m0.buf[..m0.len]),
                        if l.flags.rd then Some(ReadPart(l.len, l.flags.recvLen)) else None);
      carried := carried + [(m0.addr, t)];
      if error < 0 {
        return error;
      }
      var r := Serve(dev, m0.addr, t, pec);
      dev, status := r.dev, r.status;
      if status == 0 && l.flags.rd {
        var h := Hear(heard, r.bytes, ReadPart(l.len, l.flags.recvLen));
        l.len := |h|;
        forall k | 0 <= k < |h| {
          l.buf[k] := h[k];
        }
        assert l.buf[..l.len] == h;
      }
    }
  }
}
