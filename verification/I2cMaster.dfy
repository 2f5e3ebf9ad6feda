/** The S3C2410 I2C master: one interrupt per byte, as a transition function on values, and the
    script of bus slots that a message list stands for. */
module I2cMaster {
  import opened Crc
  import opened Errno
  import opened I2cMessages

  /** A message with its contents: buf holds exactly len bytes. */
  datatype Msg = Msg(addr: Word, flags: Flags, buf: seq<Byte>)

  datatype State = Idle | Start | Read | Write | Stop

  /** What happens on the bus: START and an address byte, a byte each way, STOP. */
  datatype BusEvent = StartAddr(b: Byte) | Tx(b: Byte) | Rx(b: Byte, ack: bool) | StopBit

  /** struct s3c24xx_i2c; idx is both i2c->msg - msgs and msg_idx while a transfer runs, and the
      result once num is 0. fault stands for a NULL or out-of-bounds access of the handler. */
  datatype Master = Master(msgs: seq<Msg>, num: nat, idx: int, ptr: nat, state: State, ack: bool,
                           irq: bool, fault: bool, completions: nat, bus: seq<BusEvent>)
  {
    predicate Active() {
      0 <= idx < |msgs| && num == |msgs|
    }

    function Cur(): Msg
      requires Active()
    {
      msgs[idx]
    }

    /** Outside a transfer, faulted, or with the cursor on a message. */
    predicate Ok() {
      fault || state == Idle || state == Stop || Active()
    }

    predicate IsLastMsg() {
      idx >= num - 1
    }
  }

  /** One interrupt: LASTBIT of IICSTAT (no acknowledge) and the data register. */
  datatype Irq = Irq(nak: bool, ds: Byte)

  /** The byte behind a START: the address, and in the lowest bit the direction, inverted on request. */
  function AddressOf(addr: Word, flags: Flags): Byte {
    [flags.rd != flags.revDirAddr] + addr[..7]
  }

  /** The byte behind a START as a number: the direction bit is 1 for a read, or 0 with I2C_M_REV_DIR_ADDR. */
  lemma AddressOfMeans(addr: Word, flags: Flags)
    ensures var direction := if flags.revDirAddr then (if flags.rd then 0 else 1) else if flags.rd then 1 else 0;
            Val(AddressOf(addr, flags)) == 2 * Val(addr[..7]) + direction
  {
    assert AddressOf(addr, flags)[1..] == addr[..7];
  }

  function StartByte(m: Msg): Byte {
    AddressOf(m.addr, m.flags)
  }

  function Begin(ms: seq<Msg>): Master
    requires ms != []
  {
    Master(ms, |ms|, 0, 0, Start, true, true, false, 0, [StartAddr(StartByte(ms[0]))])
  }

  function StopTransfer(m: Master, ret: int): Master {
    m.(bus := m.bus + [StopBit], state := Stop, ptr := 0, num := 0, irq := false,
       idx := if ret != 0 then ret else m.idx + 1, completions := m.completions + 1)
  }

  function RetryWrite(m: Master): (r: Master)
    requires m.Active()
    ensures r.Ok()
    decreases m.num - m.idx
  {
    if m.ptr < |m.Cur().buf| then
      m.(bus := m.bus + [Tx(m.Cur().buf[m.ptr])], ptr := m.ptr + 1)
    else if !m.IsLastMsg() then
      var m' := m.(ptr := 0, idx := m.idx + 1);
      if m'.Cur().flags.noStart then
        if m'.Cur().flags.rd then StopTransfer(m', EINVAL).(fault := true) else RetryWrite(m')
      else
        m'.(bus := m.bus + [StartAddr(StartByte(m'.Cur()))], ack := true, state := Start)
    else
      StopTransfer(m, 0)
  }

  function PrepareRead(m: Master): (r: Master)
    requires m.Active()
    ensures r.Ok()
  {
    if m.ptr == |m.Cur().buf| - 1 then
      if m.IsLastMsg() then m.(ack := false) else m
    else if m.ptr >= |m.Cur().buf| then
      if m.IsLastMsg() then StopTransfer(m, 0) else m.(ptr := 0, idx := m.idx + 1)
    else
      m
  }

  function NextByte(m: Master, i: Irq): (r: Master)
    requires m.Ok()
    ensures r.Ok()
  {
    if m.fault then m else
    match m.state
    case Idle => m
    case Stop => m.(irq := false)
    case Start =>
      if i.nak && !m.Cur().flags.ignoreNak then
        StopTransfer(m, EREMOTEIO)
      else
        var m' := m.(state := if m.Cur().flags.rd then Read else Write);
        if m.IsLastMsg() && m.Cur().buf == [] then StopTransfer(m', 0)
        else if m'.state == Read then PrepareRead(m')
        else RetryWrite(m')
    case Write => RetryWrite(m)
    case Read =>
      var last := m.ptr == |m.Cur().buf| - 1 && m.IsLastMsg();
      if !m.Cur().flags.ignoreNak && !last && i.nak then
        StopTransfer(m, ECONNREFUSED)
      else if m.ptr >= |m.Cur().buf| then
        m.(fault := true)
      else
        var c := m.Cur().(buf := m.Cur().buf[m.ptr := i.ds]);
        PrepareRead(m.(msgs := m.msgs[m.idx := c], ptr := m.ptr + 1, bus := m.bus + [Rx(i.ds, m.ack)]))
  }

  function Run(m: Master, irqs: seq<Irq>): (r: Master)
    decreases |irqs|
    requires m.Ok()
    ensures r.Ok()
  {
    if irqs == [] then m else Run(NextByte(m, irqs[0]), irqs[1..])
  }
}
