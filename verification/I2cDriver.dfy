/** struct s3c24xx_i2c and its interrupt handler, updating the controller state and the caller's
    message buffers in place. Each method computes the transition function of I2cMaster. */
module I2cDriver {
  import opened Crc
  import opened Errno
  import opened I2cMessages
  import opened I2cMaster

  /** What the write state does behind the last byte of a message that is not the last. */
  lemma LeaveMessage(m: Master)
    requires m.Active() && m.ptr >= |m.Cur().buf| && !m.IsLastMsg()
    ensures var n, next := m.(ptr := 0, idx := m.idx + 1), m.msgs[m.idx + 1];
            && (next.flags.noStart && !next.flags.rd ==> RetryWrite(m) == RetryWrite(n))
            && (next.flags.noStart && next.flags.rd ==> RetryWrite(m) == StopTransfer(n, EINVAL).(fault := true))
            && (!next.flags.noStart ==>
                  RetryWrite(m) == n.(bus := m.bus + [StartAddr(StartByte(next))], ack := true, state := Start))
  {
  }

  class S3c24xxI2c {
    var msgs: seq<I2cMsg>   // the caller's message array
    var msg_num: nat
    var msg_idx: int        // also i2c->msg - msgs while a transfer runs
    var msg_ptr: nat
    var state: State
    var ackEnabled: bool    // S3C2410_IICCON_ACKEN
    var irqEnabled: bool    // S3C2410_IICCON_IRQEN
    var fault: bool         // a NULL or out-of-bounds access happened
    ghost var contents: seq<Msg>  // what the message objects hold
    ghost var completions: nat
    ghost var bus: seq<BusEvent>

    static ghost predicate Holds(m: I2cMsg, c: Msg)
      reads m, m.buf
    {
      && m.len <= m.buf.Length && m.addr == c.addr && m.flags == c.flags && m.buf[..m.len] == c.buf
    }

    /** Every message object holds its contents, in a buffer of its own. */
    static ghost predicate Represents(ms: seq<I2cMsg>, cs: seq<Msg>)
      reads ms, set m | m in ms :: m.buf
    {
      && |ms| == |cs|
      && (forall i :: 0 <= i < |ms| ==> Holds(ms[i], cs[i]))
      && (forall i, j :: 0 <= i < j < |ms| ==> ms[i].buf != ms[j].buf)
    }

    ghost function View(): Master
      reads this
    {
      Master(contents, msg_num, msg_idx, msg_ptr, state, ackEnabled, irqEnabled, fault, completions, bus)
    }

    ghost predicate Valid()
      reads this, msgs, set m | m in msgs :: m.buf
    {
      Represents(msgs, contents) && View().Ok()
    }

    constructor ()
      ensures state == Idle && msgs == [] && bus == [] && completions == 0 && !fault
      ensures Valid()
    {
      msgs, msg_num, msg_idx, msg_ptr := [], 0, 0, 0;
      state, ackEnabled, irqEnabled, fault := Idle, false, false, false;
      contents, completions, bus := [], 0, [];
    }

    /** s3c24xx_i2c_stop with s3c24xx_i2c_master_complete. */
    method Stop(ret: int)
      modifies this
      ensures View() == StopTransfer(old(View()), ret) && msgs == old(msgs) && contents == old(contents)
    {
      bus, state := bus + [StopBit], State.Stop;
      msg_ptr, msg_idx, msg_num := 0, if ret != 0 then ret else msg_idx + 1, 0;
      completions, irqEnabled := completions + 1, false;
    }

    /** The goto retry_write: pass over messages that are used up while the next one continues them
        without a START. */
    method RetryLoop()
      requires Valid() && View().Active()
      modifies this`msg_ptr, this`msg_idx
      ensures Valid() && View().Active() && RetryWrite(View()) == RetryWrite(old(View()))
      ensures msg_ptr >= msgs[msg_idx].len && msg_idx < msg_num - 1 && msgs[msg_idx + 1].flags.noStart
              ==> msgs[msg_idx + 1].flags.rd
    {
      hide RetryWrite;
      while msg_ptr >= msgs[msg_idx].len && !(msg_idx >= msg_num - 1)
            && msgs[msg_idx + 1].flags.noStart && !msgs[msg_idx + 1].flags.rd
        invariant View().Active() && RetryWrite(View()) == RetryWrite(old(View()))
        decreases msg_num - msg_idx
      {
        assert Holds(msgs[msg_idx], contents[msg_idx]) && Holds(msgs[msg_idx + 1], contents[msg_idx + 1]);
        LeaveMessage(View());
        msg_ptr := 0;
        msg_idx := msg_idx + 1;
      }
    }

    /** s3c24xx_i2c_message_start: the shifted address, with the direction in its lowest bit. */
    method SendStart(m: I2cMsg)
      modifies this`ackEnabled, this`bus
      ensures ackEnabled && bus == old(bus) + [StartAddr(AddressOf(m.addr, m.flags))]
    {
      var addr: Byte := [false] + m.addr[..7];
      if m.flags.rd {
        addr := addr[0 := true];
      }
      if m.flags.revDirAddr {
        addr := addr[0 := !addr[0]];
      }
      ackEnabled := true;
      bus := bus + [StartAddr(addr)];
      assert addr == AddressOf(m.addr, m.flags);
    }

    /** At the first byte of message m, which the controller cannot read without a START. */
    method EnterMessage(m: I2cMsg)
      requires View().Active() && m.flags == View().Cur().flags && m.addr == View().Cur().addr
      modifies this
      ensures msgs == old(msgs) && contents == old(contents)
      ensures View() == var o := old(View());
                        if o.Cur().flags.noStart then StopTransfer(o, EINVAL).(fault := true)
                        else o.(bus := o.bus + [StartAddr(StartByte(o.Cur()))], ack := true, state := Start)
    {
      hide AddressOf, StopTransfer;
      if m.flags.noStart {
        Stop(EINVAL);
        fault := true;
      } else {
        SendStart(m);
        state := Start;
      }
    }

    /** Advance to a message that needs a START, or cannot be continued without one. */
    method NextMessage()
      requires Valid() && View().Active() && msg_ptr >= msgs[msg_idx].len && msg_idx < msg_num - 1
      requires msgs[msg_idx + 1].flags.noStart ==> msgs[msg_idx + 1].flags.rd
      modifies this
      ensures View() == RetryWrite(old(View())) && msgs == old(msgs) && contents == old(contents)
    {
      assert Holds(msgs[msg_idx], contents[msg_idx]) && Holds(msgs[msg_idx + 1], contents[msg_idx + 1]);
      LeaveMessage(View());
      hide AddressOf, RetryWrite, StopTransfer, S3c24xxI2c.Represents, S3c24xxI2c.Holds;
      msg_ptr, msg_idx := 0, msg_idx + 1;
      EnterMessage(msgs[msg_idx]);
    }

    /** The write state. */
    method WriteByte()
      requires Valid() && View().Active()
      modifies this
      ensures View() == RetryWrite(old(View())) && msgs == old(msgs) && contents == old(contents)
    {
      RetryLoop();
      var m := msgs[msg_idx];
      assert Holds(m, contents[msg_idx]);
      if msg_ptr < m.len {
        assert m.buf[..m.len][msg_ptr] == m.buf[msg_ptr];
        bus := bus + [Tx(m.buf[msg_ptr])];
        msg_ptr := msg_ptr + 1;
      } else if msg_idx >= msg_num - 1 {
        Stop(0);
      } else {
        NextMessage();
      }
    }

    method PrepareReadByte()
      requires Valid() && View().Active()
      modifies this
      ensures View() == PrepareRead(old(View())) && msgs == old(msgs) && contents == old(contents)
    {
      var m := msgs[msg_idx];
      if msg_ptr == m.len - 1 {
        if msg_idx >= msg_num - 1 {
          ackEnabled := false;
        }
      } else if msg_ptr >= m.len {
        if msg_idx >= msg_num - 1 {
          Stop(0);
        } else {
          msg_ptr := 0;
          msg_idx := msg_idx + 1;
        }
      }
    }

    /** STATE_START: the address byte has been sent. */
    method IrqStart(i: Irq)
      requires Valid() && !fault && state == Start
      modifies this
      ensures View() == NextByte(old(View()), i) && msgs == old(msgs) && contents == old(contents)
    {
      var m := msgs[msg_idx];
      assert Holds(m, contents[msg_idx]);
      if i.nak && !m.flags.ignoreNak {
        Stop(EREMOTEIO);
        return;
      }
      state := if m.flags.rd then Read else Write;
      if msg_idx >= msg_num - 1 && m.len == 0 {
        Stop(0);
      } else if state == Read {
        PrepareReadByte();
      } else {
        WriteByte();
      }
    }

    /** A byte into the buffer of message k, which it shares with no other. */
    static method StoreAt(ms: seq<I2cMsg>, ghost cs: seq<Msg>, k: nat, p: nat, ds: Byte)
      requires Represents(ms, cs) && k < |ms| && p < ms[k].len
      modifies ms[k].buf
      ensures p < |cs[k].buf| && Represents(ms, cs[k := cs[k].(buf := cs[k].buf[p := ds])])
    {
      assert forall i :: 0 <= i < |ms| ==> Holds(ms[i], cs[i]);
      ghost var cs' := cs[k := cs[k].(buf := cs[k].buf[p := ds])];
      ms[k].buf[p] := ds;
      assert ms[k].buf[..ms[k].len] == cs'[k].buf;
      forall i | 0 <= i < |ms| ensures Holds(ms[i], cs'[i]) {
        if i != k {
          assert ms[i].buf != ms[k].buf;
        }
      }
    }

    method StoreByte(ds: Byte)
      requires Valid() && View().Active() && msg_ptr < msgs[msg_idx].len
      modifies this`contents, this`msg_ptr, this`bus, msgs[msg_idx].buf
      ensures Represents(msgs, contents)
      ensures var o := old(View()); var c := o.Cur();
              o.ptr < |c.buf| &&
              View() == o.(msgs := o.msgs[o.idx := c.(buf := c.buf[o.ptr := ds])], ptr := o.ptr + 1,
                           bus := o.bus + [Rx(ds, o.ack)])
    {
      StoreAt(msgs, contents, msg_idx, msg_ptr, ds);
      hide S3c24xxI2c.Represents;
      contents := contents[msg_idx := contents[msg_idx].(buf := contents[msg_idx].buf[msg_ptr := ds])];
      msg_ptr := msg_ptr + 1;
      bus := bus + [Rx(ds, ackEnabled)];
    }

    /** STATE_READ: a byte is in the data register. */
    method IrqRead(i: Irq)
      requires Valid() && !fault && state == Read
      modifies this, msgs[msg_idx].buf
      ensures msgs == old(msgs) && Represents(msgs, contents)
      ensures View() == NextByte(old(View()), i)
    {
      hide RetryWrite, PrepareRead;
      var m := msgs[msg_idx];
      assert Holds(m, contents[msg_idx]);
      if !m.flags.ignoreNak && !(msg_ptr == m.len - 1 && msg_idx >= msg_num - 1) && i.nak {
        Stop(ECONNREFUSED);
      } else if msg_ptr >= m.len {
        fault := true;
      } else {
        StoreByte(i.ds);
        PrepareReadByte();
      }
    }

    /** i2s_s3c_irq_nextbyte: nak is LASTBIT of IICSTAT, ds the data register. */
    method IrqNextByte(i: Irq)
      requires Valid()
      modifies this, set m | m in msgs :: m.buf
      ensures Valid() && msgs == old(msgs)
      ensures View() == NextByte(old(View()), i)
    {
      if fault {
        return;
      }
      match state
      case Idle =>
      case Stop => irqEnabled := false;
      case Start => IrqStart(i);
      case Write => WriteByte();
      case Read => IrqRead(i);
    }

    /** The cursors of a new transfer. */
    method Load(ms: seq<I2cMsg>, ghost cs: seq<Msg>)
      modifies this
      ensures msgs == ms && View() == Master(cs, |ms|, 0, 0, Start, old(ackEnabled), true, false, 0, old(bus))
    {
      msgs, msg_num, msg_ptr, msg_idx, state, irqEnabled := ms, |ms|, 0, 0, Start, true;
      contents, completions, fault := cs, 0, false;
    }

    method StartTransfer(ms: seq<I2cMsg>, ghost cs: seq<Msg>)
      requires ms != [] && Represents(ms, cs)
      modifies this
      ensures Valid() && msgs == ms && View() == Begin(cs)
    {
      assert ms[0].addr == cs[0].addr && ms[0].flags == cs[0].flags by { assert Holds(ms[0], cs[0]); }
      hide AddressOf, S3c24xxI2c.Holds, S3c24xxI2c.Represents;
      bus := [];
      SendStart(ms[0]);
      Load(ms, cs);
    }

    /** s3c24xx_i2c_doxfer on an idle bus: start, then serve the interrupts that arrive. The result is
        msg_idx once msg_num is 0; done is false when the interrupts stop first (the time-out). */
    method DoXfer(ms: seq<I2cMsg>, irqs: seq<Irq>, ghost cs: seq<Msg>) returns (done: bool, ret: int)
      requires ms != [] && Represents(ms, cs)
      modifies this, set m | m in ms :: m.buf
      ensures Valid() && msgs == ms && View() == Run(Begin(cs), irqs)
      ensures done == (msg_num == 0) && ret == msg_idx
    {
      StartTransfer(ms, cs);
      for k := 0 to |irqs|
        invariant Valid() && msgs == ms
        invariant Run(View(), irqs[k..]) == Run(Begin(cs), irqs)
      {
        assert irqs[k..][1..] == irqs[k + 1..];
        IrqNextByte(irqs[k]);
      }
      done, ret := msg_num == 0, msg_idx;
    }
  }
}
