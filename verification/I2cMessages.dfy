/** struct i2c_msg and the PEC byte at its end. */
module I2cMessages {
  import opened Gf2
  import opened Crc

  datatype Flags = Flags(rd: bool, noStart: bool, revDirAddr: bool, ignoreNak: bool, recvLen: bool)

  /** The u8 (addr << 1) | !!(flags & I2C_M_RD). */
  function AddressByte(addr: Word, rd: bool): Byte {
    [rd] + addr[..7]
  }

  /** The seven address bits above the direction bit, which is set for a read. */
  lemma AddressByteMeans(addr: Word, rd: bool)
    ensures Val(AddressByte(addr, rd)) == 2 * Val(addr[..7]) + if rd then 1 else 0
  {
    assert AddressByte(addr, rd)[1..] == addr[..7];
  }

  /** The last byte is the PEC of the others, continuing from the partial PEC c. */
  predicate Accepted(c: Byte, w: seq<Byte>)
    requires w != []
  {
    w[|w| - 1] == Pec(c, w[..|w| - 1])
  }

  /** struct i2c_msg: the first len bytes of buf are the message. */
  class I2cMsg {
    var addr: Word
    var flags: Flags
    var len: nat
    var buf: array<Byte>

    constructor (addr: Word, flags: Flags, len: nat, buf: array<Byte>)
      ensures this.addr == addr && this.flags == flags && this.len == len && this.buf == buf
    {
      this.addr, this.flags, this.len, this.buf := addr, flags, len, buf;
    }

    ghost predicate Valid()
      reads this
    {
      len <= buf.Length
    }

    /** The bytes of the message as the PEC covers them: the address byte, then the data. */
    ghost function Wire(): seq<Byte>
      requires Valid()
      reads this, buf
    {
      [AddressByte(addr, flags.rd)] + buf[..len]
    }

    /** i2c_smbus_msg_pec. */
    method MsgPec(pec: Byte) returns (r: Byte)
      requires Valid()
      ensures r == Pec(pec, Wire())
    {
      var a := new Byte[1](_ => ZERO);
      a[0] := AddressByte(addr, flags.rd);
      r := ComputePec(pec, a, 1);
      r := ComputePec(r, buf, len);
      assert a[..1] == [AddressByte(addr, flags.rd)];
      PecConcat(pec, a[..1], buf[..len]);
    }

    /** i2c_smbus_add_pec. */
    method AddPec()
      requires Valid() && len < buf.Length
      modifies this`len, buf
      ensures Valid() && len == old(len) + 1
      ensures Wire() == old(Wire()) + [Pec(ZERO, old(Wire()))]
      ensures forall k :: 0 <= k < buf.Length && k != old(len) ==> buf[k] == old(buf[k])
    {
      var pec := MsgPec(ZERO);
      buf[len] := pec;
      len := len + 1;
    }

    /** i2c_smbus_check_pec; true stands for 0 and false for -EBADMSG. */
    method CheckPec(cpec: Byte) returns (ok: bool)
      requires Valid() && len > 0
      modifies this`len
      ensures Valid() && len == old(len) - 1
      ensures old(Wire()) == Wire() + [buf[len]]
      ensures ok == Accepted(cpec, old(Wire()))
    {
      len := len - 1;
      var rpec := buf[len];
      var c := MsgPec(cpec);
      ok := rpec == c;
      assert old(Wire())[..|old(Wire())| - 1] == Wire();
    }
  }

  /** check_pec accepts what add_pec produced and gives back the original message. */
  method AddThenCheck(m: I2cMsg) returns (ok: bool)
    requires m.Valid() && m.len < m.buf.Length
    modifies m`len, m.buf
    ensures ok
    ensures m.Valid() && m.len == old(m.len) && m.Wire() == old(m.Wire())
  {
    m.AddPec();
    ok := m.CheckPec(ZERO);
    assert m.Wire() == old(m.Wire());
  }
}
