/** What the emulation does with replies that the line has changed. */
module SmbusNoise {
  import opened Errno
  import opened Gf2
  import opened Crc
  import opened I2cMessages
  import opened PecDetection
  import opened SmbusSlave
  import opened Wrappers
  import opened Smbus
  import opened SmbusXfer

  /** The reply as the PEC covers it, sent and heard: the address byte in front. */
  function Sent(dev: Device, addr: Word, t: Transfer): seq<Byte>
    requires t.read.Some?
  {
    [AddressByte(addr, true)] + WithPec(addr, t.write, Serve(dev, addr, t, false).bytes, true)
  }

  function Heard(dev: Device, addr: Word, t: Transfer, heard: Option<seq<Byte>>): seq<Byte>
    requires t.read.Some?
  {
    [AddressByte(addr, true)] + HeardReply(dev, addr, t, true, heard)
  }

  lemma SentAccepted(dev: Device, addr: Word, t: Transfer)
    requires t.read.Some?
    ensures Accepted(Pec(ZERO, WireOf(addr, t.write)), Sent(dev, addr, t))
  {
    PecReply(addr, t.write, Serve(dev, addr, t, false).bytes);
  }

  /** A reply with PEC is refused exactly when its last byte is not the PEC of the others, and if it has kept
      its length exactly when the error is no multiple of the generator. */
  lemma RefusedIffNoMultiple(dev: Device, addr: Word, t: Transfer, heard: Option<seq<Byte>>)
    requires t.read.Some? && Serve(dev, addr, t, false).status == 0
    ensures Verdict(dev, addr, t, true, heard) == EBADMSG
       <==> !Accepted(Pec(ZERO, WireOf(addr, t.write)), Heard(dev, addr, t, heard))
    ensures |Sent(dev, addr, t)| == |Heard(dev, addr, t, heard)| ==>
              (Verdict(dev, addr, t, true, heard) == EBADMSG
               <==> !IsRemainder(ErrorPoly(Sent(dev, addr, t), Heard(dev, addr, t, heard)), ZERO))
  {
    hide Serve, WithPec, Pec, WireOf, Accepted, IsRemainder, ErrorPoly;
    SentAccepted(dev, addr, t);
    if |Sent(dev, addr, t)| == |Heard(dev, addr, t, heard)| {
      UndetectedIffMultiple(Pec(ZERO, WireOf(addr, t.write)), Sent(dev, addr, t), Heard(dev, addr, t, heard));
    }
  }

  /** The corruptions that are always noticed: one byte, a burst of eight bits, an odd number of bits. */
  ghost predicate OneByte(u: seq<Byte>, v: seq<Byte>, m: nat)
    requires |u| == |v|
  {
    m < |u| && u[m] != v[m] && forall k :: 0 <= k < |u| && k != m ==> u[k] == v[k]
  }

  ghost predicate Burst(u: seq<Byte>, v: seq<Byte>, lo: nat)
    requires |u| == |v|
  {
    Poly8(u) != Poly8(v) && forall i: int :: Coef(Poly8(u), i) != Coef(Poly8(v), i) ==> lo <= i < lo + 8
  }

  ghost predicate OddBits(u: seq<Byte>, v: seq<Byte>)
    requires |u| == |v|
  {
    Hamming(Poly8(u), Poly8(v)) % 2 == 1
  }

  lemma CorruptIsRefused(dev: Device, addr: Word, t: Transfer, heard: Option<seq<Byte>>, m: nat)
    requires t.read.Some? && Serve(dev, addr, t, false).status == 0
    requires var u, v := Sent(dev, addr, t), Heard(dev, addr, t, heard);
             |u| == |v| && (OneByte(u, v, m) || Burst(u, v, m) || OddBits(u, v))
    ensures Verdict(dev, addr, t, true, heard) == EBADMSG
  {
    hide Serve, Pec, WireOf, WithPec, Accepted, Poly8, Hamming;
    var u, v, c := Sent(dev, addr, t), Heard(dev, addr, t, heard), Pec(ZERO, WireOf(addr, t.write));
    SentAccepted(dev, addr, t);
    if OneByte(u, v, m) {
      OneByteDetected(c, u, v, m);
    } else if Burst(u, v, m) {
      BurstDetected(c, u, v, m);
    } else {
      OddBitsDetected(c, u, v);
    }
  }

  /** A reply corrupted in one byte, in one burst or in an odd number of bits: XferEmulated returns -EBADMSG,
      and the caller's data are unchanged. */
  method CorruptReply(adapter: Adapter, addr: Word, read: bool, command: Byte, size: Size, data: SmbusData, m: nat)
    returns (status: int)
    requires |data.block| == BLOCK_MAX + 2 && size != Quick && size != I2cBlockData && adapter.error >= 0
    requires PlanOf(size, read, command, data.View()).Go?
    requires var t := PlanOf(size, read, command, data.View()).t;
             && t.read.Some? && Serve(adapter.dev, addr, t, false).status == 0
             && var u, v := Sent(adapter.dev, addr, t), Heard(adapter.dev, addr, t, adapter.heard);
                |u| == |v| && (OneByte(u, v, m) || Burst(u, v, m) || OddBits(u, v))
    modifies adapter, data
    ensures status == EBADMSG && data.View() == old(data.View())
    ensures adapter.dev
         == Serve(old(adapter.dev), addr, PlanOf(size, read, command, old(data.View())).t, false).dev
  {
    hide Serve, Sent, Heard, PlanOf, Prescribed, Verdict;
    ghost var t := PlanOf(size, read, command, data.View()).t;
    CorruptIsRefused(adapter.dev, addr, t, adapter.heard, m);
    status := XferEmulated(adapter, addr, true, read, command, size, data);
  }
}
