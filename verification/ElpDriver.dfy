/** elp_device: the driver's flags and its backlog ring. Each method computes a step of ElpProtocol. */
module ElpDriver {
  import opened ElpProtocol

  /** backlog_next. */
  function BacklogNext(n: nat): nat {
    (n + 1) % BACKLOG_SIZE
  }

  function Count(in_: nat, out_: nat): nat {
    (in_ - out_) % BACKLOG_SIZE
  }

  ghost function BacklogOf(length: seq<nat>, in_: nat, out_: nat): (r: seq<nat>)
    requires |length| == BACKLOG_SIZE
    ensures |r| == Count(in_, out_)
  {
    seq(Count(in_, out_), i requires 0 <= i < Count(in_, out_) => length[(out_ + i) % BACKLOG_SIZE])
  }

  lemma RingOut(length: seq<nat>, in_: nat, out_: nat)
    requires |length| == BACKLOG_SIZE && in_ < BACKLOG_SIZE && out_ < BACKLOG_SIZE
    ensures in_ == out_ <==> BacklogOf(length, in_, out_) == []
    ensures in_ != out_ ==> BacklogOf(length, in_, BacklogNext(out_)) == BacklogOf(length, in_, out_)[1..]
  {
    if in_ != out_ {
      var l, r := BacklogOf(length, in_, BacklogNext(out_)), BacklogOf(length, in_, out_)[1..];
      assert |l| == |r|;
      assert l == r;
    }
  }

  lemma RingIn(length: seq<nat>, in_: nat, out_: nat, n: nat)
    requires |length| == BACKLOG_SIZE && in_ < BACKLOG_SIZE && out_ < BACKLOG_SIZE
    ensures BacklogNext(in_) == out_ <==> |BacklogOf(length, in_, out_)| == BACKLOG_SIZE - 1
    ensures BacklogNext(in_) != out_ ==>
              BacklogOf(length[in_ := n], BacklogNext(in_), out_) == BacklogOf(length, in_, out_) + [n]
  {
    if BacklogNext(in_) != out_ {
      var l, r := BacklogOf(length[in_ := n], BacklogNext(in_), out_), BacklogOf(length, in_, out_) + [n];
      assert |l| == |r|;
      forall i | 0 <= i < |l| ensures l[i] == r[i] {}
    }
  }

  class Device {
    var busy: bool
    var dmaing: bool
    var dma: Dma                  // current_dma
    const length: array<nat>      // rx_backlog.length
    var in_: nat                  // rx_backlog.in
    var out_: nat                 // rx_backlog.out
    var delivered: seq<Packet>    // handed to netif_rx
    var sent: seq<Packet>
    ghost var card: seq<Packet>   // acknowledged packets in the adapter
    ghost var acked: seq<Packet>

    ghost predicate Valid()
      reads this
    {
      length.Length == BACKLOG_SIZE && in_ < BACKLOG_SIZE && out_ < BACKLOG_SIZE
    }

    /** The lengths in the ring, oldest first. */
    ghost function Backlog(): (r: seq<nat>)
      requires Valid()
      reads this, length
    {
      BacklogOf(length[..], in_, out_)
    }

    ghost function View(): Elp
      requires Valid()
      reads this, length
    {
      Elp(busy, dmaing, dma, Backlog(), card, acked, delivered, sent)
    }

    constructor ()
      ensures Valid() && View() == INITIAL
    {
      busy, dmaing, dma, in_, out_, delivered, sent, card, acked := false, false, NoDma, 0, 0, [], [], [], [];
      length := new nat[BACKLOG_SIZE](_ => 0);
    }

    /** send_packet. */
    method SendPacket(q: Packet, pcbOk: bool) returns (ok: bool)
      requires Valid()
      modifies this`busy, this`dmaing, this`dma
      ensures Valid() && View() == Step(old(View()), Event.SendPacket(q, pcbOk))
      ensures ok == (!old(busy) && pcbOk)
    {
      if busy {
        return false;
      }
      busy := true;
      if !pcbOk {
        busy := false;
        return false;
      }
      dmaing := true;
      dma := Download(q);
      return true;
    }

    /** receive_packet: first is the packet that the adapter uploads. */
    method ReceivePacket(skb: bool, first: Packet)
      requires Valid() && card != [] && first == card[0]
      modifies this`dmaing, this`dma, this`card
      ensures Valid() && View() == StartUpload(old(View()), skb)
    {
      if !skb {
        return;
      }
      dmaing := true;
      dma := Upload(first);
      card := card[1..];
    }

    /** The DONE branch of elp_interrupt; next is the adapter's oldest packet, if it holds one. */
    method DmaDone(skb: bool, next: Packet)
      requires Valid() && dmaing && Invariant(View()) && (card != [] ==> next == card[0])
      modifies this
      ensures Valid() && View() == Step(old(View()), Event.DmaDone(skb))
    {
      RingOut(length[..], in_, out_);
      if dma.Upload? {
        delivered := delivered + [dma.p];
      } else {
        sent := sent + [dma.p];
      }
      dmaing, dma := false, NoDma;
      if in_ != out_ {
        out_ := BacklogNext(out_);
        ReceivePacket(skb, next);
      } else {
        busy := false;
      }
    }

    /** receive_pcb for CMD_RECEIVE_PACKET_COMPLETE and its case in elp_interrupt. */
    method ReceivePcb(p: Packet, error: bool, skb: bool) returns (ack: bool)
      requires Valid() && Invariant(View())
      modifies this, length
      ensures Valid() && View() == Step(old(View()), Event.ReceivePcb(p, error, skb))
      ensures ack == !(old(busy) && |old(Backlog())| >= 3)
    {
      RingIn(length[..], in_, out_, p.len);
      var backlogged := busy;
      if busy {
        if BacklogNext(in_) == out_ {
          return false;
        }
      }
      busy := true;
      ack := true;
      if !error {
        acked, card := acked + [p], card + [p];
        if backlogged {
          length[in_] := p.len;
          in_ := BacklogNext(in_);
        } else {
          ReceivePacket(skb, p);
        }
      }
    }
  }
}
