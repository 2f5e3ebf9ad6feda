/** Receiving by DMA in the CS89x0 Ethernet driver: the chip appends frames to a circular log, the driver
    takes them out one by one. */
module Cs89x0 {
  import opened Arith

  newtype Byte = x: int | 0 <= x < 256

  /** A little-endian 16-bit value. */
  function Word(lo: Byte, hi: Byte): nat {
    lo as nat + hi as nat * 256
  }

  /** A received frame as the chip logs it. */
  datatype Frame = Frame(status: nat, payload: seq<Byte>, pad: seq<Byte>)

  /** A frame the driver has taken out, and whether there was memory for it. */
  datatype Taken = Taken(frame: Frame, memory: bool)

  datatype Stats = Stats(packets: nat, bytes: nat, dropped: nat, errors: nat,
                         lengthErrors: nat, crcErrors: nat, frameErrors: nat)

  const NO_STATS := Stats(0, 0, 0, 0, 0, 0, 0)

  predicate Bit(status: nat, mask: nat)
    requires mask > 0
  {
    status / mask % 2 == 1
  }

  const RX_DRIBBLE := 0x0080
  const RX_OK := 0x0100
  const RX_CRC_ERROR := 0x1000
  const RX_RUNT := 0x2000
  const RX_EXTRA_DATA := 0x4000

  function Round4(n: nat): nat {
    (n + 3) / 4 * 4
  }

  predicate WellFormed(f: Frame) {
    f.status < 0x10000 && |f.payload| < 0x10000 && |f.pad| < 4 && (|f.payload| + |f.pad|) % 4 == 0
  }

  function Le16(w: nat): (s: seq<Byte>)
    requires w < 0x10000
    ensures |s| == 2 && Word(s[0], s[1]) == w
  {
    [(w % 256) as Byte, (w / 256) as Byte]
  }

  /** Status and length, little-endian, then the payload, padded to a multiple of four. */
  function Encode(f: Frame): (s: seq<Byte>)
    requires WellFormed(f)
    ensures |s| == 4 + Round4(|f.payload|)
  {
    Le16(f.status) + Le16(|f.payload|) + f.payload + f.pad
  }

  predicate AllWellFormed(fs: seq<Frame>) {
    forall i :: 0 <= i < |fs| ==> WellFormed(fs[i])
  }

  function Log(fs: seq<Frame>): seq<Byte>
    requires AllWellFormed(fs)
  {
    if fs == [] then [] else Encode(fs[0]) + Log(fs[1..])
  }

  lemma {:induction false} LogAppend(fs: seq<Frame>, f: Frame)
    requires AllWellFormed(fs) && WellFormed(f)
    ensures AllWellFormed(fs + [f]) && Log(fs + [f]) == Log(fs) + Encode(f)
  {
    if fs == [] {
      assert ([] + [f])[1..] == [];
    } else {
      assert (fs + [f])[1..] == fs[1..] + [f];
      LogAppend(fs[1..], f);
      assert Encode(fs[0]) + (Log(fs[1..]) + Encode(f)) == (Encode(fs[0]) + Log(fs[1..])) + Encode(f);
    }
  }

  /** A position up to one turn past the start of a ring of r bytes. */
  function Wrap(p: nat, r: nat): int {
    if p < r then p else p - r
  }

  /** The ring holds the log from p on. */
  ghost predicate Holds(ring: seq<Byte>, p: nat, log: seq<Byte>) {
    && p < |ring| && |log| <= |ring|
    && forall i :: 0 <= i < |log| ==> ring[Wrap(p + i, |ring|)] == log[i]
  }

  lemma HoldsRest(ring: seq<Byte>, p: nat, a: seq<Byte>, b: seq<Byte>)
    requires Holds(ring, p, a + b)
    ensures 0 <= Wrap(p + |a|, |ring|) < |ring|
    ensures Holds(ring, p, a) && Holds(ring, Wrap(p + |a|, |ring|), b)
    ensures Wrap(Wrap(p + |a|, |ring|) + |b|, |ring|) == Wrap(p + |a + b|, |ring|)
  {
    var log, q := a + b, Wrap(p + |a|, |ring|);
    forall i | 0 <= i < |a| ensures ring[Wrap(p + i, |ring|)] == a[i] {
      assert log[i] == a[i];
    }
    forall i | 0 <= i < |b| ensures ring[Wrap(q + i, |ring|)] == b[i] {
      assert log[|a| + i] == b[i];
      assert Wrap(q + i, |ring|) == Wrap(p + (|a| + i), |ring|);
    }
  }

  lemma HoldsPush(ring: seq<Byte>, p: nat, log: seq<Byte>, b: Byte)
    requires Holds(ring, p, log) && |log| < |ring|
    ensures 0 <= Wrap(p + |log|, |ring|) < |ring|
    ensures Holds(ring[Wrap(p + |log|, |ring|) := b], p, log + [b])
  {
    var ring', log' := ring[Wrap(p + |log|, |ring|) := b], log + [b];
    forall i | 0 <= i < |log'| ensures ring'[Wrap(p + i, |ring'|)] == log'[i] {
      if i < |log| {
        assert Wrap(p + i, |ring|) != Wrap(p + |log|, |ring|);
      }
    }
  }

  /** What dma_rx copies: up to the end of the ring, then from its start. */
  function Copy(ring: seq<Byte>, bp: nat, length: nat): seq<Byte>
    requires bp <= |ring| && length <= |ring|
  {
    if bp + length > |ring| then ring[bp..] + ring[..length - (|ring| - bp)] else ring[bp..bp + length]
  }

  /** The header of the frame at p, read back. */
  lemma HeaderBack(ring: seq<Byte>, p: nat, f: Frame)
    requires WellFormed(f) && Holds(ring, p, Encode(f)) && p % 4 == 0 && |ring| % 4 == 0
    ensures p + 4 <= |ring|
    ensures Word(ring[p], ring[p + 1]) == f.status == ring[p] as nat + 256 * ring[p + 1] as nat
    ensures Word(ring[p + 2], ring[p + 3]) == |f.payload| == ring[p + 2] as nat + 256 * ring[p + 3] as nat
  {
    hide Le16, Round4;
    var s := Encode(f);
    assert p + 4 <= |ring|;
    assert ring[Wrap(p + 0, |ring|)] == s[0] && ring[Wrap(p + 1, |ring|)] == s[1]
        && ring[Wrap(p + 2, |ring|)] == s[2] && ring[Wrap(p + 3, |ring|)] == s[3];
  }

  /** Its payload, read back. */
  lemma PayloadBack(ring: seq<Byte>, p: nat, f: Frame)
    requires WellFormed(f) && Holds(ring, p, Encode(f)) && p + 4 <= |ring|
    ensures |f.payload| <= |ring| && Copy(ring, p + 4, |f.payload|) == f.payload
  {
    hide Word, Le16;
    var s, n, d := Encode(f), |f.payload|, f.payload;
    assert n <= Round4(n) == |s| - 4;
    hide Round4;
    forall i | 0 <= i < n ensures s[4 + i] == d[i] {
    }
    hide Encode;
    var c := Copy(ring, p + 4, n);
    forall i | 0 <= i < n ensures c[i] == d[i] {
      assert ring[Wrap(p + (4 + i), |ring|)] == s[4 + i];
    }
    assert c == d;
  }

  lemma Aligned(p: nat, n: nat, r: nat)
    requires p % 4 == 0 && r % 4 == 0 && 0 <= Wrap(p + 4 + Round4(n), r)
    ensures Wrap(p + 4 + Round4(n), r) % 4 == 0
  {
  }

  function CountErrors(status: nat, st: Stats): Stats {
    var more := if Bit(status, RX_EXTRA_DATA) || Bit(status, RX_RUNT) then 0 else 1;
    st.(errors := st.errors + 1,
        lengthErrors := st.lengthErrors + (if Bit(status, RX_RUNT) then 1 else 0)
                        + (if Bit(status, RX_EXTRA_DATA) then 1 else 0),
        crcErrors := st.crcErrors + (if Bit(status, RX_CRC_ERROR) then more else 0),
        frameErrors := st.frameErrors + (if Bit(status, RX_DRIBBLE) then 1 else 0))
  }

  /** One error more, and its kinds: runt 0x2000, extra data 0x4000, CRC 0x1000 in a frame of the right
      length, dribble bits 0x80. */
  predicate OneError(status: nat, before: Stats, after: Stats) {
    && after.packets == before.packets && after.bytes == before.bytes && after.dropped == before.dropped
    && after.errors == before.errors + 1
    && after.lengthErrors == before.lengthErrors + status / 0x2000 % 2 + status / 0x4000 % 2
    && after.crcErrors == before.crcErrors
                          + (if status / 0x2000 % 2 + status / 0x4000 % 2 == 0 then status / 0x1000 % 2 else 0)
    && after.frameErrors == before.frameErrors + status / 0x80 % 2
  }

  /** A good frame there was memory for is delivered. */
  function Delivery(t: Taken): seq<seq<Byte>> {
    if Bit(t.frame.status, RX_OK) && t.memory then [t.frame.payload] else []
  }

  function Account(t: Taken, st: Stats): Stats {
    if !Bit(t.frame.status, RX_OK) then CountErrors(t.frame.status, st)
    else if !t.memory then st.(dropped := st.dropped + 1)
    else st.(packets := st.packets + 1, bytes := st.bytes + |t.frame.payload|)
  }

  lemma CountsOne(status: nat, st: Stats)
    ensures OneError(status, st, CountErrors(status, st))
  {
  }

  function Bytes(packets: seq<seq<Byte>>): nat {
    if packets == [] then 0 else Bytes(packets[..|packets| - 1]) + |packets[|packets| - 1]|
  }

  function Delivered(ts: seq<Taken>): seq<seq<Byte>> {
    if ts == [] then [] else Delivered(ts[..|ts| - 1]) + Delivery(ts[|ts| - 1])
  }

  function Tally(ts: seq<Taken>): Stats {
    if ts == [] then NO_STATS else Account(ts[|ts| - 1], Tally(ts[..|ts| - 1]))
  }

  lemma BytesAppend(packets: seq<seq<Byte>>, p: seq<Byte>)
    ensures Bytes(packets + [p]) == Bytes(packets) + |p|
  {
    assert (packets + [p])[..|packets|] == packets;
  }

  /** Every frame taken is counted once, as delivered, dropped or bad; the bytes are those delivered. */
  lemma {:induction false} EachCountedOnce(ts: seq<Taken>)
    ensures var st, ps := Tally(ts), Delivered(ts);
            && st.packets + st.dropped + st.errors == |ts| && st.packets == |ps| && st.bytes == Bytes(ps)
  {
    if ts != [] {
      var t, us := ts[|ts| - 1], ts[..|ts| - 1];
      EachCountedOnce(us);
      CountsOne(t.frame.status, Tally(us));
      hide CountErrors, Bit;
      if Delivery(t) == [] {
        assert Delivered(ts) == Delivered(us);
      } else {
        BytesAppend(Delivered(us), t.frame.payload);
      }
    }
  }

  /** The bytes that the taken frames occupied in the log. */
  function Consumed(ts: seq<Taken>): nat {
    if ts == [] then 0 else Consumed(ts[..|ts| - 1]) + 4 + Round4(|ts[|ts| - 1].frame.payload|)
  }

  function Frames(ts: seq<Taken>): seq<Frame> {
    seq(|ts|, i requires 0 <= i < |ts| => ts[i].frame)
  }

  /** Between two frames: what the chip transfers meanwhile, and whether there is memory for the next. */
  datatype Turn = Turn(arrivals: seq<Frame>, memory: bool)

  /** The log between the driver's pointer p and the chip's pointer q. */
  ghost predicate RingOk(ring: seq<Byte>, p: nat, q: nat, pending: seq<Frame>) {
    && |ring| % 4 == 0 && p < |ring| && p % 4 == 0
    && AllWellFormed(pending) && Holds(ring, p, Log(pending)) && q == Wrap(p + |Log(pending)|, |ring|)
  }

  /** The driver's results and its pointer are functions of the frames taken so far. */
  ghost predicate BooksOk(r: nat, p: nat, delivered: seq<seq<Byte>>, stats: Stats, taken: seq<Taken>) {
    r > 0 && delivered == Delivered(taken) && stats == Tally(taken) && p == Consumed(taken) % r
  }

  lemma EmptyOk(ring: seq<Byte>)
    requires ring != [] && |ring| % 4 == 0
    ensures RingOk(ring, 0, 0, []) && BooksOk(|ring|, 0, [], NO_STATS, [])
  {
    ModUnique(0, 0, 0, |ring|);
    hide Encode, Word, Le16, Round4;
    assert BooksOk(|ring|, 0, [], NO_STATS, []);
  }

  lemma TransferStarts(ring: seq<Byte>, p: nat, q: nat, pending: seq<Frame>)
    requires RingOk(ring, p, q, pending)
    ensures AllWellFormed(pending) && Holds(ring, p, Log(pending) + []) && q == Wrap(p + |Log(pending)|, |ring|)
    ensures p < |ring| && q < |ring|
  {
    assert Log(pending) + [] == Log(pending);
  }

  lemma TransferEnds(ring: seq<Byte>, p: nat, q: nat, pending: seq<Frame>, ring': seq<Byte>, q': nat, f: Frame)
    requires RingOk(ring, p, q, pending) && WellFormed(f) && |ring'| == |ring|
    requires Holds(ring', p, Log(pending) + Encode(f))
    requires q' == Wrap(p + |Log(pending)| + |Encode(f)|, |ring|)
    ensures RingOk(ring', p, q', pending + [f])
  {
    LogAppend(pending, f);
  }

  lemma FirstLogged(ring: seq<Byte>, p: nat, q: nat, pending: seq<Frame>)
    requires RingOk(ring, p, q, pending) && pending != []
    ensures WellFormed(pending[0]) && AllWellFormed(pending[1..])
    ensures Holds(ring, p, Encode(pending[0]) + Log(pending[1..]))
    ensures p % 4 == 0 && |ring| % 4 == 0
    ensures q == Wrap(p + |Encode(pending[0]) + Log(pending[1..])|, |ring|)
  {
    hide Holds, Encode, WellFormed;
  }

  lemma RestOk(ring: seq<Byte>, p: nat, q: nat, pending: seq<Frame>)
    requires RingOk(ring, p, q, pending) && pending != []
    ensures var n := |pending[0].payload|;
            && 4 + Round4(n) <= |ring| && 0 <= Wrap(p + 4 + Round4(n), |ring|)
            && RingOk(ring, Wrap(p + 4 + Round4(n), |ring|), q, pending[1..])
  {
    FirstLogged(ring, p, q, pending);
    var f, rest := pending[0], Log(pending[1..]);
    hide Encode, Log, WellFormed, AllWellFormed, Round4;
    HoldsRest(ring, p, Encode(f), rest);
    assert |Encode(f) + rest| <= |ring|;
    Aligned(p, |f.payload|, |ring|);
  }

  /** Taking the first frame: what the driver reads, and where it moves on to. */
  lemma TakeRing(ring: seq<Byte>, p: nat, q: nat, pending: seq<Frame>)
    requires RingOk(ring, p, q, pending) && pending != []
    ensures var f := pending[0]; var n := |f.payload|;
            && WellFormed(f) && 4 + Round4(n) <= |ring| && p + 4 <= |ring| && n <= |ring|
            && Word(ring[p], ring[p + 1]) == f.status && Word(ring[p + 2], ring[p + 3]) == n
            && Copy(ring, p + 4, n) == f.payload
            && 0 <= Wrap(p + 4 + Round4(n), |ring|)
            && RingOk(ring, Wrap(p + 4 + Round4(n), |ring|), q, pending[1..])
  {
    hide Holds, Encode, Log, WellFormed, AllWellFormed, Word, Copy, RingOk, Round4, Wrap;
    FirstLogged(ring, p, q, pending);
    var f, rest := pending[0], Log(pending[1..]);
    HoldsRest(ring, p, Encode(f), rest);
    HeaderBack(ring, p, f);
    PayloadBack(ring, p, f);
    Aligned(p, |f.payload|, |ring|);
    RestOk(ring, p, q, pending);
  }

  lemma TakeOne(ts: seq<Taken>, t: Taken, r: nat)
    requires r > 0 && 4 + Round4(|t.frame.payload|) <= r
    ensures var us := ts + [t];
            && Delivered(us) == Delivered(ts) + Delivery(t) && Tally(us) == Account(t, Tally(ts))
            && Consumed(us) % r == Wrap(Consumed(ts) % r + 4 + Round4(|t.frame.payload|), r)
  {
    assert (ts + [t])[..|ts|] == ts;
    ModAdd(Consumed(ts), 4 + Round4(|t.frame.payload|), r);
  }

  lemma TakeBooks(r: nat, p: nat, delivered: seq<seq<Byte>>, stats: Stats, taken: seq<Taken>, t: Taken)
    requires BooksOk(r, p, delivered, stats, taken) && 4 + Round4(|t.frame.payload|) <= r
    ensures 0 <= Wrap(p + 4 + Round4(|t.frame.payload|), r)
    ensures BooksOk(r, Wrap(p + 4 + Round4(|t.frame.payload|), r), delivered + Delivery(t), Account(t, stats),
                    taken + [t])
  {
    TakeOne(taken, t, r);
  }

  lemma RestWellFormed(fs: seq<Frame>)
    requires AllWellFormed(fs) && fs != []
    ensures AllWellFormed(fs[1..])
  {
  }

  lemma Whole(kilobytes: nat)
    ensures kilobytes * 1024 % 4 == 0
  {
  }

  lemma HoldsStart(ring: seq<Byte>, p: nat, log: seq<Byte>)
    requires Holds(ring, p, log)
    ensures p < |ring|
  {
  }

  lemma FramesAppend(ts: seq<Taken>, t: Taken)
    ensures Frames(ts + [t]) == Frames(ts) + [t.frame]
  {
  }

  class NetLocal {
    const ring: array<Byte>          // from dma_buff to end_dma_buff
    var rxDmaPtr: nat
    var stats: Stats
    var delivered: seq<seq<Byte>>    // handed to netif_rx
    var chipPtr: nat                 // where the chip writes next
    var dmaFrameCnt: nat             // frames transferred since the register was last read
    var pending: seq<Frame>          // what the chip has put into the log and the driver not taken out
    ghost var taken: seq<Taken>
    ghost var arrived: seq<Frame>

    ghost predicate Valid()
      reads this, ring
    {
      && RingOk(ring[..], rxDmaPtr, chipPtr, pending)
      && BooksOk(ring.Length, rxDmaPtr, delivered, stats, taken)
      && arrived == Frames(taken) + pending && dmaFrameCnt <= |pending|
    }

    constructor (dmasize: nat)
      requires dmasize > 0
      ensures Valid() && taken == [] && arrived == [] && dmaFrameCnt == 0 && fresh(ring)
      ensures ring.Length == dmasize * 1024
    {
      hide RingOk, BooksOk;
      ring := new Byte[dmasize * 1024](_ => 0);
      rxDmaPtr, stats, delivered, chipPtr, dmaFrameCnt := 0, NO_STATS, [], 0, 0;
      pending, taken, arrived := [], [], [];
      new;
      Whole(dmasize);
      EmptyOk(ring[..]);
    }

    method TransferBytes(bytes: seq<Byte>, ghost log: seq<Byte>)
      requires Holds(ring[..], rxDmaPtr, log) && |log| + |bytes| <= ring.Length
      requires chipPtr == Wrap(rxDmaPtr + |log|, ring.Length)
      modifies ring, this`chipPtr
      ensures Holds(ring[..], rxDmaPtr, log + bytes) && chipPtr == Wrap(rxDmaPtr + |log| + |bytes|, ring.Length)
    {
      hide Holds;
      assert rxDmaPtr < ring.Length by { HoldsStart(ring[..], rxDmaPtr, log); }
      assert log + bytes[..0] == log;
      for i := 0 to |bytes|
        invariant Holds(ring[..], rxDmaPtr, log + bytes[..i])
        invariant chipPtr == Wrap(rxDmaPtr + |log| + i, ring.Length)
      {
        HoldsPush(ring[..], rxDmaPtr, log + bytes[..i], bytes[i]);
        assert log + bytes[..i + 1] == log + bytes[..i] + [bytes[i]];
        ring[chipPtr] := bytes[i];
        chipPtr := Wrap(chipPtr + 1, ring.Length);
      }
      assert bytes[..|bytes|] == bytes;
    }

    /** The chip appends a frame to the log. */
    method Transfer(f: Frame)
      requires Valid() && WellFormed(f) && AllWellFormed(pending) && |Log(pending)| + |Encode(f)| <= ring.Length
      modifies ring, this`chipPtr, this`dmaFrameCnt, this`pending, this`arrived
      ensures Valid() && pending == old(pending) + [f] && arrived == old(arrived) + [f]
      ensures dmaFrameCnt == old(dmaFrameCnt) + 1
    {
      hide RingOk, BooksOk, Holds, Log, Encode, WellFormed, AllWellFormed, Frames, Wrap;
      ghost var ring0, q := ring[..], chipPtr;
      TransferStarts(ring0, rxDmaPtr, chipPtr, pending);
      assert Log(pending) + [] == Log(pending);
      TransferBytes(Encode(f), Log(pending));
      TransferEnds(ring0, rxDmaPtr, q, pending, ring[..], chipPtr, f);
      pending, arrived, dmaFrameCnt := pending + [f], arrived + [f], dmaFrameCnt + 1;
    }

    /** The two copies, or the one, into a new buffer. */
    method SkbPut(bp: nat, length: nat) returns (skb: seq<Byte>)
      requires bp <= ring.Length && length <= ring.Length
      ensures skb == Copy(ring[..], bp, length)
    {
      if bp + length > ring.Length {
        var semiCnt := ring.Length - bp;
        skb := ring[bp..bp + semiCnt] + ring[..length - semiCnt];
      } else {
        skb := ring[bp..bp + length];
      }
    }

    /** What becomes of the frame in the log, by its status and length. */
    method Judge(bp: nat, status: nat, length: nat, memory: bool, ghost t: Taken)
      requires bp <= ring.Length && length <= ring.Length && Copy(ring[..], bp, length) == t.frame.payload
      requires status == t.frame.status && length == |t.frame.payload| && memory == t.memory
      modifies this`stats, this`delivered
      ensures delivered == old(delivered) + Delivery(t) && stats == Account(t, old(stats))
      ensures status / 0x100 % 2 == 1 && memory ==>
                && delivered == old(delivered) + [t.frame.payload]
                && stats == old(stats).(packets := old(stats.packets) + 1, bytes := old(stats.bytes) + length)
      ensures status / 0x100 % 2 == 1 && !memory ==>
                delivered == old(delivered) && stats == old(stats).(dropped := old(stats.dropped) + 1)
      ensures status / 0x100 % 2 == 0 ==> delivered == old(delivered) && OneError(status, old(stats), stats)
    {
      hide Copy;
      CountsOne(status, stats);
      hide CountErrors;
      if !Bit(status, RX_OK) {
        stats := CountErrors(status, stats);
      } else if !memory {
        stats := stats.(dropped := stats.dropped + 1);
      } else {
        var skb := SkbPut(bp, length);
        delivered := delivered + [skb];
        stats := stats.(packets := stats.packets + 1, bytes := stats.bytes + length);
      }
    }

    /** dma_rx: one frame out of the log, delivered if it is good and there is memory for it. */
    method DmaRx(memory: bool)
      requires Valid() && pending != [] && dmaFrameCnt < |pending|
      modifies this`rxDmaPtr, this`stats, this`delivered, this`pending, this`taken
      ensures Valid() && pending == old(pending)[1..] && taken == old(taken) + [Taken(old(pending)[0], memory)]
    {
      hide RingOk, BooksOk, Word, Round4, Bit, WellFormed, Frames, CountErrors, Copy, Delivery, Account;
      ghost var t := Taken(pending[0], memory);
      FramesAppend(taken, t);
      TakeRing(ring[..], rxDmaPtr, chipPtr, pending);
      TakeBooks(ring.Length, rxDmaPtr, delivered, stats, taken, t);
      var bp := rxDmaPtr;
      var status := Word(ring[bp], ring[bp + 1]);
      var length := Word(ring[bp + 2], ring[bp + 3]);
      bp := bp + 4;
      Judge(bp, status, length, memory, t);
      bp := bp + Round4(length);
      if bp >= ring.Length {
        bp := bp - ring.Length;
      }
      rxDmaPtr := bp;
      pending, taken := pending[1..], taken + [t];
    }

    /** The chip transfers those frames that there is room for, and misses the others. */
    method TransferAll(fs: seq<Frame>)
      requires Valid() && AllWellFormed(fs) && AllWellFormed(pending)
      modifies ring, this`chipPtr, this`dmaFrameCnt, this`pending, this`arrived
      ensures Valid() && AllWellFormed(pending) && old(arrived) <= arrived && old(pending) <= pending
      ensures |pending| - dmaFrameCnt == old(|pending| - dmaFrameCnt)
    {
      hide RingOk, BooksOk, Log, Encode, WellFormed, Frames;
      for i := 0 to |fs|
        invariant Valid() && AllWellFormed(pending) && old(arrived) <= arrived && old(pending) <= pending
        invariant |pending| - dmaFrameCnt == old(|pending| - dmaFrameCnt)
      {
        if |Log(pending)| + |Encode(fs[i])| <= ring.Length {
          Transfer(fs[i]);
        }
      }
    }

    /** Reading PP_DmaFrameCnt clears it. */
    method ReadDmaFrameCnt() returns (count: nat)
      requires Valid()
      modifies this`dmaFrameCnt
      ensures Valid() && count == old(dmaFrameCnt) && dmaFrameCnt == 0
    {
      count := dmaFrameCnt;
      dmaFrameCnt := 0;
    }

    /** The RX_DMA loop of net_interrupt: when it ends, every frame that arrived has been taken out once, in
        order of arrival. */
    method RxDma(env: seq<Turn>)
      requires Valid() && AllWellFormed(pending) && dmaFrameCnt == |pending|
      requires forall i :: 0 <= i < |env| ==> AllWellFormed(env[i].arrivals)
      modifies this, ring
      ensures Valid() && pending == [] && dmaFrameCnt == 0
      ensures old(arrived) <= arrived == Frames(taken)
      ensures delivered == Delivered(taken) && stats == Tally(taken)
      ensures stats.packets + stats.dropped + stats.errors == |taken| && stats.packets == |delivered|
    {
      hide RingOk, AllWellFormed, Frames, Delivered, Tally, Consumed;
      var k: nat := 0;
      var count := ReadDmaFrameCnt();
      while count > 0
        invariant Valid() && AllWellFormed(pending) && count + dmaFrameCnt == |pending| && k <= |env|
        invariant old(arrived) <= arrived && (count == 0 ==> dmaFrameCnt == 0)
        decreases |env| - k, |pending|
      {
        var memory := true;
        if k < |env| {
          TransferAll(env[k].arrivals);
          memory := env[k].memory;
          k := k + 1;
        }
        RestWellFormed(pending);
        DmaRx(memory);
        count := count - 1;
        if count == 0 {
          count := ReadDmaFrameCnt();
        }
      }
      assert pending == [];
      EachCountedOnce(taken);
    }
  }
}
