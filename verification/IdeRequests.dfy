/** Whole requests of the older IDE disk driver: the interrupt handlers, the run of a write, the run
    of a read, and what a read returns of an earlier write. */
module IdeRequests {
  import opened Arith
  import opened IdeTransfer
  import opened Sequences

  datatype StartStop = Started | Stopped | Error

  /** Sizes of the bursts of n sectors, at most m each. */
  function Bursts(n: nat, m: nat): (r: seq<nat>)
    requires m > 0
  {
    if n == 0 then [] else [Min(m, n)] + Bursts(n - Min(m, n), m)
  }

  function Sum(s: seq<nat>): nat {
    if s == [] then 0 else s[0] + Sum(s[1..])
  }

  /** The bursts cover every sector once, and all but the last are full. */
  lemma {:induction false} BurstsCover(n: nat, m: nat)
    requires m > 0
    ensures Sum(Bursts(n, m)) == n
    ensures forall i :: 0 <= i < |Bursts(n, m)| ==> 0 < Bursts(n, m)[i] <= m
    ensures forall i :: 0 <= i < |Bursts(n, m)| - 1 ==> Bursts(n, m)[i] == m
  {
    if n > 0 {
      BurstsCover(n - Min(m, n), m);
      var b := Bursts(n, m);
      assert b[1..] == Bursts(n - Min(m, n), m);
    }
  }

  // ---------- writing ----------

  /** multwrite_intr: ok is the status test, drq DRQ_STAT; wrq is the scratch copy of rq. */
  method MultWriteIntr(drive: Drive, wrq: Request, rq: Request, mem: array<Word16>, ok: bool, drq: bool)
    returns (r: StartStop)
    requires wrq.Valid(mem.Length) && rq.Valid(mem.Length) && wrq != rq && drive.mult_count > 0
    modifies wrq, rq, drive, mem
    ensures wrq.Valid(mem.Length) && rq.Valid(mem.Length) && mem[..] == old(mem[..])
    ensures r == Error <==> !ok
    ensures var n := if ok && drq then Min(drive.mult_count, old(wrq.nr_sectors)) else 0;
            && wrq.nr_sectors == old(wrq.nr_sectors) - n
            && drive.bursts == old(drive.bursts) + (if n > 0 then [n] else [])
            && (r == Started <==> n > 0)
            && 0 <= old(wrq.Done()) <= wrq.Done() <= Total(wrq.chain)
            && drive.output == old(drive.output)
               + Sectors(drive.bswap, mem[..], wrq.chain, old(wrq.Done()), wrq.Done())
    ensures rq.nr_sectors == if ok && !drq && old(wrq.nr_sectors) == 0 then 0 else old(rq.nr_sectors)
  {
    hide Sectors, Request.Valid, Total, ValidChain;
    wrq.CursorBounds(mem.Length);
    rq.CursorBounds(mem.Length);
    NoSectors(drive.bswap, mem[..], wrq, wrq.Done());
    if !ok {
      r := Error;
      return;
    }
    r := Stopped;
    if drq {
      if wrq.nr_sectors != 0 {
        MultWrite(drive, wrq, mem, drive.mult_count);
        r := Started;
      }
    } else if wrq.nr_sectors == 0 {
      var i := rq.nr_sectors;
      while i > 0
        invariant rq.Valid(mem.Length) && 0 <= i == rq.nr_sectors
        modifies rq
      {
        rq.CursorBounds(mem.Length);
        i := i - rq.current_nr_sectors;
        var _ := rq.Advance(rq.current_nr_sectors, mem.Length);
      }
    }
  }

  /** The next of the bursts for n sectors, after those in sent. */
  lemma BurstsStep(sent: seq<nat>, n: nat, m: nat)
    requires m > 0
    ensures n == 0 ==> sent + Bursts(n, m) == sent
    ensures n > 0 ==> Min(m, n) <= n && sent + Bursts(n, m) == (sent + [Min(m, n)]) + Bursts(n - Min(m, n), m)
  {
    if n > 0 {
      assert Bursts(n, m) == [Min(m, n)] + Bursts(n - Min(m, n), m);
    }
  }

  lemma WholeRequest(bswap: bool, mem: seq<Word16>, rq: Request)
    requires rq.Valid(|mem|) && rq.Done() == 0
    ensures ValidChain(rq.chain, |mem|) && rq.nr_sectors == Total(rq.chain) > 0
    ensures Sectors(bswap, mem, rq.chain, 0, Total(rq.chain)) == Coded(bswap, Data(mem, rq.chain))
  {
    var d := Data(mem, rq.chain);
    assert d[..SECTOR * Total(rq.chain)] == d;
    StartMonotone(rq.chain, 1, |rq.chain|);
  }

  /** The status that the drive shows to an interrupt: OK_STAT, and DRQ_STAT. */
  datatype Irq = Irq(ok: bool, drq: bool)

  const GOOD := Irq(true, true)
  const LAST := Irq(true, false)

  /** The interrupts of a drive that takes n pieces: it asks for each after the first, and then for nothing. */
  predicate Completes(n: nat, irqs: seq<Irq>) {
    0 < n <= |irqs| && irqs[n - 1] == LAST && forall j :: 0 <= j < n - 1 ==> irqs[j] == GOOD
  }

  /** Where i interrupts have got the request: r is what the last one returned, sent the number of pieces sent,
      n the number there are. */
  ghost predicate Served(r: StartStop, irqs: seq<Irq>, i: nat, sent: nat, n: nat, complete: bool) {
    && i <= |irqs| && 0 < sent <= n
    && if r == Started then sent == i + 1 && !complete && forall j :: 0 <= j < i ==> irqs[j] == GOOD
       else
         && sent == i && (forall j :: 0 <= j < i - 1 ==> irqs[j] == GOOD)
         && (irqs[i - 1] == GOOD ==> sent == n) && (complete <==> irqs[i - 1] == LAST && sent == n)
  }

  lemma ServedCompletes(r: StartStop, irqs: seq<Irq>, i: nat, sent: nat, n: nat, complete: bool)
    requires Served(r, irqs, i, sent, n, complete) && (r == Started ==> i == |irqs|)
    ensures complete <==> Completes(n, irqs)
  {
  }

  lemma ServedNext(irqs: seq<Irq>, i: nat, sent: nat, n: nat, r: StartStop, more: bool, complete: bool)
    requires Served(Started, irqs, i, sent, n, false) && i < |irqs| && (r == Started <==> more)
    requires more <==> irqs[i] == GOOD && sent < n
    requires complete <==> irqs[i] == LAST && sent == n
    ensures Served(r, irqs, i + 1, if more then sent + 1 else sent, n, complete)
  {
  }

  lemma ServedFirst(irqs: seq<Irq>, n: nat)
    requires n > 0
    ensures Served(Started, irqs, 0, 1, n, false)
  {
  }

  lemma BurstsLeft(n: nat, m: nat)
    requires m > 0
    ensures n == 0 <==> |Bursts(n, m)| == 0
    ensures n > 0 ==> 0 < Min(m, n)
  {
  }

  /** A write with multiple mode: the first burst from the command, then one for each interrupt that the drive
      asks in. At any time the drive has got a prefix of the sectors, in chain order, in full bursts, and memory
      is as it was; the request is complete exactly if the drive asks for every burst and then for nothing. */
  method WriteRequest(drive: Drive, rq: Request, wrq: Request, mem: array<Word16>, irqs: seq<Irq>)
    requires rq.Valid(mem.Length) && wrq.Valid(mem.Length) && wrq != rq && drive.mult_count > 0
    requires wrq.chain == rq.chain && wrq.Done() == rq.Done() == 0 && drive.output == [] && drive.bursts == []
    modifies wrq, rq, drive, mem
    ensures ValidChain(rq.chain, mem.Length) && mem[..] == old(mem[..])
    ensures 0 <= wrq.Done() <= Total(rq.chain)
    ensures drive.output == Sectors(drive.bswap, mem[..], rq.chain, 0, wrq.Done())
    ensures drive.bursts + Bursts(wrq.nr_sectors, drive.mult_count) == Bursts(Total(rq.chain), drive.mult_count)
    ensures rq.nr_sectors == 0 <==> Completes(|Bursts(Total(rq.chain), drive.mult_count)|, irqs)
    ensures rq.nr_sectors == 0 ==>
              wrq.nr_sectors == 0 && drive.bursts == Bursts(Total(rq.chain), drive.mult_count)
  {
    hide Sectors, Request.Valid, Total, ValidChain, Bursts, Coded, Data, Min, Served, Completes;
    ghost var m, total, n := mem[..], Total(rq.chain), |Bursts(Total(rq.chain), drive.mult_count)|;
    WholeRequest(drive.bswap, m, wrq);
    BurstsStep([], total, drive.mult_count);
    MultWrite(drive, wrq, mem, drive.mult_count);
    var r, i := Started, 0;
    ServedFirst(irqs, n);
    while i < |irqs| && r == Started
      invariant i <= |irqs|
      invariant rq.Valid(mem.Length) && wrq.Valid(mem.Length) && mem[..] == m
      invariant rq.nr_sectors == total || (rq.nr_sectors == 0 && wrq.nr_sectors == 0)
      invariant ValidChain(rq.chain, |m|) && 0 <= wrq.Done() == total - wrq.nr_sectors
      invariant drive.output == Sectors(drive.bswap, m, rq.chain, 0, wrq.Done())
      invariant drive.bursts + Bursts(wrq.nr_sectors, drive.mult_count) == [] + Bursts(total, drive.mult_count)
      invariant Served(r, irqs, i, |drive.bursts|, n, rq.nr_sectors == 0) && (r == Started ==> rq.nr_sectors == total)
    {
      BurstsStep(drive.bursts, wrq.nr_sectors, drive.mult_count);
      BurstsLeft(wrq.nr_sectors, drive.mult_count);
      ghost var done, sent := wrq.Done(), |drive.bursts|;
      r := MultWriteIntr(drive, wrq, rq, mem, irqs[i].ok, irqs[i].drq);
      SectorsConcat(drive.bswap, m, rq.chain, 0, done, wrq.Done());
      ServedNext(irqs, i, sent, n, r, |drive.bursts| > sent, rq.nr_sectors == 0);
      i := i + 1;
    }
    ServedCompletes(r, irqs, i, |drive.bursts|, n, rq.nr_sectors == 0);
    BurstsStep(drive.bursts, wrq.nr_sectors, drive.mult_count);
  }

  /** The next sector goes out; the cursor stays until the drive has taken it. */
  method OutputSector(drive: Drive, rq: Request, mem: array<Word16>)
    requires rq.Valid(mem.Length) && rq.nr_sectors > 0
    modifies drive`output, mem
    ensures rq.Valid(mem.Length) && mem[..] == old(mem[..]) && ValidChain(rq.chain, mem.Length)
    ensures 0 <= rq.Done() && rq.Done() + 1 <= Total(rq.chain)
    ensures drive.output == old(drive.output) + Sectors(drive.bswap, mem[..], rq.chain, rq.Done(), rq.Done() + 1)
  {
    hide Sectors, Total, Start, ValidChain, Data, Coded, Request.Valid;
    rq.CursorBounds(mem.Length);
    AtCursor(drive.bswap, mem[..], rq, 1);
    OutputData(drive, mem, rq.buffer, SECTOR / 2);
  }

  /** write_intr: one sector has been taken; the next one follows unless it was the last. Interrupts that
      come too early or too late, by DRQ_STAT, change nothing. */
  method WriteIntr(drive: Drive, rq: Request, mem: array<Word16>, ok: bool, drq: bool) returns (r: StartStop)
    requires rq.Valid(mem.Length) && rq.nr_sectors > 0
    modifies rq, drive`output, mem
    ensures rq.Valid(mem.Length) && mem[..] == old(mem[..]) && ValidChain(rq.chain, mem.Length)
    ensures r == Error <==> !ok
    ensures var taken := ok && (old(rq.nr_sectors) == 1) != drq;
            && rq.nr_sectors == old(rq.nr_sectors) - (if taken then 1 else 0)
            && rq.sector == old(rq.sector) + (if taken then 1 else 0)
            && (r == Started <==> taken && rq.nr_sectors > 0)
            && (if r == Started then
                  && 0 <= rq.Done() && rq.Done() + 1 <= Total(rq.chain)
                  && drive.output == old(drive.output)
                     + Sectors(drive.bswap, mem[..], rq.chain, rq.Done(), rq.Done() + 1)
                else drive.output == old(drive.output))
  {
    hide Sectors, Request.Valid, Total, ValidChain;
    rq.CursorBounds(mem.Length);
    NoSectors(drive.bswap, mem[..], rq, rq.Done());
    if !ok {
      r := Error;
      return;
    }
    r := Stopped;
    if (rq.nr_sectors == 1) != drq {
      var _ := rq.Advance(1, mem.Length);
      if rq.nr_sectors > 0 {
        OutputSector(drive, rq, mem);
        r := Started;
      }
    }
  }

  /** A write without multiple mode: one sector from the command, one for each interrupt that the drive asks
      in. At any time the drive has got a prefix of the sectors, in chain order; the request is complete exactly
      if the drive asks for every sector and then for nothing. */
  method WriteSingly(drive: Drive, rq: Request, mem: array<Word16>, irqs: seq<Irq>) returns (ghost sent: nat)
    requires rq.Valid(mem.Length) && rq.Done() == 0 && drive.output == []
    modifies rq, drive`output, mem
    ensures ValidChain(rq.chain, mem.Length) && mem[..] == old(mem[..]) && sent <= Total(rq.chain)
    ensures drive.output == Sectors(drive.bswap, mem[..], rq.chain, 0, sent)
    ensures rq.nr_sectors == 0 <==> Completes(Total(rq.chain), irqs)
    ensures rq.nr_sectors == 0 ==> sent == Total(rq.chain)
  {
    hide Sectors, Request.Valid, Total, ValidChain, Served, Completes;
    ghost var m, total := mem[..], Total(rq.chain);
    WholeRequest(drive.bswap, m, rq);
    OutputSector(drive, rq, mem);
    sent := 1;
    var r, i := Started, 0;
    ServedFirst(irqs, total);
    while i < |irqs| && r == Started
      invariant i <= |irqs|
      invariant rq.Valid(mem.Length) && mem[..] == m && ValidChain(rq.chain, |m|) && sent <= total
      invariant r == Started ==> rq.nr_sectors > 0 && rq.Done() + 1 == sent
      invariant rq.nr_sectors == 0 ==> sent == total
      invariant drive.output == Sectors(drive.bswap, m, rq.chain, 0, sent)
      invariant Served(r, irqs, i, sent, total, rq.nr_sectors == 0)
    {
      ghost var before := sent;
      r := WriteIntr(drive, rq, mem, irqs[i].ok, irqs[i].drq);
      if r == Started {
        SectorsConcat(drive.bswap, m, rq.chain, 0, before, before + 1);
        sent := before + 1;
      }
      ServedNext(irqs, i, before, total, r, r == Started, rq.nr_sectors == 0);
      i := i + 1;
    }
    ServedCompletes(r, irqs, i, sent, total, rq.nr_sectors == 0);
  }

  /** In how many pieces a drive takes a request. */
  function Pieces(drive: Drive, total: nat): nat {
    if drive.mult_count > 0 then |Bursts(total, drive.mult_count)| else total
  }

  /** The write path of do_rw_disk, with multiple mode or without. */
  method DoWrite(drive: Drive, rq: Request, wrq: Request, mem: array<Word16>, irqs: seq<Irq>)
    requires rq.Valid(mem.Length) && wrq.Valid(mem.Length) && wrq != rq
    requires wrq.chain == rq.chain && wrq.Done() == rq.Done() == 0 && drive.output == [] && drive.bursts == []
    modifies wrq, rq, drive, mem
    ensures ValidChain(rq.chain, mem.Length) && mem[..] == old(mem[..])
    ensures drive.output <= Coded(drive.bswap, Data(mem[..], rq.chain))
    ensures rq.nr_sectors == 0 <==> Completes(Pieces(drive, Total(rq.chain)), irqs)
    ensures rq.nr_sectors == 0 ==>
              && drive.output == Coded(drive.bswap, Data(mem[..], rq.chain))
              && BytesOf(drive.bswap, Data(mem[..], rq.chain), drive.output)
              && (drive.mult_count > 0 ==> drive.bursts == Bursts(Total(rq.chain), drive.mult_count))
  {
    hide Sectors, Completes, Bursts, Coded, Data, BytesOf;
    ghost var total, sent := Total(rq.chain), 0;
    WholeRequest(drive.bswap, mem[..], rq);
    CodedBytes(drive.bswap, Data(mem[..], rq.chain));
    if drive.mult_count > 0 {
      WriteRequest(drive, rq, wrq, mem, irqs);
      sent := wrq.Done();
    } else {
      sent := WriteSingly(drive, rq, mem, irqs);
    }
    SectorsConcat(drive.bswap, mem[..], rq.chain, 0, sent, total);
  }

  // ---------- reading ----------

  predicate InChain(chain: seq<BufferHead>, x: nat) {
    exists i :: 0 <= i < |chain| && chain[i].addr <= x < chain[i].addr + SECTOR * chain[i].nsect
  }

  lemma SeparateBuffers(chain: seq<BufferHead>, i: nat, b: nat, at: nat, n: nat)
    requires Separate(chain) && i < |chain| && b < |chain| && i != b
    requires chain[b].addr <= at && at + n <= chain[b].addr + SECTOR * chain[b].nsect
    ensures chain[i].addr + SECTOR * chain[i].nsect <= at || at + n <= chain[i].addr
  {
    if i < b {
      assert chain[i].addr + SECTOR * chain[i].nsect <= chain[b].addr
          || chain[b].addr + SECTOR * chain[b].nsect <= chain[i].addr;
    } else {
      assert chain[b].addr + SECTOR * chain[b].nsect <= chain[i].addr
          || chain[i].addr + SECTOR * chain[i].nsect <= chain[b].addr;
    }
  }

  lemma NoBuffer(mem: seq<Word16>, chain: seq<BufferHead>)
    requires ValidChain(chain, |mem|)
    ensures Gather(mem, chain, 0) == []
  {
  }

  lemma LastBuffer(mem: seq<Word16>, chain: seq<BufferHead>, j: nat)
    requires ValidChain(chain, |mem|) && 0 < j <= |chain|
    ensures Gather(mem, chain, j) == Gather(mem, chain, j - 1)
              + mem[chain[j - 1].addr..chain[j - 1].addr + SECTOR * chain[j - 1].nsect]
  {
  }

  /** Storing words inside buffer b changes the gathered data at the matching place, and only there. */
  lemma {:induction false} GatherStore(mem: seq<Word16>, chain: seq<BufferHead>, b: nat, off: nat,
                                       p: seq<Word16>, j: nat)
    requires ValidChain(chain, |mem|) && Separate(chain) && b < |chain| && j <= |chain|
    requires off + |p| <= SECTOR * chain[b].nsect
    ensures SECTOR * Start(chain, b) + off + |p| <= SECTOR * Start(chain, b + 1)
    ensures j > b ==> Start(chain, b + 1) <= Start(chain, j)
    ensures j <= b ==> Gather(Overwrite(mem, chain[b].addr + off, p), chain, j) == Gather(mem, chain, j)
    ensures j > b ==> Gather(Overwrite(mem, chain[b].addr + off, p), chain, j)
                      == Overwrite(Gather(mem, chain, j), SECTOR * Start(chain, b) + off, p)
  {
    hide Gather, Start, Overwrite;
    NextStart(chain, b);
    if j > b {
      StartMonotone(chain, b + 1, j);
    }
    if j == 0 {
      NoBuffer(mem, chain);
      NoBuffer(Overwrite(mem, chain[b].addr + off, p), chain);
    } else {
      var at := chain[b].addr + off;
      var mem' := Overwrite(mem, at, p);
      GatherStore(mem, chain, b, off, p, j - 1);
      LastBuffer(mem, chain, j);
      LastBuffer(mem', chain, j);
      var c, g, g' := chain[j - 1], Gather(mem, chain, j - 1), Gather(mem', chain, j - 1);
      var n := SECTOR * c.nsect;
      if j - 1 < b {
        SeparateBuffers(chain, j - 1, b, at, |p|);
        OverwriteOutside(mem, at, p, c.addr, c.addr + n);
        assert g' == g && Gather(mem', chain, j) == Gather(mem, chain, j);
      } else if j - 1 == b {
        OverwriteWithin(mem, c.addr, n, off, p);
        OverwriteRight(g, mem[c.addr..c.addr + n], off, p);
        assert g' == g && |g| == SECTOR * Start(chain, b);
        assert Gather(mem', chain, j) == Overwrite(Gather(mem, chain, j), |g| + off, p);
      } else {
        SeparateBuffers(chain, j - 1, b, at, |p|);
        OverwriteOutside(mem, at, p, c.addr, c.addr + n);
        OverwriteLeft(g, mem[c.addr..c.addr + n], SECTOR * Start(chain, b) + off, p);
        assert g' == Overwrite(g, SECTOR * Start(chain, b) + off, p);
        assert Gather(mem', chain, j) == Overwrite(Gather(mem, chain, j), SECTOR * Start(chain, b) + off, p);
      }
    }
  }

  /** Memory outside the chain's buffers is the same. */
  ghost predicate OnlyInChain(chain: seq<BufferHead>, mem: seq<Word16>, mem': seq<Word16>) {
    |mem'| == |mem| && forall x: nat :: x < |mem| && !InChain(chain, x) ==> mem'[x] == mem[x]
  }

  lemma OnlyBuffer(chain: seq<BufferHead>, b: nat, mem: seq<Word16>, at: nat, p: seq<Word16>)
    requires b < |chain| && chain[b].addr <= at
    requires at + |p| <= chain[b].addr + SECTOR * chain[b].nsect && at + |p| <= |mem|
    ensures OnlyInChain(chain, mem, Overwrite(mem, at, p))
  {
  }

  /** Storing n sectors at the cursor. */
  lemma StoreAtCursor(rq: Request, mem: seq<Word16>, p: seq<Word16>)
    requires rq.Valid(|mem|) && Separate(rq.chain) && |p| <= SECTOR * rq.current_nr_sectors
    ensures rq.buffer + |p| <= |mem| && 0 <= rq.Done() && SECTOR * rq.Done() + |p| <= |Data(mem, rq.chain)|
    ensures Data(Overwrite(mem, rq.buffer, p), rq.chain) == Overwrite(Data(mem, rq.chain), SECTOR * rq.Done(), p)
    ensures OnlyInChain(rq.chain, mem, Overwrite(mem, rq.buffer, p))
  {
    hide Gather, Start, Separate;
    rq.CursorBounds(|mem|);
    var b := rq.bh;
    var off := SECTOR * (rq.chain[b].nsect - rq.current_nr_sectors);
    GatherStore(mem, rq.chain, b, off, p, |rq.chain|);
    assert SECTOR * rq.Done() == SECTOR * Start(rq.chain, b) + off;
    OnlyBuffer(rq.chain, b, mem, rq.buffer, p);
  }

  /** How far a read has got: the first done sectors of the chain hold the decoded words of the drive. */
  ghost predicate ReadSoFar(bswap: bool, chain: seq<BufferHead>, m0: seq<Word16>, m: seq<Word16>, from: nat,
                            words: seq<Word16>) {
    && ValidChain(chain, |m0|) && OnlyInChain(chain, m0, m)
    && SECTOR * from + |words| <= |Data(m0, chain)|
    && Data(m, chain) == Overwrite(Data(m0, chain), SECTOR * from, Coded(bswap, words))
  }

  lemma ReadMore(bswap: bool, rq: Request, m0: seq<Word16>, m: seq<Word16>, from: nat, words: seq<Word16>,
                 p: seq<Word16>)
    requires ReadSoFar(bswap, rq.chain, m0, m, from, words)
    requires rq.Valid(|m|) && Separate(rq.chain) && |p| <= SECTOR * rq.current_nr_sectors
    requires SECTOR * rq.Done() == SECTOR * from + |words|
    ensures rq.buffer + |p| <= |m|
    ensures ReadSoFar(bswap, rq.chain, m0, Overwrite(m, rq.buffer, Coded(bswap, p)), from, words + p)
  {
    var c := Coded(bswap, p);
    StoreAtCursor(rq, m, c);
    CodedConcat(bswap, words, p);
    OverwriteTwice(Data(m0, rq.chain), SECTOR * from, Coded(bswap, words), c);
  }

  lemma NothingRead(bswap: bool, chain: seq<BufferHead>, m: seq<Word16>, from: nat)
    requires ValidChain(chain, |m|) && from <= Total(chain)
    ensures ReadSoFar(bswap, chain, m, m, from, [])
  {
    assert Overwrite(Data(m, chain), SECTOR * from, []) == Data(m, chain);
    assert Coded(bswap, []) == [];
  }

  /** Sectors one read interrupt transfers: up to mult_count, or one without multiple mode. */
  function PerInterrupt(mult_count: nat, remaining: nat): nat {
    Min(if mult_count == 0 then 1 else mult_count, remaining)
  }

  /** nsect sectors into the current buffer, and the cursor over them. */
  method InputChunk(drive: Drive, rq: Request, mem: array<Word16>, nsect: nat, p: seq<Word16>,
                    ghost m0: seq<Word16>, ghost from: nat, ghost words: seq<Word16>)
    requires rq.Valid(mem.Length) && Separate(rq.chain) && 0 < nsect <= rq.current_nr_sectors
    requires |p| == SECTOR * nsect && SECTOR * rq.Done() == SECTOR * from + |words|
    requires ReadSoFar(drive.bswap, rq.chain, m0, mem[..], from, words)
    modifies rq, mem
    ensures rq.Valid(mem.Length)
    ensures rq.nr_sectors == old(rq.nr_sectors) - nsect && rq.sector == old(rq.sector) + nsect
    ensures ReadSoFar(drive.bswap, rq.chain, m0, mem[..], from, words + p)
  {
    hide Request.Valid, Request.Done, ReadSoFar, Separate, Coded, Overwrite;
    rq.CursorBounds(mem.Length);
    assert |p| == 2 * (SECTOR / 2 * nsect);
    ReadMore(drive.bswap, rq, m0, mem[..], from, words, p);
    InputData(drive, mem, rq.buffer, (SECTOR / 2) * nsect, p);
    var _ := rq.Advance(nsect, mem.Length);
  }

  lemma Prefix(s: seq<Word16>, a: nat, b: nat)
    requires a <= b <= |s|
    ensures s[..a] + s[a..b] == s[..b]
  {
  }

  lemma StartReading(bswap: bool, rq: Request, m: seq<Word16>)
    requires rq.Valid(|m|)
    ensures 0 <= rq.Done() && ReadSoFar(bswap, rq.chain, m, m, rq.Done(), [])
  {
    rq.CursorBounds(|m|);
    NothingRead(bswap, rq.chain, m, rq.Done());
  }

  /** The sectors of one read interrupt: words is what the drive has for it. */
  method ReadSectors(drive: Drive, rq: Request, mem: array<Word16>, words: seq<Word16>) returns (r: StartStop)
    requires rq.Valid(mem.Length) && Separate(rq.chain) && rq.nr_sectors > 0
    requires |words| == SECTOR * PerInterrupt(drive.mult_count, rq.nr_sectors)
    modifies rq, mem
    ensures rq.Valid(mem.Length) && 0 <= old(rq.Done())
    ensures rq.nr_sectors == old(rq.nr_sectors) - PerInterrupt(drive.mult_count, old(rq.nr_sectors))
    ensures rq.sector == old(rq.sector) + PerInterrupt(drive.mult_count, old(rq.nr_sectors))
    ensures r == if rq.nr_sectors > 0 then Started else Stopped
    ensures ReadSoFar(drive.bswap, rq.chain, old(mem[..]), mem[..], old(rq.Done()), words)
  {
    hide Request.Valid, Total, ValidChain, ReadSoFar, Separate;
    ghost var m, from: int, nr0 := mem[..], rq.Done(), rq.nr_sectors;
    rq.CursorBounds(mem.Length);
    StartReading(drive.bswap, rq, m);
    var msect: nat := drive.mult_count;
    var used: nat := 0;
    while true
      invariant rq.Valid(mem.Length) && 0 < rq.nr_sectors && rq.Done() == from + used && used + rq.nr_sectors == nr0
      invariant rq.sector == old(rq.sector) + used
      invariant if drive.mult_count == 0 then msect == 0 && used == 0 else msect > 0 && msect + used == drive.mult_count
      invariant SECTOR * used <= |words|
      invariant ReadSoFar(drive.bswap, rq.chain, m, mem[..], from, words[..SECTOR * used])
      decreases rq.nr_sectors
    {
      rq.CursorBounds(mem.Length);
      var nsect: nat := 1;
      if msect > 0 {
        nsect := if rq.current_nr_sectors > msect then msect else rq.current_nr_sectors;
        msect := msect - nsect;
      }
      var p := words[SECTOR * used..SECTOR * (used + nsect)];
      Prefix(words, SECTOR * used, SECTOR * (used + nsect));
      InputChunk(drive, rq, mem, nsect, p, m, from, words[..SECTOR * used]);
      used := used + nsect;
      if rq.nr_sectors > 0 {
        if msect == 0 {
          assert words[..SECTOR * used] == words;
          return Started;
        }
      } else {
        assert words[..SECTOR * used] == words;
        return Stopped;
      }
    }
  }

  /** read_intr. ready says that the status is DATA_READY without a bad bit, fault that it has ERR_STAT or
      DRQ_STAT set; an interrupt with neither came early and is waited out. */
  method ReadIntr(drive: Drive, rq: Request, mem: array<Word16>, ready: bool, fault: bool, words: seq<Word16>)
    returns (r: StartStop)
    requires rq.Valid(mem.Length) && Separate(rq.chain) && rq.nr_sectors > 0
    requires ready ==> |words| == SECTOR * PerInterrupt(drive.mult_count, rq.nr_sectors)
    modifies rq, mem
    ensures rq.Valid(mem.Length) && 0 <= old(rq.Done())
    ensures var most := if drive.mult_count == 0 then 1 else drive.mult_count;
            var n := if ready then Min(most, old(rq.nr_sectors)) else 0;
            rq.nr_sectors == old(rq.nr_sectors) - n && rq.sector == old(rq.sector) + n
    ensures ReadSoFar(drive.bswap, rq.chain, old(mem[..]), mem[..], old(rq.Done()), if ready then words else [])
    ensures !ready ==> mem[..] == old(mem[..])
    ensures r == if !ready && fault then Error else if rq.nr_sectors > 0 then Started else Stopped
  {
    hide Request.Valid, ReadSoFar, Separate;
    StartReading(drive.bswap, rq, mem[..]);
    if !ready {
      return if fault then Error else Started;
    }
    r := ReadSectors(drive, rq, mem, words);
  }

  lemma ReadJoin(bswap: bool, chain: seq<BufferHead>, m0: seq<Word16>, m: seq<Word16>, m': seq<Word16>,
                 from: nat, words: seq<Word16>, p: seq<Word16>)
    requires ReadSoFar(bswap, chain, m0, m, 0, words) && ReadSoFar(bswap, chain, m, m', from, p)
    requires |words| == SECTOR * from
    ensures ReadSoFar(bswap, chain, m0, m', 0, words + p)
  {
    CodedConcat(bswap, words, p);
    OverwriteTwice(Data(m0, chain), 0, Coded(bswap, words), Coded(bswap, p));
  }

  lemma AllRead(bswap: bool, chain: seq<BufferHead>, m0: seq<Word16>, m: seq<Word16>, words: seq<Word16>)
    requires ReadSoFar(bswap, chain, m0, m, 0, words) && |words| == SECTOR * Total(chain)
    ensures ValidChain(chain, |m|) && Data(m, chain) == Coded(bswap, words) && OnlyInChain(chain, m0, m)
  {
    assert Overwrite(Data(m0, chain), 0, Coded(bswap, words)) == Coded(bswap, words);
  }

  /** A whole read: the drive supplies disk, one interrupt at a time. The chain ends up with the
      decoded words in order; memory outside it is unchanged. */
  method ReadRequest(drive: Drive, rq: Request, mem: array<Word16>, disk: seq<Word16>)
    requires rq.Valid(mem.Length) && Separate(rq.chain) && rq.Done() == 0 && |disk| == SECTOR * Total(rq.chain)
    modifies rq, mem
    ensures rq.nr_sectors == 0 && ValidChain(rq.chain, mem.Length)
    ensures Data(mem[..], rq.chain) == Coded(drive.bswap, disk)
    ensures BytesOf(drive.bswap, disk, Data(mem[..], rq.chain))
    ensures OnlyInChain(rq.chain, old(mem[..]), mem[..])
  {
    hide Request.Valid, ReadSoFar, Separate, ValidChain, Total, BytesOf;
    ghost var m := mem[..];
    CodedBytes(drive.bswap, disk);
    StartReading(drive.bswap, rq, m);
    var used: nat := 0;
    assert disk[..0] == [];
    while rq.nr_sectors > 0
      invariant rq.Valid(mem.Length) && rq.Done() == used && SECTOR * (used + rq.nr_sectors) == |disk|
      invariant ReadSoFar(drive.bswap, rq.chain, m, mem[..], 0, disk[..SECTOR * used])
      decreases rq.nr_sectors
    {
      var n := PerInterrupt(drive.mult_count, rq.nr_sectors);
      var p := disk[SECTOR * used..SECTOR * (used + n)];
      ghost var before := mem[..];
      var _ := ReadIntr(drive, rq, mem, true, false, p);
      ReadJoin(drive.bswap, rq.chain, m, before, mem[..], used, disk[..SECTOR * used], p);
      Prefix(disk, SECTOR * used, SECTOR * (used + n));
      used := used + n;
    }
    assert disk[..SECTOR * used] == disk;
    AllRead(drive.bswap, rq.chain, m, mem[..], disk);
  }

  /** Writing one chain and, once the write is complete, reading the sectors back into another, with any
      multiple counts and any shapes of equal total, returns the same words: bswap on or off cancels. */
  method WriteThenRead(w: Drive, wrq: Request, copy: Request, source: array<Word16>, irqs: seq<Irq>,
                       r: Drive, rrq: Request, target: array<Word16>)
    returns (written: bool)
    requires wrq.Valid(source.Length) && copy.Valid(source.Length) && copy != wrq && copy.chain == wrq.chain
    requires wrq.Done() == copy.Done() == rrq.Done() == 0 && w.output == [] && w.bursts == []
    requires rrq.Valid(target.Length) && Separate(rrq.chain) && rrq != wrq && rrq != copy && source != target
    requires Total(rrq.chain) == Total(wrq.chain) && r.bswap == w.bswap
    modifies w, wrq, copy, source, rrq, target
    ensures source[..] == old(source[..])
    ensures written <==> Completes(Pieces(w, Total(wrq.chain)), irqs)
    ensures ValidChain(wrq.chain, source.Length) && ValidChain(rrq.chain, target.Length)
    ensures written ==> Data(target[..], rrq.chain) == Data(source[..], wrq.chain)
  {
    DoWrite(w, wrq, copy, source, irqs);
    written := wrq.nr_sectors == 0;
    if written {
      ReadRequest(r, rrq, target, w.output);
      CodedTwice(w.bswap, Data(source[..], wrq.chain));
    }
  }
}
