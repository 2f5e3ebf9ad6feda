/** Multi-sector PIO transfers of the older IDE disk driver: scatter and gather over a buffer chain,
    one burst per interrupt. */
module IdeTransfer {
  import opened Arith
  import opened Sequences

  /** A 16-bit word of memory; a sector is 256 of them. */
  type Word16 = w: int | 0 <= w < 0x10000

  const SECTOR: nat := 256

  /** *p << 8 | *p >> 8, truncated to 16 bits. */
  function Swap(w: Word16): Word16 {
    (w * 256) % 0x10000 + w / 256
  }

  function SwapAll(s: seq<Word16>): (r: seq<Word16>)
    ensures |r| == |s|
  {
    seq(|s|, i requires 0 <= i < |s| => Swap(s[i]))
  }

  /** What travels between memory and drive. */
  function Coded(bswap: bool, s: seq<Word16>): (r: seq<Word16>)
    ensures |r| == |s|
  {
    if bswap then SwapAll(s) else s
  }

  lemma SwapTwice(w: Word16)
    ensures Swap(Swap(w)) == w
  {
    var hi, lo := w / 256, w % 256;
    assert w * 256 == hi * 0x10000 + lo * 256;
    assert (w * 256) % 0x10000 == lo * 256;
    var v: Word16 := lo * 256 + hi;
    assert Swap(w) == v;
    assert v / 256 == lo && v % 256 == hi;
    assert v * 256 == lo * 0x10000 + hi * 256;
    assert (v * 256) % 0x10000 == hi * 256;
  }

  /** Swapping on the way out and on the way in cancels. */
  lemma CodedTwice(bswap: bool, s: seq<Word16>)
    ensures Coded(bswap, Coded(bswap, s)) == s
  {
    forall i | 0 <= i < |s| ensures Swap(Swap(s[i])) == s[i] {
      SwapTwice(s[i]);
    }
  }

  /** v holds the words of u with their two bytes exchanged, or as they are. */
  predicate BytesOf(bswap: bool, u: seq<Word16>, v: seq<Word16>) {
    && |u| == |v|
    && forall i :: 0 <= i < |u| ==>
         if bswap then v[i] % 256 == u[i] / 256 && v[i] / 256 == u[i] % 256 else v[i] == u[i]
  }

  lemma SwapBytes(w: Word16)
    ensures Swap(w) % 256 == w / 256 && Swap(w) / 256 == w % 256
  {
    var hi, lo := w / 256, w % 256;
    assert w * 256 == hi * 0x10000 + lo * 256;
    assert (w * 256) % 0x10000 == lo * 256;
    assert Swap(w) == lo * 256 + hi;
  }

  /** With bswap the low byte that travels is the high byte in memory, and the high byte the low one. */
  lemma CodedBytes(bswap: bool, s: seq<Word16>)
    ensures BytesOf(bswap, s, Coded(bswap, s))
  {
    forall i | 0 <= i < |s| ensures Swap(s[i]) % 256 == s[i] / 256 && Swap(s[i]) / 256 == s[i] % 256 {
      SwapBytes(s[i]);
    }
  }

  lemma CodedConcat(bswap: bool, s: seq<Word16>, t: seq<Word16>)
    ensures Coded(bswap, s + t) == Coded(bswap, s) + Coded(bswap, t)
  {
  }

  // ---------- buffer chains ----------

  /** struct buffer_head: nsect sectors at address addr of memory. */
  datatype BufferHead = BufferHead(addr: nat, nsect: nat)

  /** Sectors in front of buffer i. */
  function Start(chain: seq<BufferHead>, i: nat): nat
    requires i <= |chain|
  {
    if i == 0 then 0 else Start(chain, i - 1) + chain[i - 1].nsect
  }

  function Total(chain: seq<BufferHead>): nat {
    Start(chain, |chain|)
  }

  ghost predicate ValidChain(chain: seq<BufferHead>, size: nat) {
    && chain != []
    && forall i :: 0 <= i < |chain| ==> chain[i].nsect > 0 && chain[i].addr + SECTOR * chain[i].nsect <= size
  }

  ghost predicate Separate(chain: seq<BufferHead>) {
    forall i, j :: 0 <= i < j < |chain| ==>
      || chain[i].addr + SECTOR * chain[i].nsect <= chain[j].addr
      || chain[j].addr + SECTOR * chain[j].nsect <= chain[i].addr
  }

  /** The words of the first i buffers, in chain order. */
  function Gather(mem: seq<Word16>, chain: seq<BufferHead>, i: nat): (r: seq<Word16>)
    requires i <= |chain| && ValidChain(chain, |mem|)
    ensures |r| == SECTOR * Start(chain, i)
  {
    if i == 0 then []
    else Gather(mem, chain, i - 1) + mem[chain[i - 1].addr..chain[i - 1].addr + SECTOR * chain[i - 1].nsect]
  }

  function Data(mem: seq<Word16>, chain: seq<BufferHead>): (r: seq<Word16>)
    requires ValidChain(chain, |mem|)
    ensures |r| == SECTOR * Total(chain)
  {
    Gather(mem, chain, |chain|)
  }

  lemma {:induction false} StartMonotone(chain: seq<BufferHead>, i: nat, j: nat)
    requires i <= j <= |chain|
    ensures Start(chain, i) <= Start(chain, j)
  {
    if i < j {
      StartMonotone(chain, i, j - 1);
    }
  }

  lemma GatherUnfold(mem: seq<Word16>, chain: seq<BufferHead>, j: nat)
    requires j < |chain| && ValidChain(chain, |mem|)
    ensures var c := chain[j];
            && c.addr + SECTOR * c.nsect <= |mem| && Start(chain, j) <= Start(chain, j + 1)
            && Gather(mem, chain, j + 1) == Gather(mem, chain, j) + mem[c.addr..c.addr + SECTOR * c.nsect]
            && Gather(mem, chain, j + 1)[SECTOR * Start(chain, j)..SECTOR * Start(chain, j + 1)]
               == mem[c.addr..c.addr + SECTOR * c.nsect]
  {
  }

  /** Where the words of buffer i are in the gathered data. */
  lemma {:induction false} GatherAt(mem: seq<Word16>, chain: seq<BufferHead>, i: nat, j: nat)
    requires i < j <= |chain| && ValidChain(chain, |mem|)
    ensures SECTOR * Start(chain, i + 1) <= SECTOR * Start(chain, j)
    ensures Gather(mem, chain, j)[SECTOR * Start(chain, i)..SECTOR * Start(chain, i + 1)]
         == mem[chain[i].addr..chain[i].addr + SECTOR * chain[i].nsect]
  {
    hide Gather, ValidChain, Start;
    StartMonotone(chain, i + 1, j);
    GatherUnfold(mem, chain, j - 1);
    if i + 1 < j {
      StartMonotone(chain, i, i + 1);
      StartMonotone(chain, i + 1, j - 1);
      GatherAt(mem, chain, i, j - 1);
      var lo, hi, c := SECTOR * Start(chain, i), SECTOR * Start(chain, i + 1), chain[j - 1];
      SliceOfFirst(Gather(mem, chain, j - 1), mem[c.addr..c.addr + SECTOR * c.nsect], lo, hi);
    }
  }

  // ---------- requests ----------

  lemma Slice<T>(s: seq<T>, lo: nat, hi: nat, off: nat, n: nat)
    requires lo + off + n <= hi <= |s|
    ensures s[lo..hi][off..off + n] == s[lo + off..lo + off + n]
  {
    var t := s[lo..hi];
    var a, b := t[off..off + n], s[lo + off..lo + off + n];
    forall k | 0 <= k < n ensures a[k] == b[k] {
      assert a[k] == t[off + k] == s[lo + (off + k)];
    }
    assert a == b;
  }

  lemma NextStart(chain: seq<BufferHead>, i: nat)
    requires i < |chain|
    ensures Start(chain, i + 1) == Start(chain, i) + chain[i].nsect
  {
  }

  /** struct request: the cursor over the chain. bh is the index of the current buffer. */
  class Request {
    const chain: seq<BufferHead>
    var sector: nat
    var nr_sectors: nat
    var current_nr_sectors: nat
    var buffer: nat
    var bh: nat

    /** The cursor is inside buffer bh, or at the end of the last one. */
    ghost predicate Valid(size: nat)
      reads this
    {
      && ValidChain(chain, size) && bh < |chain|
      && current_nr_sectors <= chain[bh].nsect
      && (current_nr_sectors == 0 ==> bh == |chain| - 1)
      && buffer == chain[bh].addr + SECTOR * (chain[bh].nsect - current_nr_sectors)
      && nr_sectors + Start(chain, bh + 1) == Total(chain) + current_nr_sectors
    }

    /** Sectors already transferred. */
    ghost function Done(): int
      reads this
    {
      Total(chain) - nr_sectors
    }

    constructor (chain: seq<BufferHead>, sector: nat, ghost size: nat)
      requires ValidChain(chain, size)
      ensures Valid(size) && this.chain == chain && this.sector == sector && Done() == 0
    {
      this.chain, this.sector, bh := chain, sector, 0;
      nr_sectors := Total(chain);
      current_nr_sectors, buffer := chain[0].nsect, chain[0].addr;
      new;
      StartMonotone(chain, 1, |chain|);
    }

    lemma CursorBounds(size: nat)
      requires Valid(size)
      ensures current_nr_sectors <= nr_sectors && 0 <= Done() && (nr_sectors == 0 <==> current_nr_sectors == 0)
      ensures buffer + SECTOR * current_nr_sectors <= size
      ensures Done() == Start(chain, bh) + chain[bh].nsect - current_nr_sectors
      ensures bh + 1 < |chain| || nr_sectors == current_nr_sectors
      ensures Start(chain, bh + 1) <= Total(chain)
    {
      StartMonotone(chain, bh + 1, |chain|);
      if bh + 1 < |chain| { StartMonotone(chain, bh + 2, |chain|); }
    }

    /** The next n words of the request's data are at the cursor. */
    lemma CursorData(mem: seq<Word16>, n: nat)
      requires Valid(|mem|) && n <= current_nr_sectors
      ensures 0 <= Done() && SECTOR * (Done() + n) <= |Data(mem, chain)| && buffer + SECTOR * n <= |mem|
      ensures Data(mem, chain)[SECTOR * Done()..SECTOR * (Done() + n)] == mem[buffer..buffer + SECTOR * n]
    {
      hide Start, Gather;
      CursorBounds(|mem|);
      GatherAt(mem, chain, bh, |chain|);
      NextStart(chain, bh);
      var d, a := Data(mem, chain), chain[bh].addr;
      var lo, off := SECTOR * Start(chain, bh), SECTOR * (chain[bh].nsect - current_nr_sectors);
      var whole := d[lo..SECTOR * Start(chain, bh + 1)];
      assert whole == mem[a..a + SECTOR * chain[bh].nsect];
      assert SECTOR * Done() == lo + off;
      Slice(d, lo, SECTOR * Start(chain, bh + 1), off, SECTOR * n);
      Slice(mem, a, a + SECTOR * chain[bh].nsect, off, SECTOR * n);
    }

    /** Move the cursor over n sectors of the current buffer, and on to the next buffer if that ends
        this one; exhausted tells that there is none. */
    method Advance(n: nat, ghost size: nat) returns (exhausted: bool)
      requires Valid(size) && 0 < n <= current_nr_sectors
      modifies this`sector, this`nr_sectors, this`current_nr_sectors, this`buffer, this`bh
      ensures Valid(size) && sector == old(sector) + n && nr_sectors == old(nr_sectors) - n
      ensures exhausted == (nr_sectors == 0)
    {
      hide Start;
      CursorBounds(size);
      NextStart(chain, bh);
      sector := sector + n;
      buffer := buffer + SECTOR * n;
      nr_sectors := nr_sectors - n;
      current_nr_sectors := current_nr_sectors - n;
      exhausted := false;
      if current_nr_sectors == 0 {
        if bh + 1 == |chain| {
          exhausted := true;
        } else {
          bh := bh + 1;
          NextStart(chain, bh);
          current_nr_sectors := chain[bh].nsect;
          buffer := chain[bh].addr;
        }
      }
      CursorBounds(size);
    }
  }

  // ---------- the drive ----------

  /** The settings of ide_drive_t, the words sent to the drive and the size of each burst. */
  class Drive {
    const bswap: bool
    const mult_count: nat
    var output: seq<Word16>
    var bursts: seq<nat>

    constructor (bswap: bool, mult_count: nat)
      ensures this.bswap == bswap && this.mult_count == mult_count && output == [] && bursts == []
    {
      this.bswap, this.mult_count, output, bursts := bswap, mult_count, [], [];
    }
  }

  /** idedisk_bswap_data: swap the bytes of 2 * wcount words in place. */
  method BswapData(mem: array<Word16>, addr: nat, wcount: nat)
    requires addr + 2 * wcount <= mem.Length
    modifies mem
    ensures mem[..] == Overwrite(old(mem[..]), addr, SwapAll(old(mem[..])[addr..addr + 2 * wcount]))
    ensures BytesOf(true, old(mem[addr..addr + 2 * wcount]), mem[addr..addr + 2 * wcount])
  {
    hide Swap;
    ghost var s := mem[..];
    var p := addr;
    for i := 0 to wcount
      invariant p == addr + 2 * i
      invariant forall k :: 0 <= k < mem.Length ==>
                  mem[k] == if addr <= k < p then Swap(s[k]) else s[k]
    {
      mem[p] := Swap(mem[p]);
      p := p + 1;
      mem[p] := Swap(mem[p]);
      p := p + 1;
    }
    ghost var t := SwapAll(s[addr..p]);
    forall k | 0 <= k < |s| ensures mem[..][k] == Overwrite(s, addr, t)[k] {
      OverwriteAt(s, addr, t, k);
    }
    hide SwapAll, Overwrite, BytesOf;
    OverwriteThere(s, addr, t);
    CodedBytes(true, s[addr..p]);
    assert mem[addr..addr + 2 * wcount] == mem[..][addr..p] == t;
  }

  /** idedisk_output_data: send 2 * wcount words, in coded form; memory ends as it was. */
  method OutputData(drive: Drive, mem: array<Word16>, addr: nat, wcount: nat)
    requires addr + 2 * wcount <= mem.Length
    modifies drive`output, mem
    ensures drive.output == old(drive.output) + Coded(drive.bswap, old(mem[addr..addr + 2 * wcount]))
    ensures BytesOf(drive.bswap, old(mem[addr..addr + 2 * wcount]), drive.output[|old(drive.output)|..])
    ensures mem[..] == old(mem[..])
  {
    hide SwapAll, Overwrite, BytesOf;
    CodedBytes(drive.bswap, mem[addr..addr + 2 * wcount]);
    if drive.bswap {
      ghost var m := mem[..];
      ghost var s := m[addr..addr + 2 * wcount];
      BswapData(mem, addr, wcount);
      OverwriteThere(m, addr, SwapAll(s));
      drive.output := drive.output + mem[addr..addr + 2 * wcount];
      BswapData(mem, addr, wcount);
      CodedTwice(true, s);
      OverwriteAgain(m, addr, SwapAll(s), s);
      OverwriteSame(m, addr, addr + 2 * wcount);
    } else {
      drive.output := drive.output + mem[addr..addr + 2 * wcount];
    }
  }

  /** idedisk_input_data: store 2 * wcount words from the drive, decoded. */
  method InputData(drive: Drive, mem: array<Word16>, addr: nat, wcount: nat, words: seq<Word16>)
    requires addr + 2 * wcount <= mem.Length && |words| == 2 * wcount
    modifies mem
    ensures mem[..] == Overwrite(old(mem[..]), addr, Coded(drive.bswap, words))
    ensures BytesOf(drive.bswap, words, mem[addr..addr + 2 * wcount])
  {
    ghost var m := mem[..];
    forall k | 0 <= k < 2 * wcount {
      mem[addr + k] := words[k];
    }
    forall k | 0 <= k < |m| ensures mem[..][k] == Overwrite(m, addr, words)[k] {
      OverwriteAt(m, addr, words, k);
    }
    assert mem[..] == Overwrite(m, addr, words);
    CodedBytes(drive.bswap, words);
    OverwriteThere(m, addr, Coded(drive.bswap, words));
    hide Overwrite, SwapAll, BytesOf;
    if drive.bswap {
      OverwriteThere(m, addr, words);
      BswapData(mem, addr, wcount);
      OverwriteAgain(m, addr, words, SwapAll(words));
    }
  }

  /** The coded words of sectors from .. to of the request's data. */
  ghost function Sectors(bswap: bool, mem: seq<Word16>, chain: seq<BufferHead>, from: nat, to: nat): (r: seq<Word16>)
    requires ValidChain(chain, |mem|) && from <= to <= Total(chain)
    ensures |r| == SECTOR * (to - from)
  {
    Coded(bswap, Data(mem, chain)[SECTOR * from..SECTOR * to])
  }

  lemma SectorsConcat(bswap: bool, mem: seq<Word16>, chain: seq<BufferHead>, a: nat, b: nat, c: nat)
    requires ValidChain(chain, |mem|) && a <= b <= c <= Total(chain)
    ensures Sectors(bswap, mem, chain, a, c) == Sectors(bswap, mem, chain, a, b) + Sectors(bswap, mem, chain, b, c)
  {
    var d := Data(mem, chain);
    assert d[SECTOR * a..SECTOR * c] == d[SECTOR * a..SECTOR * b] + d[SECTOR * b..SECTOR * c];
    CodedConcat(bswap, d[SECTOR * a..SECTOR * b], d[SECTOR * b..SECTOR * c]);
  }

  lemma AtCursor(bswap: bool, mem: seq<Word16>, rq: Request, n: nat)
    requires rq.Valid(|mem|) && n <= rq.current_nr_sectors
    ensures ValidChain(rq.chain, |mem|) && 0 <= rq.Done() && rq.Done() + n <= Total(rq.chain)
    ensures rq.buffer + SECTOR * n <= |mem|
    ensures Sectors(bswap, mem, rq.chain, rq.Done(), rq.Done() + n)
         == Coded(bswap, mem[rq.buffer..rq.buffer + SECTOR * n])
  {
    rq.CursorBounds(|mem|);
    rq.CursorData(mem, n);
  }

  /** One round of the loop in ide_multwrite: what the current buffer can give, at most mcount sectors.
      The cursor moves before the data goes out. */
  method OutputChunk(drive: Drive, rq: Request, mem: array<Word16>, mcount: nat) returns (nsect: nat, exhausted: bool)
    requires rq.Valid(mem.Length) && rq.nr_sectors > 0 && mcount > 0
    modifies rq, drive`output, mem
    ensures rq.Valid(mem.Length) && mem[..] == old(mem[..]) && ValidChain(rq.chain, mem.Length)
    ensures 0 < nsect <= mcount && nsect <= old(rq.nr_sectors)
    ensures rq.nr_sectors == old(rq.nr_sectors) - nsect && rq.sector == old(rq.sector) + nsect
    ensures exhausted == (rq.nr_sectors == 0)
    ensures 0 <= old(rq.Done()) && rq.Done() == old(rq.Done()) + nsect <= Total(rq.chain)
    ensures drive.output == old(drive.output)
            + Sectors(drive.bswap, mem[..], rq.chain, old(rq.Done()), rq.Done())
  {
    hide Sectors, Total, Start, ValidChain, Data, Coded, Request.Valid;
    rq.CursorBounds(mem.Length);
    nsect := if rq.current_nr_sectors > mcount then mcount else rq.current_nr_sectors;
    var buffer := rq.buffer;
    AtCursor(drive.bswap, mem[..], rq, nsect);
    exhausted := rq.Advance(nsect, mem.Length);
    hide Request.Done;
    OutputData(drive, mem, buffer, (SECTOR / 2) * nsect);
  }

  lemma NoSectors(bswap: bool, mem: seq<Word16>, rq: Request, i: nat)
    requires rq.Valid(|mem|) && i == rq.Done()
    ensures ValidChain(rq.chain, |mem|) && i <= Total(rq.chain) && Sectors(bswap, mem, rq.chain, i, i) == []
  {
  }

  /** ide_multwrite: one burst of min(mcount, remaining) sectors, gathered in chain order. */
  method MultWrite(drive: Drive, rq: Request, mem: array<Word16>, mcount0: nat)
    requires rq.Valid(mem.Length) && rq.nr_sectors > 0 && mcount0 > 0
    modifies rq, drive, mem
    ensures rq.Valid(mem.Length) && mem[..] == old(mem[..])
    ensures var n := Min(mcount0, old(rq.nr_sectors));
            && rq.nr_sectors == old(rq.nr_sectors) - n && rq.sector == old(rq.sector) + n
            && drive.bursts == old(drive.bursts) + [n]
            && 0 <= old(rq.Done()) <= rq.Done() <= Total(rq.chain)
            && drive.output == old(drive.output)
               + Sectors(drive.bswap, mem[..], rq.chain, old(rq.Done()), rq.Done())
  {
    hide Sectors, Request.Valid, Total, Start, ValidChain, Data, Coded;
    var mcount: nat := mcount0;
    ghost var m, total := mem[..], rq.nr_sectors;
    rq.CursorBounds(mem.Length);
    ghost var from := rq.Done();
    drive.bursts := drive.bursts + [Min(mcount, rq.nr_sectors)];
    assert rq.Valid(|m|);
    NoSectors(drive.bswap, m, rq, from);
    while mcount > 0
      invariant rq.Valid(mem.Length) && mem[..] == m && ValidChain(rq.chain, |m|)
      invariant rq.nr_sectors <= total && rq.sector == old(rq.sector) + (total - rq.nr_sectors)
      invariant rq.Done() == from + total - rq.nr_sectors && from <= rq.Done() <= Total(rq.chain)
      invariant mcount > 0 ==> rq.nr_sectors > 0 && mcount + (total - rq.nr_sectors) == mcount0
      invariant mcount == 0 ==> total - rq.nr_sectors == Min(mcount0, total)
      invariant drive.bursts == old(drive.bursts) + [Min(mcount0, total)]
      invariant drive.output == old(drive.output) + Sectors(drive.bswap, m, rq.chain, from, rq.Done())
      decreases mcount
    {
      var n, exhausted := OutputChunk(drive, rq, mem, mcount);
      mcount := if exhausted then 0 else mcount - n;
      SectorsConcat(drive.bswap, m, rq.chain, from, rq.Done() - n, rq.Done());
    }
  }
}
