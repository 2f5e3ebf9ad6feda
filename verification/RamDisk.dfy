/** The RAM disk: a lazily filled page cache that refines flat, zero-initialised memory. */
module RamDisk {
  import opened Arith
  import opened Errno
  import opened Sequences

  type Byte = bv8

  const PAGE: nat := 4096
  const SECTOR: nat := 512

  /** A cached page. Buffer i, if there are buffers, covers bsize bytes and may be up to date on its own. */
  datatype Page = Page(data: seq<Byte>, uptodate: bool, buffers: seq<bool>, bsize: nat)
  {
    predicate Valid() {
      && |data| == PAGE
      && (buffers != [] ==> bsize > 0 && |buffers| * bsize == PAGE)
    }

    predicate Current(k: nat)
      requires Valid() && k < PAGE
    {
      uptodate || (buffers != [] && BufferOf(k) < |buffers| && buffers[BufferOf(k)])
    }

    function BufferOf(k: nat): nat
      requires Valid() && buffers != []
    {
      k / bsize
    }

    /** The byte the page stands for: what is not up to date reads as zero. */
    function At(k: nat): Byte
      requires Valid() && k < PAGE
    {
      if Current(k) then data[k] else 0
    }
  }

  function Zeros(n: nat): (r: seq<Byte>)
    ensures |r| == n
  {
    seq(n, _ => 0)
  }

  /** Byte k of a page lies in exactly one buffer. */
  lemma BufferBounds(k: nat, b: nat, n: nat, i: nat)
    requires b > 0 && k < n * b
    ensures k / b < n
    ensures k / b == i <==> i * b <= k < i * b + b
  {
    var q, r := k / b, k % b;
    assert k == q * b + r;
    Scale(n, q, b);
    Scale(i + 1, q, b);
    Scale(q + 1, i, b);
    assert (i + 1) * b == i * b + b && (q + 1) * b == q * b + b;
  }

  /** The data of a page whose first bh buffers have been brought up to date. */
  ghost predicate Cleared(data: seq<Byte>, page: Page, bh: nat) {
    && |data| == PAGE && page.Valid() && page.bsize > 0
    && forall k :: 0 <= k < PAGE ==> data[k] == if k / page.bsize < bh then page.At(k) else page.data[k]
  }

  lemma ClearNext(data: seq<Byte>, page: Page, bh: nat)
    requires Cleared(data, page, bh) && !page.uptodate && bh < |page.buffers|
    ensures bh * page.bsize + page.bsize <= PAGE
    ensures Cleared(if page.buffers[bh] then data else Overwrite(data, bh * page.bsize, Zeros(page.bsize)),
                    page, bh + 1)
  {
    var b, n := page.bsize, |page.buffers|;
    Scale(bh + 1, n, b);
    assert (bh + 1) * b == bh * b + b;
    var z := Zeros(b);
    var data' := if page.buffers[bh] then data else Overwrite(data, bh * b, z);
    hide Overwrite;
    forall k | 0 <= k < PAGE ensures data'[k] == if k / b < bh + 1 then page.At(k) else page.data[k] {
      BufferBounds(k, b, n, bh);
      if !page.buffers[bh] {
        OverwriteAt(data, bh * b, z, k);
      }
    }
  }

  lemma ClearAll(data: seq<Byte>, page: Page)
    requires Cleared(data, page, |page.buffers|) && page.buffers != []
    ensures forall k :: 0 <= k < PAGE ==> data[k] == page.At(k)
  {
    forall k | 0 <= k < PAGE ensures k / page.bsize < |page.buffers| {
      BufferBounds(k, page.bsize, |page.buffers|, 0);
    }
  }

  lemma ClearNone(page: Page)
    requires page.Valid() && page.buffers != []
    ensures Cleared(page.data, page, 0)
  {
  }

  lemma AllZero()
    ensures |Zeros(PAGE)| == PAGE && forall k :: 0 <= k < PAGE ==> Zeros(PAGE)[k] == 0
  {
  }

  /** make_page_uptodate: zero what is not up to date. */
  method MakePageUptodate(page: Page) returns (r: Page)
    requires page.Valid() && !page.uptodate
    ensures r.Valid() && r.uptodate
    ensures forall k :: 0 <= k < PAGE ==> r.At(k) == page.At(k)
  {
    hide Cleared, Overwrite, Zeros;
    if page.buffers != [] {
      r := page;
      ClearNone(page);
      var n, b := |page.buffers|, page.bsize;
      for bh := 0 to n
        invariant r.Valid() && |r.buffers| == n && r.bsize == b && !r.uptodate && Cleared(r.data, page, bh)
        invariant forall i :: bh <= i < n ==> r.buffers[i] == page.buffers[i]
      {
        ClearNext(r.data, page, bh);
        if !r.buffers[bh] {
          r := r.(data := Overwrite(r.data, bh * b, Zeros(b)), buffers := r.buffers[bh := true]);
        }
      }
      ClearAll(r.data, page);
    } else {
      r := page.(data := Zeros(PAGE));
      assert forall k :: 0 <= k < PAGE ==> r.data[k] == 0 by { AllZero(); }
    }
    r := r.(uptodate := true);
  }

  lemma PageAndOffset(index: nat, k: nat)
    requires k < PAGE
    ensures (index * PAGE + k) / PAGE == index && (index * PAGE + k) % PAGE == k
  {
  }

  /** Bringing buffer i of a page up to date with p. */
  lemma BufferWritten(page: Page, i: nat, p: seq<Byte>)
    requires page.Valid() && !page.uptodate && i < |page.buffers| && |p| == page.bsize
    ensures i * page.bsize + |p| <= PAGE
    ensures var page' := page.(data := Overwrite(page.data, i * page.bsize, p), buffers := page.buffers[i := true]);
            page'.Valid() && forall k :: 0 <= k < PAGE ==>
              page'.At(k) == if i * page.bsize <= k < i * page.bsize + |p| then p[k - i * page.bsize] else page.At(k)
  {
    var b, n := page.bsize, |page.buffers|;
    Scale(i + 1, n, b);
    assert (i + 1) * b == i * b + b;
    var page' := page.(data := Overwrite(page.data, i * b, p), buffers := page.buffers[i := true]);
    hide Overwrite;
    forall k | 0 <= k < PAGE
      ensures page'.At(k) == if i * b <= k < i * b + |p| then p[k - i * b] else page.At(k)
    {
      BufferBounds(k, b, n, i);
      OverwriteAt(page.data, i * b, p, k);
    }
  }

  // ---------- the flat memory ----------

  /** A write of bytes at a byte position of the disk. */
  datatype Record = Record(pos: nat, bytes: seq<Byte>)

  /** Flat memory after a history of writes: the last write that covers the byte, or zero. */
  function Flat(history: seq<Record>, pos: nat): Byte {
    if history == [] then 0
    else
      var w := history[|history| - 1];
      if w.pos <= pos < w.pos + |w.bytes| then w.bytes[pos - w.pos] else Flat(history[..|history| - 1], pos)
  }

  function FlatRange(history: seq<Record>, pos: nat, len: nat): (r: seq<Byte>)
    ensures |r| == len
  {
    seq(len, i requires 0 <= i < len => Flat(history, pos + i))
  }

  /** A segment of a bio: len bytes at address off of kernel memory. */
  datatype BioVec = BioVec(off: nat, len: nat)

  /** h' is h after writing p at pos. */
  ghost predicate Extends(h: seq<Record>, h': seq<Record>, pos: nat, p: seq<Byte>) {
    forall k: nat :: Flat(h', k) == if pos <= k < pos + |p| then p[k - pos] else Flat(h, k)
  }

  lemma FlatAppend(h: seq<Record>, w: Record, pos: nat)
    ensures Flat(h + [w], pos) == if w.pos <= pos < w.pos + |w.bytes| then w.bytes[pos - w.pos] else Flat(h, pos)
  {
    assert (h + [w])[..|h|] == h;
  }

  lemma ExtendsByRecord(h: seq<Record>, h': seq<Record>, pos: nat, p: seq<Byte>, q: seq<Byte>)
    requires Extends(h, h', pos, p)
    ensures Extends(h, h' + [Record(pos + |p|, q)], pos, p + q)
  {
    var w := Record(pos + |p|, q);
    forall k: nat ensures Flat(h' + [w], k) == if pos <= k < pos + |p + q| then (p + q)[k - pos] else Flat(h, k) {
      FlatAppend(h', w, k);
      assert Flat(h', k) == if pos <= k < pos + |p| then p[k - pos] else Flat(h, k);
    }
  }

  /** How far a transfer between memory at off and the disk at base has got: n bytes moved, the
      history and the memory going from h0 and m0 to h and m. */
  ghost predicate Moved(read: bool, h0: seq<Record>, h: seq<Record>, m0: seq<Byte>, m: seq<Byte>,
                        base: nat, off: nat, n: nat) {
    && off + n <= |m0|
    && if read then h == h0 && m == Overwrite(m0, off, FlatRange(h0, base, n))
       else m == m0 && Extends(h0, h, base, m0[off..off + n])
  }

  /** One chunk of count bytes. */
  ghost predicate Chunk(read: bool, h: seq<Record>, h': seq<Record>, m: seq<Byte>, m': seq<Byte>,
                        pos: nat, at: nat, count: nat) {
    && at + count <= |m|
    && if read then h' == h && m' == Overwrite(m, at, FlatRange(h, pos, count))
       else m' == m && h' == h + [Record(pos, m[at..at + count])]
  }

  lemma MovedNothing(read: bool, h: seq<Record>, m: seq<Byte>, base: nat, off: nat)
    requires off <= |m|
    ensures Moved(read, h, h, m, m, base, off, 0)
  {
    assert m == Overwrite(m, off, FlatRange(h, base, 0));
  }

  lemma MovedChunk(read: bool, h0: seq<Record>, h: seq<Record>, h': seq<Record>,
                   m0: seq<Byte>, m: seq<Byte>, m': seq<Byte>,
                   base: nat, off: nat, n: nat, count: nat)
    requires Moved(read, h0, h, m0, m, base, off, n) && Chunk(read, h, h', m, m', base + n, off + n, count)
    ensures Moved(read, h0, h', m0, m', base, off, n + count)
  {
    hide Overwrite, Extends;
    if read {
      assert FlatRange(h, base, n + count) == FlatRange(h, base, n) + FlatRange(h, base + n, count);
      OverwriteTwice(m0, off, FlatRange(h, base, n), FlatRange(h, base + n, count));
    } else {
      ExtendsByRecord(h0, h, base, m0[off..off + n], m0[off + n..off + n + count]);
      assert m0[off..off + n] + m0[off + n..off + n + count] == m0[off..off + n + count];
    }
  }

  // ---------- bios ----------

  function TotalLen(vecs: seq<BioVec>): nat {
    if vecs == [] then 0 else vecs[0].len + TotalLen(vecs[1..])
  }

  /** The sector of segment i: whole sectors of the earlier segments are counted. */
  function SectorOf(vecs: seq<BioVec>, sector: nat, i: nat): nat
    requires i <= |vecs|
  {
    if i == 0 then sector else SectorOf(vecs, sector, i - 1) + vecs[i - 1].len / SECTOR
  }

  ghost predicate InMemory(vecs: seq<BioVec>, size: nat) {
    forall i :: 0 <= i < |vecs| ==> vecs[i].off + vecs[i].len <= size
  }

  ghost predicate Disjoint(vecs: seq<BioVec>) {
    forall i, j :: 0 <= i < j < |vecs| ==>
      vecs[i].off + vecs[i].len <= vecs[j].off || vecs[j].off + vecs[j].len <= vecs[i].off
  }

  /** The writes of the first n segments of a bio. */
  function Records(vecs: seq<BioVec>, sector: nat, mem: seq<Byte>, n: nat): (r: seq<Record>)
    requires n <= |vecs| && InMemory(vecs, |mem|)
    ensures |r| == n
  {
    if n == 0 then []
    else Records(vecs, sector, mem, n - 1)
         + [Record(SectorOf(vecs, sector, n - 1) * SECTOR, mem[vecs[n - 1].off..vecs[n - 1].off + vecs[n - 1].len])]
  }

  /** Two histories leave the same flat memory. */
  ghost predicate SameDisk(h: seq<Record>, h': seq<Record>) {
    forall pos: nat :: Flat(h, pos) == Flat(h', pos)
  }

  lemma {:induction false} TotalLenAppend(vecs: seq<BioVec>, v: BioVec)
    ensures TotalLen(vecs + [v]) == TotalLen(vecs) + v.len
  {
    if vecs != [] {
      TotalLenAppend(vecs[1..], v);
      assert (vecs + [v])[1..] == vecs[1..] + [v];
    }
  }

  /** Whole-sector segments lie one behind the other on the disk. */
  lemma {:induction false} SegmentsContiguous(vecs: seq<BioVec>, sector: nat, i: nat)
    requires i <= |vecs| && forall k :: 0 <= k < i ==> vecs[k].len % SECTOR == 0
    ensures SectorOf(vecs, sector, i) * SECTOR == sector * SECTOR + TotalLen(vecs[..i])
  {
    if i > 0 {
      SegmentsContiguous(vecs, sector, i - 1);
      TotalLenAppend(vecs[..i - 1], vecs[i - 1]);
      assert vecs[..i] == vecs[..i - 1] + [vecs[i - 1]];
    }
  }

  lemma BufferCount(m: nat, n: nat, b: nat)
    requires b > 0 && m * b == n * b
    ensures m == n
  {
    Scale(m + 1, n, b);
    Scale(n + 1, m, b);
    assert (m + 1) * b == m * b + b && (n + 1) * b == n * b + b;
  }

  /** Flat memory returns the byte of the last write i that covers a position, and zero (i = -1) where
      nothing was written. */
  lemma {:induction false} FlatIsLastWrite(h: seq<Record>, pos: nat, i: int)
    requires -1 <= i < |h| && (i >= 0 ==> h[i].pos <= pos < h[i].pos + |h[i].bytes|)
    requires forall j :: i < j < |h| ==> !(h[j].pos <= pos < h[j].pos + |h[j].bytes|)
    ensures Flat(h, pos) == if i < 0 then 0 else h[i].bytes[pos - h[i].pos]
  {
    if i < |h| - 1 {
      var w := h[|h| - 1];
      assert !(w.pos <= pos < w.pos + |w.bytes|);
      FlatIsLastWrite(h[..|h| - 1], pos, i);
    }
  }

  ghost predicate Covered(vecs: seq<BioVec>, sector: nat, n: nat, pos: nat)
    requires n <= |vecs|
  {
    n > 0 && (Covered(vecs, sector, n - 1, pos) ||
              var base := SectorOf(vecs, sector, n - 1) * SECTOR; base <= pos < base + vecs[n - 1].len)
  }

  /** Nothing outside the first n segments changed. */
  ghost predicate OnlyWithin(vecs: seq<BioVec>, sector: nat, n: nat, h: seq<Record>, h': seq<Record>)
    requires n <= |vecs|
  {
    forall pos: nat :: !Covered(vecs, sector, n, pos) ==> Flat(h', pos) == Flat(h, pos)
  }

  lemma Confined(vecs: seq<BioVec>, sector: nat, i: nat, h0: seq<Record>, h: seq<Record>, h': seq<Record>, p: seq<Byte>)
    requires i < |vecs| && OnlyWithin(vecs, sector, i, h0, h) && |p| <= vecs[i].len
    requires Extends(h, h', SectorOf(vecs, sector, i) * SECTOR, p)
    ensures OnlyWithin(vecs, sector, i + 1, h0, h')
  {
    forall pos: nat | !Covered(vecs, sector, i + 1, pos) ensures Flat(h', pos) == Flat(h0, pos) {
      assert !Covered(vecs, sector, i, pos);
    }
  }

  /** Segment k has been read. */
  ghost predicate HasRead(vecs: seq<BioVec>, sector: nat, k: nat, m: seq<Byte>, h: seq<Record>)
    requires k < |vecs| && InMemory(vecs, |m|)
  {
    m[vecs[k].off..vecs[k].off + vecs[k].len] == FlatRange(h, SectorOf(vecs, sector, k) * SECTOR, vecs[k].len)
  }

  /** The first n segments hold the flat memory of their disk positions. */
  ghost predicate AllRead(vecs: seq<BioVec>, sector: nat, n: nat, mem: seq<Byte>, h: seq<Record>)
    requires n <= |vecs| && InMemory(vecs, |mem|)
  {
    forall k :: 0 <= k < n ==> HasRead(vecs, sector, k, mem, h)
  }

  /** The first n segments are done: read from the disk h0, or written to it. */
  ghost predicate Served(read: bool, vecs: seq<BioVec>, sector: nat, n: nat, h0: seq<Record>, h: seq<Record>,
                         mem: seq<Byte>)
    requires n <= |vecs| && InMemory(vecs, |mem|)
  {
    if read then AllRead(vecs, sector, n, mem, h0) else SameDisk(h0 + Records(vecs, sector, mem, n), h)
  }

  lemma SegmentWritten(h0: seq<Record>, h: seq<Record>, h': seq<Record>, vecs: seq<BioVec>, sector: nat, i: nat,
                       mem: seq<Byte>)
    requires i < |vecs| && InMemory(vecs, |mem|) && SameDisk(h0 + Records(vecs, sector, mem, i), h)
    requires Extends(h, h', SectorOf(vecs, sector, i) * SECTOR, mem[vecs[i].off..vecs[i].off + vecs[i].len])
    ensures SameDisk(h0 + Records(vecs, sector, mem, i + 1), h')
  {
    var w := Record(SectorOf(vecs, sector, i) * SECTOR, mem[vecs[i].off..vecs[i].off + vecs[i].len]);
    var g := h0 + Records(vecs, sector, mem, i);
    assert h0 + Records(vecs, sector, mem, i + 1) == g + [w];
    forall pos: nat ensures Flat(g + [w], pos) == Flat(h', pos) {
      FlatAppend(g, w, pos);
      assert Flat(g, pos) == Flat(h, pos);
      assert Flat(h', pos) == if w.pos <= pos < w.pos + |w.bytes| then w.bytes[pos - w.pos] else Flat(h, pos);
    }
  }

  lemma SegmentKept(vecs: seq<BioVec>, sector: nat, i: nat, k: nat, m: seq<Byte>, h: seq<Record>, p: seq<Byte>)
    requires k < i < |vecs| && InMemory(vecs, |m|) && Disjoint(vecs) && HasRead(vecs, sector, k, m, h)
    requires |p| == vecs[i].len
    ensures HasRead(vecs, sector, k, Overwrite(m, vecs[i].off, p), h)
  {
    hide Overwrite, FlatRange, SectorOf;
    OverwriteOutside(m, vecs[i].off, p, vecs[k].off, vecs[k].off + vecs[k].len);
  }

  lemma SegmentRead(vecs: seq<BioVec>, sector: nat, i: nat, m: seq<Byte>, h: seq<Record>)
    requires i < |vecs| && InMemory(vecs, |m|) && Disjoint(vecs) && AllRead(vecs, sector, i, m, h)
    ensures var m' := Overwrite(m, vecs[i].off, FlatRange(h, SectorOf(vecs, sector, i) * SECTOR, vecs[i].len));
            AllRead(vecs, sector, i + 1, m', h)
  {
    var p := FlatRange(h, SectorOf(vecs, sector, i) * SECTOR, vecs[i].len);
    var m' := Overwrite(m, vecs[i].off, p);
    OverwriteThere(m, vecs[i].off, p);
    assert HasRead(vecs, sector, i, m', h);
    hide Overwrite, FlatRange, SectorOf, HasRead;
    forall k | 0 <= k <= i ensures HasRead(vecs, sector, k, m', h) {
      if k < i {
        SegmentKept(vecs, sector, i, k, m, h, p);
      }
    }
  }

  class Disk {
    const capacity: nat            // in sectors
    const garbage: seq<Byte>       // what a fresh page holds
    var pages: map<nat, Page>      // the page cache of the block device
    ghost var history: seq<Record> // every write that reached the disk

    /** The byte of the disk at pos. */
    ghost function At(pos: nat): Byte
      reads this
    {
      var i := pos / PAGE;
      if i in pages && pages[i].Valid() then pages[i].At(pos % PAGE) else 0
    }

    ghost predicate Valid()
      reads this
    {
      && |garbage| == PAGE
      && (forall i :: i in pages ==> pages[i].Valid())
      && (forall pos: nat :: At(pos) == Flat(history, pos))
    }

    constructor (capacity: nat, garbage: seq<Byte>)
      requires |garbage| == PAGE
      ensures Valid() && pages == map[] && history == [] && this.capacity == capacity
    {
      this.capacity, this.garbage, pages, history := capacity, garbage, map[], [];
    }

    /** grab_cache_page with the up-to-date check: the page, or nothing when it is not cached and
        memory is short. */
    method GrabPage(index: nat, failing: set<nat>) returns (ok: bool)
      requires Valid()
      modifies this`pages
      ensures history == old(history)
      ensures Valid() && old(pages).Keys <= pages.Keys <= old(pages).Keys + {index}
      ensures forall pos: nat :: At(pos) == old(At(pos))
      ensures ok <==> index in old(pages) || index !in failing
      ensures if ok then index in pages && pages[index].uptodate else pages == old(pages)
    {
      ok := index in pages || index !in failing;
      if !ok {
        return;
      }
      var page := if index in pages then pages[index] else Page(garbage, false, [], 0);
      if !page.uptodate {
        page := MakePageUptodate(page);
      }
      pages := pages[index := page];
    }

    /** Store bytes at pos within one up-to-date page. */
    method StoreInPage(index: nat, offset: nat, p: seq<Byte>)
      requires Valid() && index in pages && pages[index].uptodate && offset + |p| <= PAGE
      modifies this
      ensures Valid() && pages.Keys == old(pages).Keys
      ensures history == old(history) + [Record(index * PAGE + offset, p)]
    {
      var page := pages[index];
      pages := pages[index := page.(data := Overwrite(page.data, offset, p))];
      history := history + [Record(index * PAGE + offset, p)];
      forall pos: nat ensures At(pos) == Flat(history, pos) {
        assert old(At(pos)) == Flat(old(history), pos);
        assert history[..|history| - 1] == old(history);
        assert pos == (pos / PAGE) * PAGE + pos % PAGE;
      }
    }

    /** The environment's other way in: a block written through the buffer cache brings one buffer of a
        page up to date and leaves the others as they are. */
    method WriteBuffer(index: nat, bsize: nat, i: nat, p: seq<Byte>)
      requires Valid() && bsize > 0 && PAGE % bsize == 0 && |p| == bsize && i < PAGE / bsize
      requires index in pages ==> !pages[index].uptodate
                                  && (pages[index].buffers != [] ==> pages[index].bsize == bsize)
      modifies this
      ensures Valid() && history == old(history) + [Record(index * PAGE + i * bsize, p)]
      ensures index in pages && !pages[index].uptodate
    {
      var n := PAGE / bsize;
      assert n * bsize == PAGE;
      var page := if index in pages then pages[index] else Page(garbage, false, [], 0);
      if page.buffers == [] {
        page := page.(buffers := seq(n, _ => false), bsize := bsize);
      } else {
        BufferCount(|page.buffers|, n, bsize);
      }
      Scale(i + 1, n, bsize);
      assert (i + 1) * bsize == i * bsize + bsize;
      var page' := page.(data := Overwrite(page.data, i * bsize, p), buffers := page.buffers[i := true]);
      BufferWritten(page, i, p);
      hide Overwrite, Page.At;
      pages := pages[index := page'];
      history := history + [Record(index * PAGE + i * bsize, p)];
      forall pos: nat ensures At(pos) == Flat(history, pos) {
        assert old(At(pos)) == Flat(old(history), pos);
        assert history[..|history| - 1] == old(history);
        assert pos == (pos / PAGE) * PAGE + pos % PAGE;
      }
    }

    /** Bringing a page up to date after a block of it was written through the buffer cache: the block is
        kept, and every other byte of the page is what the disk held before. */
    method BufferThenPage(index: nat, bsize: nat, i: nat, p: seq<Byte>)
      requires Valid() && bsize > 0 && PAGE % bsize == 0 && |p| == bsize && i < PAGE / bsize
      requires index in pages ==> !pages[index].uptodate
                                  && (pages[index].buffers != [] ==> pages[index].bsize == bsize)
      modifies this
      ensures Valid() && index in pages && pages[index].uptodate
      ensures forall k :: 0 <= k < PAGE ==>
        pages[index].data[k]
        == if i * bsize <= k < i * bsize + bsize then p[k - i * bsize] else old(At(index * PAGE + k))
    {
      ghost var before := history;
      WriteBuffer(index, bsize, i, p);
      var _ := GrabPage(index, {});
      assert history[..|history| - 1] == before;
      forall k | 0 <= k < PAGE
        ensures pages[index].data[k]
             == if i * bsize <= k < i * bsize + bsize then p[k - i * bsize] else old(At(index * PAGE + k))
      {
        PageAndOffset(index, k);
        assert At(index * PAGE + k) == Flat(history, index * PAGE + k);
        assert old(At(index * PAGE + k)) == Flat(before, index * PAGE + k);
      }
    }

    static function LastByte(base: nat, len: nat): nat {
      if len == 0 then base else base + len - 1
    }

    static function LastPage(base: nat, len: nat): nat {
      LastByte(base, len) / PAGE
    }

    /** The page indices a transfer of len bytes from byte position base visits. */
    static predicate Visits(base: nat, len: nat, index: nat) {
      base / PAGE <= index <= LastPage(base, len)
    }

    /** These are the pages that share a byte with the range, and the page of its position if it is empty. */
    static lemma VisitsMeans(base: nat, len: nat, index: nat)
      ensures Visits(base, len, index)
         <==> base < (index + 1) * 4096 && index * 4096 < base + if len == 0 then 1 else len
    {
    }

    /** Pages are only added, and only where memory allowed it. */
    static ghost predicate Grown(before: set<nat>, after: set<nat>, failing: set<nat>) {
      before <= after && forall i :: i in after ==> i in before || i !in failing
    }

    /** The pages lo .. hi - 1 were grabbed, and only those. */
    static ghost predicate Fetched(before: set<nat>, after: set<nat>, failing: set<nat>, lo: nat, hi: nat) {
      && Grown(before, after, failing)
      && (forall i: nat :: i in after ==> i in before || lo <= i < hi)
      && (forall i: nat :: lo <= i < hi ==> i in before || i !in failing)
    }

    static lemma FetchedNothing(cached: set<nat>, failing: set<nat>, lo: nat)
      ensures Fetched(cached, cached, failing, lo, lo)
    {
    }

    /** memcpy out of an up-to-date page. */
    method ReadPage(mem: array<Byte>, dst: nat, index: nat, offset: nat, count: nat)
      requires Valid() && index in pages && pages[index].uptodate
      requires offset + count <= PAGE && dst + count <= mem.Length
      modifies mem
      ensures mem[..] == Overwrite(old(mem[..]), dst, FlatRange(history, index * PAGE + offset, count))
    {
      var src := pages[index].data;
      forall k | 0 <= k < count {
        mem[dst + k] := src[offset + k];
      }
      var part := src[offset..offset + count];
      forall k | 0 <= k < count ensures part[k] == Flat(history, index * PAGE + offset + k) {
        var pos := index * PAGE + offset + k;
        assert pos / PAGE == index && pos % PAGE == offset + k;
        assert At(pos) == Flat(history, pos);
      }
    }

    /** memcpy between the bio's memory and an up-to-date page, in either direction. */
    method MoveChunk(read: bool, mem: array<Byte>, vec_offset: nat, index: nat, offset: nat, count: nat)
      requires Valid() && index in pages && pages[index].uptodate
      requires offset + count <= PAGE && vec_offset + count <= mem.Length
      modifies this, if read then {mem} else {}
      ensures Valid() && pages.Keys == old(pages).Keys
      ensures Chunk(read, old(history), history, old(mem[..]), mem[..], index * PAGE + offset, vec_offset, count)
    {
      if read {
        ReadPage(mem, vec_offset, index, offset, count);
      } else {
        StoreInPage(index, offset, mem[vec_offset..vec_offset + count]);
      }
    }

    /** One round of the page loop: grab the page and move count bytes. */
    method OnePage(read: bool, mem: array<Byte>, vec_offset: nat, index: nat, offset: nat, count: nat,
                   failing: set<nat>, ghost h0: seq<Record>, ghost m0: seq<Byte>, ghost base: nat, ghost off: nat,
                   ghost cached: set<nat>, ghost lo: nat)
      returns (ok: bool)
      requires Valid() && offset + count <= PAGE && vec_offset + count <= mem.Length == |m0|
      requires off <= vec_offset && index * PAGE + offset == base + (vec_offset - off) && lo <= index
      requires Fetched(cached, pages.Keys, failing, lo, index)
      requires Moved(read, h0, history, m0, mem[..], base, off, vec_offset - off)
      modifies this, if read then {mem} else {}
      ensures Valid() && (ok <==> index in cached || index !in failing)
      ensures Fetched(cached, pages.Keys, failing, lo, if ok then index + 1 else index)
      ensures Moved(read, h0, history, m0, mem[..], base, off, vec_offset - off + if ok then count else 0)
    {
      hide Moved, Chunk, Disk.At, Page.Valid;
      ok := GrabPage(index, failing);
      if ok {
        ghost var h, m := history, mem[..];
        MoveChunk(read, mem, vec_offset, index, offset, count);
        MovedChunk(read, h0, h, history, m0, m, mem[..], base, off, vec_offset - off, count);
      }
    }

    /** The page loop, from page index and the offset in it. */
    method PageLoop(read: bool, mem: array<Byte>, vec: BioVec, index0: nat, offset0: nat, failing: set<nat>,
                    ghost base: nat)
      returns (err: int, ghost copied: nat, ghost stop: nat)
      requires Valid() && vec.off + vec.len <= mem.Length
      requires index0 * PAGE + offset0 == base && offset0 < PAGE
      requires Moved(read, history, history, mem[..], mem[..], base, vec.off, 0)
      modifies this, if read then {mem} else {}
      ensures Valid() && copied <= vec.len && (err == 0 || err == ENOMEM)
      ensures Fetched(old(pages).Keys, pages.Keys, failing, index0, stop)
      ensures if err == 0 then
                copied == vec.len && index0 < stop && (stop - 1) * PAGE <= LastByte(base, vec.len) < stop * PAGE
              else
                && stop !in old(pages) && stop in failing && index0 <= stop
                && stop * PAGE <= base + copied < stop * PAGE + PAGE && (copied == 0 || copied < vec.len)
      ensures Moved(read, old(history), history, old(mem[..]), mem[..], base, vec.off, copied)
    {
      hide Moved, Fetched, Disk.Valid;
      var index: nat, offset: nat, vec_offset: nat, size: nat, first := index0, offset0, vec.off, vec.len, true;
      err, copied, stop := 0, 0, index0;
      FetchedNothing(pages.Keys, failing, index0);
      while first || size > 0
        invariant copied + size == vec.len && vec_offset == vec.off + copied && index0 <= index == stop
        invariant first || size > 0 ==> index * PAGE + offset == base + copied && offset < PAGE
        invariant if first then copied == 0
                  else index0 < index && (index - 1) * PAGE <= LastByte(base, copied) < index * PAGE
        invariant Valid()
        invariant Fetched(old(pages).Keys, pages.Keys, failing, index0, index)
        invariant Moved(read, old(history), history, old(mem[..]), mem[..], base, vec.off, copied)
        decreases first, size
      {
        var count: nat := if PAGE - offset > size then size else PAGE - offset;
        size := size - count;
        var ok := OnePage(read, mem, vec_offset, index, offset, count, failing,
                          old(history), old(mem[..]), base, vec.off, old(pages).Keys, index0);
        if !ok {
          err := ENOMEM;
          return;
        }
        index := index + 1;
        offset := 0;
        vec_offset := vec_offset + count;
        copied, stop := copied + count, index;
        first := false;
      }
    }

    static lemma FirstPage(sector: nat)
      ensures var base := sector * SECTOR;
              base / PAGE == sector / (PAGE / SECTOR) && (base / PAGE) * PAGE + base % PAGE == base
    {
    }

    static lemma PageOf(pos: nat, index: nat)
      ensures pos / PAGE == index <==> index * PAGE <= pos < index * PAGE + PAGE
    {
    }

    /** rd_blkdev_pagecache_IO; copied is how far it got. It fails exactly when a page that it visits,
        stop, is neither cached nor can be allocated. */
    method PagecacheIO(read: bool, mem: array<Byte>, vec: BioVec, sector: nat, failing: set<nat>)
      returns (err: int, ghost copied: nat, ghost stop: nat)
      requires Valid() && vec.off + vec.len <= mem.Length
      modifies this, if read then {mem} else {}
      ensures Valid() && copied <= vec.len
      ensures err == 0 || err == ENOMEM
      ensures err == 0 ==> copied == vec.len
      ensures Fetched(old(pages).Keys, pages.Keys, failing, sector * SECTOR / PAGE, stop)
      ensures if err == 0 then stop == LastPage(sector * SECTOR, vec.len) + 1
              else Visits(sector * SECTOR, vec.len, stop) && stop !in old(pages) && stop in failing
      ensures Moved(read, old(history), history, old(mem[..]), mem[..], sector * SECTOR, vec.off, copied)
    {
      ghost var base: nat := sector * SECTOR;
      FirstPage(sector);
      MovedNothing(read, history, mem[..], base, vec.off);
      var index: nat := sector / (PAGE / SECTOR);
      err, copied, stop := PageLoop(read, mem, vec, index, (sector * SECTOR) % PAGE, failing, base);
      PageOf(if err == 0 then LastByte(base, vec.len) else base + copied, if err == 0 then stop - 1 else stop);
    }

    static ghost predicate Available(base: nat, len: nat, cached: set<nat>, failing: set<nat>) {
      forall i: nat :: Visits(base, len, i) ==> i in cached || i !in failing
    }

    /** Every page that a segment visits is cached or can be allocated. */
    static ghost predicate Allocatable(vecs: seq<BioVec>, sector: nat, n: nat, cached: set<nat>, failing: set<nat>)
      requires n <= |vecs|
    {
      forall k, i: nat :: 0 <= k < n && Visits(SectorOf(vecs, sector, k) * SECTOR, vecs[k].len, i)
                          ==> i in cached || i !in failing
    }

    static lemma AllocatableStep(vecs: seq<BioVec>, sector: nat, i: nat, cached: set<nat>, now: set<nat>,
                                 failing: set<nat>)
      requires i < |vecs| && Grown(cached, now, failing)
      ensures Allocatable(vecs, sector, i + 1, cached, failing) <==>
                Allocatable(vecs, sector, i, cached, failing)
                && Available(SectorOf(vecs, sector, i) * SECTOR, vecs[i].len, now, failing)
    {
      if Allocatable(vecs, sector, i + 1, cached, failing) {
        forall k, j: nat | 0 <= k < i && Visits(SectorOf(vecs, sector, k) * SECTOR, vecs[k].len, j)
          ensures j in cached || j !in failing {}
      }
    }

    /** One round of the segment loop. */
    method Segment(read: bool, mem: array<Byte>, vecs: seq<BioVec>, ghost sector: nat, i: nat, sect: nat,
                   failing: set<nat>, ghost ret: int, ghost h0: seq<Record>, ghost cached: set<nat>)
      returns (err: int)
      requires Valid() && InMemory(vecs, mem.Length) && (read ==> Disjoint(vecs))
      requires i < |vecs| && sect == SectorOf(vecs, sector, i)
      requires Grown(cached, pages.Keys, failing) && (ret == 0 <==> Allocatable(vecs, sector, i, cached, failing))
      requires if read then history == h0 else OnlyWithin(vecs, sector, i, h0, history)
      requires ret == 0 ==> Served(read, vecs, sector, i, h0, history, mem[..])
      modifies this, if read then {mem} else {}
      ensures Valid() && Grown(cached, pages.Keys, failing)
      ensures ret == err == 0 <==> Allocatable(vecs, sector, i + 1, cached, failing)
      ensures if read then history == h0 else mem[..] == old(mem[..]) && OnlyWithin(vecs, sector, i + 1, h0, history)
      ensures ret == err == 0 ==> Served(read, vecs, sector, i + 1, h0, history, mem[..])
    {
      ghost var h, m := history, mem[..];
      ghost var copied, stop;
      err, copied, stop := PagecacheIO(read, mem, vecs[i], sect, failing);
      AllocatableStep(vecs, sector, i, cached, old(pages).Keys, failing);
      if read {
        if ret == err == 0 { SegmentRead(vecs, sector, i, m, history); }
      } else {
        if ret == err == 0 { SegmentWritten(h0, h, history, vecs, sector, i, mem[..]); }
        Confined(vecs, sector, i, h0, h, history, m[vecs[i].off..vecs[i].off + copied]);
      }
    }

    static lemma NothingServed(read: bool, vecs: seq<BioVec>, sector: nat, h: seq<Record>, mem: seq<Byte>,
                               cached: set<nat>, failing: set<nat>)
      requires InMemory(vecs, |mem|)
      ensures Served(read, vecs, sector, 0, h, h, mem) && OnlyWithin(vecs, sector, 0, h, h)
      ensures Grown(cached, cached, failing) && Allocatable(vecs, sector, 0, cached, failing)
    {
      assert h + [] == h;
    }

    /** rd_make_request. A write leaves the disk as flat memory after the segments' writes, a read
        fills every segment with flat memory; a bio fails exactly when it exceeds the capacity or
        a page that it needs cannot be allocated. */
    method MakeRequest(read: bool, mem: array<Byte>, vecs: seq<BioVec>, sector: nat, failing: set<nat>)
      returns (ok: bool)
      requires Valid() && InMemory(vecs, mem.Length) && (read ==> Disjoint(vecs))
      modifies this, if read then {mem} else {}
      ensures Valid()
      ensures ok <==> sector + TotalLen(vecs) / SECTOR <= capacity
                      && Allocatable(vecs, sector, |vecs|, old(pages).Keys, failing)
      ensures sector + TotalLen(vecs) / SECTOR > capacity ==> history == old(history) && mem[..] == old(mem[..])
      ensures if read then history == old(history)
              else mem[..] == old(mem[..]) && OnlyWithin(vecs, sector, |vecs|, old(history), history)
      ensures ok ==> Served(read, vecs, sector, |vecs|, old(history), history, mem[..])
    {
      if sector + TotalLen(vecs) / SECTOR > capacity {
        return false;
      }
      var sect := sector;
      var ret := 0;
      NothingServed(read, vecs, sector, history, mem[..], pages.Keys, failing);
      hide Served, OnlyWithin, Allocatable, Disk.Valid, Grown, InMemory, Disjoint;
      for i := 0 to |vecs|
        invariant Valid() && sect == SectorOf(vecs, sector, i)
        invariant Grown(old(pages).Keys, pages.Keys, failing)
        invariant ret == 0 <==> Allocatable(vecs, sector, i, old(pages).Keys, failing)
        invariant if read then history == old(history)
                  else mem[..] == old(mem[..]) && OnlyWithin(vecs, sector, i, old(history), history)
        invariant ret == 0 ==> Served(read, vecs, sector, i, old(history), history, mem[..])
      {
        var err := Segment(read, mem, vecs, sector, i, sect, failing, ret, old(history), old(pages).Keys);
        if err != 0 {
          ret := err;
        }
        sect := sect + vecs[i].len / SECTOR;
      }
      ok := ret == 0;
    }
  }
}
