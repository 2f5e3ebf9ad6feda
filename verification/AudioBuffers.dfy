/** The fragment allocator of the OSS driver: audio_setup_buf and audio_clear_buf over an arbitrary
    coherent-memory allocator. */
module AudioBuffers {
  import opened Errno
  import opened Wrappers
  import opened Arith

  datatype Block = Block(start: nat, size: nat)

  predicate Apart(a: Block, b: Block) {
    a.start + a.size <= b.start || b.start + b.size <= a.start
  }

  /** Live blocks are not empty and never overlap. */
  ghost predicate Consistent(live: set<Block>) {
    && (forall b :: b in live ==> b.size > 0)
    && (forall a, b :: a in live && b in live && a != b ==> Apart(a, b))
  }

  ghost predicate Granted(b: Block, live: set<Block>, live': set<Block>, granted: seq<Block>, granted': seq<Block>) {
    b !in live && live' == live + {b} && granted' == granted + [b]
  }

  /** A request for so many bytes is granted. */
  ghost predicate Grants(answers: seq<Option<nat>>, live: set<Block>, size: nat) {
    answers != [] && answers[0].Some? && forall b :: b in live ==> Apart(Block(answers[0].value, size), b)
  }

  function Rest(answers: seq<Option<nat>>): seq<Option<nat>> {
    if answers == [] then [] else answers[1..]
  }

  /** A request to the pool. */
  datatype Request = Request(frags: nat, granted: bool)

  /** The requests for a number of fragments, left of them still without memory, when the next one asks for
      want: one fragment less after a refusal, all that is left after a grant, until none is left or a request
      for a single fragment has been refused. */
  ghost function Requests(answers: seq<Option<nat>>, live: set<Block>, left: nat, want: nat, size: nat): seq<Request>
    requires want <= left
    decreases left, want
  {
    if want == 0 then []
    else if Grants(answers, live, want * size) then
      [Request(want, true)]
      + Requests(Rest(answers), live + {Block(answers[0].value, want * size)}, left - want, left - want, size)
    else [Request(want, false)] + Requests(Rest(answers), live, left, want - 1, size)
  }

  /** Some request for a single fragment is refused. */
  ghost predicate Exhausted(answers: seq<Option<nat>>, live: set<Block>, left: nat, want: nat, size: nat)
    requires want <= left
  {
    Request(1, false) in Requests(answers, live, left, want, size)
  }

  lemma ExhaustedStep(answers: seq<Option<nat>>, live: set<Block>, left: nat, want: nat, size: nat)
    requires 0 < want <= left
    ensures Exhausted(answers, live, left, want, size)
       <==> if Grants(answers, live, want * size) then
              Exhausted(Rest(answers), live + {Block(answers[0].value, want * size)}, left - want, left - want, size)
            else want == 1 || Exhausted(Rest(answers), live, left, want - 1, size)
  {
  }

  lemma NothingLeft(answers: seq<Option<nat>>, live: set<Block>, size: nat)
    ensures !Exhausted(answers, live, 0, 0, size)
  {
  }

  /** A pool that grants the first request, for everything, is not exhausted; a pool that refuses every request
      is, if there is anything to ask for. */
  lemma {:induction false} Extremes(answers: seq<Option<nat>>, live: set<Block>, left: nat, want: nat, size: nat)
    requires 0 < want <= left
    ensures want == left && Grants(answers, live, left * size) ==> !Exhausted(answers, live, left, want, size)
    ensures (forall i :: 0 <= i < |answers| ==> answers[i].None?) ==> Exhausted(answers, live, left, want, size)
    decreases want
  {
    ExhaustedStep(answers, live, left, want, size);
    if want == left && Grants(answers, live, left * size) {
      NothingLeft(Rest(answers), live + {Block(answers[0].value, want * size)}, size);
    }
    if want > 1 {
      Extremes(Rest(answers), live, left, want - 1, size);
    }
  }

  /** dma_alloc_coherent and dma_free_coherent. The environment's answers say, for each request, where the
      block would go; a request without an answer, or whose block would overlap a live one, fails. */
  class Pool {
    var answers: seq<Option<nat>>
    var live: set<Block>
    ghost var granted: seq<Block>
    ghost var freed: seq<Block>

    ghost predicate Valid()
      reads this
    {
      Consistent(live)
    }

    constructor (answers: seq<Option<nat>>)
      ensures Valid() && live == {} && granted == [] && freed == [] && this.answers == answers
    {
      this.answers, live, granted, freed := answers, {}, [], [];
    }

    method Alloc(size: nat) returns (addr: Option<nat>)
      requires Valid() && size > 0
      modifies this
      ensures Valid() && freed == old(freed)
      ensures answers == Rest(old(answers)) && (addr.Some? <==> Grants(old(answers), old(live), size))
      ensures addr.Some? ==> old(answers) != [] && addr == old(answers)[0]
      ensures if addr.None? then live == old(live) && granted == old(granted)
              else Granted(Block(addr.value, size), old(live), live, old(granted), granted)
    {
      addr := None;
      if answers != [] {
        var a := answers[0];
        answers := answers[1..];
        if a.Some? && forall b :: b in live ==> Apart(Block(a.value, size), b) {
          addr := a;
          assert Apart(Block(a.value, size), Block(a.value, size)) ==> false;
          live := live + {Block(a.value, size)};
          granted := granted + [Block(a.value, size)];
        }
      }
    }

    method Free(b: Block)
      requires Valid() && b in live
      modifies this`live, this`freed
      ensures Valid() && live == old(live) - {b} && freed == old(freed) + [b]
    {
      live := live - {b};
      freed := freed + [b];
    }
  }

  /** audio_buf_t: master is the size of the block when this fragment owns one. */
  datatype AudioBuf = AudioBuf(start: nat, master: nat)

  /** The blocks that a prefix of the fragments owns, in order. */
  function Masters(bs: seq<AudioBuf>): seq<Block> {
    if bs == [] then []
    else
      var b := bs[|bs| - 1];
      Masters(bs[..|bs| - 1]) + if b.master > 0 then [Block(b.start, b.master)] else []
  }

  function AsSet(bs: seq<Block>): set<Block> {
    set b | b in bs
  }

  ghost predicate Distinct(bs: seq<Block>) {
    forall i, j :: 0 <= i < j < |bs| ==> bs[i] != bs[j]
  }

  /** The fragment that owns the block of fragment i. */
  function Owner(bs: seq<AudioBuf>, i: nat): (o: nat)
    requires i < |bs|
    ensures o <= i
  {
    if bs[i].master > 0 || i == 0 then i else Owner(bs, i - 1)
  }

  ghost predicate FragmentPlaced(bs: seq<AudioBuf>, i: nat, fragsize: nat)
    requires i < |bs|
  {
    var o := Owner(bs, i);
    && bs[o].master > 0
    && bs[i].start == bs[o].start + (i - o) * fragsize
    && (i - o) * fragsize + fragsize <= bs[o].master
  }

  /** Fragments follow each other inside their owner's block. */
  ghost predicate Carved(bs: seq<AudioBuf>, fragsize: nat) {
    forall i :: 0 <= i < |bs| ==> FragmentPlaced(bs, i, fragsize)
  }

  lemma {:induction false} OwnerPrefix(bs: seq<AudioBuf>, i: nat)
    requires i + 1 < |bs|
    ensures Owner(bs[..|bs| - 1], i) == Owner(bs, i)
  {
    if i > 0 {
      OwnerPrefix(bs, i - 1);
    }
  }

  lemma {:induction false} OwnerIsMaster(bs: seq<AudioBuf>, i: nat)
    requires i < |bs| && bs[Owner(bs, i)].master > 0
    ensures var o := bs[Owner(bs, i)]; Block(o.start, o.master) in Masters(bs)
    decreases |bs|
  {
    var n := |bs| - 1;
    if Owner(bs, i) < n {
      if i == n {
        OwnerPrefix(bs, n - 1);
        OwnerIsMaster(bs[..n], n - 1);
      } else {
        OwnerPrefix(bs, i);
        OwnerIsMaster(bs[..n], i);
      }
    }
  }

  /** What the stream holds was granted to it, one block after the other, on top of what was live. */
  ghost predicate Held(bs: seq<AudioBuf>, live0: set<Block>, live: set<Block>, granted0: seq<Block>,
                       granted: seq<Block>) {
    && Distinct(Masters(bs)) && AsSet(Masters(bs)) !! live0
    && live == live0 + AsSet(Masters(bs)) && granted == granted0 + Masters(bs)
  }

  /** left more fragments fit into the last block, from dmabuf on. */
  ghost predicate Progress(bs: seq<AudioBuf>, size: nat, dmabuf: nat, left: nat) {
    && Carved(bs, size)
    && if bs == [] then left == 0
       else
         var o := Owner(bs, |bs| - 1);
         bs[o].start + (|bs| - o) * size == dmabuf && (|bs| - o) * size + left * size == bs[o].master
  }

  lemma {:induction false} MastersUnfold(bs: seq<AudioBuf>, i: nat)
    requires i < |bs|
    ensures Masters(bs[..i + 1])
         == Masters(bs[..i]) + if bs[i].master > 0 then [Block(bs[i].start, bs[i].master)] else []
  {
    assert bs[..i + 1][..i] == bs[..i];
  }

  lemma {:induction false} MastersPrefix(bs: seq<AudioBuf>, i: nat)
    requires i <= |bs|
    ensures Masters(bs[..i]) <= Masters(bs)
    decreases |bs| - i
  {
    if i == |bs| {
      assert bs[..i] == bs;
    } else {
      assert bs[..i + 1][..i] == bs[..i];
      MastersPrefix(bs, i + 1);
    }
  }

  /** Masters grow by the next fragment's, which is new to them and among all. */
  lemma MastersStep(bs: seq<AudioBuf>, i: nat)
    requires i < |bs| && Distinct(Masters(bs))
    ensures var b := Block(bs[i].start, bs[i].master);
            && Masters(bs[..i + 1]) == Masters(bs[..i]) + (if bs[i].master > 0 then [b] else [])
            && (bs[i].master > 0 ==> b in Masters(bs) && b !in Masters(bs[..i]))
  {
    hide Masters;
    MastersUnfold(bs, i);
    MastersPrefix(bs, i + 1);
    var all, p, q := Masters(bs), Masters(bs[..i + 1]), Masters(bs[..i]);
    if bs[i].master > 0 {
      var b := Block(bs[i].start, bs[i].master);
      assert p == q + [b] && all[|q|] == p[|q|] == b;
      forall j | 0 <= j < |q| ensures q[j] != b {
        assert all[j] == p[j] == q[j];
      }
    }
  }

  lemma NothingHeld(live: set<Block>, granted: seq<Block>, size: nat)
    ensures Held([], live, live, granted, granted) && Progress([], size, 0, 0)
  {
    assert granted + [] == granted;
  }

  lemma MayTake(bs: seq<AudioBuf>, size: nat, dmabuf: nat, left: nat)
    requires Progress(bs, size, dmabuf, left)
    ensures Carved(bs, size) && (left > 0 ==> bs != [])
  {
  }

  lemma {:induction false} HeldIsOwned(bs: seq<AudioBuf>, live0: set<Block>, live: set<Block>,
                                       granted0: seq<Block>, granted: seq<Block>)
    requires Held(bs, live0, live, granted0, granted)
    ensures Distinct(Masters(bs)) && AsSet(Masters(bs)) <= live
    ensures live - AsSet(Masters(bs)) == live0 && granted0 <= granted && granted[|granted0|..] == Masters(bs)
  {
  }

  lemma {:induction false} HeldMore(bs: seq<AudioBuf>, b: AudioBuf, live0: set<Block>, live: set<Block>,
                                    live': set<Block>,
                 granted0: seq<Block>, granted: seq<Block>, granted': seq<Block>)
    requires Held(bs, live0, live, granted0, granted)
    requires if b.master > 0 then Granted(Block(b.start, b.master), live, live', granted, granted')
             else live' == live && granted' == granted
    ensures Held(bs + [b], live0, live', granted0, granted')
  {
    var m := Masters(bs);
    assert (bs + [b])[..|bs|] == bs;
    if b.master > 0 {
      var k := Block(b.start, b.master);
      assert Masters(bs + [b]) == m + [k];
      assert AsSet(m + [k]) == AsSet(m) + {k};
      assert k !in AsSet(m);
    } else {
      assert Masters(bs + [b]) == m;
    }
  }

  lemma {:induction false} OwnerAppend(bs: seq<AudioBuf>, b: AudioBuf, i: nat)
    requires i <= |bs|
    ensures Owner(bs + [b], i) == if i < |bs| then Owner(bs, i)
                                  else if b.master > 0 || bs == [] then i else Owner(bs, i - 1)
  {
    var cs := bs + [b];
    assert cs[..|cs| - 1] == bs;
    if i < |bs| {
      OwnerPrefix(cs, i);
    } else if bs != [] {
      OwnerPrefix(cs, i - 1);
    }
  }

  lemma {:induction false} PlacedStays(bs: seq<AudioBuf>, b: AudioBuf, size: nat, i: nat)
    requires i < |bs| && FragmentPlaced(bs, i, size)
    ensures FragmentPlaced(bs + [b], i, size)
  {
    OwnerAppend(bs, b, i);
  }

  lemma LastPlaced(bs: seq<AudioBuf>, size: nat)
    requires bs != [] && Carved(bs, size)
    ensures bs[Owner(bs, |bs| - 1)].master > 0
  {
    assert FragmentPlaced(bs, |bs| - 1, size);
  }

  /** The next fragment goes to dmabuf, as the owner of a fresh block or inside the last one. */
  lemma {:induction false} AddFragment(bs: seq<AudioBuf>, size: nat, dmabuf: nat, left: nat, master: nat)
    requires size > 0 && left > 0 && Carved(bs, size)
    requires if master == 0 then bs != [] && Progress(bs, size, dmabuf, left) else master == left * size
    ensures Progress(bs + [AudioBuf(dmabuf, master)], size, dmabuf + size, left - 1)
  {
    var b, n := AudioBuf(dmabuf, master), |bs|;
    var cs := bs + [b];
    OwnerAppend(bs, b, n);
    var o := Owner(cs, n);
    Distribute(left - 1, 1, size);
    if master == 0 {
      LastPlaced(bs, size);
      OwnerAppend(bs, b, n - 1);
      Distribute(n - o, 1, size);
      assert cs[o] == bs[o];
    }
    assert (left - 1) * size >= 0;
    assert FragmentPlaced(cs, n, size);
    forall i | 0 <= i < |cs| ensures FragmentPlaced(cs, i, size) {
      if i < n {
        assert FragmentPlaced(bs, i, size);
        PlacedStays(bs, b, size, i);
      }
    }
  }

  /** audio_stream_t, as far as its buffers go. */
  class Stream {
    var hasBuffers: bool         // s->buffers is not NULL
    var buffers: seq<AudioBuf>
    var fragsize: nat

    constructor ()
      ensures !hasBuffers && buffers == []
    {
      hasBuffers, buffers, fragsize := false, [], 0;
    }

    /** Owns its masters in the pool. */
    ghost predicate Owns(pool: Pool)
      reads this, pool
    {
      pool.Valid() && Distinct(Masters(buffers)) && AsSet(Masters(buffers)) <= pool.live
    }

    /** audio_clear_buf: every block the stream owns is freed exactly once, with its own start and size. */
    method ClearBuf(pool: Pool)
      requires Owns(pool)
      modifies this, pool
      ensures !hasBuffers && buffers == [] && pool.Valid()
      ensures pool.freed == old(pool.freed) + old(Masters(buffers)) && pool.granted == old(pool.granted)
      ensures pool.live == old(pool.live) - AsSet(old(Masters(buffers)))
    {
      ghost var bs := buffers;
      ghost var live, freed := pool.live, pool.freed;
      assert bs[..0] == [];
      for frag := 0 to |buffers|
        invariant buffers == bs && pool.Valid() && pool.granted == old(pool.granted)
        invariant pool.freed == freed + Masters(bs[..frag])
        invariant pool.live == live - AsSet(Masters(bs[..frag]))
      {
        MastersStep(bs, frag);
        if buffers[frag].master != 0 {
          pool.Free(Block(buffers[frag].start, buffers[frag].master));
        }
      }
      assert bs[..|bs|] == bs;
      hasBuffers, buffers := false, [];
    }

    /** One block of whole fragments, by one request for each size from want fragments down: the inner
        do-while loop. */
    method AllocFragments(pool: Pool, want: nat, size: nat) returns (dmabuf: Option<nat>, got: nat)
      requires pool.Valid() && want > 0 && size > 0
      modifies pool
      ensures pool.Valid() && pool.freed == old(pool.freed)
      ensures if dmabuf.None? then pool.live == old(pool.live) && pool.granted == old(pool.granted)
              else Granted(Block(dmabuf.value, got * size), old(pool.live), pool.live,
                           old(pool.granted), pool.granted)
                   && 0 < got <= want
      ensures dmabuf.Some? ==> want - got < |old(pool.answers)| && dmabuf == old(pool.answers)[want - got]
      ensures var tries := if dmabuf.Some? then want - got + 1 else want;
              pool.answers == if tries <= |old(pool.answers)| then old(pool.answers)[tries..] else []
      ensures Exhausted(old(pool.answers), old(pool.live), want, want, size)
         <==> dmabuf.None? || Exhausted(pool.answers, pool.live, want - got, want - got, size)
    {
      hide Exhausted, Grants;
      got := want;
      ghost var answers := pool.answers;
      dmabuf := None;
      while dmabuf.None? && got > 0
        invariant pool.Valid() && pool.freed == old(pool.freed)
        invariant if dmabuf.None? then pool.live == old(pool.live) && pool.granted == old(pool.granted)
                  else Granted(Block(dmabuf.value, got * size), old(pool.live), pool.live,
                               old(pool.granted), pool.granted)
                       && 0 < got
        invariant got <= want
        invariant dmabuf.Some? ==> want - got < |answers| && dmabuf == answers[want - got]
        invariant var tries := if dmabuf.Some? then want - got + 1 else want - got;
                  pool.answers == if tries <= |answers| then answers[tries..] else []
        invariant Exhausted(old(pool.answers), old(pool.live), want, want, size)
             <==> if dmabuf.Some? then Exhausted(pool.answers, pool.live, want - got, want - got, size)
                  else got == 0 || Exhausted(pool.answers, pool.live, want, got, size)
        decreases dmabuf.None?, got
      {
        assert got * size > 0;
        ExhaustedStep(pool.answers, pool.live, want, got, size);
        dmabuf := pool.Alloc(got * size);
        if dmabuf.None? {
          got := got - 1;
        }
      }
    }

    /** audio_setup_buf. */
    method SetupBuf(pool: Pool, nbfrags: nat, size: nat, kmallocOk: bool) returns (ret: int)
      requires Owns(pool) && (!hasBuffers ==> buffers == []) && size > 0
      modifies this, pool
      ensures old(hasBuffers) ==> ret == EBUSY && buffers == old(buffers) && pool.live == old(pool.live)
                                  && pool.granted == old(pool.granted) && pool.freed == old(pool.freed)
      ensures pool.Valid()
      ensures ret == 0 ==>
                && !old(hasBuffers) && hasBuffers && Owns(pool) && |buffers| == nbfrags && fragsize == size
                && Carved(buffers, size) && pool.freed == old(pool.freed)
                && pool.live == old(pool.live) + AsSet(Masters(buffers))
                && pool.granted == old(pool.granted) + Masters(buffers)
      ensures ret == ENOMEM ==>
                && !hasBuffers && buffers == [] && pool.live == old(pool.live)
                && old(pool.granted) <= pool.granted
                && pool.freed == old(pool.freed) + pool.granted[|old(pool.granted)|..]
      ensures ret == 0 || ret == EBUSY || ret == ENOMEM
      ensures ret == ENOMEM
         <==> !old(hasBuffers)
              && (!kmallocOk || Exhausted(old(pool.answers), old(pool.live), nbfrags, nbfrags, size))
    {
      hide Exhausted, Held, Progress, Carved, Masters, Distinct, AsSet;
      if hasBuffers {
        return EBUSY;
      }
      fragsize := size;
      if !kmallocOk {
        return ENOMEM;
      }
      hasBuffers := true;
      ghost var live0, granted0 := pool.live, pool.granted;
      NothingHeld(live0, granted0, size);
      var dmabuf: nat, left: nat := 0, 0;
      for frag := 0 to nbfrags
        invariant hasBuffers && fragsize == size
        invariant |buffers| == frag && Progress(buffers, size, dmabuf, left) && left + frag <= nbfrags
        invariant pool.Valid() && pool.freed == old(pool.freed)
        invariant Held(buffers, live0, pool.live, granted0, pool.granted)
        invariant Exhausted(old(pool.answers), live0, nbfrags, nbfrags, size)
             <==> Exhausted(pool.answers, pool.live, nbfrags - frag - left, nbfrags - frag - left, size)
      {
        var master := 0;
        ghost var before, grantedBefore := pool.live, pool.granted;
        MayTake(buffers, size, dmabuf, left);
        if left == 0 {
          var b, got := AllocFragments(pool, nbfrags - frag, size);
          if b.None? {
            HeldIsOwned(buffers, live0, pool.live, granted0, pool.granted);
            ClearBuf(pool);
            return ENOMEM;
          }
          dmabuf, left := b.value, got;
          master := got * size;
        }
        AddFragment(buffers, size, dmabuf, left, master);
        HeldMore(buffers, AudioBuf(dmabuf, master), live0, before, pool.live, granted0, grantedBefore, pool.granted);
        buffers := buffers + [AudioBuf(dmabuf, master)];
        dmabuf := dmabuf + size;
        left := left - 1;
      }
      HeldIsOwned(buffers, live0, pool.live, granted0, pool.granted);
      MayTake(buffers, size, dmabuf, left);
      NothingLeft(pool.answers, pool.live, size);
      ret := 0;
    }
  }

  predicate Within(a: Block, b: Block) {
    b.start <= a.start && a.start + a.size <= b.start + b.size
  }

  function Fragment(bs: seq<AudioBuf>, i: nat, size: nat): Block
    requires i < |bs|
  {
    Block(bs[i].start, size)
  }

  function OwnerBlock(bs: seq<AudioBuf>, i: nat): Block
    requires i < |bs|
  {
    var o := Owner(bs, i);
    Block(bs[o].start, bs[o].master)
  }

  /** Every fragment lies inside the live block of its owner. */
  lemma {:induction false} FragmentInBlock(bs: seq<AudioBuf>, size: nat, live: set<Block>, i: nat)
    requires Carved(bs, size) && AsSet(Masters(bs)) <= live && i < |bs|
    ensures OwnerBlock(bs, i) in live && Within(Fragment(bs, i, size), OwnerBlock(bs, i))
    ensures FragmentPlaced(bs, i, size)
  {
    assert FragmentPlaced(bs, i, size);
    OwnerIsMaster(bs, i);
    assert OwnerBlock(bs, i) in AsSet(Masters(bs));
    Scale(0, i - Owner(bs, i), size);
    hide Carved, Owner, Masters, AsSet;
  }

  lemma {:induction false} MasterIn(bs: seq<AudioBuf>, o: nat, n: nat)
    requires o < n <= |bs| && bs[o].master > 0
    ensures Block(bs[o].start, bs[o].master) in Masters(bs[..n])
    decreases n
  {
    assert bs[..n][..n - 1] == bs[..n - 1];
    if o < n - 1 {
      MasterIn(bs, o, n - 1);
    }
  }

  /** Different owners own different blocks. */
  lemma {:induction false} OwnersDiffer(bs: seq<AudioBuf>, o: nat, q: nat)
    requires Distinct(Masters(bs)) && o < |bs| && q < |bs| && o != q && bs[o].master > 0 && bs[q].master > 0
    ensures Block(bs[o].start, bs[o].master) != Block(bs[q].start, bs[q].master)
  {
    if o > q {
      OwnersDiffer(bs, q, o);
    } else {
      MastersStep(bs, q);
      MasterIn(bs, o, q);
    }
  }

  /** After a successful set-up the fragments are pairwise disjoint. */
  lemma {:induction false} FragmentsDisjoint(bs: seq<AudioBuf>, size: nat, live: set<Block>, i: nat, j: nat)
    requires Carved(bs, size) && Consistent(live) && Distinct(Masters(bs)) && AsSet(Masters(bs)) <= live
    requires i < j < |bs|
    ensures Apart(Fragment(bs, i, size), Fragment(bs, j, size))
  {
    FragmentInBlock(bs, size, live, i);
    FragmentInBlock(bs, size, live, j);
    var o, q := Owner(bs, i), Owner(bs, j);
    hide Carved, Masters, Distinct, AsSet, Owner;
    if o == q {
      Distribute(j - i, i - o, size);
      assert (j - i) * size >= size;
    } else {
      OwnersDiffer(bs, o, q);
      assert Apart(OwnerBlock(bs, i), OwnerBlock(bs, j));
    }
  }
}
