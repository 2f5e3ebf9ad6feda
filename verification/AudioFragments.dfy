/** The output stream of the OSS driver as a machine on values: a ring of fragments, the writer that holds
    one fragment's semaphore at a time, and the DMA channel that reads submitted fragments in order. */
module AudioFragments {
  import opened Sequences

  /** A half-word, kept in a word. */
  type Sample = x: bv32 | x < 0x10000

  /** audio_buf_t: size is in bytes, free says whether the semaphore is up. */
  datatype Frag = Frag(data: seq<Sample>, size: nat, free: bool)

  /** A fragment on the DMA queue. */
  datatype Req = Req(idx: nat, size: nat)

  /** held: the writer holds the semaphore of the current fragment. played: all that DMA has read. */
  datatype State = State(bufs: seq<Frag>, cur: nat, held: bool, queue: seq<Req>, played: seq<Sample>)

  datatype Event = Take | Release | Fill(d: seq<Sample>) | Submit | Done

  /** How far slot i lies behind slot cur in a ring of n, from 1 to n. */
  function Behind(i: nat, cur: nat, n: nat): int {
    if i < cur then cur - i else cur + n - i
  }

  /** The slot d behind cur. */
  function Back(cur: nat, n: nat, d: int): int {
    if d <= cur then cur - d else cur + n - d
  }

  ghost predicate Sizes(s: State, fragsize: nat) {
    && (forall i :: 0 <= i < |s.bufs| ==> 2 * |s.bufs[i].data| == fragsize)
    && (forall i :: 0 <= i < |s.bufs| && i != s.cur ==> s.bufs[i].size == 0)
  }

  /** A semaphore is down exactly while DMA or the writer owns the fragment. */
  ghost predicate Semaphores(s: State) {
    forall i :: 0 <= i < |s.bufs| ==>
      s.bufs[i].free == (Behind(i, s.cur, |s.bufs|) > |s.queue| && !(s.held && i == s.cur))
  }

  /** DMA owns the fragments just behind the current one, oldest first. */
  ghost predicate Queued(s: State, fragsize: nat) {
    forall k :: 0 <= k < |s.queue| ==>
      s.queue[k].idx == Back(s.cur, |s.bufs|, |s.queue| - k) && s.queue[k].size <= fragsize
  }

  ghost predicate Inv(s: State, fragsize: nat) {
    && fragsize > 0 && fragsize % 4 == 0 && s.cur < |s.bufs|
    && |s.queue| <= |s.bufs| && (s.held ==> |s.queue| < |s.bufs|)
    && Sizes(s, fragsize) && Semaphores(s) && Queued(s, fragsize)
    && s.bufs[s.cur].size <= fragsize && s.bufs[s.cur].size % 4 == 0
    && (|s.queue| == |s.bufs| ==> s.bufs[s.cur].size == 0) && (!s.held ==> s.bufs[s.cur].size < fragsize)
  }

  /** What the driver and the DMA controller can do. */
  ghost predicate Enabled(s: State, e: Event, fragsize: nat)
    requires Inv(s, fragsize)
  {
    match e
    case Take => !s.held && s.bufs[s.cur].free
    case Release => s.held && s.bufs[s.cur].size < fragsize
    case Fill(d) => s.held && s.bufs[s.cur].size + 2 * |d| <= fragsize && |d| % 2 == 0
    case Submit => s.held
    case Done => s.queue != []
  }

  function WithFrag(s: State, i: nat, f: Frag): State
    requires i < |s.bufs|
  {
    s.(bufs := s.bufs[i := f])
  }

  /** What DMA reads for a request, if it reads it now. */
  function Piece(bufs: seq<Frag>, r: Req): seq<Sample> {
    if r.idx < |bufs| && r.size / 2 <= |bufs[r.idx].data| then bufs[r.idx].data[..r.size / 2] else []
  }

  lemma QueuedIn(s: State, fragsize: nat, k: nat)
    requires Inv(s, fragsize) && k < |s.queue|
    ensures s.queue[k].idx < |s.bufs| && Behind(s.queue[k].idx, s.cur, |s.bufs|) == |s.queue| - k
  {
    hide Sizes, Semaphores;
  }

  ghost function Step(s: State, e: Event, fragsize: nat): State
    requires Inv(s, fragsize) && Enabled(s, e, fragsize)
  {
    var b := s.bufs[s.cur];
    match e
    case Take => WithFrag(s, s.cur, b.(free := false)).(held := true)
    case Release => WithFrag(s, s.cur, b.(free := true)).(held := false)
    case Fill(d) => WithFrag(s, s.cur, b.(data := Overwrite(b.data, b.size / 2, d), size := b.size + 2 * |d|))
    case Submit => WithFrag(s, s.cur, b.(size := 0)).(
                     held := false, queue := s.queue + [Req(s.cur, b.size)], cur := (s.cur + 1) % |s.bufs|)
    case Done =>
      var r := s.queue[0];
      QueuedIn(s, fragsize, 0);
      WithFrag(s, r.idx, s.bufs[r.idx].(free := true)).(
        queue := s.queue[1..], played := s.played + Piece(s.bufs, r))
  }

  function InFlight(bufs: seq<Frag>, q: seq<Req>): seq<Sample> {
    if q == [] then [] else Piece(bufs, q[0]) + InFlight(bufs, q[1..])
  }

  function Partial(s: State): seq<Sample> {
    if s.cur < |s.bufs| then Piece(s.bufs, Req(s.cur, s.bufs[s.cur].size)) else []
  }

  /** Everything played, in flight and waiting in the current fragment, in order. */
  function Content(s: State): seq<Sample> {
    s.played + InFlight(s.bufs, s.queue) + Partial(s)
  }

  lemma {:induction false} InFlightAppend(bufs: seq<Frag>, q: seq<Req>, r: Req)
    ensures InFlight(bufs, q + [r]) == InFlight(bufs, q) + Piece(bufs, r)
  {
    if q == [] {
      assert ([] + [r])[1..] == [];
    } else {
      assert (q + [r])[1..] == q[1..] + [r];
      InFlightAppend(bufs, q[1..], r);
    }
  }

  lemma {:induction false} InFlightSame(bufs: seq<Frag>, bufs': seq<Frag>, q: seq<Req>)
    requires forall k :: 0 <= k < |q| ==> Piece(bufs, q[k]) == Piece(bufs', q[k])
    ensures InFlight(bufs, q) == InFlight(bufs', q)
  {
    if q != [] {
      forall k | 0 <= k < |q[1..]| ensures Piece(bufs, q[1..][k]) == Piece(bufs', q[1..][k]) {
        assert q[1..][k] == q[k + 1];
      }
      InFlightSame(bufs, bufs', q[1..]);
    }
  }

  lemma FillFits(s: State, d: seq<Sample>, fragsize: nat)
    requires Inv(s, fragsize) && Enabled(s, Fill(d), fragsize)
    ensures var b := s.bufs[s.cur];
            b.size / 2 + |d| <= |b.data| && (b.size + 2 * |d|) % 4 == 0 && b.size + 2 * |d| <= fragsize
  {
    assert 2 * |s.bufs[s.cur].data| == fragsize;
  }

  lemma FillSizes(s: State, d: seq<Sample>, fragsize: nat)
    requires Inv(s, fragsize) && Enabled(s, Fill(d), fragsize)
    ensures var b := s.bufs[s.cur]; b.size / 2 + |d| <= |b.data|
    ensures Inv(Step(s, Fill(d), fragsize), fragsize)
  {
    FillFits(s, d, fragsize);
    var t, n := Step(s, Fill(d), fragsize), |s.bufs|;
    var b, b' := s.bufs[s.cur], t.bufs[s.cur];
    assert t == s.(bufs := s.bufs[s.cur := b']) && b'.free == b.free && |b'.data| == |b.data|;
    assert b'.size == b.size + 2 * |d|;
    hide Piece, InFlight, Behind, Back, Step, Enabled, Overwrite;
    assert Semaphores(t) by {
      hide Sizes, Queued;
      forall i | 0 <= i < |t.bufs|
        ensures t.bufs[i].free == (Behind(i, t.cur, |t.bufs|) > |t.queue| && !(t.held && i == t.cur))
      {
        assert t.bufs[i].free == s.bufs[i].free;
      }
    }
    assert Sizes(t, fragsize) by { hide Semaphores, Queued; }
    assert Queued(t, fragsize) by { hide Semaphores, Sizes; }
    hide Semaphores, Queued, Sizes;
  }

  /** No fragment is filled while DMA owns it: a copy leaves every queued fragment as it is. */
  lemma NotFilledWhileQueued(s: State, d: seq<Sample>, fragsize: nat, k: nat)
    requires Inv(s, fragsize) && Enabled(s, Fill(d), fragsize) && k < |s.queue|
    ensures s.queue[k].idx < |s.bufs| && s.queue[k].idx != s.cur
    ensures Step(s, Fill(d), fragsize).queue == s.queue
    ensures Step(s, Fill(d), fragsize).bufs[s.queue[k].idx] == s.bufs[s.queue[k].idx]
  {
    QueuedIn(s, fragsize, k);
    FillSizes(s, d, fragsize);
    hide Overwrite;
  }

  /** Changing fragments without touching what DMA owns leaves what is in flight alone. */
  lemma CurChanges(s: State, fragsize: nat, f: Frag)
    requires Inv(s, fragsize) && |s.queue| < |s.bufs|
    ensures InFlight(WithFrag(s, s.cur, f).bufs, s.queue) == InFlight(s.bufs, s.queue)
  {
    var t := WithFrag(s, s.cur, f).bufs;
    forall k | 0 <= k < |s.queue| ensures Piece(s.bufs, s.queue[k]) == Piece(t, s.queue[k]) {
      QueuedIn(s, fragsize, k);
      assert t[s.queue[k].idx] == s.bufs[s.queue[k].idx];
    }
    InFlightSame(s.bufs, t, s.queue);
  }

  lemma TakeKeeps(s: State, fragsize: nat)
    requires Inv(s, fragsize) && Enabled(s, Take, fragsize)
    ensures Inv(Step(s, Take, fragsize), fragsize) && Content(Step(s, Take, fragsize)) == Content(s)
  {
    CurChanges(s, fragsize, s.bufs[s.cur].(free := false));
  }

  lemma ReleaseKeeps(s: State, fragsize: nat)
    requires Inv(s, fragsize) && Enabled(s, Release, fragsize)
    ensures Inv(Step(s, Release, fragsize), fragsize) && Content(Step(s, Release, fragsize)) == Content(s)
  {
    CurChanges(s, fragsize, s.bufs[s.cur].(free := true));
  }

  lemma OverwriteTakes(s: seq<Sample>, pos: nat, d: seq<Sample>)
    requires pos + |d| <= |s|
    ensures |Overwrite(s, pos, d)| == |s| && Overwrite(s, pos, d)[..pos + |d|] == s[..pos] + d
  {
  }

  lemma FillKeeps(s: State, d: seq<Sample>, fragsize: nat)
    requires Inv(s, fragsize) && Enabled(s, Fill(d), fragsize)
    ensures Inv(Step(s, Fill(d), fragsize), fragsize)
    ensures Content(Step(s, Fill(d), fragsize)) == Content(s) + d
  {
    FillSizes(s, d, fragsize);
    var t, b := Step(s, Fill(d), fragsize), s.bufs[s.cur];
    CurChanges(s, fragsize, t.bufs[s.cur]);
    OverwriteTakes(b.data, b.size / 2, d);
    hide Semaphores, Queued, Sizes, Overwrite, Inv;
    assert t.bufs[s.cur].data[..t.bufs[s.cur].size / 2] == b.data[..b.size / 2] + d;
    assert Partial(t) == Partial(s) + d;
  }

  lemma Wraps(x: nat, n: nat)
    requires 0 < x <= n
    ensures x % n == if x == n then 0 else x
  {
  }

  /** Moving on by one slot puts every other slot one further behind. */
  lemma NextSlot(i: nat, cur: nat, n: nat)
    requires i < n && cur < n
    ensures var next := (cur + 1) % n;
            && next == (if cur + 1 == n then 0 else cur + 1)
            && Behind(i, next, n) == if i == cur then 1 else Behind(i, cur, n) + 1
  {
    Wraps(cur + 1, n);
  }

  lemma SubmitSemaphores(s: State, fragsize: nat)
    requires Inv(s, fragsize) && Enabled(s, Submit, fragsize)
    ensures Semaphores(Step(s, Submit, fragsize))
  {
    var t, n := Step(s, Submit, fragsize), |s.bufs|;
    var bufs, bufs' := s.bufs, t.bufs;
    assert t.cur == (s.cur + 1) % n && |t.queue| == |s.queue| + 1 && !t.held;
    assert forall i :: 0 <= i < n ==> bufs[i].free == (Behind(i, s.cur, n) > |s.queue| && i != s.cur);
    forall i | 0 <= i < n ensures bufs'[i].free == bufs[i].free {
    }
    hide Inv, Step, Enabled, Behind, Queued, Sizes;
    forall i | 0 <= i < n
      ensures bufs'[i].free == (Behind(i, t.cur, n) > |t.queue| && !(t.held && i == t.cur))
    {
      NextSlot(i, s.cur, n);
    }
  }

  lemma NextBack(cur: nat, n: nat, d: nat)
    requires cur < n && 0 < d < n
    ensures Back((cur + 1) % n, n, d + 1) == Back(cur, n, d)
  {
    NextSlot(cur, cur, n);
  }

  lemma LastBack(cur: nat, n: nat)
    requires cur < n
    ensures Back((cur + 1) % n, n, 1) == cur
  {
    NextSlot(cur, cur, n);
  }

  lemma SubmitQueued(s: State, fragsize: nat)
    requires Inv(s, fragsize) && Enabled(s, Submit, fragsize)
    ensures Queued(Step(s, Submit, fragsize), fragsize)
  {
    var t, n := Step(s, Submit, fragsize), |s.bufs|;
    var q, q' := s.queue, t.queue;
    assert t.cur == (s.cur + 1) % n && q' == q + [Req(s.cur, s.bufs[s.cur].size)] && |q| < n;
    hide Inv, Step, Enabled, Back, Semaphores, Sizes;
    forall k | 0 <= k < |q'|
      ensures q'[k].idx == Back(t.cur, n, |q'| - k) && q'[k].size <= fragsize
    {
      if k < |q| {
        assert q'[k] == q[k];
        NextBack(s.cur, n, |q| - k);
      } else {
        LastBack(s.cur, n);
      }
    }
  }

  lemma SubmitKeeps(s: State, fragsize: nat)
    requires Inv(s, fragsize) && Enabled(s, Submit, fragsize)
    ensures Inv(Step(s, Submit, fragsize), fragsize)
  {
    SubmitSemaphores(s, fragsize);
    SubmitQueued(s, fragsize);
    NextSlot(s.cur, s.cur, |s.bufs|);
    hide Semaphores, Queued, Behind, Back;
  }

  lemma SubmitContent(s: State, fragsize: nat)
    requires Inv(s, fragsize) && Enabled(s, Submit, fragsize)
    ensures Content(Step(s, Submit, fragsize)) == Content(s)
  {
    var t, b := Step(s, Submit, fragsize), s.bufs[s.cur];
    var r := Req(s.cur, b.size);
    CurChanges(s, fragsize, b.(size := 0));
    InFlightAppend(t.bufs, s.queue, r);
    assert Piece(t.bufs, r) == Piece(s.bufs, r) == Partial(s);
    assert Partial(t) == [] by {
      assert t.cur < |t.bufs| && t.bufs[t.cur].size == 0;
    }
  }

  lemma DoneKeeps(s: State, fragsize: nat)
    requires Inv(s, fragsize) && Enabled(s, Done, fragsize)
    ensures Inv(Step(s, Done, fragsize), fragsize)
  {
    var t, n, r := Step(s, Done, fragsize), |s.bufs|, s.queue[0];
    QueuedIn(s, fragsize, 0);
    forall i | 0 <= i < n
      ensures t.bufs[i].free == (Behind(i, t.cur, n) > |t.queue| && !(t.held && i == t.cur))
    {
      if i == r.idx {
        assert Behind(i, t.cur, n) > |t.queue|;
      } else {
        assert Behind(i, s.cur, n) != |s.queue|;
        assert s.bufs[i].free == t.bufs[i].free;
      }
    }
    forall k | 0 <= k < |t.queue|
      ensures t.queue[k].idx == Back(t.cur, n, |t.queue| - k) && t.queue[k].size <= fragsize
    {
      assert t.queue[k] == s.queue[k + 1];
    }
  }

  /** A completion changes no fragment's samples. */
  lemma DoneLeaves(s: State, fragsize: nat)
    requires Inv(s, fragsize) && Enabled(s, Done, fragsize)
    ensures var t := Step(s, Done, fragsize);
            InFlight(t.bufs, s.queue[1..]) == InFlight(s.bufs, s.queue[1..]) && Partial(t) == Partial(s)
  {
    var t, rest := Step(s, Done, fragsize), s.queue[1..];
    QueuedIn(s, fragsize, 0);
    hide Inv;
    forall k | 0 <= k < |rest| ensures Piece(s.bufs, rest[k]) == Piece(t.bufs, rest[k]) {
    }
    InFlightSame(s.bufs, t.bufs, rest);
  }

  lemma DoneContent(s: State, fragsize: nat)
    requires Inv(s, fragsize) && Enabled(s, Done, fragsize)
    ensures Content(Step(s, Done, fragsize)) == Content(s)
  {
    DoneLeaves(s, fragsize);
    var t, r := Step(s, Done, fragsize), s.queue[0];
    assert InFlight(s.bufs, s.queue) == Piece(s.bufs, r) + InFlight(s.bufs, s.queue[1..]);
    assert t.played == s.played + Piece(s.bufs, r) && t.queue == s.queue[1..];
    hide Inv, Step, InFlight, Piece, Partial, Enabled;
    Associate(s.played, Piece(s.bufs, r), InFlight(t.bufs, t.queue));
  }

  /** Every step keeps the invariant, and only the writer's copies add to the content. */
  lemma StepKeeps(s: State, e: Event, fragsize: nat)
    requires Inv(s, fragsize) && Enabled(s, e, fragsize)
    ensures Inv(Step(s, e, fragsize), fragsize)
    ensures Content(Step(s, e, fragsize)) == Content(s) + if e.Fill? then e.d else []
  {
    match e
    case Take => TakeKeeps(s, fragsize);
    case Release => ReleaseKeeps(s, fragsize);
    case Fill(d) => FillKeeps(s, d, fragsize);
    case Submit => SubmitKeeps(s, fragsize); SubmitContent(s, fragsize);
    case Done => DoneKeeps(s, fragsize); DoneContent(s, fragsize);
  }

  ghost predicate Runs(s: State, es: seq<Event>, fragsize: nat)
    requires Inv(s, fragsize)
    decreases |es|
  {
    es == [] || (Enabled(s, es[0], fragsize) && (StepKeeps(s, es[0], fragsize);
                                                 Runs(Step(s, es[0], fragsize), es[1..], fragsize)))
  }

  ghost function After(s: State, es: seq<Event>, fragsize: nat): State
    requires Inv(s, fragsize) && Runs(s, es, fragsize)
    decreases |es|
  {
    if es == [] then s
    else
      StepKeeps(s, es[0], fragsize);
      After(Step(s, es[0], fragsize), es[1..], fragsize)
  }

  function Filled(es: seq<Event>): seq<Sample> {
    if es == [] then [] else (if es[0].Fill? then es[0].d else []) + Filled(es[1..])
  }

  /** Over every interleaving of writer and DMA: what DMA has read, is to read, and what waits in the
      current fragment are the samples accepted, in order. DMA reads each fragment when it is done with
      it, so this also says that no fragment is filled while DMA owns it. */
  lemma {:induction false} RunDeliversInOrder(s: State, es: seq<Event>, fragsize: nat)
    requires Inv(s, fragsize) && Runs(s, es, fragsize)
    ensures Inv(After(s, es, fragsize), fragsize)
    ensures Content(After(s, es, fragsize)) == Content(s) + Filled(es)
    decreases |es|
  {
    hide Inv, Enabled, Step, Content;
    if es != [] {
      StepKeeps(s, es[0], fragsize);
      var t := Step(s, es[0], fragsize);
      RunDeliversInOrder(t, es[1..], fragsize);
      var x := if es[0].Fill? then es[0].d else [];
      assert (Content(s) + x) + Filled(es[1..]) == Content(s) + (x + Filled(es[1..]));
    }
  }

  /** A writer that leaves without releasing the semaphore, as a refused submission makes it do: no
      completion ever frees its fragment, and no other writer gets it. */
  lemma {:induction false} HeldStays(s: State, es: seq<Event>, fragsize: nat)
    requires Inv(s, fragsize) && Runs(s, es, fragsize) && s.held
    requires forall i :: 0 <= i < |es| ==> es[i] == Done || es[i] == Take
    ensures var t := After(s, es, fragsize);
            Inv(t, fragsize) && t.held && t.cur == s.cur && !t.bufs[t.cur].free && !Enabled(t, Take, fragsize)
    decreases |es|
  {
    if es != [] {
      StepKeeps(s, es[0], fragsize);
      hide Content, Piece;
      HeldStays(Step(s, es[0], fragsize), es[1..], fragsize);
    }
  }
}
