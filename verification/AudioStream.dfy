/** Writing to the OSS output stream: mono-to-stereo copies into coherent memory, semaphores, submission
    to DMA, and draining. */
module AudioStream {
  import opened Arith
  import opened AudioFragments
  import opened AudioWrites
  import opened Errno
  import opened Sequences

  function Lo(w: bv32): Sample {
    w & 0xffff
  }

  function Hi(w: bv32): Sample {
    w >> 16
  }

  /** Every sample twice. */
  function Doubled(s: seq<Sample>): (d: seq<Sample>)
    ensures |d| == 2 * |s|
    ensures forall k :: 0 <= k < |s| ==> d[2 * k] == s[k] && d[2 * k + 1] == s[k]
  {
    if s == [] then [] else Doubled(s[..|s| - 1]) + [s[|s| - 1], s[|s| - 1]]
  }

  /** What the samples become in memory: mono is duplicated to both channels. */
  function Expand(mono: bool, s: seq<Sample>): (d: seq<Sample>)
    ensures |d| == if mono then 2 * |s| else |s|
  {
    if mono then Doubled(s) else s
  }

  lemma ExpandIs(mono: bool, s: seq<Sample>)
    ensures Expand(mono, s) == if mono then Doubled(s) else s
  {
  }

  lemma {:induction false} DoubledConcat(a: seq<Sample>, b: seq<Sample>)
    ensures Doubled(a + b) == Doubled(a) + Doubled(b)
    decreases |b|
  {
    if b == [] {
      assert a + b == a;
    } else {
      var n := |b| - 1;
      assert (a + b)[..|a + b| - 1] == a + b[..n];
      DoubledConcat(a, b[..n]);
    }
  }

  lemma ExpandConcat(mono: bool, a: seq<Sample>, b: seq<Sample>)
    ensures Expand(mono, a + b) == Expand(mono, a) + Expand(mono, b)
  {
    if mono {
      DoubledConcat(a, b);
    }
  }

  lemma BothHalves(v: bv32)
    requires v < 0x10000
    ensures Lo(v | (v << 16)) == v && Hi(v | (v << 16)) == v
  {
  }

  lemma SpreadHalves(v: bv32)
    ensures Lo((v << 16) | ((v << 16) >> 16)) == Lo(v) && Hi((v << 16) | ((v << 16) >> 16)) == Lo(v)
    ensures Lo((v >> 16) | ((v >> 16) << 16)) == Hi(v) && Hi((v >> 16) | ((v >> 16) << 16)) == Hi(v)
  {
  }

  lemma WordHalves(lo: bv32, hi: bv32)
    requires lo < 0x10000 && hi < 0x10000
    ensures Lo(lo | (hi << 16)) == lo && Hi(lo | (hi << 16)) == hi
  {
  }

  /** A half-word in both halves of a word. */
  method Both(s: Sample) returns (w: bv32)
    ensures Lo(w) == s && Hi(w) == s
  {
    hide Lo, Hi;
    BothHalves(s);
    w := s | (s << 16);
  }

  /** The two half-words of v, each in both halves of a word. */
  method Spread(v: bv32) returns (x: bv32, y: bv32)
    ensures Lo(x) == Lo(v) && Hi(x) == Lo(v) && Lo(y) == Hi(v) && Hi(y) == Hi(v)
  {
    hide Lo, Hi;
    SpreadHalves(v);
    x := v << 16;
    x := x | (x >> 16);
    y := v >> 16;
    y := y | (y << 16);
  }

  /** A little-endian word load from user memory. */
  method GetWord(src: seq<Sample>, k: nat) returns (w: bv32)
    requires k + 1 < |src|
    ensures Lo(w) == src[k] && Hi(w) == src[k + 1]
  {
    hide Lo, Hi;
    var lo: bv32, hi: bv32 := src[k], src[k + 1];
    WordHalves(lo, hi);
    w := lo | (hi << 16);
  }

  method PutWord(to: array<Sample>, p: nat, w: bv32)
    requires p + 1 < to.Length
    modifies to
    ensures to[..] == old(to[..])[p := Lo(w)][p + 1 := Hi(w)]
  {
    to[p], to[p + 1] := Lo(w), Hi(w);
  }

  /** The memory while the first k samples have been doubled into it from pos on. */
  ghost predicate Copied(now: seq<Sample>, was: seq<Sample>, pos: nat, src: seq<Sample>, k: nat) {
    k <= |src| && pos + 2 * k <= |was| && now == Overwrite(was, pos, Doubled(src[..k]))
  }

  lemma OverwriteMore(was: seq<Sample>, pos: nat, d: seq<Sample>, x: Sample)
    requires pos + |d| + 2 <= |was|
    ensures |Overwrite(was, pos, d)| == |was|
    ensures Overwrite(was, pos, d + [x, x])
         == Overwrite(was, pos, d)[pos + |d| := x][pos + |d| + 1 := x]
  {
  }

  lemma DoubledNext(src: seq<Sample>, k: nat)
    requires k < |src|
    ensures Doubled(src[..k + 1]) == Doubled(src[..k]) + [src[k], src[k]]
  {
    var t := src[..k + 1];
    assert t[..k] == src[..k] && t[k] == src[k] && |t| == k + 1;
  }

  lemma CopiedStep(now: seq<Sample>, was: seq<Sample>, pos: nat, src: seq<Sample>, k: nat)
    requires Copied(now, was, pos, src, k) && k < |src| && pos + 2 * k + 2 <= |was|
    ensures |now| == |was|
    ensures Copied(now[pos + 2 * k := src[k]][pos + 2 * k + 1 := src[k]], was, pos, src, k + 1)
  {
    var d := Doubled(src[..k]);
    assert |d| == 2 * k && now == Overwrite(was, pos, d);
    hide Overwrite, Doubled;
    DoubledNext(src, k);
    OverwriteMore(was, pos, Doubled(src[..k]), src[k]);
  }

  lemma CopiedStart(was: seq<Sample>, pos: nat, src: seq<Sample>)
    requires pos <= |was|
    ensures Copied(was, was, pos, src, 0)
  {
  }

  /** copy_from_user_mono_stereo: the half-word before a word boundary, then word by word, then a last
      half-word. addr is the user address of src. */
  method CopyMonoStereo(to: array<Sample>, pos: nat, src: seq<Sample>, addr: nat)
    requires src != [] && pos + 2 * |src| <= to.Length
    modifies to
    ensures to[..] == Overwrite(old(to[..]), pos, Doubled(src))
  {
    hide Doubled, Lo, Hi, Overwrite;
    ghost var was := to[..];
    var from, dst: nat := 0, pos;
    CopiedStart(was, pos, src);
    if addr / 2 % 2 == 1 {
      CopiedStep(to[..], was, pos, src, from);
      var v := Both(src[from]);
      from := from + 1;
      PutWord(to, dst, v);
      dst := dst + 2;
    }
    while 2 * from < 2 * |src| - 2
      invariant from <= |src| && dst == pos + 2 * from
      invariant Copied(to[..], was, pos, src, from)
    {
      hide Copied;
      CopiedStep(to[..], was, pos, src, from);
      var v := GetWord(src, from);
      var x, y := Spread(v);
      PutWord(to, dst, x);
      CopiedStep(to[..], was, pos, src, from + 1);
      PutWord(to, dst + 2, y);
      from, dst := from + 2, dst + 4;
    }
    if from < |src| {
      CopiedStep(to[..], was, pos, src, from);
      var v := Both(src[from]);
      PutWord(to, dst, v);
    }
    assert src[..|src|] == src;
  }

  /** copy_from_user, when it succeeds. */
  method CopyFromUser(to: array<Sample>, pos: nat, src: seq<Sample>)
    requires pos + |src| <= to.Length
    modifies to
    ensures to[..] == Overwrite(old(to[..]), pos, src)
  {
    forall i | 0 <= i < |src| {
      to[pos + i] := src[i];
    }
  }

  /** How many samples go into the room that a fragment has left, in bytes. */
  method ChunkLength(mono: bool, room: nat, left: nat) returns (c: nat)
    requires room > 0 && room % 4 == 0 && left > 0 && (!mono ==> left % 2 == 0)
    ensures 0 < c <= left && (!mono ==> c % 2 == 0)
    ensures if mono then 4 * c <= room else 2 * c <= room
    ensures (if mono then 4 * c else 2 * c) == room || c == left
    ensures c == if left < Capacity(mono, room) then left else Capacity(mono, room)
  {
    c := if mono then room / 4 else room / 2;
    if c > left {
      c := left;
    }
  }

  function Joined(pieces: seq<seq<Sample>>): seq<Sample> {
    if pieces == [] then [] else Joined(pieces[..|pieces| - 1]) + pieces[|pieces| - 1]
  }

  /** Joining goes from front to back. */
  lemma {:induction false} JoinedConcat(a: seq<seq<Sample>>, b: seq<seq<Sample>>, p: seq<Sample>)
    ensures Joined(a + b) == Joined(a) + Joined(b) && Joined([p]) == p
  {
    assert [p][..0] == [];
    if b == [] {
      assert a + b == a;
    } else {
      var b' := b[..|b| - 1];
      JoinedConcat(a, b', p);
      assert (a + b)[..|a + b| - 1] == a + b';
      Associate(Joined(a), Joined(b'), b[|b| - 1]);
    }
  }

  lemma JoinedNext(mono: bool, pieces: seq<seq<Sample>>, i: nat)
    requires i < |pieces|
    ensures Expand(mono, Joined(pieces[..i + 1])) == Expand(mono, Joined(pieces[..i])) + Expand(mono, pieces[i])
  {
    assert pieces[..i + 1][..i] == pieces[..i];
    ExpandConcat(mono, Joined(pieces[..i]), pieces[i]);
  }

  lemma FourDivides(a: nat, b: nat)
    requires a % 4 == 0 && b % 4 == 0
    ensures (a - b) % 4 == 0
  {
    assert a - b == 4 * (a / 4 - b / 4);
  }

  lemma CurRoom(s: State, fragsize: nat)
    requires Inv(s, fragsize)
    ensures var b := s.bufs[s.cur];
            && 2 * |b.data| == fragsize && b.size <= fragsize && b.size % 4 == 0 && fragsize % 4 == 0
            && (!s.held ==> b.size < fragsize) && (fragsize - b.size) % 4 == 0
  {
    var b := s.bufs[s.cur];
    FourDivides(fragsize, b.size);
  }

  /** The next chunk of the user's samples extends what was accepted. */
  lemma ChunkOf(mono: bool, user: seq<Sample>, m: nat, c: nat)
    requires m + c <= |user|
    ensures Expand(mono, user[..m + c]) == Expand(mono, user[..m]) + Expand(mono, user[m..m + c])
  {
    assert user[..m + c] == user[..m] + user[m..m + c];
    ExpandConcat(mono, user[..m], user[m..m + c]);
  }

  lemma NothingExpands(mono: bool, user: seq<Sample>, m: nat)
    requires m <= |user|
    ensures Expand(mono, user[m..m + 0]) == []
  {
  }

  lemma PrevSlot(cur: nat, n: nat)
    requires cur < n
    ensures (n + cur - 1) % n == if cur == 0 then n - 1 else cur - 1
  {
    if cur > 0 {
      ModOnce(n + cur - 1, n);
    }
  }

  /** When the fragment before the current one is free and the current one is empty, nothing is left. */
  lemma Drained(s: State, fragsize: nat)
    requires Inv(s, fragsize) && !s.held && s.bufs[s.cur].size == 0
    requires s.bufs[(|s.bufs| + s.cur - 1) % |s.bufs|].free
    ensures s.queue == [] && Content(s) == s.played
  {
    var n: nat := |s.bufs|;
    PrevSlot(s.cur, n);
    var b: nat := (n + s.cur - 1) % n;
    hide InFlight, Queued, Sizes;
    assert Behind(b, s.cur, n) == 1;
    assert s.queue == [];
    assert Partial(s) == [] && InFlight(s.bufs, []) == [];
  }

  /** The current fragment after a copy. */
  ghost function FilledFrag(s: State, mono: bool, src: seq<Sample>): Frag
    requires s.cur < |s.bufs| && s.bufs[s.cur].size / 2 + |Expand(mono, src)| <= |s.bufs[s.cur].data|
  {
    var b := s.bufs[s.cur];
    Frag(Overwrite(b.data, b.size / 2, Expand(mono, src)), b.size + 2 * |Expand(mono, src)|, b.free)
  }

  lemma DoneEnabled(s: State, fragsize: nat)
    requires Inv(s, fragsize) && s.queue != []
    ensures Enabled(s, Done, fragsize)
  {
  }

  lemma DoneIs(s: State, fragsize: nat)
    requires Inv(s, fragsize) && Enabled(s, Done, fragsize)
    ensures s.queue[0].idx < |s.bufs|
    ensures var r := s.queue[0];
            Step(s, Done, fragsize) == State(s.bufs[r.idx := s.bufs[r.idx].(free := true)], s.cur, s.held,
                                             s.queue[1..], s.played + Piece(s.bufs, r))
  {
    QueuedIn(s, fragsize, 0);
  }

  lemma SubmitIs(s: State, fragsize: nat)
    requires Inv(s, fragsize) && Enabled(s, Submit, fragsize)
    ensures (s.cur + 1) % |s.bufs| < |s.bufs|
    ensures var b := s.bufs[s.cur];
            Step(s, Submit, fragsize) == State(s.bufs[s.cur := b.(size := 0)], (s.cur + 1) % |s.bufs|, false,
                                               s.queue + [Req(s.cur, b.size)], s.played)
  {
  }

  lemma FillIs(s: State, d: seq<Sample>, fragsize: nat)
    requires Inv(s, fragsize) && Enabled(s, Fill(d), fragsize)
    ensures s.bufs[s.cur].size / 2 + |d| <= |s.bufs[s.cur].data|
    ensures var b := s.bufs[s.cur];
            var b' := Frag(Overwrite(b.data, b.size / 2, d), b.size + 2 * |d|, b.free);
            Step(s, Fill(d), fragsize) == State(s.bufs[s.cur := b'], s.cur, s.held, s.queue, s.played)
  {
    FillSizes(s, d, fragsize);
  }

  /** The fragment after a submitted one is empty. */
  lemma FreshSlot(s: State, fragsize: nat)
    requires Inv(s, fragsize) && Enabled(s, Submit, fragsize)
    ensures var t := Step(s, Submit, fragsize); t.cur < |t.bufs| && t.bufs[t.cur].size == 0
  {
    NextSlot(s.cur, s.cur, |s.bufs|);
  }

  /** A semaphore is down only while DMA owns fragments. */
  lemma DownIsQueued(s: State, fragsize: nat, i: nat)
    requires Inv(s, fragsize) && !s.held && i < |s.bufs|
    ensures !s.bufs[i].free ==> s.queue != []
  {
  }

  /** The current fragment is free exactly if DMA does not own all of them, and the one before it exactly if DMA
      owns none. */
  lemma FreeIff(s: State, fragsize: nat)
    requires Inv(s, fragsize) && !s.held
    ensures s.bufs[s.cur].free <==> |s.queue| < |s.bufs|
    ensures var b := (|s.bufs| + s.cur - 1) % |s.bufs|; s.bufs[b].free <==> s.queue == []
  {
    var n: nat := |s.bufs|;
    PrevSlot(s.cur, n);
    var b: nat := (n + s.cur - 1) % n;
    hide Queued, Sizes;
    assert Behind(s.cur, s.cur, n) == n && Behind(b, s.cur, n) == 1;
  }

  /** The output audio_stream_t and its DMA channel. */
  class OutputStream {
    const fragsize: nat
    const data: seq<array<Sample>>
    var size: seq<nat>
    var sem: seq<bool>
    var cur: nat
    ghost var held: bool
    var queue: seq<Req>
    ghost var played: seq<Sample>

    ghost predicate Shape()
      reads this
    {
      && |data| == |size| == |sem| && cur < |data|
      && (forall i, j :: 0 <= i < j < |data| ==> data[i] != data[j])
    }

    ghost function Bufs(): (bufs: seq<Frag>)
      requires Shape()
      reads this, data
      ensures |bufs| == |data| && forall i :: 0 <= i < |data| ==> bufs[i] == Frag(data[i][..], size[i], sem[i])
    {
      seq(|data|, i requires 0 <= i < |data| && Shape() reads this, data => Frag(data[i][..], size[i], sem[i]))
    }

    ghost function View(): State
      requires Shape()
      reads this, data
    {
      State(Bufs(), cur, held, queue, played)
    }

    ghost predicate Valid()
      reads this, data
    {
      Shape() && Inv(View(), fragsize)
    }

    /** All samples accepted so far, played or not. */
    ghost function Accepted(): seq<Sample>
      requires Valid()
      reads this, data
    {
      Content(View())
    }

    /** The current fragment is not full. */
    predicate HasRoom()
      requires Valid()
      reads this, data
    {
      size[cur] < fragsize
    }

    /** The bytes left in the current fragment. */
    ghost function Room(): (r: nat)
      requires Valid()
      reads this, data
    {
      CurRoom(View(), fragsize);
      fragsize - size[cur]
    }

    lemma FreeRoom()
      requires Valid() && !held
      ensures 0 < Room() <= fragsize && Room() % 4 == 0 && fragsize % 4 == 0
    {
      hide Inv, Bufs;
      CurRoom(View(), fragsize);
    }

    lemma FreeHasRoom()
      requires Valid() && !held
      ensures HasRoom()
    {
      CurRoom(View(), fragsize);
    }

    lemma QueueBound()
      requires Valid()
      ensures 0 < |data| && |queue| <= |data|
    {
    }

    /** A stream over the fragments that audio_setup_buf laid out: all of one size, all free. */
    constructor (fragsize: nat, data: seq<array<Sample>>)
      requires fragsize > 0 && fragsize % 4 == 0 && data != []
      requires forall i :: 0 <= i < |data| ==> 2 * data[i].Length == fragsize
      requires forall i, j :: 0 <= i < j < |data| ==> data[i] != data[j]
      ensures Valid() && !held && Accepted() == [] && this.data == data && this.fragsize == fragsize
    {
      this.fragsize, this.data := fragsize, data;
      size, sem := seq(|data|, i => 0), seq(|data|, i => true);
      cur, held, queue, played := 0, false, [], [];
    }

    /** audio_dmaout_done_callback, for the oldest fragment on the queue. */
    method DmaoutDone()
      requires Valid() && queue != []
      modifies this`sem, this`queue, this`played
      ensures Valid() && View() == Step(old(View()), Done, fragsize)
      ensures Accepted() == old(Accepted()) && |queue| == |old(queue)| - 1
    {
      hide Inv, Content, Bufs, Step, Piece, Enabled;
      ghost var s := View();
      assert Enabled(s, Done, fragsize) by { DoneEnabled(s, fragsize); }
      DoneIs(s, fragsize);
      StepKeeps(s, Done, fragsize);
      var b := queue[0].idx;
      ghost var f := Frag(data[b][..], size[b], true);
      played := played + Piece(s.bufs, queue[0]);
      sem := sem[b := true];
      queue := queue[1..];
      assert Bufs() == s.bufs[b := f];
    }

    /** Some fragments complete. */
    method Completions(n: nat)
      requires Valid()
      modifies this`sem, this`queue, this`played
      ensures Valid() && Accepted() == old(Accepted()) && HasRoom() == old(HasRoom())
      ensures |queue| == if n < |old(queue)| then |old(queue)| - n else 0
      ensures n == 0 ==> queue == old(queue)
    {
      hide Inv, Step, Content, Bufs;
      var k := n;
      while k > 0 && queue != []
        invariant Valid() && Accepted() == old(Accepted())
        invariant 0 <= k <= n && |queue| == |old(queue)| - (n - k) && (k == n ==> queue == old(queue))
      {
        DmaoutDone();
        k := k - 1;
      }
    }

    /** Sleeping on a semaphore until a completion raises it. */
    method SleepUntilUp(i: nat)
      requires Valid() && !held && i < |data|
      modifies this`sem, this`queue, this`played
      ensures Valid() && Accepted() == old(Accepted()) && sem[i]
    {
      while !sem[i]
        invariant Valid() && Accepted() == old(Accepted())
        decreases |queue|
      {
        DownIsQueued(View(), fragsize, i);
        hide Inv, Content, Bufs, Step;
        DmaoutDone();
      }
    }

    method TakeCurrent()
      requires Valid() && !held && sem[cur]
      modifies this`sem, this`held
      ensures Valid() && Accepted() == old(Accepted()) && held
    {
      ghost var s, t := View(), Step(View(), Take, fragsize);
      StepKeeps(s, Take, fragsize);
      hide Inv, Content, Bufs;
      sem := sem[cur := false];
      held := true;
      assert Bufs() == t.bufs;
    }

    /** down_trylock or down_interruptible on the current fragment. */
    method Down(nonblock: bool, w: Wait) returns (ok: bool)
      requires Valid() && !held
      modifies this`sem, this`held, this`queue, this`played
      ensures Valid() && Accepted() == old(Accepted()) && held == ok && HasRoom()
      ensures ok <==> |old(queue)| < |data| || w.done > 0 || (!nonblock && !w.signal)
      ensures !ok ==> |queue| == |data|
    {
      hide Inv, Content, Bufs;
      FreeHasRoom();
      QueueBound();
      Completions(w.done);
      FreeIff(View(), fragsize);
      if !sem[cur] {
        if nonblock || w.signal {
          return false;
        }
        SleepUntilUp(cur);
      }
      TakeCurrent();
      ok := true;
    }

    /** up on the current fragment. */
    method Up()
      requires Valid() && held && HasRoom()
      modifies this`sem, this`held
      ensures Valid() && Accepted() == old(Accepted()) && !held
    {
      ghost var s, t := View(), Step(View(), Release, fragsize);
      StepKeeps(s, Release, fragsize);
      hide Inv, Content, Bufs;
      sem := sem[cur := true];
      held := false;
      assert Bufs() == t.bufs;
    }

    /** s3c2410_dma_enqueue, b->size = 0 and NEXT_BUF. */
    method Enqueue()
      requires Valid() && held
      modifies this`size, this`held, this`queue, this`cur
      ensures Valid() && Accepted() == old(Accepted()) && !held
      ensures cur == (old(cur) + 1) % |data| && size[cur] == 0 && |queue| > 0
    {
      hide Inv, Content, Bufs, Step;
      ghost var s, f := View(), Frag(data[cur][..], 0, sem[cur]);
      SubmitIs(s, fragsize);
      StepKeeps(s, Submit, fragsize);
      FreshSlot(s, fragsize);
      var b, next: nat := cur, (cur + 1) % |data|;
      queue := queue + [Req(b, size[b])];
      size := size[b := 0];
      held := false;
      cur := next;
      assert Bufs() == s.bufs[b := f];
    }

    method CopyChunk(mono: bool, src: seq<Sample>, addr: nat)
      requires Shape() && src != [] && size[cur] / 2 + |Expand(mono, src)| <= data[cur].Length
      modifies data[cur]
      ensures forall i :: 0 <= i < |data| ==>
        data[i][..] == if i == cur then Overwrite(old(Bufs())[i].data, size[cur] / 2, Expand(mono, src))
                       else old(Bufs())[i].data
    {
      hide Overwrite, Bufs;
      if mono {
        CopyMonoStereo(data[cur], size[cur] / 2, src, addr);
      } else {
        CopyFromUser(data[cur], size[cur] / 2, src);
      }
    }

    /** The copy of one chunk into the current fragment, and its new size. */
    method FillCurrent(mono: bool, src: seq<Sample>, addr: nat)
      requires Valid() && held && src != []
      requires size[cur] + 2 * |Expand(mono, src)| <= fragsize && |Expand(mono, src)| % 2 == 0
      requires 2 * data[cur].Length == fragsize
      modifies this`size, data
      ensures Valid() && Accepted() == old(Accepted()) + Expand(mono, src)
      ensures size == old(size)[cur := old(size[cur]) + 2 * |Expand(mono, src)|]
    {
      hide Inv, Content, Overwrite, Doubled, Bufs, Step, Expand;
      ghost var s, d, f := View(), Expand(mono, src), FilledFrag(View(), mono, src);
      FillIs(s, d, fragsize);
      StepKeeps(s, Fill(d), fragsize);
      CopyChunk(mono, src, addr);
      size := size[cur := size[cur] + if mono then 4 * |src| else 2 * |src|];
      assert Bufs() == s.bufs[cur := f];
    }

    /** As many of the left samples as fit, c of them, into the current fragment. */
    method FillChunk(mono: bool, user: seq<Sample>, addr: nat, m: nat, left: nat) returns (c: nat)
      requires Valid() && held && left > 0 && m + left <= |user| && (!mono ==> left % 2 == 0)
      requires HasRoom()
      modifies this`size, data
      ensures Valid() && 0 < c <= left && (!mono ==> c % 2 == 0)
      ensures Accepted() == old(Accepted()) + Expand(mono, user[m..m + c])
      ensures var cap := Capacity(mono, old(Room()));
              (HasRoom() <==> left < cap) && c == if left < cap then left else cap
    {
      hide Inv, Content, Bufs, Expand;
      CurRoom(View(), fragsize);
      c := ChunkLength(mono, fragsize - size[cur], left);
      FillCurrent(mono, user[m..m + c], addr + 2 * m);
    }

    /** One turn of the write loop: a chunk of c samples out of left, m of them being accepted before. A turn
        that gets the semaphore ends as TurnIs says; a refused submission leaves the semaphore down. */
    method WriteChunk(mono: bool, nonblock: bool, user: seq<Sample>, addr: nat, m: nat, left: nat, w: Wait)
      returns (turn: Turn, c: nat)
      requires Valid() && !held && left > 0 && m + left <= |user| && (!mono ==> left % 2 == 0)
      modifies this, data
      ensures Valid() && c <= left && (!mono ==> c % 2 == 0)
      ensures Accepted() == old(Accepted()) + Expand(mono, user[m..m + c])
      ensures turn.Blocked? <==> |old(queue)| == |data| && w.done == 0 && (nonblock || w.signal)
      ensures turn.Blocked? ==> |queue| == |data|
      ensures if turn.Blocked? then c == 0
              else TurnIs(turn, c, left, Capacity(mono, old(Room())), w)
      ensures (turn.More? ==> c > 0 && Room() == fragsize) && (held <==> turn.Refused?)
    {
      hide OutputStream.Valid, OutputStream.Accepted, OutputStream.HasRoom, Expand, Capacity;
      NothingExpands(mono, user, m);
      QueueBound();
      var ok := Down(nonblock, w);
      if !ok {
        return Blocked, 0;
      }
      if w.fault {
        Up();
        return Fault, 0;
      }
      c := FillChunk(mono, user, addr, m, left);
      Completions(w.meanwhile);
      if HasRoom() {
        Up();
        turn := Partly;
      } else if w.submit < 0 {
        turn := Refused(w.submit);
      } else {
        Enqueue();
        turn := More;
      }
    }

    /** The loop of smdk2410_audio_write over all samples of the caller, of which m are accepted. */
    method WriteLoop(mono: bool, nonblock: bool, user: seq<Sample>, addr: nat, all: nat, env: seq<Wait>)
      returns (m: nat, turn: Turn)
      requires Valid() && !held && all <= |user| && all % 2 == 0
      modifies this, data
      ensures Valid() && m <= all && (!mono ==> m % 2 == 0)
      ensures Accepted() == old(Accepted()) + Expand(mono, user[..m])
      ensures (held <==> turn.Refused?) && (turn.Partly? || turn.More? ==> m == all)
      ensures (turn.Fault? ==> !Never(env, Faults)) && (turn.Refused? ==> turn.code < 0 && !Never(env, Refuses))
      ensures !nonblock && Never(env, Signals) ==>
                !turn.Blocked? && Reporting(turn, m) == Outcome(mono, old(Room()), fragsize, all, env)
      ensures turn.Blocked? ==> |queue| == |data|
      ensures turn.Blocked? && m == 0
         <==> all > 0 && |old(queue)| == |data| && Befalls(env, 0).done == 0 && (nonblock || Befalls(env, 0).signal)
    {
      hide OutputStream.Valid, OutputStream.Accepted, OutputStream.Room;
      hide Expand, Never, Befalls, Capacity, Reached, Outcome, Reporting;
      ghost var was, room := Accepted(), Room();
      ghost var calm := !nonblock && Never(env, Signals);
      ghost var stuck :=
        |queue| == |data| && Befalls(env, 0).done == 0 && (nonblock || Befalls(env, 0).signal);
      var k: nat := 0;
      m, turn := 0, More;
      NothingExpands(mono, user, 0);
      FreeRoom();
      FirstReached(mono, room, fragsize, all, env);
      while m < all && turn.More?
        invariant Valid() && m <= all && (!mono ==> m % 2 == 0)
        invariant Accepted() == was + Expand(mono, user[..m])
        invariant (held <==> turn.Refused?) && (turn.Partly? ==> m == all)
        invariant (turn.Fault? ==> !Never(env, Faults)) && (turn.Refused? ==> turn.code < 0 && !Never(env, Refuses))
        invariant turn.More? ==> Room() == if k == 0 then room else fragsize
        invariant calm ==> !turn.Blocked? && Reached(mono, room, fragsize, all, env, k, m, turn)
        invariant k == 0 ==> m == 0 && turn.More? && queue == old(queue)
        invariant k > 0 ==> all > 0 && (turn.Blocked? && m == 0 <==> stuck) && (turn.More? ==> m > 0)
        invariant turn.Blocked? ==> |queue| == |data|
        decreases all - m, turn.More?
      {
        ghost var m0 := m;
        var w := Befalls(env, k);
        NeverBefalls(env, k);
        var c: nat;
        turn, c := WriteChunk(mono, nonblock, user, addr, m, all - m, w);
        ChunkOf(mono, user, m, c);
        m := m + c;
        if calm {
          NextReached(mono, room, fragsize, all, env, k, m0, turn, c);
        }
        k := k + 1;
      }
      if calm {
        LastReached(mono, room, fragsize, all, env, k, m, turn);
      }
    }

    /** smdk2410_audio_write, on a stream whose buffers are set up. n is the number of bytes accepted. What a
        blocking write reports, if no signal disturbs it, is its Outcome; it reports an error although it has
        accepted samples exactly if LosesLength says so. */
    method Write(mono: bool, nonblock: bool, user: seq<Sample>, addr: nat, count: nat, env: seq<Wait>)
      returns (ret: int, n: nat)
      requires Valid() && !held && count / 4 * 2 <= |user|
      modifies this, data
      ensures Valid() && n <= count / 4 * 4 && n % 2 == 0
      ensures Accepted() == old(Accepted()) + Expand(mono, user[..n / 2])
      ensures held || ret == n || ret == EFAULT || (n == 0 && ret == if nonblock then EAGAIN else ERESTARTSYS)
      ensures (Never(env, Faults) ==> ret != EFAULT || held) && (Never(env, Refuses) ==> !held) && (held ==> ret < 0)
      ensures var w := Befalls(env, 0);
              !held && ret == (if nonblock then EAGAIN else ERESTARTSYS)
              <==> count >= 4 && |old(queue)| == |data| && w.done == 0 && (nonblock || w.signal)
      ensures !held && ret != EFAULT && n < count / 4 * 4 ==> |queue| == |data|
      ensures !nonblock && Never(env, Signals) ==>
                var room, samples := old(Room()), count / 4 * 2;
                && Report(ret, n / 2, held) == Outcome(mono, room, fragsize, samples, env)
                && (ret < 0 && n > 0 <==> LosesLength(mono, room, fragsize, samples, env))
    {
      hide OutputStream.Valid, OutputStream.Accepted, OutputStream.Room;
      hide Expand, Never, Outcome, LosesLength, Befalls;
      ghost var room := Room();
      FreeRoom();
      var all: nat := count / 4 * 2;
      var m: nat, turn;
      m, turn := WriteLoop(mono, nonblock, user, addr, all, env);
      n := 2 * m;
      ret := if turn.Refused? then turn.code else if turn.Fault? then EFAULT else if n > 0 || all == 0 then n
             else if nonblock then EAGAIN else ERESTARTSYS;
      LengthLostIff(mono, room, fragsize, all, env);
    }

    method SubmitPartial()
      requires Valid() && !held
      modifies this
      ensures Valid() && !held && Accepted() == old(Accepted()) && size[cur] == 0
      ensures if old(size[cur]) == 0 then queue == old(queue) else queue != []
    {
      hide Inv, Content, Bufs;
      if size[cur] != 0 {
        SleepUntilUp(cur);
        TakeCurrent();
        Enqueue();
      }
    }

    /** audio_sync: on success everything accepted has been played. */
    method Sync(w: Wait) returns (ret: int)
      requires Valid() && !held
      modifies this
      ensures Valid() && !held && Accepted() == old(Accepted())
      ensures ret == 0 ==> queue == [] && played == Accepted()
      ensures ret == 0 || ret == EINTR
      ensures ret == EINTR <==> w.signal && (w.done < |old(queue)| || old(size[cur]) > 0)
    {
      hide Inv, Content, Bufs;
      Completions(w.done);
      SubmitPartial();
      FreeIff(View(), fragsize);
      var b: nat := (|data| + cur - 1) % |data|;
      if !sem[b] && w.signal {
        return EINTR;
      }
      SleepUntilUp(b);
      Drained(View(), fragsize);
      ret := 0;
    }

    /** A player: blocking writes of whole words, undisturbed, and then a sync. How the samples are split
        into writes, and where the writes start in user memory, makes no difference to what is played. */
    method Play(mono: bool, pieces: seq<seq<Sample>>, addrs: seq<nat>) returns (ret: int)
      requires Valid() && !held && |addrs| == |pieces|
      requires forall i :: 0 <= i < |pieces| ==> |pieces[i]| % 2 == 0
      modifies this, data
      ensures Valid() && !held && ret == 0
      ensures queue == [] && played == old(Accepted()) + if mono then Doubled(Joined(pieces)) else Joined(pieces)
    {
      hide OutputStream.Valid, OutputStream.Accepted, OutputStream.Room;
      hide Expand, Never, Outcome, LosesLength;
      ghost var was := Accepted();
      NothingExpands(mono, [], 0);
      assert pieces[..0] == [] && was + [] == was;
      for i := 0 to |pieces|
        invariant Valid() && !held
        invariant Accepted() == was + Expand(mono, Joined(pieces[..i]))
      {
        var p := pieces[i];
        NoEvents(mono, Room(), fragsize, |p|);
        var r, n := Write(mono, false, p, addrs[i], 2 * |p|, []);
        assert 2 * |p| / 4 * 2 == |p| && p[..|p|] == p;
        JoinedNext(mono, pieces, i);
      }
      assert pieces[..|pieces|] == pieces;
      ExpandIs(mono, Joined(pieces));
      ret := Sync(QUIET);
    }
  }
}
