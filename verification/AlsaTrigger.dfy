/** The duplex trigger state machine of the SA11xx UDA1341 ALSA driver. Capture needs the clock that
    playback drives, so the playback channel is fed zeros ("spins") while only capture is active. */
module AlsaTrigger {
  import opened Arith

  /** A DMA transfer. */
  datatype Chunk = Chunk(start: nat, size: nat)

  /** A substream's buffer: n periods of dmaSize bytes from dmaAddr on. The DMA channel queues up to cap
      chunks. */
  datatype Runtime = Runtime(n: nat, periodFrames: nat, frameBytes: nat, dmaAddr: nat, cap: nat)
  {
    function DmaSize(): nat {
      periodFrames * frameBytes
    }

    predicate Valid() {
      n > 0 && periodFrames > 0 && frameBytes > 0 && cap > 0
    }

    /** audio_get_dma_pos, for a channel that has got so many bytes into the buffer. */
    function Position(bytes: nat): nat
      requires Valid()
    {
      if bytes / frameBytes >= n * periodFrames then 0 else bytes / frameBytes
    }
  }

  /** struct audio_stream and its DMA channel; oldOffset is a paused position in frames, plus one. The channel
      plays queue and, once sa1100_dma_set_spin has set spinning, repeats the force-clock buffer when queue
      is empty, until it is flushed. */
  datatype Stream = Stream(active: bool, txSpin: bool, period: nat, periods: nat, oldOffset: nat,
                           queue: seq<Chunk>, spinning: bool)

  datatype Chip = Chip(playback: Stream, capture: Stream)

  datatype Id = Playback | Capture

  /** The stream that a trigger names. */
  function Of(x: Chip, id: Id): Stream {
    if id == Playback then x.playback else x.capture
  }

  function RtOf(id: Id, rtP: Runtime, rtC: Runtime): Runtime {
    if id == Playback then rtP else rtC
  }

  const IDLE := Stream(false, false, 0, 0, 0, [], false)

  datatype Cmd = Start | Stop | PausePush(bytes: nat) | PauseRelease | Suspend(bytes: nat) | Resume
  datatype Event = Trigger(id: Id, cmd: Cmd) | Callback(id: Id) | Prepare(id: Id)

  predicate InBuffer(c: Chunk, rt: Runtime) {
    rt.dmaAddr <= c.start && c.start + c.size <= rt.dmaAddr + rt.n * rt.DmaSize()
  }

  function Queued(s: Stream, c: Chunk, rt: Runtime): Stream
    requires rt.n > 0
  {
    s.(queue := s.queue + [c], period := (s.period + 1) % rt.n, periods := s.periods + 1)
  }

  /** The chunk of the current period. */
  function NextChunk(s: Stream, rt: Runtime): Chunk {
    Chunk(rt.dmaAddr + rt.DmaSize() * s.period, rt.DmaSize())
  }

  /** The byte at which a stream was paused. */
  function PausedAt(s: Stream, rt: Runtime): nat
    requires s.oldOffset > 0
  {
    (s.oldOffset - 1) * rt.frameBytes
  }

  lemma DmaSizePositive(rt: Runtime)
    requires rt.Valid()
    ensures rt.DmaSize() > 0
  {
  }

  /** Going on from a paused position: the rest of a period. */
  function Resumed(s: Stream, rt: Runtime): Stream
    requires rt.Valid() && s.oldOffset > 0
  {
    DmaSizePositive(rt);
    var offset, dma := PausedAt(s, rt), rt.DmaSize();
    var t := s.(oldOffset := 0, periods := 0, period := offset / dma);
    if |s.queue| >= rt.cap then t
    else Queued(t, Chunk(rt.dmaAddr + offset % dma, dma - offset % dma), rt)
  }

  /** Whole periods, until the ring or the channel is full. */
  function Refilled(s: Stream, rt: Runtime): Stream
    requires rt.Valid()
    decreases rt.n - s.periods
  {
    if !s.active || s.periods >= rt.n || |s.queue| >= rt.cap then s
    else Refilled(Queued(s, NextChunk(s, rt), rt), rt)
  }

  /** audio_process_dma. */
  function Process(s: Stream, rt: Runtime): Stream
    requires rt.Valid()
  {
    if s.txSpin then s.(spinning := true)
    else Refilled(if s.active && s.periods < rt.n && s.oldOffset > 0 then Resumed(s, rt) else s, rt)
  }

  function Flushed(s: Stream): Stream {
    s.(queue := [], spinning := false)
  }

  /** audio_stop_dma. */
  function Stopped(s: Stream): Stream {
    Flushed(s.(active := false, period := 0))
  }

  /** SNDRV_PCM_TRIGGER_SUSPEND, for the stream itself. */
  function Suspended(s: Stream, rt: Runtime, bytes: nat): Stream
    requires rt.Valid()
  {
    Flushed(s.(active := false, oldOffset := rt.Position(bytes) + 1, periods := 0))
  }

  function Activated(s: Stream): Stream {
    s.(active := true, txSpin := false)
  }

  /** The zero fill of the playback channel, on or off. */
  function Spin(s: Stream, rt: Runtime): Stream
    requires rt.Valid()
  {
    Process(s.(txSpin := true), rt)
  }

  function PlaybackStep(x: Chip, cmd: Cmd, rt: Runtime): Stream
    requires rt.Valid()
  {
    var p := x.playback;
    match cmd
    case Start => Process(Activated(p), rt)
    case Stop => if x.capture.active then Spin(Stopped(p), rt) else Stopped(p)
    case PausePush(bytes) =>
      if x.capture.active then
        Spin(Flushed(p.(active := false, oldOffset := rt.Position(bytes) + 1)), rt)
      else p.(active := false)
    case PauseRelease =>
      if p.oldOffset > 0 then Process(Activated(p), rt) else p.(active := true)
    case Suspend(bytes) => Suspended(p, rt, bytes)
    case Resume => Process(Activated(p), rt)
  }

  function CaptureStep(x: Chip, cmd: Cmd, rtP: Runtime, rtC: Runtime): Chip
    requires rtP.Valid() && rtC.Valid()
  {
    var p, c := x.playback, x.capture;
    var clocked := if p.active then p else Spin(p, rtP);
    match cmd
    case Start => Chip(clocked, Process(c.(active := true), rtC))
    case Stop => Chip(if p.txSpin then Stopped(p.(txSpin := false)) else p, Stopped(c))
    case PausePush(_) => Chip(if p.txSpin then Flushed(p.(txSpin := false)) else p, c.(active := false))
    case PauseRelease =>
      if c.oldOffset > 0 then Chip(p, Process(Activated(c), rtC)) else Chip(clocked, c.(active := true))
    case Suspend(bytes) => Chip(p, Suspended(c, rtC, bytes))
    case Resume => Chip(clocked, Process(Activated(c), rtC))
  }

  /** The channel completes a chunk. */
  function Completed(s: Stream, rt: Runtime): Stream
    requires rt.Valid()
  {
    Process(s.(queue := if s.queue == [] then [] else s.queue[1..],
               periods := if !s.txSpin && s.periods > 0 then s.periods - 1 else s.periods), rt)
  }

  function Step(x: Chip, e: Event, rtP: Runtime, rtC: Runtime): Chip
    requires rtP.Valid() && rtC.Valid()
  {
    match e
    case Trigger(Playback, cmd) => x.(playback := PlaybackStep(x, cmd, rtP))
    case Trigger(Capture, cmd) => CaptureStep(x, cmd, rtP, rtC)
    case Callback(Playback) => x.(playback := Completed(x.playback, rtP))
    case Callback(Capture) => x.(capture := Completed(x.capture, rtC))
    case Prepare(Playback) => x.(playback := x.playback.(period := 0, periods := 0))
    case Prepare(Capture) => x.(capture := x.capture.(period := 0, periods := 0))
  }

  /** Positions are in range, every queued chunk lies inside the buffer, and nothing is queued while a paused
      position waits. */
  ghost predicate StreamOk(s: Stream, rt: Runtime) {
    && (s.oldOffset > 0 ==> s.queue == [])
    && s.period < rt.n && s.periods <= rt.n && s.oldOffset <= rt.n * rt.periodFrames
    && forall i :: 0 <= i < |s.queue| ==> InBuffer(s.queue[i], rt)
  }

  ghost predicate Inv(x: Chip, rtP: Runtime, rtC: Runtime) {
    && rtP.Valid() && rtC.Valid() && StreamOk(x.playback, rtP) && StreamOk(x.capture, rtC) && !x.capture.txSpin
  }

  /** The channel has something to send: the force-clock buffer, or chunks of an active stream. */
  predicate Feeds(p: Stream) {
    p.spinning || (p.active && p.queue != [])
  }

  /** Active capture has a clock: the playback channel sends something, and playback is active or asked for
      the zero fill. The zero fill is asked for only while capture is active, and then the channel does it. */
  predicate Clocked(x: Chip) {
    && (x.capture.active ==> Feeds(x.playback) && (x.playback.active || x.playback.txSpin))
    && (x.playback.txSpin ==> x.capture.active && x.playback.spinning)
  }

  lemma PeriodInBuffer(s: Stream, rt: Runtime)
    requires rt.Valid() && s.period < rt.n
    ensures InBuffer(NextChunk(s, rt), rt)
  {
    var d := rt.DmaSize();
    assert d * s.period + d == (s.period + 1) * d;
    Scale(s.period + 1, rt.n, d);
  }

  lemma QueuedOk(s: Stream, c: Chunk, rt: Runtime)
    requires rt.Valid() && StreamOk(s, rt) && s.periods < rt.n && InBuffer(c, rt) && s.oldOffset == 0
    ensures StreamOk(Queued(s, c, rt), rt)
  {
  }

  lemma {:induction false} RefilledOk(s: Stream, rt: Runtime)
    requires rt.Valid() && StreamOk(s, rt) && (s.active && s.periods < rt.n ==> s.oldOffset == 0)
    ensures StreamOk(Refilled(s, rt), rt)
    ensures var t := Refilled(s, rt); t == s.(period := t.period, periods := t.periods, queue := t.queue)
    ensures var t := Refilled(s, rt); t.active ==> t.periods == rt.n || |t.queue| >= rt.cap
    decreases rt.n - s.periods
  {
    hide InBuffer, NextChunk;
    if !(!s.active || s.periods >= rt.n || |s.queue| >= rt.cap) {
      PeriodInBuffer(s, rt);
      QueuedOk(s, NextChunk(s, rt), rt);
      RefilledOk(Queued(s, NextChunk(s, rt), rt), rt);
    }
  }

  lemma Below(a: nat, b: nat, c: nat)
    requires a < b && c > 0
    ensures a * c < b * c
  {
  }

  lemma DivBound(x: nat, n: nat, d: nat)
    requires d > 0 && x < n * d
    ensures x / d < n
  {
    var q := x / d;
    assert q * d <= x;
    assert (n - q) * d == n * d - q * d;
    SameSign(q - n, d);
    assert (q - n) * d == q * d - n * d;
  }

  /** A paused position lies in one of the periods. */
  lemma PausedPeriod(s: Stream, rt: Runtime)
    requires rt.Valid() && 0 < s.oldOffset <= rt.n * rt.periodFrames
    ensures rt.DmaSize() > 0 && PausedAt(s, rt) / rt.DmaSize() < rt.n
  {
    var d, x := rt.DmaSize(), PausedAt(s, rt);
    DmaSizePositive(rt);
    Below(s.oldOffset - 1, rt.n * rt.periodFrames, rt.frameBytes);
    assert rt.n * rt.periodFrames * rt.frameBytes == rt.n * d;
    DivBound(x, rt.n, d);
  }

  lemma ResumedOk(s: Stream, rt: Runtime)
    requires rt.Valid() && StreamOk(s, rt) && s.oldOffset > 0
    ensures StreamOk(Resumed(s, rt), rt)
    ensures var t := Resumed(s, rt);
            t == s.(oldOffset := 0, period := t.period, periods := t.periods, queue := t.queue)
  {
    PausedPeriod(s, rt);
    var offset, dma := PausedAt(s, rt), rt.DmaSize();
    var t := s.(oldOffset := 0, periods := 0, period := offset / dma);
    assert StreamOk(t, rt);
    Scale(1, rt.n, dma);
    var c := Chunk(rt.dmaAddr + offset % dma, dma - offset % dma);
    assert InBuffer(c, rt);
    QueuedOk(t, c, rt);
  }

  lemma SpinningOk(s: Stream, rt: Runtime)
    requires StreamOk(s, rt)
    ensures StreamOk(s.(spinning := true), rt)
  {
  }

  lemma ProcessOk(s: Stream, rt: Runtime)
    requires rt.Valid() && StreamOk(s, rt)
    ensures var t := Process(s, rt);
            StreamOk(t, rt) && t.active == s.active && t.txSpin == s.txSpin && (s.oldOffset == 0 ==> t.oldOffset == 0)
  {
    hide StreamOk, Resumed, Refilled;
    if !s.txSpin {
      if s.active && s.periods < rt.n && s.oldOffset > 0 {
        ResumedOk(s, rt);
        RefilledOk(Resumed(s, rt), rt);
      } else {
        RefilledOk(s, rt);
      }
    } else {
      SpinningOk(s, rt);
    }
  }

  lemma QuietOk(s: Stream, t: Stream, rt: Runtime)
    requires StreamOk(s, rt) && (t.period == s.period || t.period == 0) && t.periods <= s.periods
    requires t.oldOffset <= rt.n * rt.periodFrames && (t.oldOffset == s.oldOffset || t.queue == [])
    requires t.queue == s.queue || t.queue == [] || (s.queue != [] && t.queue == s.queue[1..])
    ensures StreamOk(t, rt)
  {
  }

  lemma PositionOk(rt: Runtime, bytes: nat)
    requires rt.Valid()
    ensures rt.Position(bytes) + 1 <= rt.n * rt.periodFrames
  {
    Scale(1, rt.n, rt.periodFrames);
  }

  /** The position is the whole frame that the channel is in, or the start once it is past the buffer. */
  lemma PositionMeans(rt: Runtime, bytes: nat)
    requires rt.Valid()
    ensures var p := rt.Position(bytes);
            && p < rt.n * rt.periodFrames
            && if bytes < rt.n * rt.DmaSize() then p * rt.frameBytes <= bytes < (p + 1) * rt.frameBytes else p == 0
  {
    var q, all := bytes / rt.frameBytes, rt.n * rt.periodFrames;
    PositionOk(rt, bytes);
    Quotient(bytes, rt.frameBytes);
    Distribute(q, 1, rt.frameBytes);
    assert rt.n * rt.DmaSize() == all * rt.frameBytes;
    if q < all {
      Scale(q + 1, all, rt.frameBytes);
    } else {
      Scale(all, q, rt.frameBytes);
    }
  }

  lemma SpinOk(s: Stream, rt: Runtime)
    requires rt.Valid() && StreamOk(s, rt)
    ensures var t := Spin(s, rt); StreamOk(t, rt) && t.active == s.active && t.txSpin && t.oldOffset == s.oldOffset
    ensures Spin(s, rt).queue == s.queue
  {
    SpinningOk(s.(txSpin := true), rt);
  }

  /** The events that keep the clock. Suspending playback flushes its channel under a running capture;
      suspending capture leaves the zero fill on; and capture that becomes active beside active playback
      relies on the playback channel, whether or not it has anything to send. */
  predicate KeepsClock(x: Chip, e: Event) {
    var p, c := x.playback, x.capture;
    match e
    case Trigger(Playback, Suspend(_)) => !c.active
    case Trigger(Capture, Suspend(_)) => !p.txSpin
    case Trigger(Capture, PauseRelease) =>
      (p.active ==> Feeds(p)) && (c.oldOffset > 0 ==> p.active || p.txSpin)
    case Trigger(Capture, cmd) => (cmd == Start || cmd == Resume) && p.active ==> Feeds(p)
    case _ => true
  }

  lemma ActivatedOk(s: Stream, rt: Runtime)
    requires StreamOk(s, rt)
    ensures StreamOk(Activated(s), rt)
  {
  }

  lemma SuspendedOk(s: Stream, rt: Runtime, bytes: nat)
    requires rt.Valid() && StreamOk(s, rt)
    ensures StreamOk(Suspended(s, rt, bytes), rt)
  {
    PositionOk(rt, bytes);
  }

  lemma StreamRange(s: Stream, rt: Runtime)
    requires StreamOk(s, rt)
    ensures s.oldOffset <= rt.n * rt.periodFrames
  {
  }

  lemma PlaybackKeeps(x: Chip, cmd: Cmd, rtP: Runtime, rtC: Runtime)
    requires Inv(x, rtP, rtC)
    ensures Inv(Step(x, Trigger(Playback, cmd), rtP, rtC), rtP, rtC)
  {
    var p := x.playback;
    StreamRange(p, rtP);
    ActivatedOk(p, rtP);
    hide StreamOk, Process, InBuffer;
    match cmd {
      case Start => ProcessOk(Activated(p), rtP);
      case Stop =>
        QuietOk(p, Stopped(p), rtP);
        SpinOk(Stopped(p), rtP);
      case PausePush(bytes) =>
        PositionOk(rtP, bytes);
        QuietOk(p, p.(active := false), rtP);
        var q := Flushed(p.(active := false, oldOffset := rtP.Position(bytes) + 1));
        QuietOk(p, q, rtP);
        SpinOk(q, rtP);
      case PauseRelease =>
        QuietOk(p, p.(active := true), rtP);
        ProcessOk(Activated(p), rtP);
      case Suspend(bytes) => SuspendedOk(p, rtP, bytes);
      case Resume => ProcessOk(Activated(p), rtP);
    }
  }

  lemma CaptureKeeps(x: Chip, cmd: Cmd, rtP: Runtime, rtC: Runtime)
    requires Inv(x, rtP, rtC)
    ensures Inv(Step(x, Trigger(Capture, cmd), rtP, rtC), rtP, rtC)
  {
    var p, c := x.playback, x.capture;
    StreamRange(p, rtP);
    StreamRange(c, rtC);
    ActivatedOk(c, rtC);
    if cmd.Suspend? { SuspendedOk(c, rtC, cmd.bytes); }
    hide StreamOk, Process, InBuffer;
    SpinOk(p, rtP);
    QuietOk(c, c.(active := true), rtC);
    QuietOk(c, c.(active := false), rtC);
    QuietOk(c, Stopped(c), rtC);
    QuietOk(p, Stopped(p.(txSpin := false)), rtP);
    QuietOk(p, Flushed(p.(txSpin := false)), rtP);
    ProcessOk(c.(active := true), rtC);
    ProcessOk(Activated(c), rtC);
  }

  lemma CompletedOk(s: Stream, rt: Runtime)
    requires rt.Valid() && StreamOk(s, rt)
    ensures var t := Completed(s, rt);
            StreamOk(t, rt) && t.active == s.active && t.txSpin == s.txSpin && (s.oldOffset == 0 ==> t.oldOffset == 0)
  {
    StreamRange(s, rt);
    var t := s.(queue := if s.queue == [] then [] else s.queue[1..],
                periods := if !s.txSpin && s.periods > 0 then s.periods - 1 else s.periods);
    hide StreamOk, Process;
    QuietOk(s, t, rt);
    ProcessOk(t, rt);
  }

  /** Every trigger, completion and prepare keeps the positions. */
  lemma StepKeeps(x: Chip, e: Event, rtP: Runtime, rtC: Runtime)
    requires Inv(x, rtP, rtC)
    ensures Inv(Step(x, e, rtP, rtC), rtP, rtC)
  {
    StreamRange(x.playback, rtP);
    StreamRange(x.capture, rtC);
    hide StreamOk, PlaybackStep, CaptureStep, Completed;
    match e {
      case Trigger(Playback, cmd) => PlaybackKeeps(x, cmd, rtP, rtC);
      case Trigger(Capture, cmd) => CaptureKeeps(x, cmd, rtP, rtC);
      case Callback(Playback) => CompletedOk(x.playback, rtP);
      case Callback(Capture) => CompletedOk(x.capture, rtC);
      case Prepare(Playback) => QuietOk(x.playback, x.playback.(period := 0, periods := 0), rtP);
      case Prepare(Capture) => QuietOk(x.capture, x.capture.(period := 0, periods := 0), rtC);
    }
  }

  function Run(x: Chip, es: seq<Event>, rtP: Runtime, rtC: Runtime): Chip
    requires rtP.Valid() && rtC.Valid()
    decreases |es|
  {
    if es == [] then x else Run(Step(x, es[0], rtP, rtC), es[1..], rtP, rtC)
  }

  /** Over every run: each queued chunk lies inside its buffer, the positions are in range, and capture is
      never zero-filled. */
  lemma {:induction false} RunKeeps(x: Chip, es: seq<Event>, rtP: Runtime, rtC: Runtime)
    requires Inv(x, rtP, rtC)
    ensures Inv(Run(x, es, rtP, rtC), rtP, rtC)
    decreases |es|
  {
    if es != [] {
      StepKeeps(x, es[0], rtP, rtC);
      hide Inv, Step;
      RunKeeps(Step(x, es[0], rtP, rtC), es[1..], rtP, rtC);
    }
  }

  /** Active playback has something on its channel. Then a capture that starts, resumes or is released beside
      it finds a clock. */
  predicate Supplied(x: Chip) {
    x.playback.active ==> Feeds(x.playback)
  }

  lemma IdleOk(rtP: Runtime, rtC: Runtime)
    requires rtP.Valid() && rtC.Valid()
    ensures Inv(Chip(IDLE, IDLE), rtP, rtC) && Clocked(Chip(IDLE, IDLE)) && Supplied(Chip(IDLE, IDLE))
  {
  }

  // ---------- the clock of capture ----------

  lemma {:induction false} RefilledExtends(s: Stream, rt: Runtime)
    requires rt.Valid()
    ensures s.queue <= Refilled(s, rt).queue
    decreases rt.n - s.periods
  {
    hide NextChunk;
    if !(!s.active || s.periods >= rt.n || |s.queue| >= rt.cap) {
      RefilledExtends(Queued(s, NextChunk(s, rt), rt), rt);
    }
  }

  /** What audio_process_dma leaves on the channel. */
  lemma ProcessFeeds(s: Stream, rt: Runtime)
    requires rt.Valid() && StreamOk(s, rt)
    ensures var t := Process(s, rt);
            && t.active == s.active && t.txSpin == s.txSpin && t.spinning == (s.spinning || s.txSpin)
            && (t.queue != [] <==> s.queue != [] || (!s.txSpin && s.active && s.periods < rt.n))
  {
    if !s.txSpin && s.active && s.periods < rt.n {
      var t := if s.oldOffset > 0 then Resumed(s, rt)
               else if |s.queue| < rt.cap then Queued(s, NextChunk(s, rt), rt) else s;
      assert t.queue != [];
      RefilledExtends(t, rt);
      if s.oldOffset > 0 { ResumedOk(s, rt); }
      hide StreamOk, InBuffer, NextChunk;
      RefilledOk(if s.oldOffset > 0 then t else s, rt);
    }
  }

  lemma PlaybackClock(x: Chip, cmd: Cmd, rtP: Runtime, rtC: Runtime)
    requires Inv(x, rtP, rtC) && Clocked(x)
    ensures Clocked(Step(x, Trigger(Playback, cmd), rtP, rtC)) <==> KeepsClock(x, Trigger(Playback, cmd))
  {
    ActivatedOk(x.playback, rtP);
    ProcessFeeds(Activated(x.playback), rtP);
    hide StreamOk, InBuffer, Refilled, Resumed;
  }

  lemma SpinFeeds(s: Stream, rt: Runtime)
    requires rt.Valid()
    ensures Spin(s, rt) == s.(txSpin := true, spinning := true)
  {
  }

  lemma CaptureClock(x: Chip, cmd: Cmd, rtP: Runtime, rtC: Runtime)
    requires Inv(x, rtP, rtC) && Clocked(x)
    ensures Clocked(Step(x, Trigger(Capture, cmd), rtP, rtC)) <==> KeepsClock(x, Trigger(Capture, cmd))
  {
    var c := x.capture;
    ActivatedOk(c, rtC);
    ProcessFeeds(Activated(c), rtC);
    SpinFeeds(x.playback, rtP);
    assert c.(active := true) == Activated(c);
    hide StreamOk, InBuffer, Process;
  }

  lemma CompletedFeeds(s: Stream, rt: Runtime)
    requires rt.Valid() && StreamOk(s, rt)
    ensures var t := Completed(s, rt);
            && t.active == s.active && t.txSpin == s.txSpin && t.spinning == (s.spinning || s.txSpin)
            && (Feeds(s) ==> Feeds(t))
  {
    var t := s.(queue := if s.queue == [] then [] else s.queue[1..],
                periods := if !s.txSpin && s.periods > 0 then s.periods - 1 else s.periods);
    QuietOk(s, t, rt);
    assert !s.txSpin ==> t.periods < rt.n;
    hide Process;
    ProcessFeeds(t, rt);
  }

  /** An event keeps the clock of capture exactly if KeepsClock says so: these four take it away. */
  lemma ClockStep(x: Chip, e: Event, rtP: Runtime, rtC: Runtime)
    requires Inv(x, rtP, rtC) && Clocked(x)
    ensures Clocked(Step(x, e, rtP, rtC)) <==> KeepsClock(x, e)
    ensures var p, c := x.playback, x.capture;
            !KeepsClock(x, e)
            <==> e.Trigger? && (|| (e.id == Playback && e.cmd.Suspend? && c.active)
                                || (e.id == Capture && e.cmd.Suspend? && p.txSpin)
                                || (e.id == Capture && (e.cmd == Start || e.cmd == Resume || e.cmd == PauseRelease)
                                    && p.active && !p.spinning && p.queue == [])
                                || (e.id == Capture && e.cmd == PauseRelease && c.oldOffset > 0
                                    && !p.active && !p.txSpin))
  {
    match e
    case Trigger(Playback, cmd) => PlaybackClock(x, cmd, rtP, rtC);
    case Trigger(Capture, cmd) => CaptureClock(x, cmd, rtP, rtC);
    case Callback(Playback) => hide Completed, StreamOk; CompletedFeeds(x.playback, rtP);
    case Callback(Capture) => hide Completed, StreamOk; CompletedFeeds(x.capture, rtC);
    case Prepare(_) =>
  }

  /** Every event keeps the clock of the chip that it meets. */
  predicate ClockKept(x: Chip, es: seq<Event>, rtP: Runtime, rtC: Runtime)
    requires rtP.Valid() && rtC.Valid()
    decreases |es|
  {
    es == [] || (KeepsClock(x, es[0]) && ClockKept(Step(x, es[0], rtP, rtC), es[1..], rtP, rtC))
  }

  /** Over every such run active capture has a clock, and the channel fills with zeros while it is asked to. */
  lemma {:induction false} RunClocked(x: Chip, es: seq<Event>, rtP: Runtime, rtC: Runtime)
    requires Inv(x, rtP, rtC) && Clocked(x) && ClockKept(x, es, rtP, rtC)
    ensures Clocked(Run(x, es, rtP, rtC))
    decreases |es|
  {
    if es != [] {
      StepKeeps(x, es[0], rtP, rtC);
      ClockStep(x, es[0], rtP, rtC);
      hide Inv, Step, Clocked, KeepsClock;
      RunClocked(Step(x, es[0], rtP, rtC), es[1..], rtP, rtC);
    }
  }

  /** The events that keep active playback supplied. Playback that becomes active with all periods accounted
      for, but an empty channel, queues nothing; and pausing a capture flushes a channel that also plays. */
  predicate KeepsSupply(x: Chip, e: Event, rtP: Runtime) {
    var p := x.playback;
    match e
    case Trigger(Playback, PauseRelease) => p.spinning || p.queue != [] || (p.oldOffset > 0 && p.periods < rtP.n)
    case Trigger(Playback, cmd) =>
      cmd == Start || cmd == Resume ==> p.spinning || p.queue != [] || p.periods < rtP.n
    case Trigger(Capture, PausePush(_)) => !(p.active && p.txSpin)
    case _ => true
  }

  lemma PlaybackSupply(x: Chip, cmd: Cmd, rtP: Runtime, rtC: Runtime)
    requires Inv(x, rtP, rtC) && Supplied(x)
    ensures Supplied(Step(x, Trigger(Playback, cmd), rtP, rtC)) <==> KeepsSupply(x, Trigger(Playback, cmd), rtP)
  {
    ActivatedOk(x.playback, rtP);
    assert x.playback.oldOffset > 0 ==> x.playback.queue == [];
    ProcessFeeds(Activated(x.playback), rtP);
    hide StreamOk, InBuffer, Refilled, Resumed;
  }

  /** An event keeps active playback supplied exactly if KeepsSupply says so: these three take it away. */
  lemma SupplyStep(x: Chip, e: Event, rtP: Runtime, rtC: Runtime)
    requires Inv(x, rtP, rtC) && Supplied(x)
    ensures Supplied(Step(x, e, rtP, rtC)) <==> KeepsSupply(x, e, rtP)
    ensures var p := x.playback;
            !KeepsSupply(x, e, rtP)
            <==> e.Trigger? && (|| (e.id == Playback && (e.cmd == Start || e.cmd == Resume || e.cmd == PauseRelease)
                                    && !p.spinning && p.queue == [] && p.periods >= rtP.n)
                                || (e.id == Playback && e.cmd == PauseRelease
                                    && !p.spinning && p.queue == [] && p.oldOffset == 0)
                                || (e.id == Capture && e.cmd.PausePush? && p.active && p.txSpin))
  {
    var p := x.playback;
    match e
    case Trigger(Playback, cmd) => PlaybackSupply(x, cmd, rtP, rtC);
    case Trigger(Capture, cmd) => hide Process, StreamOk; SpinFeeds(p, rtP);
    case Callback(Playback) => hide Completed, StreamOk; CompletedFeeds(p, rtP);
    case Callback(Capture) => hide Completed, StreamOk;
    case Prepare(_) =>
  }

  lemma RunFirst(x: Chip, e: Event, es: seq<Event>, rtP: Runtime, rtC: Runtime)
    requires rtP.Valid() && rtC.Valid()
    ensures [e] + es != [] && Run(x, [e] + es, rtP, rtC) == Run(Step(x, e, rtP, rtC), es, rtP, rtC)
  {
    assert ([e] + es)[1..] == es;
  }

  lemma RunTwo(x: Chip, e0: Event, e1: Event, es: seq<Event>, rtP: Runtime, rtC: Runtime)
    requires rtP.Valid() && rtC.Valid()
    ensures [e0, e1] + es != []
    ensures Run(x, [e0, e1] + es, rtP, rtC) == Run(Step(Step(x, e0, rtP, rtC), e1, rtP, rtC), es, rtP, rtC)
  {
    hide Step;
    assert [e0, e1] + es == [e0] + ([e1] + es);
    RunFirst(x, e0, [e1] + es, rtP, rtC);
    RunFirst(Step(x, e0, rtP, rtC), e1, es, rtP, rtC);
  }

  /** Pausing and releasing capture while playback runs on the zero-filled channel: both streams are active,
      nothing is on the channel of playback, and capture has no clock. Only START and PAUSE are used. */
  lemma PauseLosesClock(rtP: Runtime, rtC: Runtime, b0: nat, b1: nat)
    requires rtP.Valid() && rtC.Valid()
    ensures var es := [Trigger(Playback, Start), Trigger(Playback, PausePush(b0)), Trigger(Capture, Start),
                       Trigger(Playback, PauseRelease), Trigger(Capture, PausePush(b1)),
                       Trigger(Capture, PauseRelease)];
            var x := Run(Chip(IDLE, IDLE), es, rtP, rtC);
            x.capture.active && x.playback.active && x.playback.queue == [] && !x.playback.spinning
  {
    var e0, e1, e2 := Trigger(Playback, Start), Trigger(Playback, PausePush(b0)), Trigger(Capture, Start);
    var e3, e4, e5 := Trigger(Playback, PauseRelease), Trigger(Capture, PausePush(b1)), Trigger(Capture, PauseRelease);
    var x0 := Chip(IDLE, IDLE);
    ProcessOk(Activated(IDLE), rtP);
    ProcessOk(IDLE.(active := true), rtC);
    hide Process, StreamOk, InBuffer;
    var x1 := Step(x0, e0, rtP, rtC);
    var x2 := Step(x1, e1, rtP, rtC);
    SpinFeeds(x2.playback, rtP);
    var x3 := Step(x2, e2, rtP, rtC);
    var x4 := Step(x3, e3, rtP, rtC);
    var x5 := Step(x4, e4, rtP, rtC);
    assert x4.playback.active && x4.playback.txSpin && !x5.capture.active && x5.capture.oldOffset == 0;
    var x6 := Step(x5, e5, rtP, rtC);
    assert [e0, e1] + [e2, e3, e4, e5] == [e0, e1, e2, e3, e4, e5];
    assert [e2, e3] + [e4, e5] == [e2, e3, e4, e5] && [e4, e5] + [] == [e4, e5];
    hide Step;
    RunTwo(x0, e0, e1, [e2, e3, e4, e5], rtP, rtC);
    RunTwo(x2, e2, e3, [e4, e5], rtP, rtC);
    RunTwo(x4, e4, e5, [], rtP, rtC);
  }

  /** Suspending playback while both streams run leaves capture active without a clock. */
  lemma SuspendLosesClock(rtP: Runtime, rtC: Runtime, bytes: nat)
    requires rtP.Valid() && rtC.Valid()
    ensures var es := [Trigger(Playback, Start), Trigger(Capture, Start), Trigger(Playback, Suspend(bytes))];
            var x := Run(Chip(IDLE, IDLE), es, rtP, rtC);
            x.capture.active && !x.playback.active && !Feeds(x.playback)
  {
    var e0, e1, e2 := Trigger(Playback, Start), Trigger(Capture, Start), Trigger(Playback, Suspend(bytes));
    ProcessOk(Activated(IDLE), rtP);
    ProcessOk(IDLE.(active := true), rtC);
    assert [e0] + [e1, e2] == [e0, e1, e2] && [e1] + [e2] == [e1, e2] && [e2] + [] == [e2];
    hide Process, StreamOk, InBuffer;
    var x0 := Chip(IDLE, IDLE);
    var x1 := Step(x0, e0, rtP, rtC);
    var x2 := Step(x1, e1, rtP, rtC);
    RunFirst(x0, e0, [e1, e2], rtP, rtC);
    RunFirst(x1, e1, [e2], rtP, rtC);
    RunFirst(x2, e2, [], rtP, rtC);
  }

  /** The playback channel does one thing at a time. */
  predicate OneUse(x: Chip) {
    !(x.playback.active && x.playback.txSpin)
  }

  lemma ActiveOrSpin(x: Chip, cmd: Cmd, rtP: Runtime, rtC: Runtime)
    requires Inv(x, rtP, rtC) && OneUse(x)
    ensures OneUse(Step(x, Trigger(Playback, cmd), rtP, rtC))
       <==> !(cmd == PauseRelease && x.playback.oldOffset == 0 && x.playback.txSpin)
  {
    var p := x.playback;
    StreamRange(p, rtP);
    ActivatedOk(p, rtP);
    hide StreamOk, Process, InBuffer;
    match cmd {
      case Start => ProcessOk(Activated(p), rtP);
      case Stop =>
        QuietOk(p, Stopped(p), rtP);
        SpinOk(Stopped(p), rtP);
      case PausePush(bytes) =>
        PositionOk(rtP, bytes);
        var q := Flushed(p.(active := false, oldOffset := rtP.Position(bytes) + 1));
        QuietOk(p, q, rtP);
        SpinOk(q, rtP);
      case PauseRelease => ProcessOk(Activated(p), rtP);
      case Suspend(_) =>
      case Resume => ProcessOk(Activated(p), rtP);
    }
  }

  /** The only event that makes playback active while it is being zero-filled: releasing a pause that was
      entered while capture was idle, after capture has started. */
  lemma OneUseStep(x: Chip, e: Event, rtP: Runtime, rtC: Runtime)
    requires Inv(x, rtP, rtC) && OneUse(x)
    ensures OneUse(Step(x, e, rtP, rtC))
       <==> !(e == Trigger(Playback, PauseRelease) && x.playback.oldOffset == 0 && x.playback.txSpin)
  {
    var p := x.playback;
    hide StreamOk, Process, InBuffer;
    match e {
      case Trigger(Playback, cmd) =>
        ActiveOrSpin(x, cmd, rtP, rtC);
      case Trigger(Capture, cmd) =>
        SpinOk(p, rtP);
      case Callback(Playback) => CompletedOk(p, rtP);
      case Callback(Capture) =>
      case Prepare(_) =>
    }
  }

  /** Stopping capture leaves playback running exactly when it was not also being zero-filled. */
  lemma StopCaptureSpares(x: Chip, rtP: Runtime, rtC: Runtime)
    requires Inv(x, rtP, rtC) && x.playback.active
    ensures Step(x, Trigger(Capture, Stop), rtP, rtC).playback.active <==> OneUse(x)
  {
  }

  lemma RunFour(x: Chip, e0: Event, e1: Event, e2: Event, e3: Event, e4: Event, rtP: Runtime, rtC: Runtime)
    requires rtP.Valid() && rtC.Valid()
    ensures var y := Step(Step(Step(Step(x, e0, rtP, rtC), e1, rtP, rtC), e2, rtP, rtC), e3, rtP, rtC);
            && Run(x, [e0, e1, e2, e3, e4][..4], rtP, rtC) == y
            && Run(x, [e0, e1, e2, e3, e4], rtP, rtC) == Step(y, e4, rtP, rtC)
  {
    assert [e0] + [e1, e2, e3] == [e0, e1, e2, e3] && [e0] + [e1, e2, e3, e4] == [e0, e1, e2, e3, e4];
    assert [e1] + [e2, e3] == [e1, e2, e3] && [e1] + [e2, e3, e4] == [e1, e2, e3, e4];
    assert [e2] + [e3] == [e2, e3] && [e2] + [e3, e4] == [e2, e3, e4];
    assert [e3] + [] == [e3] && [e3] + [e4] == [e3, e4] && [e4] + [] == [e4];
    hide Step;
    var x1 := Step(x, e0, rtP, rtC);
    var x2 := Step(x1, e1, rtP, rtC);
    var x3 := Step(x2, e2, rtP, rtC);
    var x4 := Step(x3, e3, rtP, rtC);
    assert [e0, e1, e2, e3, e4][..4] == [e0, e1, e2, e3];
    RunFirst(x, e0, [e1, e2, e3], rtP, rtC);
    RunFirst(x, e0, [e1, e2, e3, e4], rtP, rtC);
    RunFirst(x1, e1, [e2, e3], rtP, rtC);
    RunFirst(x1, e1, [e2, e3, e4], rtP, rtC);
    RunFirst(x2, e2, [e3], rtP, rtC);
    RunFirst(x2, e2, [e3, e4], rtP, rtC);
    RunFirst(x3, e3, [], rtP, rtC);
    RunFirst(x3, e3, [e4], rtP, rtC);
    RunFirst(x4, e4, [], rtP, rtC);
  }

  /** Playback paused, capture started, playback released, capture stopped: playback dies with capture,
      although nobody stopped it. */
  lemma StopCaptureKillsPlayback(rtP: Runtime, rtC: Runtime, bytes: nat)
    requires rtP.Valid() && rtC.Valid()
    ensures var es := [Trigger(Playback, Start), Trigger(Playback, PausePush(bytes)), Trigger(Capture, Start),
                       Trigger(Playback, PauseRelease), Trigger(Capture, Stop)];
            && Run(Chip(IDLE, IDLE), es[..4], rtP, rtC).playback.active
            && !Run(Chip(IDLE, IDLE), es, rtP, rtC).playback.active
  {
    IdleOk(rtP, rtC);
    var e0, e1, e2, e3, e4 := Trigger(Playback, Start), Trigger(Playback, PausePush(bytes)), Trigger(Capture, Start),
      Trigger(Playback, PauseRelease), Trigger(Capture, Stop);
    var x0 := Chip(IDLE, IDLE);
    var p0 := IDLE.(txSpin := false, active := true);
    ProcessOk(p0, rtP);
    hide Process, StreamOk, InBuffer;
    var x1 := Step(x0, e0, rtP, rtC);
    assert x1.playback.active && !x1.capture.active && x1.playback.oldOffset == 0;
    var x2 := Step(x1, e1, rtP, rtC);
    assert !x2.playback.active && x2.playback.oldOffset == 0;
    StepKeeps(x0, e0, rtP, rtC);
    StepKeeps(x1, e1, rtP, rtC);
    SpinOk(x2.playback, rtP);
    var x3 := Step(x2, e2, rtP, rtC);
    var x4 := Step(x3, e3, rtP, rtC);
    assert x4.playback.active && x4.playback.txSpin;
    var x5 := Step(x4, e4, rtP, rtC);
    RunFour(x0, e0, e1, e2, e3, e4, rtP, rtC);
  }

  lemma Remainder(a: nat, d: nat)
    requires d > 0
    ensures a % d == a <==> a < d
  {
  }

  /** After a pause during capture, or a suspend, the buffer goes on from the paused byte exactly when that
      byte lies in the first period and not all periods were queued when the pause came. */
  lemma ResumesWherePaused(x: Chip, cmd: Cmd, rtP: Runtime, rtC: Runtime)
    requires Inv(x, rtP, rtC) && x.playback.oldOffset > 0 && (cmd == PauseRelease || cmd == Resume)
    ensures rtP.DmaSize() > 0
    ensures var p, t := x.playback, Step(x, Trigger(Playback, cmd), rtP, rtC).playback;
            && (t.queue != [] <==> p.periods < rtP.n)
            && (t.queue != [] ==> t.queue[0].start == rtP.dmaAddr + PausedAt(p, rtP) % rtP.DmaSize())
            && (t.queue != [] && t.queue[0].start == rtP.dmaAddr + PausedAt(p, rtP)
                <==> p.periods < rtP.n && PausedAt(p, rtP) < rtP.DmaSize())
  {
    DmaSizePositive(rtP);
    var p := Activated(x.playback);
    var a, d := PausedAt(p, rtP), rtP.DmaSize();
    if p.periods < rtP.n {
      RefilledExtends(Resumed(p, rtP), rtP);
      Remainder(a, d);
    }
  }

  /** A start after prepare begins with the whole first period exactly when no pause has left a position
      inside a period behind. */
  lemma StartsAtTheBeginning(x: Chip, rtP: Runtime, rtC: Runtime)
    requires Inv(x, rtP, rtC) && x.playback.queue == []
    ensures rtP.DmaSize() > 0
    ensures var p, t := x.playback, Run(x, [Prepare(Playback), Trigger(Playback, Start)], rtP, rtC).playback;
            && t.queue != []
            && (t.queue[0] == Chunk(rtP.dmaAddr, rtP.DmaSize())
                <==> p.oldOffset == 0 || PausedAt(p, rtP) % rtP.DmaSize() == 0)
  {
    DmaSizePositive(rtP);
    var p := x.playback;
    var s := p.(period := 0, periods := 0, txSpin := false, active := true);
    assert [Prepare(Playback), Trigger(Playback, Start)][1..] == [Trigger(Playback, Start)];
    assert [Trigger(Playback, Start)][1..] == [];
    assert Run(x, [Prepare(Playback), Trigger(Playback, Start)], rtP, rtC).playback == Process(s, rtP);
    if p.oldOffset > 0 {
      RefilledExtends(Resumed(s, rtP), rtP);
    } else {
      RefilledExtends(Queued(s, NextChunk(s, rtP), rtP), rtP);
    }
  }

  /** Period i of the buffer. */
  function PeriodChunk(i: nat, rt: Runtime): Chunk {
    Chunk(rt.dmaAddr + rt.DmaSize() * i, rt.DmaSize())
  }

  function Depth(rt: Runtime): nat {
    if rt.n < rt.cap then rt.n else rt.cap
  }

  /** A running stream of which k chunks have completed: its queue holds the following periods in order,
      and its counters say so. */
  ghost predicate Cycling(s: Stream, k: nat, rt: Runtime)
    requires rt.Valid()
  {
    && s.active && !s.txSpin && s.oldOffset == 0
    && s.periods == |s.queue| <= Depth(rt) && s.period == (k + |s.queue|) % rt.n
    && forall i :: 0 <= i < |s.queue| ==> s.queue[i] == PeriodChunk((k + i) % rt.n, rt)
  }

  lemma QueueCycles(s: Stream, k: nat, rt: Runtime)
    requires rt.Valid() && Cycling(s, k, rt) && |s.queue| < Depth(rt)
    ensures Cycling(Queued(s, NextChunk(s, rt), rt), k, rt)
  {
    ModInner(k + |s.queue|, 1, rt.n);
  }

  lemma {:induction false} RefillCycles(s: Stream, k: nat, rt: Runtime)
    requires rt.Valid() && Cycling(s, k, rt)
    ensures Cycling(Refilled(s, rt), k, rt) && |Refilled(s, rt).queue| == Depth(rt)
    decreases rt.n - s.periods
  {
    if |s.queue| < Depth(rt) {
      QueueCycles(s, k, rt);
      RefillCycles(Queued(s, NextChunk(s, rt), rt), k, rt);
    }
  }

  lemma CompletionCycles(s: Stream, k: nat, rt: Runtime)
    requires rt.Valid() && Cycling(s, k, rt) && s.queue != []
    ensures Cycling(Completed(s, rt), k + 1, rt) && |Completed(s, rt).queue| == Depth(rt)
  {
    var t := s.(queue := s.queue[1..], periods := s.periods - 1);
    forall i | 0 <= i < |t.queue| ensures t.queue[i] == PeriodChunk((k + 1 + i) % rt.n, rt) {
      assert t.queue[i] == s.queue[i + 1];
    }
    RefillCycles(t, k + 1, rt);
  }

  /** A started stream after k completions. */
  function Running(s: Stream, k: nat, rt: Runtime): Stream
    requires rt.Valid()
  {
    if k == 0 then Process(s, rt) else Completed(Running(s, k - 1, rt), rt)
  }

  /** A stream that is started, in step with its buffer, plays its periods in order around the buffer for
      ever: after any number k of completions the channel is as full as it can be, its next chunk is the k-th
      period after the first, modulo n, and the others follow in order. */
  lemma {:induction false} PlaysCyclically(s: Stream, first: nat, k: nat, rt: Runtime)
    requires rt.Valid() && Cycling(s, first, rt)
    ensures var r := Running(s, k, rt);
            && Cycling(r, first + k, rt) && |r.queue| == Depth(rt) > 0
            && r.queue[0] == PeriodChunk((first + k) % rt.n, rt)
  {
    if k == 0 {
      RefillCycles(s, first, rt);
    } else {
      PlaysCyclically(s, first, k - 1, rt);
      CompletionCycles(Running(s, k - 1, rt), first + k - 1, rt);
    }
    hide Process, Completed;
    assert Running(s, k, rt).queue[0] == PeriodChunk((first + k + 0) % rt.n, rt);
  }

  function Callbacks(id: Id, k: nat): (es: seq<Event>)
    ensures |es| == k
  {
    seq(k, _ => Callback(id))
  }

  lemma {:induction false} RunConcat(x: Chip, es: seq<Event>, fs: seq<Event>, rtP: Runtime, rtC: Runtime)
    requires rtP.Valid() && rtC.Valid()
    ensures Run(x, es + fs, rtP, rtC) == Run(Run(x, es, rtP, rtC), fs, rtP, rtC)
    decreases |es|
  {
    hide Step;
    if es == [] {
      assert es + fs == fs;
    } else {
      assert (es + fs)[1..] == es[1..] + fs;
      RunConcat(Step(x, es[0], rtP, rtC), es[1..], fs, rtP, rtC);
    }
  }

  lemma {:induction false} CallbacksRun(x: Chip, id: Id, s: Stream, k: nat, rtP: Runtime, rtC: Runtime)
    requires rtP.Valid() && rtC.Valid() && Of(x, id) == Process(s, RtOf(id, rtP, rtC))
    ensures Of(Run(x, Callbacks(id, k), rtP, rtC), id) == Running(s, k, RtOf(id, rtP, rtC))
  {
    hide Process, Completed;
    if k > 0 {
      CallbacksRun(x, id, s, k - 1, rtP, rtC);
      assert Callbacks(id, k) == Callbacks(id, k - 1) + [Callback(id)];
      RunConcat(x, Callbacks(id, k - 1), [Callback(id)], rtP, rtC);
      RunFirst(Run(x, Callbacks(id, k - 1), rtP, rtC), Callback(id), [], rtP, rtC);
      assert [Callback(id)] + [] == [Callback(id)];
    }
  }

  /** A stream that is prepared and started on any chip, playback also while its channel is fed with zeros,
      plays period 0, 1, 2, ... around its buffer, if no paused position was left behind and the channel has
      nothing queued. */
  lemma StartPlaysCyclically(x: Chip, id: Id, k: nat, rtP: Runtime, rtC: Runtime)
    requires Inv(x, rtP, rtC) && Of(x, id).oldOffset == 0 && Of(x, id).queue == []
    ensures var es := [Prepare(id), Trigger(id, Start)] + Callbacks(id, k);
            var r, rt := Of(Run(x, es, rtP, rtC), id), RtOf(id, rtP, rtC);
            && Cycling(r, k, rt) && |r.queue| == Depth(rt) > 0 && r.queue[0] == PeriodChunk(k % rt.n, rt)
  {
    var s, rt := Activated(Of(x, id).(period := 0, periods := 0)), RtOf(id, rtP, rtC);
    ModUnique(0, 0, 0, rt.n);
    assert Cycling(s, 0, rt);
    var e0, e1 := Prepare(id), Trigger(id, Start);
    var x1 := Step(x, e0, rtP, rtC);
    assert Of(x1, id).(active := true, txSpin := false) == s && !x1.capture.txSpin;
    hide Process, Cycling, Completed, Inv;
    var x2 := Step(x1, e1, rtP, rtC);
    assert Of(x2, id) == Process(s, rt);
    hide Step;
    assert [e0, e1] + Callbacks(id, k) == [e0] + ([e1] + Callbacks(id, k));
    RunFirst(x, e0, [e1] + Callbacks(id, k), rtP, rtC);
    RunFirst(x1, e1, Callbacks(id, k), rtP, rtC);
    CallbacksRun(x2, id, s, k, rtP, rtC);
    PlaysCyclically(s, 0, k, rt);
  }

  // ---------- ending, pausing and going on ----------

  /** The commands that make a stream active. */
  predicate Activates(e: Event, id: Id) {
    e == Trigger(id, Start) || e == Trigger(id, Resume) || e == Trigger(id, PauseRelease)
  }

  predicate NoneActivates(es: seq<Event>, id: Id) {
    forall i :: 0 <= i < |es| ==> !Activates(es[i], id)
  }

  /** a is what is left of b when its oldest chunks are gone. */
  predicate LeftOf(a: seq<Chunk>, b: seq<Chunk>) {
    |a| <= |b| && a == b[|b| - |a|..]
  }

  lemma IdleProcess(s: Stream, rt: Runtime)
    requires rt.Valid() && !s.active
    ensures var t := Process(s, rt); !t.active && t.queue == s.queue
  {
  }

  lemma ActiveProcess(s: Stream, rt: Runtime)
    requires rt.Valid() && StreamOk(s, rt) && s.active
    ensures Process(s, rt).active
  {
    ProcessOk(s, rt);
  }

  lemma StepActive(x: Chip, e: Event, id: Id, rtP: Runtime, rtC: Runtime)
    requires Inv(x, rtP, rtC) && Activates(e, id)
    ensures Of(Step(x, e, rtP, rtC), id).active
  {
    var s, rt := Of(x, id), RtOf(id, rtP, rtC);
    ActivatedOk(s, rt);
    ActiveProcess(Activated(s), rt);
    assert s.(active := true) == s.(active := true, txSpin := s.txSpin);
    if id == Capture {
      assert s.(active := true) == Activated(s);
    }
    hide Process, StreamOk;
  }

  lemma LeftOfEach(q: seq<Chunk>)
    ensures LeftOf(q, q) && LeftOf([], q) && (q != [] ==> LeftOf(q[1..], q))
  {
  }

  /** Capture's commands leave inactive playback inactive and queue nothing on its channel. */
  lemma PlaybackAside(x: Chip, cmd: Cmd, rtP: Runtime, rtC: Runtime)
    requires rtP.Valid() && rtC.Valid() && !x.playback.active
    ensures var p := CaptureStep(x, cmd, rtP, rtC).playback;
            !p.active && (p.queue == x.playback.queue || p.queue == [])
  {
    SpinFeeds(x.playback, rtP);
    hide Process;
  }

  /** So do playback's own, but those that activate it; and they leave capture alone. */
  lemma PlaybackItself(x: Chip, cmd: Cmd, rt: Runtime)
    requires rt.Valid() && !x.playback.active && cmd != Start && cmd != Resume && cmd != PauseRelease
    ensures var p := PlaybackStep(x, cmd, rt); !p.active && (p.queue == x.playback.queue || p.queue == [])
  {
    var p := x.playback;
    SpinFeeds(Stopped(p), rt);
    if cmd.PausePush? {
      SpinFeeds(Flushed(p.(active := false, oldOffset := rt.Position(cmd.bytes) + 1)), rt);
    }
    hide Process;
  }

  lemma CaptureItself(x: Chip, cmd: Cmd, rtP: Runtime, rtC: Runtime)
    requires rtP.Valid() && rtC.Valid() && !x.capture.active && cmd != Start && cmd != Resume && cmd != PauseRelease
    ensures var c := CaptureStep(x, cmd, rtP, rtC).capture;
            !c.active && (c.queue == x.capture.queue || c.queue == [])
  {
    hide Process;
  }

  lemma CompletedAside(s: Stream, rt: Runtime)
    requires rt.Valid() && !s.active
    ensures var t := Completed(s, rt);
            !t.active && t.queue == if s.queue == [] then [] else s.queue[1..]
  {
    IdleProcess(s.(queue := if s.queue == [] then [] else s.queue[1..],
                   periods := if !s.txSpin && s.periods > 0 then s.periods - 1 else s.periods), rt);
    hide Process;
  }

  lemma StepInactive(x: Chip, e: Event, id: Id, rtP: Runtime, rtC: Runtime)
    requires Inv(x, rtP, rtC) && !Of(x, id).active && !Activates(e, id)
    ensures var t := Of(Step(x, e, rtP, rtC), id); !t.active && LeftOf(t.queue, Of(x, id).queue)
  {
    LeftOfEach(Of(x, id).queue);
    CompletedAside(Of(x, id), RtOf(id, rtP, rtC));
    hide LeftOf, PlaybackStep, CaptureStep, Completed, Inv;
    match e
    case Trigger(Playback, cmd) => if id == Playback { PlaybackItself(x, cmd, rtP); }
    case Trigger(Capture, cmd) =>
      if id == Playback { PlaybackAside(x, cmd, rtP, rtC); } else { CaptureItself(x, cmd, rtP, rtC); }
    case Callback(_) =>
    case Prepare(_) =>
  }

  lemma {:induction false} RunInactive(x: Chip, es: seq<Event>, id: Id, rtP: Runtime, rtC: Runtime)
    requires Inv(x, rtP, rtC) && !Of(x, id).active && NoneActivates(es, id)
    ensures var t := Of(Run(x, es, rtP, rtC), id); !t.active && LeftOf(t.queue, Of(x, id).queue)
    decreases |es|
  {
    if es != [] {
      StepKeeps(x, es[0], rtP, rtC);
      StepInactive(x, es[0], id, rtP, rtC);
      hide Inv, Step;
      RunInactive(Step(x, es[0], rtP, rtC), es[1..], id, rtP, rtC);
    }
  }

  /** What STOP, SUSPEND and PAUSE_PUSH do to their own stream at once. */
  lemma Ends(x: Chip, id: Id, cmd: Cmd, rtP: Runtime, rtC: Runtime)
    requires Inv(x, rtP, rtC) && (cmd == Stop || cmd.Suspend? || cmd.PausePush?)
    ensures var s, t := Of(x, id), Of(Step(x, Trigger(id, cmd), rtP, rtC), id);
            && !t.active && LeftOf(t.queue, s.queue) && (!cmd.PausePush? ==> t.queue == [])
            && (cmd == Stop ==> t.period == 0)
  {
    var s, rt := Of(x, id), RtOf(id, rtP, rtC);
    SpinFeeds(Stopped(s), rt);
    if cmd.PausePush? {
      SpinFeeds(Flushed(s.(active := false, oldOffset := rt.Position(cmd.bytes) + 1)), rt);
    }
    hide Process, StreamOk, InBuffer;
  }

  /** After STOP or SUSPEND, and until the next START, RESUME or PAUSE_RELEASE of that stream, it is inactive and
      no chunk of its buffer is queued, whatever else happens; after PAUSE_PUSH it is inactive and its channel
      gets no further chunk. */
  lemma EndedStays(x: Chip, id: Id, cmd: Cmd, es: seq<Event>, rtP: Runtime, rtC: Runtime)
    requires Inv(x, rtP, rtC) && NoneActivates(es, id) && (cmd == Stop || cmd.Suspend? || cmd.PausePush?)
    ensures var t := Of(Run(x, [Trigger(id, cmd)] + es, rtP, rtC), id);
            && !t.active && LeftOf(t.queue, Of(x, id).queue) && (!cmd.PausePush? ==> t.queue == [])
  {
    var e := Trigger(id, cmd);
    StepKeeps(x, e, rtP, rtC);
    Ends(x, id, cmd, rtP, rtC);
    RunFirst(x, e, es, rtP, rtC);
    hide Inv, Step;
    RunInactive(Step(x, e, rtP, rtC), es, id, rtP, rtC);
  }

  /** Capture that becomes active beside inactive playback has the playback channel filled with zeros, and so has
      a running capture when playback stops or pauses. */
  lemma ZeroFillStarts(x: Chip, cmd: Cmd, rtP: Runtime, rtC: Runtime)
    requires Inv(x, rtP, rtC)
    ensures var y := Step(x, Trigger(Capture, cmd), rtP, rtC);
            (cmd == Start || cmd == Resume || (cmd == PauseRelease && x.capture.oldOffset == 0)) && !x.playback.active
            ==> y.capture.active && y.playback == x.playback.(txSpin := true, spinning := true)
    ensures var y := Step(x, Trigger(Playback, cmd), rtP, rtC);
            (cmd == Stop || cmd.PausePush?) && x.capture.active
            ==> y.capture == x.capture && y.playback.txSpin && y.playback.spinning && y.playback.queue == []
  {
    SpinFeeds(x.playback, rtP);
    SpinFeeds(Stopped(x.playback), rtP);
    if cmd.PausePush? {
      SpinFeeds(Flushed(x.playback.(active := false, oldOffset := rtP.Position(cmd.bytes) + 1)), rtP);
    }
    if cmd == Start || cmd == Resume || cmd == PauseRelease {
      StepActive(x, Trigger(Capture, cmd), Capture, rtP, rtC);
    }
    hide Process, StreamOk;
  }

  /** Stopping or pausing capture ends the zero fill: the playback channel is silent. */
  lemma ZeroFillEnds(x: Chip, cmd: Cmd, rtP: Runtime, rtC: Runtime)
    requires Inv(x, rtP, rtC) && x.playback.txSpin && (cmd == Stop || cmd.PausePush?)
    ensures var p := Step(x, Trigger(Capture, cmd), rtP, rtC).playback;
            !p.txSpin && !p.spinning && p.queue == []
  {
  }

  /** A pause that is released at once leaves the stream as it was, capture always, playback while capture is
      idle. */
  lemma PauseAndRelease(x: Chip, id: Id, bytes: nat, rtP: Runtime, rtC: Runtime)
    requires Inv(x, rtP, rtC) && Of(x, id).active && Of(x, id).oldOffset == 0
    requires id == Playback ==> !x.capture.active
    ensures var es := [Trigger(id, PausePush(bytes)), Trigger(id, PauseRelease)];
            Of(Run(x, es, rtP, rtC), id) == Of(x, id)
  {
    var e0, e1 := Trigger(id, PausePush(bytes)), Trigger(id, PauseRelease);
    hide Process;
    assert Of(Step(Step(x, e0, rtP, rtC), e1, rtP, rtC), id) == Of(x, id);
    RunTwo(x, e0, e1, [], rtP, rtC);
    assert [e0, e1] + [] == [e0, e1];
  }

  lemma WholeFrames(rt: Runtime, bytes: nat)
    requires rt.Valid()
    ensures rt.Position(bytes) * rt.frameBytes
         == if bytes < rt.n * rt.DmaSize() then bytes / rt.frameBytes * rt.frameBytes else 0
  {
    var q, all, f := bytes / rt.frameBytes, rt.n * rt.periodFrames, rt.frameBytes;
    Quotient(bytes, f);
    assert rt.n * rt.DmaSize() == all * f;
    hide Runtime.DmaSize;
    if q < all {
      Distribute(q, 1, f);
      Scale(q + 1, all, f);
    } else {
      Scale(all, q, f);
    }
  }

  lemma ResumedFirst(s: Stream, rt: Runtime)
    requires rt.Valid() && StreamOk(s, rt) && s.oldOffset > 0 && s.active && !s.txSpin
    ensures rt.DmaSize() > 0
    ensures var q, a := Process(s, rt).queue, PausedAt(s, rt) % rt.DmaSize();
            && (q != [] <==> s.periods < rt.n)
            && (q != [] ==> q[0] == Chunk(rt.dmaAddr + a, rt.DmaSize() - a))
  {
    DmaSizePositive(rt);
    if s.periods < rt.n {
      RefilledExtends(Resumed(s, rt), rt);
    }
  }

  /** The queue that audio_process_dma leaves does not depend on whether the channel spins. */
  lemma {:induction false} RefillSpinning(s: Stream, spinning: bool, rt: Runtime)
    requires rt.Valid()
    ensures Refilled(s.(spinning := spinning), rt) == Refilled(s, rt).(spinning := spinning)
    decreases rt.n - s.periods
  {
    if !(!s.active || s.periods >= rt.n || |s.queue| >= rt.cap) {
      RefillSpinning(Queued(s, NextChunk(s, rt), rt), spinning, rt);
    }
  }

  lemma SpinningSame(s: Stream, spinning: bool, rt: Runtime)
    requires rt.Valid() && !s.txSpin
    ensures Process(s.(spinning := spinning), rt).queue == Process(s, rt).queue
  {
    if s.active && s.periods < rt.n && s.oldOffset > 0 {
      RefillSpinning(Resumed(s, rt), spinning, rt);
      assert Resumed(s.(spinning := spinning), rt) == Resumed(s, rt).(spinning := spinning);
    } else {
      RefillSpinning(s, spinning, rt);
    }
  }

  /** A stream that is paused or suspended when its channel has got so many bytes into the buffer, playback
      during a capture, and then released or resumed, goes on with the rest of a period: from the whole frame
      reached, or from the start of the buffer if that was passed, but taken modulo the period. A pause with all
      periods queued goes on with nothing. */
  lemma GoesOnFrom(x: Chip, id: Id, bytes: nat, suspend: bool, release: bool, rtP: Runtime, rtC: Runtime)
    requires Inv(x, rtP, rtC) && (!suspend ==> id == Playback && x.capture.active)
    ensures RtOf(id, rtP, rtC).DmaSize() > 0
    ensures var es := [Trigger(id, if suspend then Suspend(bytes) else PausePush(bytes)),
                       Trigger(id, if release then PauseRelease else Resume)];
            var q, rt := Of(Run(x, es, rtP, rtC), id).queue, RtOf(id, rtP, rtC);
            var at := if bytes < rt.n * rt.DmaSize() then bytes / rt.frameBytes * rt.frameBytes else 0;
            var a := at % rt.DmaSize();
            && (q != [] <==> suspend || Of(x, id).periods < rt.n)
            && (q != [] ==> q[0] == Chunk(rt.dmaAddr + a, rt.DmaSize() - a))
  {
    var s, rt := Of(x, id), RtOf(id, rtP, rtC);
    var c0, c1 := if suspend then Suspend(bytes) else PausePush(bytes), if release then PauseRelease else Resume;
    var e0, e1 := Trigger(id, c0), Trigger(id, c1);
    var p := Flushed(s.(active := false, oldOffset := rt.Position(bytes) + 1,
                        periods := if suspend then 0 else s.periods));
    SuspendedOk(s, rt, bytes);
    PositionOk(rt, bytes);
    QuietOk(s, p, rt);
    SpinFeeds(p, rt);
    ActivatedOk(p, rt);
    ResumedFirst(Activated(p), rt);
    WholeFrames(rt, bytes);
    var x1 := Step(x, e0, rtP, rtC);
    assert Activated(Of(x1, id)) == Activated(p).(spinning := Of(x1, id).spinning);
    SpinningSame(Activated(p), Of(x1, id).spinning, rt);
    hide Process, StreamOk, InBuffer;
    assert Of(Step(x1, e1, rtP, rtC), id) == Process(Activated(Of(x1, id)), rt);
    RunTwo(x, e0, e1, [], rtP, rtC);
    assert [e0, e1] + [] == [e0, e1];
  }
}
