/** struct audio_stream and the callbacks of the SA11xx UDA1341 ALSA driver. Each method computes a step of
    AlsaTrigger. */
module AlsaDriver {
  import opened AlsaTrigger

  /** Without a turn of the loop. */
  lemma ProcessIdle(s: Stream, rt: Runtime)
    requires rt.Valid()
    ensures s.txSpin ==> Process(s, rt) == s.(spinning := true)
    ensures !s.txSpin && (!s.active || s.periods >= rt.n) ==> Process(s, rt) == s
  {
  }

  /** One turn of the loop: its chunk, and the stream it queues the chunk on. */
  lemma ProcessTurn(s: Stream, rt: Runtime)
    requires rt.Valid() && StreamOk(s, rt) && !s.txSpin && s.active && s.periods < rt.n
    ensures rt.DmaSize() > 0
    ensures var dma := rt.DmaSize();
            var offset := if s.oldOffset > 0 then PausedAt(s, rt) % dma else dma * s.period;
            var size := if s.oldOffset > 0 then dma - offset else dma;
            var t := if s.oldOffset > 0 then s.(oldOffset := 0, periods := 0, period := PausedAt(s, rt) / dma) else s;
            if |s.queue| < rt.cap then
              var u := Queued(t, Chunk(rt.dmaAddr + offset, size), rt);
              StreamOk(u, rt) && Process(u, rt) == Process(s, rt)
            else t == Process(s, rt)
  {
    DmaSizePositive(rt);
    if s.oldOffset > 0 {
      ResumedOk(s, rt);
    } else if |s.queue| < rt.cap {
      PeriodInBuffer(s, rt);
      QueuedOk(s, NextChunk(s, rt), rt);
    }
    hide StreamOk, InBuffer;
  }

  /** A substream with its DMA channel. */
  class AudioStream {
    const rt: Runtime
    var active: bool
    var txSpin: bool
    var period: nat
    var periods: nat
    var oldOffset: nat
    var queue: seq<Chunk>    // queued on the channel
    var spinning: bool       // the channel repeats the force-clock buffer

    ghost function View(): Stream
      reads this
    {
      Stream(active, txSpin, period, periods, oldOffset, queue, spinning)
    }

    constructor (rt: Runtime)
      ensures View() == IDLE && this.rt == rt
    {
      this.rt := rt;
      active, txSpin, period, periods, oldOffset, queue, spinning := false, false, 0, 0, 0, [], false;
    }

    /** sa1100_dma_queue_buffer. */
    method QueueBuffer(c: Chunk) returns (ok: bool)
      modifies this`queue
      ensures ok == (|old(queue)| < rt.cap) && queue == if ok then old(queue) + [c] else old(queue)
    {
      ok := |queue| < rt.cap;
      if ok {
        queue := queue + [c];
      }
    }

    /** sa1100_dma_flush_all. */
    method FlushAll()
      modifies this`queue, this`spinning
      ensures View() == Flushed(old(View()))
    {
      queue, spinning := [], false;
    }

    /** audio_stop_dma. */
    method StopDma()
      modifies this
      ensures View() == Stopped(old(View()))
    {
      active := false;
      period := 0;
      FlushAll();
    }

    /** One round of the queueing loop; ok tells whether the channel took the chunk. */
    method QueueNext() returns (ok: bool)
      requires rt.Valid() && StreamOk(View(), rt) && !txSpin && active && periods < rt.n
      modifies this`oldOffset, this`periods, this`period, this`queue
      ensures ok ==> StreamOk(View(), rt) && Process(View(), rt) == Process(old(View()), rt)
      ensures !ok ==> View() == Process(old(View()), rt)
      ensures ok ==> oldOffset < old(oldOffset) || (oldOffset == old(oldOffset) && periods == old(periods) + 1)
    {
      hide StreamOk, InBuffer, Process, Runtime.DmaSize;
      ProcessTurn(View(), rt);
      var dmaSize, offset := rt.DmaSize(), 0;
      if oldOffset > 0 {
        offset := (oldOffset - 1) * rt.frameBytes;
        oldOffset := 0;
        periods := 0;
        period := offset / dmaSize;
        offset := offset % dmaSize;
        dmaSize := dmaSize - offset;
      } else {
        offset := dmaSize * period;
      }
      ok := QueueBuffer(Chunk(rt.dmaAddr + offset, dmaSize));
      if ok {
        period := (period + 1) % rt.n;
        periods := periods + 1;
      }
    }

    /** audio_process_dma. */
    method ProcessDma()
      requires rt.Valid() && StreamOk(View(), rt)
      modifies this
      ensures View() == Process(old(View()), rt)
    {
      hide StreamOk, Process;
      ProcessIdle(View(), rt);
      if txSpin {
        spinning := true;
        return;
      }
      ghost var t := Process(View(), rt);
      while active && periods < rt.n
        invariant !txSpin && StreamOk(View(), rt) && Process(View(), rt) == t
        decreases oldOffset, rt.n - periods
      {
        var ok := QueueNext();
        if !ok {
          return;
        }
      }
      ProcessIdle(View(), rt);
    }

    /** audio_get_dma_pos, when the channel has got so many bytes into the buffer. */
    method GetDmaPos(bytes: nat) returns (offset: nat)
      requires rt.Valid()
      ensures offset == rt.Position(bytes)
    {
      offset := bytes / rt.frameBytes;
      if offset >= rt.n * rt.periodFrames {
        offset := 0;
      }
    }

    /** audio_dma_callback, when the channel has completed its oldest chunk. */
    method DmaCallback()
      requires rt.Valid() && StreamOk(View(), rt)
      modifies this
      ensures View() == Completed(old(View()), rt)
    {
      StreamRange(View(), rt);
      ghost var s := View();
      if queue != [] {
        queue := queue[1..];
      }
      if !txSpin && periods > 0 {
        periods := periods - 1;
      }
      QuietOk(s, View(), rt);
      ProcessDma();
    }
  }

  lemma StepLaws(x: Chip, e: Event, rtP: Runtime, rtC: Runtime)
    requires Inv(x, rtP, rtC)
    ensures Inv(Step(x, e, rtP, rtC), rtP, rtC)
    ensures Clocked(x) ==> (Clocked(Step(x, e, rtP, rtC)) <==> KeepsClock(x, e))
  {
    StepKeeps(x, e, rtP, rtC);
    hide *;
    if Clocked(x) {
      ClockStep(x, e, rtP, rtC);
    }
  }

  lemma SpinStart(s: Stream, rt: Runtime)
    requires StreamOk(s, rt)
    ensures StreamOk(s.(txSpin := true), rt)
  {
  }

  lemma StoppedOk(s: Stream, rt: Runtime)
    requires StreamOk(s, rt)
    ensures StreamOk(Stopped(s), rt)
  {
  }

  lemma PausedOk(s: Stream, rt: Runtime, bytes: nat)
    requires rt.Valid() && StreamOk(s, rt)
    ensures StreamOk(Flushed(s.(active := false, oldOffset := rt.Position(bytes) + 1)), rt)
  {
    PositionOk(rt, bytes);
  }

  /** struct sa11xx_uda1341: the two substreams. */
  class DuplexChip {
    const playback: AudioStream
    const capture: AudioStream

    ghost function View(): Chip
      reads playback, capture
    {
      Chip(playback.View(), capture.View())
    }

    ghost predicate Valid()
      reads playback, capture
    {
      playback != capture && Inv(View(), playback.rt, capture.rt)
    }

    constructor (rtP: Runtime, rtC: Runtime)
      requires rtP.Valid() && rtC.Valid()
      ensures Valid() && View() == Chip(IDLE, IDLE) && playback.rt == rtP && capture.rt == rtC
    {
      playback := new AudioStream(rtP);
      capture := new AudioStream(rtC);
      new;
      IdleOk(rtP, rtC);
    }

    ghost function After(e: Event): Chip
      requires Valid()
      reads playback, capture
    {
      Step(View(), e, playback.rt, capture.rt)
    }

    /** The zero fill of the transmit side. */
    method ForceClock(s1: AudioStream)
      requires s1.rt.Valid() && StreamOk(s1.View(), s1.rt)
      modifies s1
      ensures s1.View() == Spin(old(s1.View()), s1.rt)
    {
      SpinOk(s1.View(), s1.rt);
      SpinStart(s1.View(), s1.rt);
      s1.txSpin := true;
      s1.ProcessDma();
    }

    /** SNDRV_PCM_TRIGGER_START. */
    method TriggerStart(id: Id)
      requires Valid()
      modifies playback, capture
      ensures Valid() && View() == old(After(Trigger(id, Start)))
      ensures old(Clocked(View())) ==> (Clocked(View()) <==> old(KeepsClock(View(), Trigger(id, Start))))
    {
      ghost var e := Trigger(id, Start);
      StepLaws(View(), e, playback.rt, capture.rt);
      var s, s1 := if id == Playback then playback else capture, if id == Playback then capture else playback;
      ActivatedOk(s.View(), s.rt);
      hide StreamOk, Process, InBuffer, Clocked, KeepsClock;
      if id == Capture && !s1.active {
        ForceClock(s1);
      } else {
        s.txSpin := false;
      }
      s.active := true;
      s.ProcessDma();
    }

    /** SNDRV_PCM_TRIGGER_STOP. */
    method TriggerStop(id: Id)
      requires Valid()
      modifies playback, capture
      ensures Valid() && View() == old(After(Trigger(id, Stop)))
      ensures old(Clocked(View())) ==> (Clocked(View()) <==> old(KeepsClock(View(), Trigger(id, Stop))))
    {
      ghost var e := Trigger(id, Stop);
      StepLaws(View(), e, playback.rt, capture.rt);
      var s, s1 := if id == Playback then playback else capture, if id == Playback then capture else playback;
      StoppedOk(s.View(), s.rt);
      hide StreamOk, Process, InBuffer, Clocked, KeepsClock;
      s.StopDma();
      if id == Playback && s1.active {
        ForceClock(s);
      } else {
        if s1.txSpin {
          s1.txSpin := false;
          s1.StopDma();
        }
      }
    }

    /** SNDRV_PCM_TRIGGER_PAUSE_PUSH. */
    method TriggerPausePush(id: Id, bytes: nat)
      requires Valid()
      modifies playback, capture
      ensures Valid() && View() == old(After(Trigger(id, PausePush(bytes))))
      ensures old(Clocked(View())) ==> (Clocked(View()) <==> old(KeepsClock(View(), Trigger(id, PausePush(bytes)))))
    {
      ghost var e := Trigger(id, PausePush(bytes));
      StepLaws(View(), e, playback.rt, capture.rt);
      var s, s1 := if id == Playback then playback else capture, if id == Playback then capture else playback;
      PausedOk(s.View(), s.rt, bytes);
      hide StreamOk, Process, InBuffer, Clocked, KeepsClock;
      s.active := false;
      if id == Playback {
        if s1.active {
          var pos := s.GetDmaPos(bytes);
          s.oldOffset := pos + 1;
          s.FlushAll();
          ForceClock(s);
        }
      } else {
        if s1.txSpin {
          s1.txSpin := false;
          s1.FlushAll();
        }
      }
    }

    /** SNDRV_PCM_TRIGGER_PAUSE_RELEASE. */
    method TriggerPauseRelease(id: Id)
      requires Valid()
      modifies playback, capture
      ensures Valid() && View() == old(After(Trigger(id, PauseRelease)))
      ensures old(Clocked(View())) ==> (Clocked(View()) <==> old(KeepsClock(View(), Trigger(id, PauseRelease))))
    {
      ghost var e := Trigger(id, PauseRelease);
      StepLaws(View(), e, playback.rt, capture.rt);
      var s, s1 := if id == Playback then playback else capture, if id == Playback then capture else playback;
      ActivatedOk(s.View(), s.rt);
      hide StreamOk, Process, InBuffer, Clocked, KeepsClock;
      s.active := true;
      if s.oldOffset > 0 {
        s.txSpin := false;
        s.ProcessDma();
        return;
      }
      if id == Capture && !s1.active {
        ForceClock(s1);
      }
    }

    /** SNDRV_PCM_TRIGGER_SUSPEND. */
    method TriggerSuspend(id: Id, bytes: nat)
      requires Valid()
      modifies playback, capture
      ensures Valid() && View() == old(After(Trigger(id, Suspend(bytes))))
      ensures old(Clocked(View())) ==> (Clocked(View()) <==> old(KeepsClock(View(), Trigger(id, Suspend(bytes)))))
    {
      StepLaws(View(), Trigger(id, Suspend(bytes)), playback.rt, capture.rt);
      var s := if id == Playback then playback else capture;
      hide StreamOk, InBuffer, Clocked, KeepsClock;
      s.active := false;
      var pos := s.GetDmaPos(bytes);
      s.oldOffset := pos + 1;
      s.FlushAll();
      s.periods := 0;
    }

    /** SNDRV_PCM_TRIGGER_RESUME. */
    method TriggerResume(id: Id)
      requires Valid()
      modifies playback, capture
      ensures Valid() && View() == old(After(Trigger(id, Resume)))
      ensures old(Clocked(View())) ==> (Clocked(View()) <==> old(KeepsClock(View(), Trigger(id, Resume))))
    {
      StepLaws(View(), Trigger(id, Resume), playback.rt, capture.rt);
      var s, s1 := if id == Playback then playback else capture, if id == Playback then capture else playback;
      ActivatedOk(s.View(), s.rt);
      hide StreamOk, Process, InBuffer, Clocked, KeepsClock;
      s.active := true;
      s.txSpin := false;
      s.ProcessDma();
      if id == Capture && !s1.active {
        ForceClock(s1);
      }
    }

    /** audio_dma_callback on one of the channels. */
    method Completion(id: Id)
      requires Valid()
      modifies playback, capture
      ensures Valid() && View() == old(After(Callback(id)))
      ensures old(Clocked(View())) ==> (Clocked(View()) <==> old(KeepsClock(View(), Callback(id))))
    {
      StepLaws(View(), Callback(id), playback.rt, capture.rt);
      hide StreamOk, Process, InBuffer, Completed, Clocked, KeepsClock;
      if id == Playback {
        playback.DmaCallback();
      } else {
        capture.DmaCallback();
      }
    }

    /** snd_sa11xx_uda1341_prepare. */
    method PrepareStream(id: Id)
      requires Valid()
      modifies playback, capture
      ensures Valid() && View() == old(After(Prepare(id)))
      ensures old(Clocked(View())) ==> (Clocked(View()) <==> old(KeepsClock(View(), Prepare(id))))
    {
      StepLaws(View(), Prepare(id), playback.rt, capture.rt);
      hide StreamOk, InBuffer, Clocked, KeepsClock;
      var s := if id == Playback then playback else capture;
      s.period := 0;
      s.periods := 0;
    }
  }
}
