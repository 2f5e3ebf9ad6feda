/** The transmit side of the serial core as a queue machine: what every operation does to the bytes
    on their way, to flow control, and to the transmit interrupt. */
module UartSpec {
  import opened Arith

  type Byte = bv8

  const XMIT_SIZE: nat := 4096

  /** sent and accepted count from the last flush; line is every byte written to the data register;
      owed tells that bytes have been stored since the last uart_start. */
  datatype Port = Port(pending: seq<Byte>, sent: seq<Byte>, accepted: seq<Byte>, line: seq<Byte>, xchar: Byte,
                       stopped: bool, hwStopped: bool, ctsFlow: bool, irq: bool, owed: bool, fifosize: nat)
  {
    predicate MaySend() {
      pending != [] && !stopped && !hwStopped
    }

    function Free(): int {
      XMIT_SIZE - 1 - |pending|
    }
  }

  /** The operations, each one critical section under the port lock. */
  datatype Op =
    | Store(s: seq<Byte>)       // the copy loop of uart_write, or uart_put_char
    | Kick                      // uart_start: the end of uart_write, or uart_flush_chars
    | Flush                     // uart_flush_buffer
    | TxInterrupt               // the transmit interrupt, if it is enabled
    | StopTty                   // the line discipline sets stopped and calls uart_stop
    | StartTty                  // it clears stopped and calls uart_start
    | SendXchar(ch: Byte)
    | CtsChange(status: bool)
    | SetCrtscts(on: bool, cts: bool) // uart_set_termios; cts is the line's state

  function BurstSize(p: Port): (n: nat)
    ensures n <= |p.pending|
  {
    Min(if p.fifosize / 2 == 0 then 1 else p.fifosize / 2, |p.pending|)
  }

  function Transmit(p: Port): Port {
    if p.xchar != 0 then p.(line := p.line + [p.xchar], xchar := 0)
    else if !p.MaySend() then p.(irq := false)
    else
      var n := BurstSize(p);
      p.(line := p.line + p.pending[..n], sent := p.sent + p.pending[..n], pending := p.pending[n..],
         irq := n < |p.pending|)
  }

  /** uart_start serves all who have stored bytes. */
  function Started(p: Port): Port {
    p.(irq := p.irq || p.MaySend(), owed := false)
  }

  function Step(p: Port, op: Op): Port {
    match op
    case Store(s) =>
      var n := if p.Free() <= 0 then 0 else Min(|s|, p.Free());
      p.(pending := p.pending + s[..n], accepted := p.accepted + s[..n], owed := true)
    case Kick => Started(p)
    case Flush => p.(pending := [], sent := [], accepted := [])
    case TxInterrupt => if p.irq then Transmit(p) else p
    case StopTty => p.(stopped := true, irq := false)
    case StartTty => Started(p.(stopped := false))
    case SendXchar(ch) => p.(xchar := ch, irq := p.irq || ch != 0)
    case CtsChange(status) =>
      if !p.ctsFlow || p.hwStopped != status then p
      else p.(hwStopped := !status, irq := status)
    case SetCrtscts(on, cts) =>
      if p.ctsFlow && !on then
        Started(p.(ctsFlow := false, hwStopped := false))
      else if !p.ctsFlow && on && !cts then p.(ctsFlow := true, hwStopped := true, irq := false)
      else p.(ctsFlow := on)
  }

  function Run(p: Port, ops: seq<Op>): Port
    decreases |ops|
  {
    if ops == [] then p else Run(Step(p, ops[0]), ops[1..])
  }

  const INITIAL: Port := Port([], [], [], [], 0, false, false, false, false, false, 16)

  /** What every reachable state satisfies. */
  ghost predicate Invariant(p: Port) {
    && |p.pending| < XMIT_SIZE
    && p.sent + p.pending == p.accepted
    && (p.MaySend() && !p.owed ==> p.irq)
    && (p.hwStopped ==> p.ctsFlow)
  }

  lemma TransmitKeeps(p: Port)
    requires Invariant(p)
    ensures Invariant(Transmit(p))
  {
    hide BurstSize;
    var n := BurstSize(p);
    assert (p.sent + p.pending[..n]) + p.pending[n..] == p.sent + p.pending;
  }

  lemma StepKeepsInvariant(p: Port, op: Op)
    requires Invariant(p)
    ensures Invariant(Step(p, op))
  {
    hide BurstSize;
    match op
    case Store(s) =>
      var n := Min(|s|, p.Free());
      assert p.sent + (p.pending + s[..n]) == (p.sent + p.pending) + s[..n];
    case TxInterrupt =>
      TransmitKeeps(p);
    case _ =>
  }

  /** Over every interleaving: bytes sent followed by bytes pending are the bytes accepted since the
      last flush, the ring never overfills, and after every uart_start, until bytes are stored
      again, a non-empty, unstopped ring has its interrupt enabled: the transmitter never stalls. */
  lemma {:induction false} RunKeepsInvariant(p: Port, ops: seq<Op>)
    requires Invariant(p)
    ensures Invariant(Run(p, ops))
    decreases |ops|
  {
    if ops != [] {
      StepKeepsInvariant(p, ops[0]);
      RunKeepsInvariant(Step(p, ops[0]), ops[1..]);
    }
  }

  /** Only the transmit interrupt puts bytes on the line. */
  lemma OtherOps(p: Port, op: Op)
    requires op != TxInterrupt
    ensures Step(p, op).line == p.line && (!op.SendXchar? ==> Step(p, op).xchar == p.xchar)
    ensures Step(p, op).sent == if op == Flush then [] else p.sent
  {
    hide Min;
    match op
    case Store(_) =>
    case Kick =>
    case Flush =>
    case StopTty =>
    case StartTty =>
    case SendXchar(_) =>
    case CtsChange(_) =>
    case SetCrtscts(_, _) =>
  }

  /** While flow control stops the port no step but a high-priority character puts a byte on the line. */
  lemma StoppedIsSilent(p: Port, op: Op)
    requires p.stopped || p.hwStopped
    ensures Step(p, op).sent == (if op == Flush then [] else p.sent)
    ensures Step(p, op).line == p.line || (p.xchar != 0 && Step(p, op).line == p.line + [p.xchar])
  {
    hide BurstSize;
    if op == TxInterrupt {
      assert !p.MaySend();
    } else {
      OtherOps(p, op);
    }
  }

  /** The first interrupt in ops that finds the transmit interrupt enabled, or |ops|. */
  function FirstService(p: Port, ops: seq<Op>): (k: nat)
    ensures k <= |ops|
    decreases |ops|
  {
    if ops == [] then 0
    else if ops[0] == TxInterrupt && p.irq then 0
    else 1 + FirstService(Step(p, ops[0]), ops[1..])
  }

  /** A pending x_char goes out exactly with the first interrupt that finds the transmit interrupt enabled,
      as the next byte on the line, whatever is in the ring and whether the port is stopped or not. */
  lemma {:induction false} XcharIsNext(p: Port, ops: seq<Op>)
    requires p.xchar != 0 && forall i :: 0 <= i < |ops| ==> !ops[i].SendXchar?
    ensures var k := FirstService(p, ops);
            && Run(p, ops[..k]).line == p.line && Run(p, ops[..k]).xchar == p.xchar
            && (k < |ops| ==> Run(p, ops[..k + 1]).line == p.line + [p.xchar] && Run(p, ops[..k + 1]).xchar == 0)
    decreases |ops|
  {
    var k := FirstService(p, ops);
    if ops == [] {
    } else if ops[0] == TxInterrupt && p.irq {
      assert ops[..1][1..] == [] && ops[..0] == [];
      assert Step(p, TxInterrupt) == p.(line := p.line + [p.xchar], xchar := 0);
      hide Step;
    } else {
      var p' := Step(p, ops[0]);
      if ops[0] != TxInterrupt { OtherOps(p, ops[0]); }
      hide Step;
      XcharIsNext(p', ops[1..]);
      assert ops[..k][1..] == ops[1..][..k - 1];
      if k < |ops| {
        assert ops[..k + 1][1..] == ops[1..][..k];
      }
    }
  }

  function Times(op: Op, n: nat): (r: seq<Op>)
    ensures |r| == n
  {
    seq(n, _ => op)
  }

  lemma {:induction false} Idle(p: Port, n: nat)
    requires !p.irq
    ensures Run(p, Times(TxInterrupt, n)) == p
  {
    if n > 0 {
      Idle(p, n - 1);
      assert Times(TxInterrupt, n)[1..] == Times(TxInterrupt, n - 1);
    }
  }

  /** uart_stop takes the interrupt away from a pending x_char, which then waits: without an operation that
      enables the interrupt again no number of interrupts sends it. */
  lemma XcharStranded(p: Port, ch: Byte, n: nat)
    requires ch != 0
    ensures var r := Run(Step(Step(p, SendXchar(ch)), StopTty), Times(TxInterrupt, n));
            r.xchar == ch && r.line == p.line && !r.irq
  {
    Idle(Step(Step(p, SendXchar(ch)), StopTty), n);
  }

  // ---------- flow control ----------

  /** The last of StopTty and StartTty was StopTty. */
  predicate TtyStopped(ops: seq<Op>) {
    if ops == [] then false
    else match ops[|ops| - 1]
      case StopTty => true
      case StartTty => false
      case _ => TtyStopped(ops[..|ops| - 1])
  }

  /** What the last set_termios asked for. */
  predicate FlowOn(ops: seq<Op>) {
    if ops == [] then false
    else match ops[|ops| - 1]
      case SetCrtscts(on, _) => on
      case _ => FlowOn(ops[..|ops| - 1])
  }

  /** CTS as last reported: by a change of the line, or when set_termios turned CRTSCTS on. */
  predicate CtsUp(ops: seq<Op>) {
    if ops == [] then true
    else
      var before := ops[..|ops| - 1];
      match ops[|ops| - 1]
      case CtsChange(status) => status
      case SetCrtscts(on, cts) => if on && !FlowOn(before) then cts else CtsUp(before)
      case _ => CtsUp(before)
  }

  lemma {:induction false} RunLast(p: Port, ops: seq<Op>)
    requires ops != []
    ensures Run(p, ops) == Step(Run(p, ops[..|ops| - 1]), ops[|ops| - 1])
    decreases |ops|
  {
    hide Step;
    var n := |ops| - 1;
    if n > 0 {
      RunLast(Step(p, ops[0]), ops[1..]);
      assert ops[1..][..n - 1] == ops[..n][1..] && ops[1..][n - 1] == ops[n];
    }
  }

  /** What one operation does to flow control. */
  lemma FlowStep(p: Port, op: Op, up: bool)
    requires p.hwStopped == (p.ctsFlow && !up)
    ensures var q := Step(p, op);
            && q.stopped == (if op.StopTty? then true else if op.StartTty? then false else p.stopped)
            && q.ctsFlow == (if op.SetCrtscts? then op.on else p.ctsFlow)
            && var up' := if op.CtsChange? then op.status
                          else if op.SetCrtscts? && op.on && !p.ctsFlow then op.cts else up;
               q.hwStopped == (q.ctsFlow && !up')
  {
    hide BurstSize, Min;
    match op
    case CtsChange(_) =>
    case SetCrtscts(_, _) =>
    case TxInterrupt =>
    case _ =>
  }

  /** Over every run of a new port: it is stopped by the line discipline exactly after a StopTty that no
      StartTty has followed, and by the hardware exactly while CRTSCTS is on and the last reported CTS is down. */
  lemma {:induction false} StoppedExactly(ops: seq<Op>)
    ensures var p := Run(INITIAL, ops);
            && p.stopped == TtyStopped(ops) && p.ctsFlow == FlowOn(ops)
            && p.hwStopped == (FlowOn(ops) && !CtsUp(ops))
    decreases |ops|
  {
    if ops != [] {
      var before := ops[..|ops| - 1];
      StoppedExactly(before);
      RunLast(INITIAL, ops);
      FlowStep(Run(INITIAL, before), ops[|ops| - 1], CtsUp(before));
      hide Step, Run;
    }
  }

  /** An interrupt with an x_char sends that alone and stays on; one that finds nothing it may send sends nothing
      and turns itself off. */
  lemma OtherInterrupts(p: Port)
    requires p.irq
    ensures p.xchar != 0 ==> Step(p, TxInterrupt) == p.(line := p.line + [p.xchar], xchar := 0)
    ensures p.xchar == 0 && (p.pending == [] || p.stopped || p.hwStopped) ==>
              Step(p, TxInterrupt) == p.(irq := false)
  {
    hide BurstSize;
  }

  /** One interrupt of an unstopped port sends half a fifo of the oldest bytes, at least one, or all there are,
      and turns itself off with the last. */
  lemma OneBurst(p: Port)
    requires Invariant(p) && p.MaySend() && p.irq && p.xchar == 0
    ensures var p' := Step(p, TxInterrupt); var n := |p.pending| - |p'.pending|;
            n == if p.fifosize < 2 then 1 else if p.fifosize / 2 < |p.pending| then p.fifosize / 2 else |p.pending|
    ensures var p' := Step(p, TxInterrupt);
            && p'.line + p'.pending == p.line + p.pending && |p'.pending| < |p.pending| && p'.xchar == 0
            && p'.accepted == p.accepted && p'.irq == (p'.pending != [])
            && (p'.pending != [] ==> p'.MaySend()) && (p'.pending == [] ==> p'.sent == p.accepted)
  {
    var p' := Step(p, TxInterrupt);
    var n := BurstSize(p);
    assert 0 < n;
    assert p.pending == p.pending[..n] + p'.pending;
  }

  /** An unstopped port drains: as many interrupts as bytes are pending send all of them, in order,
      and the interrupt ends up disabled. */
  lemma {:induction false} Drains(p: Port, n: nat)
    requires Invariant(p) && p.MaySend() && p.irq && p.xchar == 0 && n >= |p.pending|
    ensures var r := Run(p, Times(TxInterrupt, n));
            r.pending == [] && r.line == p.line + p.pending && r.sent == p.accepted && !r.irq
    decreases n
  {
    var p', c := Step(p, TxInterrupt), BurstSize(p);
    StepKeepsInvariant(p, TxInterrupt);
    assert Times(TxInterrupt, n)[1..] == Times(TxInterrupt, n - 1);
    assert Run(p, Times(TxInterrupt, n)) == Run(p', Times(TxInterrupt, n - 1));
    OneBurst(p);
    hide Step, BurstSize, Invariant, Times;
    if p'.pending == [] {
      Idle(p', n - 1);
    } else {
      Drains(p', n - 1);
    }
  }

  /** A port that is started, or goes on because StartTty, CTS coming up or the end of CRTSCTS lets it, sends:
      its interrupt is on, and as many interrupts as bytes are pending put all of them on the line, in order. */
  lemma RestartSends(p: Port, op: Op, n: nat)
    requires Invariant(p) && p.pending != [] && p.xchar == 0 && n >= |p.pending|
    requires || (op.Kick? && !p.stopped && !p.hwStopped)
             || (op.StartTty? && !p.hwStopped)
             || (op.CtsChange? && op.status && p.ctsFlow && p.hwStopped && !p.stopped)
             || (op.SetCrtscts? && !op.on && p.ctsFlow && !p.stopped)
    ensures var q := Step(p, op);
            && !q.stopped && !q.hwStopped && q.irq && q.pending == p.pending
            && Run(q, Times(TxInterrupt, n)).line == p.line + p.pending && Run(q, Times(TxInterrupt, n)).pending == []
  {
    StepKeepsInvariant(p, op);
    hide Times, Run;
    Drains(Step(p, op), n);
  }

  /** A store takes as many bytes as fit, up to 4095 pending ones, in order, behind those pending; a flush
      discards what is pending. Neither touches the line or the interrupt. */
  lemma StoreAndFlush(p: Port, s: seq<Byte>)
    requires |p.pending| <= 4095
    ensures var q, n := Step(p, Store(s)), Min(|s|, 4095 - |p.pending|);
            && q.pending == p.pending + s[..n] && q.accepted == p.accepted + s[..n]
            && q.line == p.line && q.irq == p.irq && q.sent == p.sent
    ensures var q := Step(p, Flush);
            q.pending == q.accepted == [] && q.line == p.line && q.irq == p.irq && q.xchar == p.xchar
  {
    assert s[..0] == [];
  }

  /** The operations that take the interrupt away. */
  predicate Disables(p: Port, op: Op) {
    match op
    case StopTty => true
    case CtsChange(status) => p.ctsFlow && !p.hwStopped && !status
    case SetCrtscts(on, cts) => !p.ctsFlow && on && !cts
    case _ => false
  }

  /** A pending x_char has its interrupt on. Exactly the disabling operations break that for a pending one. */
  lemma XcharServed(p: Port, op: Op)
    requires p.xchar != 0 ==> p.irq
    ensures var p' := Step(p, op);
            (p'.xchar != 0 ==> p'.irq) <==> !(p.xchar != 0 && Disables(p, op))
    ensures Disables(p, op) <==> || op.StopTty?
                                 || (op.CtsChange? && !op.status && p.ctsFlow && !p.hwStopped)
                                 || (op.SetCrtscts? && op.on && !op.cts && !p.ctsFlow)
  {
    hide BurstSize, Min;
    if op == TxInterrupt {
      assert p.xchar != 0 ==> Step(p, op).xchar == 0;
    }
  }

  /** None of the operations disables the interrupt of the port that it meets. */
  predicate Undisabled(p: Port, ops: seq<Op>)
    decreases |ops|
  {
    ops == [] || (!Disables(p, ops[0]) && Undisabled(Step(p, ops[0]), ops[1..]))
  }

  /** Without such operations the next interrupt, whenever it comes, sends x_char. */
  lemma {:induction false} XcharSent(p: Port, ops: seq<Op>)
    requires (p.xchar != 0 ==> p.irq) && Undisabled(p, ops)
    ensures var q := Run(p, ops);
            && (q.xchar != 0 ==> q.irq)
            && Step(q, TxInterrupt).xchar == 0
            && (q.xchar != 0 ==> Step(q, TxInterrupt).line == q.line + [q.xchar])
    decreases |ops|
  {
    if ops != [] {
      XcharServed(p, ops[0]);
      hide Step, Disables;
      XcharSent(Step(p, ops[0]), ops[1..]);
    }
  }
}
