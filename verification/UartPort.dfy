/** The circular transmit buffer of the serial core and its users. Each method computes a step of the
    queue machine in UartSpec. */
module UartPort {
  import opened Arith
  import opened UartSpec

  const N: nat := XMIT_SIZE

  /** CIRC_CNT, CIRC_SPACE and CIRC_SPACE_TO_END; & (size - 1) is the remainder by a power of two. */
  function CircCnt(head: int, tail: int): nat {
    (head - tail) % N
  }

  function CircSpace(head: int, tail: int): nat {
    CircCnt(tail, head + 1)
  }

  function CircSpaceToEnd(head: int, tail: int): int {
    var end := N - 1 - head;
    var n := (end + tail) % N;
    if n <= end then n else end + 1
  }

  /** The space to the end is the free space, cut at the end of the array. */
  lemma SpaceToEnd(head: nat, tail: nat)
    requires head < N && tail < N
    ensures CircSpace(head, tail) == N - 1 - CircCnt(head, tail)
    ensures CircSpaceToEnd(head, tail)
         == if CircSpace(head, tail) < N - head then CircSpace(head, tail) else N - head
  {
  }

  /** count bytes of the ring from position tail. */
  ghost function Ring(buf: seq<Byte>, tail: nat, count: nat): (r: seq<Byte>)
    requires |buf| == N
    ensures |r| == count
  {
    seq(count, i requires 0 <= i < count => buf[(tail + i) % N])
  }

  lemma Wrap(x: nat)
    requires x < 2 * N
    ensures x % N == if x < N then x else x - N
  {
  }

  /** Bytes stored behind the last one extend the ring's contents. */
  lemma RingStore(buf: seq<Byte>, buf': seq<Byte>, tail: nat, count: nat, p: seq<Byte>)
    requires |buf| == |buf'| == N && tail < N && count + |p| < N
    requires (tail + count) % N + |p| <= N
    requires var h := (tail + count) % N; buf' == buf[..h] + p + buf[h + |p|..]
    ensures Ring(buf', tail, count + |p|) == Ring(buf, tail, count) + p
  {
    var h := (tail + count) % N;
    var l, r := Ring(buf, tail, count) + p, Ring(buf', tail, count + |p|);
    Wrap(tail + count);
    forall i | 0 <= i < count + |p| ensures r[i] == l[i] {
      Wrap(tail + i);
    }
    assert l == r;
  }

  lemma RingDrop(buf: seq<Byte>, tail: nat, count: nat, n: nat)
    requires |buf| == N && tail < N && n <= count
    ensures Ring(buf, (tail + n) % N, count - n) == Ring(buf, tail, count)[n..]
  {
    var l, r := Ring(buf, (tail + n) % N, count - n), Ring(buf, tail, count)[n..];
    forall i | 0 <= i < count - n ensures l[i] == r[i] {
      ModInner(tail + n, i, N);
    }
    assert l == r;
  }

  /** The head is count bytes behind the tail, and moves with it. */
  lemma HeadMoves(head: nat, tail: nat, c: nat)
    requires head < N && tail < N && c <= CircSpace(head, tail) && head + c <= N
    ensures (tail + CircCnt(head, tail)) % N == head
    ensures CircCnt((head + c) % N, tail) == CircCnt(head, tail) + c < N
  {
    SpaceToEnd(head, tail);
  }

  lemma TailMoves(head: nat, tail: nat)
    requires head < N && tail < N
    ensures CircCnt(head, tail) == 0 <==> head == tail
    ensures head != tail ==> CircCnt(head, (tail + 1) % N) == CircCnt(head, tail) - 1
  {
  }

  lemma RingFirst(buf: seq<Byte>, tail: nat, count: nat)
    requires |buf| == N && tail < N && count > 0
    ensures Ring(buf, tail, count)[0] == buf[tail]
    ensures Ring(buf, (tail + 1) % N, count - 1) == Ring(buf, tail, count)[1..]
  {
    RingDrop(buf, tail, count, 1);
  }

  class Uart {
    const buf: array<Byte>
    const fifosize: nat
    var head: nat
    var tail: nat
    var x_char: Byte
    var stopped: bool
    var hw_stopped: bool
    var cts_flow: bool  // UIF_CTS_FLOW
    var tx_irq: bool    // the transmit interrupt is enabled
    ghost var sent: seq<Byte>
    ghost var accepted: seq<Byte>
    ghost var line: seq<Byte>
    ghost var owed: bool

    ghost predicate Valid()
      reads this
    {
      buf.Length == N && head < N && tail < N
    }

    ghost function View(): Port
      reads this, buf
      requires Valid()
    {
      Port(Ring(buf[..], tail, CircCnt(head, tail)), sent, accepted, line, x_char, stopped, hw_stopped, cts_flow,
           tx_irq, owed, fifosize)
    }

    constructor (fifosize: nat)
      ensures Valid() && View() == INITIAL.(fifosize := fifosize)
    {
      this.fifosize := fifosize;
      buf := new Byte[N](_ => 0);
      head, tail, x_char := 0, 0, 0;
      stopped, hw_stopped, cts_flow, tx_irq := false, false, false, false;
      sent, accepted, line, owed := [], [], [], false;
    }

    /** One memcpy of the copy loop: c bytes of s from position from, behind the last byte. */
    method CopyChunk(s: seq<Byte>, from: nat, c: nat)
      requires Valid() && from + c <= |s| && c <= CircSpace(head, tail) && head + c <= N
      modifies this`head, buf
      ensures Valid() && head == (old(head) + c) % N
      ensures CircCnt(head, tail) == old(CircCnt(head, tail)) + c
      ensures Ring(buf[..], tail, CircCnt(head, tail))
           == old(Ring(buf[..], tail, CircCnt(head, tail))) + s[from..from + c]
    {
      ghost var before, c0 := buf[..], CircCnt(head, tail);
      HeadMoves(head, tail, c);
      forall k | 0 <= k < c {
        buf[head + k] := s[from + k];
      }
      assert buf[..] == before[..head] + s[from..from + c] + before[head + c..];
      RingStore(before, buf[..], tail, c0, s[from..from + c]);
      head := (head + c) % N;
    }

    static lemma Appended(p: seq<Byte>, s: seq<Byte>, a: nat, c: nat)
      requires a + c <= |s|
      ensures p + s[..a] + s[a..a + c] == p + s[..a + c]
    {
      assert s[..a] + s[a..a + c] == s[..a + c];
    }

    /** The copy loop: copies is how often memcpy ran. */
    method CopyLoop(s: seq<Byte>) returns (ret: nat, ghost copies: nat)
      requires Valid()
      modifies this`head, buf
      ensures Valid() && ret == Min(|s|, old(CircSpace(head, tail))) && copies <= 2
      ensures CircCnt(head, tail) == old(CircCnt(head, tail)) + ret
      ensures Ring(buf[..], tail, CircCnt(head, tail)) == old(Ring(buf[..], tail, CircCnt(head, tail))) + s[..ret]
    {
      hide Ring, CircCnt, CircSpace, CircSpaceToEnd;
      ghost var n, p := CircCnt(head, tail), Ring(buf[..], tail, CircCnt(head, tail));
      SpaceToEnd(head, tail);
      var count: nat := |s|;
      ret, copies := 0, 0;
      assert p + s[..0] == p;
      while true
        invariant Valid() && ret + count == |s| && CircCnt(head, tail) == n + ret
        invariant Ring(buf[..], tail, CircCnt(head, tail)) == p + s[..ret]
        invariant copies == 0 || count == 0 || (copies == 1 && head == 0) || CircSpace(head, tail) == 0
        invariant copies <= 2 && (copies == 2 ==> count == 0 || CircSpace(head, tail) == 0)
        decreases count
      {
        SpaceToEnd(head, tail);
        var c := CircSpaceToEnd(head, tail);
        if count < c {
          c := count;
        }
        if c <= 0 {
          break;
        }
        CopyChunk(s, ret, c);
        Appended(p, s, ret, c);
        count := count - c;
        ret := ret + c;
        copies := copies + 1;
        SpaceToEnd(head, tail);
      }
    }

    /** The locked part of uart_write. */
    method CopyIn(s: seq<Byte>) returns (ret: nat, ghost copies: nat)
      requires Valid()
      modifies this`head, this`accepted, this`owed, buf
      ensures Valid() && View() == Step(old(View()), Store(s))
      ensures ret == Min(|s|, old(View()).Free()) && copies <= 2
    {
      hide Ring;
      SpaceToEnd(head, tail);
      ret, copies := CopyLoop(s);
      ghost var ring := buf[..];
      accepted := accepted + s[..ret];
      owed := true;
      assert buf[..] == ring;
    }

    /** __uart_put_char: one byte, if there is room. */
    method PutChar(c: Byte)
      requires Valid()
      modifies this`head, this`accepted, this`owed, buf
      ensures Valid() && View() == Step(old(View()), Store([c]))
    {
      ghost var p := View();
      SpaceToEnd(head, tail);
      ghost var n: nat := 0;
      if CircSpace(head, tail) != 0 {
        CopyChunk([c], 0, 1);
        n := 1;
      } else {
        assert p.pending + [] == p.pending;
      }
      ghost var ring := buf[..];
      accepted := accepted + [c][..n];
      owed := true;
      assert buf[..] == ring;
    }

    /** __uart_start under the lock. */
    method UartStart()
      requires Valid()
      modifies this`tx_irq, this`owed
      ensures Valid() && View() == Started(old(View()))
    {
      ghost var ring := buf[..];
      owed := false;
      if head != tail && !stopped && !hw_stopped {
        tx_irq := true;
      }
      assert buf[..] == ring;
    }

    /** uart_flush_chars, and the end of uart_write. */
    method FlushChars()
      requires Valid()
      modifies this`tx_irq, this`owed
      ensures Valid() && View() == Step(old(View()), Kick)
    {
      UartStart();
    }

    /** uart_write: store, then start. */
    method UartWrite(s: seq<Byte>) returns (ret: nat)
      requires Valid()
      modifies this, buf
      ensures Valid() && View() == Step(Step(old(View()), Store(s)), Kick)
      ensures ret == Min(|s|, old(View()).Free())
    {
      ghost var copies;
      ret, copies := CopyIn(s);
      FlushChars();
    }

    /** uart_flush_buffer. */
    method FlushBuffer()
      requires Valid()
      modifies this`head, this`tail, this`sent, this`accepted
      ensures Valid() && View() == Step(old(View()), Flush)
    {
      head, tail := 0, 0;
      sent, accepted := [], [];
    }

    method StopTty()
      requires Valid()
      modifies this`stopped, this`tx_irq
      ensures Valid() && View() == Step(old(View()), Op.StopTty)
    {
      ghost var ring := buf[..];
      stopped := true;
      tx_irq := false;
      assert buf[..] == ring;
    }

    method StartTty()
      requires Valid()
      modifies this`stopped, this`tx_irq, this`owed
      ensures Valid() && View() == Step(old(View()), Op.StartTty)
    {
      ghost var ring := buf[..];
      stopped := false;
      assert buf[..] == ring;
      UartStart();
    }

    /** uart_send_xchar of a driver without its own send_xchar. */
    method SendXchar(ch: Byte)
      requires Valid()
      modifies this`x_char, this`tx_irq
      ensures Valid() && View() == Step(old(View()), Op.SendXchar(ch))
    {
      ghost var ring := buf[..];
      x_char := ch;
      if ch != 0 {
        tx_irq := true;
      }
      assert buf[..] == ring;
    }

    /** uart_handle_cts_change. */
    method HandleCtsChange(status: bool)
      requires Valid()
      modifies this`hw_stopped, this`tx_irq
      ensures Valid() && View() == Step(old(View()), CtsChange(status))
    {
      ghost var ring := buf[..];
      if cts_flow {
        if hw_stopped {
          if status {
            hw_stopped := false;
            tx_irq := true;
          }
        } else {
          if !status {
            hw_stopped := true;
            tx_irq := false;
          }
        }
      }
      assert buf[..] == ring;
    }

    /** The CRTSCTS part of uart_set_termios; cts is what get_mctrl reports. */
    method SetTermios(on: bool, cts: bool)
      requires Valid()
      modifies this`cts_flow, this`hw_stopped, this`tx_irq, this`owed
      ensures Valid() && View() == Step(old(View()), SetCrtscts(on, cts))
    {
      ghost var ring := buf[..];
      var was := cts_flow;
      cts_flow := on;
      assert buf[..] == ring;
      if was && !on {
        hw_stopped := false;
        assert buf[..] == ring;
        UartStart();
      }
      if !was && on {
        if !cts {
          hw_stopped := true;
          tx_irq := false;
          assert buf[..] == ring;
        }
      }
    }

    static lemma Pending(p: seq<Byte>, k: nat)
      requires k < |p|
      ensures p[k..][0] == p[k] && p[k..][1..] == p[k + 1..] && p[..k + 1] == p[..k] + [p[k]]
    {
    }

    method SendLoop(ghost pending: seq<Byte>, ghost n: nat)
      requires Valid() && head != tail && pending == Ring(buf[..], tail, CircCnt(head, tail))
      requires |pending| == CircCnt(head, tail) && n == Min(if fifosize / 2 == 0 then 1 else fifosize / 2, |pending|)
      modifies this`tail, this`sent, this`line
      ensures Valid() && line == old(line) + pending[..n] && sent == old(sent) + pending[..n]
      ensures CircCnt(head, tail) == |pending| - n && Ring(buf[..], tail, CircCnt(head, tail)) == pending[n..]
    {
      hide Ring, CircCnt;
      ghost var ring := buf[..];
      var count: int := fifosize / 2;
      ghost var k: nat := 0;
      assert pending[..0] == [] && pending[0..] == pending;
      TailMoves(head, tail);
      var more := true;
      while more
        invariant Valid() && k <= n && buf[..] == ring
        invariant CircCnt(head, tail) == |pending| - k && Ring(ring, tail, CircCnt(head, tail)) == pending[k..]
        invariant line == old(line) + pending[..k] && sent == old(sent) + pending[..k]
        invariant if more then k < |pending| && (k == 0 || count > 0) && count == fifosize / 2 - k else k == n
        decreases more, count
      {
        RingFirst(ring, tail, CircCnt(head, tail));
        TailMoves(head, tail);
        line := line + [buf[tail]];
        sent := sent + [buf[tail]];
        Pending(pending, k);
        tail := (tail + 1) % N;
        k := k + 1;
        assert buf[..] == ring;
        TailMoves(head, tail);
        if head == tail {
          more := false;
        } else {
          count := count - 1;
          more := count > 0;
        }
      }
    }

    /** The do-while loop of the interrupt handler: count bytes, or all there are. */
    method SendBytes()
      requires Valid() && head != tail
      modifies this`tail, this`sent, this`line
      ensures Valid()
      ensures var p := old(View()); var n := BurstSize(p);
              View() == p.(line := p.line + p.pending[..n], sent := p.sent + p.pending[..n], pending := p.pending[n..])
    {
      hide Ring, CircCnt;
      TailMoves(head, tail);
      SendLoop(View().pending, BurstSize(View()));
    }

    /** s3c2410uart_tx_interrupt. */
    method TxInterrupt()
      requires Valid() && tx_irq
      modifies this`x_char, this`tail, this`tx_irq, this`sent, this`line
      ensures Valid() && View() == Step(old(View()), Op.TxInterrupt)
    {
      hide Ring, CircCnt, BurstSize;
      ghost var p, ring := View(), buf[..];
      TailMoves(head, tail);
      if x_char != 0 {
        line := line + [x_char];
        x_char := 0;
        assert buf[..] == ring;
        return;
      }
      if head == tail || stopped || hw_stopped {
        tx_irq := false;
        assert buf[..] == ring;
        return;
      }
      SendBytes();
      TailMoves(head, tail);
      if head == tail {
        tx_irq := false;
      }
      assert buf[..] == ring;
    }
  }
}
