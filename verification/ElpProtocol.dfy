/** The busy/dmaing/backlog protocol of the 3c505 driver, with the adapter as its environment. */
module ElpProtocol {
  /** A packet in the adapter; len is the buf_len the adapter reports. */
  datatype Packet = Packet(len: nat, id: int)

  datatype Dma = NoDma | Upload(p: Packet) | Download(p: Packet)

  const BACKLOG_SIZE: nat := 4

  /** card: acknowledged packets that the adapter still holds, oldest first. backlog: the lengths the
      driver remembers for them. acked, delivered and sent are the histories. */
  datatype Elp = Elp(busy: bool, dmaing: bool, dma: Dma, backlog: seq<nat>, card: seq<Packet>,
                     acked: seq<Packet>, delivered: seq<Packet>, sent: seq<Packet>)
  {
    predicate Full() {
      |backlog| >= BACKLOG_SIZE - 1
    }
  }

  /** One step of the driver. skb tells whether dev_alloc_skb succeeds, error whether the adapter reports
      a receive error, pcbOk whether the adapter takes the transmit command. */
  datatype Event =
    | SendPacket(q: Packet, pcbOk: bool)
    | DmaDone(skb: bool)
    | ReceivePcb(p: Packet, error: bool, skb: bool)

  const INITIAL: Elp := Elp(false, false, NoDma, [], [], [], [], [])

  /** receive_packet: start the upload of the adapter's oldest packet. */
  function StartUpload(e: Elp, skb: bool): Elp {
    if !skb || e.card == [] then e
    else e.(dmaing := true, dma := Upload(e.card[0]), card := e.card[1..])
  }

  function Step(e: Elp, ev: Event): Elp {
    match ev
    case SendPacket(q, pcbOk) =>
      if e.busy || !pcbOk then e else e.(busy := true, dmaing := true, dma := Download(q))
    case DmaDone(skb) =>
      if !e.dmaing then e  // the adapter raises DONE for a running transfer only
      else
        var e1 := e.(dmaing := false, dma := NoDma,
                     delivered := if e.dma.Upload? then e.delivered + [e.dma.p] else e.delivered,
                     sent := if e.dma.Download? then e.sent + [e.dma.p] else e.sent);
        if e.backlog != [] then StartUpload(e1.(backlog := e.backlog[1..]), skb)
        else e1.(busy := false)
    case ReceivePcb(p, error, skb) =>
      if e.busy && e.Full() then e  // NAK
      else if error then e.(busy := true)
      else
        var e1 := e.(acked := e.acked + [p], card := e.card + [p]);
        if e.busy then e1.(backlog := e.backlog + [p.len]) else StartUpload(e1.(busy := true), skb)
  }

  function Run(e: Elp, evs: seq<Event>): Elp
    decreases |evs|
  {
    if evs == [] then e else Run(Step(e, evs[0]), evs[1..])
  }

  function Lengths(ps: seq<Packet>): (r: seq<nat>)
    ensures |r| == |ps|
  {
    seq(|ps|, i requires 0 <= i < |ps| => ps[i].len)
  }

  function InFlight(d: Dma): seq<Packet> {
    if d.Upload? then [d.p] else []
  }

  /** Busy exactly while a transfer runs, at most one at a time, at most three packets in the backlog and
      those only while busy; every acknowledged packet is delivered, in flight or waiting, in order. */
  ghost predicate Invariant(e: Elp) {
    && e.busy == e.dmaing && (e.dmaing <==> e.dma != NoDma)
    && |e.backlog| < BACKLOG_SIZE && (e.backlog != [] ==> e.busy)
    && e.backlog == Lengths(e.card)
    && e.acked == e.delivered + InFlight(e.dma) + e.card
  }

  /** The steps that keep the protocol alive: a buffer for every upload that starts, and no receive
      error while idle. */
  predicate Benign(e: Elp, ev: Event) {
    match ev
    case SendPacket(_, _) => true
    case DmaDone(skb) => e.dmaing && e.backlog != [] ==> skb
    case ReceivePcb(_, error, skb) => !e.busy ==> !error && skb
  }

  lemma DoneInvariant(e: Elp, skb: bool)
    requires Invariant(e)
    ensures Invariant(Step(e, DmaDone(skb))) <==> Benign(e, DmaDone(skb))
  {
    var e' := Step(e, DmaDone(skb));
    if e.dmaing && e.backlog != [] && skb {
      assert e'.backlog == Lengths(e'.card);
      assert e.delivered + InFlight(e.dma) + e.card == e'.delivered + [e.card[0]] + e.card[1..];
    } else if e.dmaing {
      assert e.delivered + InFlight(e.dma) + e.card == e'.delivered + [] + e.card;
    }
  }

  lemma ReceiveInvariant(e: Elp, p: Packet, error: bool, skb: bool)
    requires Invariant(e)
    ensures Invariant(Step(e, ReceivePcb(p, error, skb))) <==> Benign(e, ReceivePcb(p, error, skb))
  {
    var e' := Step(e, ReceivePcb(p, error, skb));
    if e.busy && !e.Full() && !error {
      assert e'.backlog == Lengths(e'.card);
      assert e.delivered + InFlight(e.dma) + e.card + [p] == e.delivered + InFlight(e.dma) + (e.card + [p]);
    } else if !e.busy && !error && skb {
      assert e.card == [] && e'.card == [];
      assert e.delivered + [] + [] + [p] == e.delivered + [p] + [];
    }
  }

  /** A step keeps the invariant exactly when it is benign: there is a buffer for the next packet of the
      backlog, and for one that arrives while idle, and no such packet has a receive error. */
  lemma StepInvariant(e: Elp, ev: Event)
    requires Invariant(e)
    ensures Invariant(Step(e, ev)) <==> Benign(e, ev)
    ensures Invariant(Step(e, ev)) <==> && (ev.DmaDone? && e.dmaing && e.backlog != [] ==> ev.skb)
                                        && (ev.ReceivePcb? && !e.busy ==> ev.skb && !ev.error)
  {
    match ev
    case SendPacket(q, pcbOk) =>
    case DmaDone(skb) => DoneInvariant(e, skb);
    case ReceivePcb(p, error, skb) => ReceiveInvariant(e, p, error, skb);
  }

  ghost predicate AllBenign(e: Elp, evs: seq<Event>)
    decreases |evs|
  {
    evs != [] ==> Benign(e, evs[0]) && AllBenign(Step(e, evs[0]), evs[1..])
  }

  /** Every run of benign steps keeps the invariant. */
  lemma {:induction false} RunInvariant(e: Elp, evs: seq<Event>)
    requires Invariant(e) && AllBenign(e, evs)
    ensures Invariant(Run(e, evs))
    decreases |evs|
  {
    if evs != [] {
      StepInvariant(e, evs[0]);
      RunInvariant(Step(e, evs[0]), evs[1..]);
    }
  }

  function Downloading(d: Dma): seq<Packet> {
    if d.Download? then [d.p] else []
  }

  /** A transfer runs exactly while dmaing is set, and only while busy. */
  predicate OneTransfer(e: Elp) {
    (e.dmaing <==> e.dma != NoDma) && (e.dmaing ==> e.busy)
  }

  /** The packet that send_packet takes in this step. */
  function Takes(e: Elp, ev: Event): seq<Packet> {
    if ev.SendPacket? && !e.busy && ev.pcbOk then [ev.q] else []
  }

  /** The packet that the driver acknowledges: one without a receive error, unless three are waiting. */
  function Acknowledges(e: Elp, ev: Event): seq<Packet> {
    if ev.ReceivePcb? && !ev.error && !(e.busy && |e.backlog| >= 3) then [ev.p] else []
  }

  function Taken(e: Elp, evs: seq<Event>): seq<Packet>
    decreases |evs|
  {
    if evs == [] then [] else Takes(e, evs[0]) + Taken(Step(e, evs[0]), evs[1..])
  }

  function Acknowledged(e: Elp, evs: seq<Event>): seq<Packet>
    decreases |evs|
  {
    if evs == [] then [] else Acknowledges(e, evs[0]) + Acknowledged(Step(e, evs[0]), evs[1..])
  }

  lemma StepTakes(e: Elp, ev: Event)
    requires OneTransfer(e)
    ensures var e' := Step(e, ev);
            && OneTransfer(e') && e'.acked == e.acked + Acknowledges(e, ev)
            && e'.sent + Downloading(e'.dma) == e.sent + Downloading(e.dma) + Takes(e, ev)
  {
  }

  /** Over every run, benign or not, the packets taken are downloaded and sent once each and in order, and the
      packets acknowledged are remembered in order. */
  lemma {:induction false} RunTakes(e: Elp, evs: seq<Event>)
    requires OneTransfer(e)
    ensures var r := Run(e, evs);
            && OneTransfer(r) && r.acked == e.acked + Acknowledged(e, evs)
            && r.sent + Downloading(r.dma) == e.sent + Downloading(e.dma) + Taken(e, evs)
    decreases |evs|
  {
    if evs != [] {
      StepTakes(e, evs[0]);
      hide Step, Takes, Acknowledges, Downloading;
      RunTakes(Step(e, evs[0]), evs[1..]);
    }
  }

  /** Busy without a transfer. */
  predicate Stuck(e: Elp) {
    e.busy && !e.dmaing
  }

  /** The first step that is not benign leaves the driver busy without a transfer ... */
  lemma NotBenignSticks(e: Elp, ev: Event)
    requires Invariant(e) && !Benign(e, ev)
    ensures Stuck(Step(e, ev))
  {
  }

  /** ... and then nothing is ever sent or delivered again, whatever happens. */
  lemma {:induction false} StuckForever(e: Elp, evs: seq<Event>)
    requires Stuck(e)
    ensures Stuck(Run(e, evs)) && Run(e, evs).delivered == e.delivered && Run(e, evs).sent == e.sent
    decreases |evs|
  {
    if evs != [] {
      StuckForever(Step(e, evs[0]), evs[1..]);
    }
  }

  function Completions(n: nat): (r: seq<Event>)
    ensures |r| == n
  {
    seq(n, _ => DmaDone(true))
  }

  lemma {:induction false} Nothing(e: Elp, n: nat)
    requires !e.dmaing
    ensures Run(e, Completions(n)) == e
  {
    if n > 0 {
      Nothing(e, n - 1);
      assert Completions(n)[1..] == Completions(n - 1);
    }
  }

  /** While transfers keep completing with buffers, the packets waiting are delivered in order: as many
      completions as there are packets (and one more for a download in flight) empty the driver. */
  lemma {:induction false} BacklogDrains(e: Elp, n: nat)
    requires Invariant(e) && n >= |e.card| + if e.dmaing then 1 else 0
    ensures var r := Run(e, Completions(n));
            && Invariant(r) && !r.busy && r.delivered == e.acked && r.acked == e.acked
            && r.sent == e.sent + Downloading(e.dma)
    decreases n
  {
    if !e.dmaing {
      assert e.delivered + [] + [] == e.delivered;
      Nothing(e, n);
    } else {
      var e' := Step(e, DmaDone(true));
      StepInvariant(e, DmaDone(true));
      assert Completions(n)[1..] == Completions(n - 1);
      assert Run(e, Completions(n)) == Run(e', Completions(n - 1));
      BacklogDrains(e', n - 1);
    }
  }
}
