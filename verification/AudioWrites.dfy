/** What a write to the OSS output stream reports: the turns of its loop, what happens around them, and how far
    they get. */
module AudioWrites {
  import opened Arith
  import opened Errno

  /** What s3c2410_dma_enqueue returns: 0, or an error. */
  type Status = x: int | x <= 0

  /** What happens around one turn of a write: DMA completions before it and while it copies, whether a
      signal arrives while it would sleep, whether the user memory cannot be read, and what becomes of a
      submission. */
  datatype Wait = Wait(done: nat, meanwhile: nat, signal: bool, fault: bool, submit: Status)

  datatype Turn = More | Partly | Blocked | Fault | Refused(code: int)

  const QUIET := Wait(0, 0, false, false, 0)

  predicate Faults(w: Wait) {
    w.fault
  }

  predicate Refuses(w: Wait) {
    w.submit < 0
  }

  predicate Signals(w: Wait) {
    w.signal
  }

  predicate Never(env: seq<Wait>, p: Wait -> bool) {
    forall i :: 0 <= i < |env| ==> !p(env[i])
  }

  /** What befalls the k-th turn. */
  function Befalls(env: seq<Wait>, k: nat): Wait {
    if k < |env| then env[k] else QUIET
  }

  lemma NeverBefalls(env: seq<Wait>, k: nat)
    ensures Never(env, Faults) ==> !Befalls(env, k).fault
    ensures Never(env, Signals) ==> !Befalls(env, k).signal
    ensures Never(env, Refuses) ==> Befalls(env, k).submit == 0
  {
    if k < |env| {
      assert Faults(env[k]) == env[k].fault && Signals(env[k]) == env[k].signal;
      assert Refuses(env[k]) == (env[k].submit < 0);
    }
  }

  /** The first turn with p, or |env|. */
  function First(env: seq<Wait>, p: Wait -> bool): (f: nat)
    ensures f <= |env| && (f < |env| ==> p(env[f])) && forall i :: 0 <= i < f ==> !p(env[i])
  {
    if env == [] || p(env[0]) then 0
    else
      var f := 1 + First(env[1..], p);
      assert forall i :: 1 <= i < |env| ==> env[i] == env[1..][i - 1];
      f
  }

  // ---------- how far the turns get ----------

  /** How many of the caller's samples go into so many bytes of fragments. */
  function Capacity(mono: bool, bytes: nat): nat {
    if mono then bytes / 4 else bytes / 2
  }

  /** What k turns that are not cut short take when the current fragment has room at first: they fill that
      room and then whole fragments. */
  function Taken(mono: bool, room: nat, fragsize: nat, k: nat): nat {
    if k == 0 then 0 else Capacity(mono, room + (k - 1) * fragsize)
  }

  /** Room and fragments hold whole words. */
  predicate Words(room: nat, fragsize: nat) {
    0 < room <= fragsize && room % 4 == 0 && fragsize % 4 == 0
  }

  lemma Quarters(mono: bool, x: nat, y: nat)
    requires y % 4 == 0
    ensures Capacity(mono, x + y) == Capacity(mono, x) + Capacity(mono, y)
  {
    if mono {
      QuotientAdds(x, y / 4, 4);
    } else {
      QuotientAdds(x, y / 2, 2);
    }
  }

  lemma TakenNext(mono: bool, room: nat, fragsize: nat, k: nat)
    requires Words(room, fragsize)
    ensures Taken(mono, room, fragsize, k + 1)
         == Taken(mono, room, fragsize, k) + Capacity(mono, if k == 0 then room else fragsize)
    ensures Taken(mono, room, fragsize, k) < Taken(mono, room, fragsize, k + 1)
  {
    if k > 0 {
      var x := room + (k - 1) * fragsize;
      Distribute(k - 1, 1, fragsize);
      assert room + k * fragsize == x + fragsize;
      Quarters(mono, x, fragsize);
    }
  }

  lemma {:induction false} TakenMonotone(mono: bool, room: nat, fragsize: nat, j: nat, k: nat)
    requires Words(room, fragsize)
    ensures j <= k ==> Taken(mono, room, fragsize, j) <= Taken(mono, room, fragsize, k)
    ensures j < k ==> Taken(mono, room, fragsize, j) < Taken(mono, room, fragsize, k)
    decreases k - j
  {
    if j < k {
      TakenNext(mono, room, fragsize, j);
      TakenMonotone(mono, room, fragsize, j + 1, k);
    }
  }

  // ---------- what is reported ----------

  /** The value returned, the samples taken, and whether the write leaves the semaphore down. */
  datatype Report = Report(ret: int, taken: nat, held: bool)

  /** What a blocking write of so many samples reports when no signal disturbs it: it ends at the first fault
      or at the first refused submission, whichever its turns reach first, or else takes everything. */
  function Outcome(mono: bool, room: nat, fragsize: nat, samples: nat, env: seq<Wait>): Report {
    var f, r := First(env, Faults), First(env, Refuses);
    if f < |env| && f <= r && Taken(mono, room, fragsize, f) < samples then
      Report(EFAULT, Taken(mono, room, fragsize, f), false)
    else if r < f && Taken(mono, room, fragsize, r + 1) <= samples then
      Report(env[r].submit, Taken(mono, room, fragsize, r + 1), true)
    else Report(2 * samples, samples, false)
  }

  /** The turns before the first fault take something and do not take everything, or the refused submission is
      reached. */
  predicate LosesLength(mono: bool, room: nat, fragsize: nat, samples: nat, env: seq<Wait>) {
    var f, r := First(env, Faults), First(env, Refuses);
    || (1 <= f < |env| && f <= r && Capacity(mono, room + (f - 1) * fragsize) < samples)
    || (r < f && Capacity(mono, room + r * fragsize) <= samples)
  }

  /** An error is reported although samples were taken exactly if LosesLength says so. */
  lemma LengthLostIff(mono: bool, room: nat, fragsize: nat, samples: nat, env: seq<Wait>)
    requires Words(room, fragsize)
    ensures var o := Outcome(mono, room, fragsize, samples, env);
            o.ret < 0 && o.taken > 0 <==> LosesLength(mono, room, fragsize, samples, env)
  {
    var f, r := First(env, Faults), First(env, Refuses);
    TakenMonotone(mono, room, fragsize, 0, f);
    TakenMonotone(mono, room, fragsize, 0, r + 1);
    assert r < |env| ==> Refuses(env[r]);
    hide First, Capacity;
  }

  lemma FirstIs(env: seq<Wait>, p: Wait -> bool, k: nat)
    requires k <= |env| && forall i :: 0 <= i < k ==> !p(env[i])
    ensures First(env, p) >= k && (k < |env| && p(env[k]) ==> First(env, p) == k)
  {
    hide First;
    var _ := First(env, p);
  }

  lemma FaultLater(env: seq<Wait>, k: nat)
    requires k < |env| && !env[k].fault && forall i :: 0 <= i < k ==> !env[i].fault
    ensures First(env, Faults) > k
  {
    FirstIs(env, Faults, k + 1);
  }

  /** The outcome in numbers, when k turns go well: the first fault, at turn k, loses the length of the
      room / 4 (mono) or room / 2 samples before it unless they were all; a refusal there returns its code with
      the semaphore down, unless the samples end inside that fragment. */
  lemma OutcomeMeans(mono: bool, room: nat, fragsize: nat, samples: nat, env: seq<Wait>, k: nat)
    requires k < |env| && forall i :: 0 <= i < k ==> !env[i].fault && env[i].submit == 0
    ensures var o, all := Outcome(mono, room, fragsize, samples, env), Report(2 * samples, samples, false);
            var before := if k == 0 then 0 else (room + (k - 1) * fragsize) / if mono then 4 else 2;
            var after := (room + k * fragsize) / if mono then 4 else 2;
            && (env[k].fault ==> o == if before < samples then Report(-14, before, false) else all)
            && (!env[k].fault && env[k].submit < 0 ==>
                  o == if after <= samples then Report(env[k].submit, after, true) else all)
  {
    forall i | 0 <= i < k ensures !Faults(env[i]) && !Refuses(env[i]) {
    }
    assert Faults(env[k]) == env[k].fault && Refuses(env[k]) == (env[k].submit < 0);
    FirstIs(env, Faults, k);
    FirstIs(env, Refuses, k);
    if !env[k].fault {
      FaultLater(env, k);
    }
    hide First, Faults, Refuses;
  }

  lemma NothingHappens(mono: bool, room: nat, fragsize: nat, samples: nat, env: seq<Wait>)
    requires Never(env, Faults) && Never(env, Refuses)
    ensures Outcome(mono, room, fragsize, samples, env) == Report(2 * samples, samples, false)
  {
    hide Taken;
  }

  lemma NoEvents(mono: bool, room: nat, fragsize: nat, samples: nat)
    ensures Never([], Signals)
    ensures Outcome(mono, room, fragsize, samples, []) == Report(2 * samples, samples, false)
  {
    NothingHappens(mono, room, fragsize, samples, []);
  }

  // ---------- the turns ----------

  /** A turn that gets the semaphore, with left samples to take and room for cap. */
  predicate TurnIs(turn: Turn, c: nat, left: nat, cap: nat, w: Wait) {
    if w.fault then turn == Fault && c == 0
    else if left < cap then turn == Partly && c == left
    else c == cap && turn == if w.submit < 0 then Refused(w.submit) else More
  }

  /** Event x of the environment has not been met in k turns. */
  predicate NotMet(env: seq<Wait>, x: nat, k: nat) {
    x == |env| || k <= x
  }

  /** Where k turns have got, the last of which ended as turn says. */
  predicate Reached(mono: bool, room: nat, fragsize: nat, all: nat, env: seq<Wait>, k: nat, m: nat, turn: Turn) {
    var f, r := First(env, Faults), First(env, Refuses);
    match turn
    case More => NotMet(env, f, k) && NotMet(env, r, k) && m == Taken(mono, room, fragsize, k) <= all
    case Partly => k > 0 && NotMet(env, f, k) && NotMet(env, r, k - 1) && m == all < Taken(mono, room, fragsize, k)
    case Fault => f < |env| && f <= r && m == Taken(mono, room, fragsize, f) < all
    case Refused(code) => r < f && m == Taken(mono, room, fragsize, r + 1) <= all && code == env[r].submit
    case Blocked => false
  }

  lemma FirstReached(mono: bool, room: nat, fragsize: nat, all: nat, env: seq<Wait>)
    ensures Reached(mono, room, fragsize, all, env, 0, 0, More)
  {
    hide First;
  }

  /** At turn k, before anything was met. */
  lemma MetAt(env: seq<Wait>, k: nat)
    ensures var f := First(env, Faults); NotMet(env, f, k) ==> (Befalls(env, k).fault <==> k == f < |env|)
    ensures var r := First(env, Refuses); NotMet(env, r, k) ==> (Befalls(env, k).submit < 0 <==> k == r < |env|)
  {
    var f, r := First(env, Faults), First(env, Refuses);
    assert k < |env| ==> Faults(env[k]) == env[k].fault && Refuses(env[k]) == (env[k].submit < 0);
  }

  lemma NextReached(mono: bool, room: nat, fragsize: nat, all: nat, env: seq<Wait>, k: nat, m: nat,
                    turn: Turn, c: nat)
    requires Words(room, fragsize) && m < all && Reached(mono, room, fragsize, all, env, k, m, More)
    requires TurnIs(turn, c, all - m, Capacity(mono, if k == 0 then room else fragsize), Befalls(env, k))
    ensures Reached(mono, room, fragsize, all, env, k + 1, m + c, turn)
  {
    MetAt(env, k);
    TakenNext(mono, room, fragsize, k);
    hide First, Taken, Capacity;
    var f, r := First(env, Faults), First(env, Refuses);
    assert Befalls(env, k).submit < 0 && k == r ==> Befalls(env, k) == env[r];
  }

  function Reporting(turn: Turn, m: nat): Report {
    Report(if turn.Fault? then EFAULT else if turn.Refused? then turn.code else 2 * m, m, turn.Refused?)
  }

  lemma LastReached(mono: bool, room: nat, fragsize: nat, all: nat, env: seq<Wait>, k: nat, m: nat, turn: Turn)
    requires Words(room, fragsize) && Reached(mono, room, fragsize, all, env, k, m, turn)
    requires turn.More? ==> m == all
    ensures Reporting(turn, m) == Outcome(mono, room, fragsize, all, env)
  {
    var f, r := First(env, Faults), First(env, Refuses);
    TakenMonotone(mono, room, fragsize, k, f);
    TakenMonotone(mono, room, fragsize, k, r + 1);
    hide First, Taken;
  }
}
