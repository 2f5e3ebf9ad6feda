/** struct saa711x and saa711x_write_block: shadow registers, and the two ways of writing the chip. */
module SaaDriver {
  import opened Errno
  import opened SaaBursts
  import opened Sequences

  /** The chip on its I2C bus; transfer number failAt is refused. */
  class Chip {
    var regs: seq<Octet>
    var bursts: seq<Burst>  // the messages it took
    var transfers: nat
    const failAt: nat

    constructor (regs: seq<Octet>, failAt: nat)
      requires |regs| == 256
      ensures this.regs == regs && bursts == [] && transfers == 0 && this.failAt == failAt
    {
      this.regs, bursts, transfers, this.failAt := regs, [], 0, failAt;
    }

    method Transfer(b: Burst) returns (ret: int)
      requires |regs| == 256 && b.reg + |b.values| <= 256
      modifies this
      ensures |regs| == 256 && transfers == old(transfers) + 1
      ensures ret < 0 <==> old(transfers) == failAt
      ensures if ret < 0 then regs == old(regs) && bursts == old(bursts)
              else regs == AutoIncrement(old(regs), b) && bursts == old(bursts) + [b]
    {
      ret := if transfers == failAt then EREMOTEIO else 1;
      transfers := transfers + 1;
      if ret >= 0 {
        regs := AutoIncrement(regs, b);
        bursts := bursts + [b];
      }
    }
  }

  /** Pairs within the 32 shadow registers. */
  ghost predicate InRange(pairs: seq<Pair>) {
    forall i :: 0 <= i < |pairs| ==> pairs[i].reg < 32
  }

  /** Every pair a group of its own. */
  function Singles(s: seq<Pair>): (gs: seq<seq<Pair>>)
    ensures |gs| == |s|
  {
    seq(|s|, i requires 0 <= i < |s| => [s[i]])
  }

  /** The groups of pairs that go out as one transfer each. */
  function Groups(s: seq<Pair>, rawI2c: bool): seq<seq<Pair>> {
    if rawI2c then Greedy(s) else Singles(s)
  }

  /** How many pairs have reached the chip and the shadow registers when transfer k of the groups is
      refused, or none of them is. */
  ghost predicate Settled(s: seq<Pair>, gs: seq<seq<Pair>>, k: int, done: nat, shadow: nat) {
    if 0 <= k < |gs| then done == |Flatten(gs[..k])| && shadow == done + |gs[k]|
    else done == shadow == |s|
  }

  ghost predicate AllBursts(gs: seq<seq<Pair>>) {
    forall i :: 0 <= i < |gs| ==> IsBurst(gs[i])
  }

  /** The messages of a grouping. */
  function Messages(gs: seq<seq<Pair>>): (r: seq<Burst>)
    requires AllBursts(gs)
    ensures |r| == |gs|
  {
    seq(|gs|, i requires 0 <= i < |gs| => AsBurst(gs[i]))
  }

  /** The messages that the chip has taken by then. */
  ghost predicate Sent(gs: seq<seq<Pair>>, k: int, before: seq<Burst>, after: seq<Burst>) {
    AllBursts(gs) && after == before + Messages(if 0 <= k < |gs| then gs[..k] else gs)
  }

  lemma NoGroups()
    ensures Flatten([]) == []
  {
  }

  lemma GreedyBursts(s: seq<Pair>)
    ensures AllBursts(Greedy(s))
  {
    GreedyIsGrouping(s);
  }

  lemma AllSettled(s: seq<Pair>, gs: seq<seq<Pair>>, k: int)
    ensures !(0 <= k < |gs|) ==> Settled(s, gs, k, |s|, |s|)
  {
  }

  lemma SettledMeans(s: seq<Pair>, gs: seq<seq<Pair>>, k: int)
    requires forall i :: 0 <= i < |gs| ==> gs[i] != []
    ensures forall done: nat, shadow: nat :: Settled(s, gs, k, done, shadow) ==>
      (done < shadow <==> 0 <= k < |gs|) && (done == shadow == |s| <==> !(0 <= k < |gs|))
  {
  }

  lemma GroupsNonEmpty(s: seq<Pair>, rawI2c: bool)
    ensures forall i :: 0 <= i < |Groups(s, rawI2c)| ==> Groups(s, rawI2c)[i] != []
  {
    GreedyIsGrouping(s);
    hide Greedy;
    assert forall i :: 0 <= i < |Greedy(s)| ==> IsBurst(Greedy(s)[i]);
  }

  lemma {:induction false} SinglesBefore(s: seq<Pair>, k: nat)
    requires k <= |s|
    ensures |Flatten(Singles(s)[..k])| == k
    decreases k
  {
    if k > 0 {
      var gs := Singles(s)[..k];
      assert gs[1..] == Singles(s[1..])[..k - 1];
      SinglesBefore(s[1..], k - 1);
    }
  }

  lemma SingleSettled(s: seq<Pair>, k: nat)
    requires k < |s|
    ensures Settled(s, Singles(s), k, k, k + 1)
  {
    SinglesBefore(s, k);
  }

  lemma {:induction false} FlattenMore(gs: seq<seq<Pair>>, g: seq<Pair>)
    ensures |Flatten(gs + [g])| == |Flatten(gs)| + |g|
  {
    if gs == [] {
      assert ([] + [g])[1..] == [];
    } else {
      assert (gs + [g])[1..] == gs[1..] + [g];
      FlattenMore(gs[1..], g);
    }
  }

  lemma BurstSettled(s: seq<Pair>, gs: seq<seq<Pair>>, g: seq<Pair>, done: nat, rest: seq<seq<Pair>>)
    requires |Flatten(gs)| == done
    ensures var all := (gs + [g]) + rest; Settled(s, all, |gs|, done, done + |g|)
  {
    var all := (gs + [g]) + rest;
    assert all[..|gs|] == gs && all[|gs|] == g;
  }

  lemma SentPart(all: seq<seq<Pair>>, gs: seq<seq<Pair>>, k: nat, before: seq<Burst>)
    requires k == |gs| < |all| && gs == all[..k] && AllBursts(all)
    ensures AllBursts(gs) && Sent(all, k, before, before + Messages(gs))
  {
  }

  lemma SentAll(gs: seq<seq<Pair>>, k: int, before: seq<Burst>)
    requires AllBursts(gs) && !(0 <= k < |gs|)
    ensures Sent(gs, k, before, before + Messages(gs))
  {
  }

  ghost predicate AllBelow(s: seq<Pair>, n: nat) {
    forall p :: p in s ==> p.reg < n
  }

  /** k pairs of a burst are in values and in the registers. */
  ghost predicate Filled(s: seq<Pair>, k: nat, values: seq<Octet>, regs0: seq<Octet>, regs: seq<Octet>) {
    && k <= |s| && s != [] && AllBelow(s[..k], 32) && |regs0| == 32
    && values == AsBurst(s).values[..k] && regs == Apply(regs0, s[..k])
  }

  lemma FirstPair(data: seq<Octet>, at: nat)
    requires at % 2 == 0 && at + 2 <= |data|
    ensures at / 2 < |Pairs(data)| && Pairs(data)[at / 2] == Pair(data[at], data[at + 1])
  {
  }

  lemma PairAt(data: seq<Octet>, at: nat, k: nat)
    requires at % 2 == 0 && at + 2 * k + 2 <= |data|
    ensures at / 2 + k < |Pairs(data)| && Pairs(data)[at / 2..][k] == Pair(data[at + 2 * k], data[at + 2 * k + 1])
  {
    FirstPair(data, at + 2 * k);
  }

  lemma NothingFilled(s: seq<Pair>, regs: seq<Octet>)
    requires s != [] && |regs| == 32
    ensures Filled(s, 0, [], regs, regs)
  {
  }

  /** How the burst and the registers grow by pair k. */
  lemma NextPair(s: seq<Pair>, k: nat, values: seq<Octet>, regs0: seq<Octet>, regs: seq<Octet>)
    requires k < |s| && Filled(s, k, values, regs0, regs) && InRange(s)
    ensures s[k].reg < 32 && |regs| == 32
    ensures Filled(s, k + 1, values + [s[k].value], regs0, regs[s[k].reg := s[k].value])
    ensures 0 < k < MAX_VALUES && s[k].reg == s[0].reg + k ==> BurstLen(s, k) == BurstLen(s, k + 1) >= k + 1
  {
    assert s[..k + 1][..k] == s[..k];
    assert s[..k + 1] == s[..k] + [s[k]];
  }

  lemma LastPair(s: seq<Pair>, k: nat, values: seq<Octet>, regs0: seq<Octet>, regs: seq<Octet>)
    requires 0 < k && Filled(s, k, values, regs0, regs)
    requires k == |s| || k >= MAX_VALUES || s[k].reg != s[0].reg + k
    ensures BurstLen(s, k) == k && AllBelow(s[..k], 32)
    ensures AsBurst(s[..k]) == Burst(s[0].reg, values) && regs == Apply(regs0, s[..k])
  {
  }

  lemma FirstBurst(s: seq<Pair>)
    requires InRange(s) && s != []
    ensures var n := BurstLen(s, 1);
            && IsBurst(s[..n]) && AllBelow(s[..n], 32)
            && (forall k :: 0 <= k <= |s| ==> AllBelow(s[..k], 32))
            && (forall k :: 0 <= k < |s| ==> s[k].reg < 32)
  {
    assert IsBurst(s[..1]);
    BurstLenIsBurst(s, 1);
  }

  /** The burst at position at in terms of the bytes: its register and values, and that it ends only at 32 bytes,
      at the end of the data, or in front of a pair for another register. */
  lemma BurstInBytes(data: seq<Octet>, at: nat, i: nat)
    requires at % 2 == 0 && at + 2 <= |data|
    ensures var s := Pairs(data)[at / 2..];
            && s != [] && var n := BurstLen(s, 1); var b := AsBurst(s[..n]);
            && |b.values| == n && 1 + n <= 32 && at + 2 * n <= |data| && b.reg == data[at]
            && (1 + n == 32 || at + 2 * n + 2 > |data| || data[at + 2 * n] != data[at] + n)
            && (i < n ==> b.values[i] == data[at + 2 * i + 1] && data[at + 2 * i] == data[at] + i)
  {
    var s := Pairs(data)[at / 2..];
    PairAt(data, at, 0);
    BurstEnds(s, 1);
    assert IsBurst(s[..1]);
    BurstLenIsBurst(s, 1);
    var n := BurstLen(s, 1);
    assert |s| == |data| / 2 - at / 2;
    hide Pairs, BurstLen;
    if i < n {
      PairAt(data, at, i);
      assert s[..n][i].reg == s[..n][0].reg + i;
    }
    if at + 2 * n + 2 <= |data| {
      PairAt(data, at, n);
    }
  }

  /** The first n pairs have been written. */
  ghost predicate Written(s: seq<Pair>, n: nat, before: seq<Octet>, after: seq<Octet>) {
    && n <= |s| && AllBelow(s[..n], |before|) && after == Apply(before, s[..n])
  }

  /** Which value a register ends up with after the first n pairs of the data: that of pair k, the last one that
      names it, or with k == -1 the value it had. */
  lemma {:induction false} LastValueWins(data: seq<Octet>, n: nat, before: seq<Octet>, after: seq<Octet>,
                                         r: nat, k: int)
    requires Written(Pairs(data), n, before, after) && r < |before| && -1 <= k < n
    requires k >= 0 ==> data[2 * k] == r
    requires forall j :: 2 * k < j < 2 * n && j % 2 == 0 ==> data[j] != r
    ensures |after| == |before| && after[r] == if k >= 0 then data[2 * k + 1] else before[r]
    decreases n
  {
    if n > 0 {
      var s := Pairs(data);
      assert s[..n][..n - 1] == s[..n - 1];
      FirstPair(data, 2 * (n - 1));
      assert s[n - 1] in s[..n];
      if k < n - 1 {
        assert data[2 * (n - 1)] != r;
        LastValueWins(data, n - 1, before, Apply(before, s[..n - 1]), r, k);
      }
    }
  }

  lemma NothingWritten(s: seq<Pair>, regs: seq<Octet>)
    ensures Written(s, 0, regs, regs)
  {
  }

  lemma WriteOne(s: seq<Pair>, k: nat, before: seq<Octet>, after: seq<Octet>)
    requires k < |s| && InRange(s) && Written(s, k, before, after) && |before| >= 32
    ensures |after| == |before| && s[k].reg < 32 && Written(s, k + 1, before, after[s[k].reg := s[k].value])
  {
    assert s[..k + 1][..k] == s[..k];
    assert s[..k + 1] == s[..k] + [s[k]];
  }

  lemma PairCount(data: seq<Octet>)
    ensures |Pairs(data)| == |data| / 2
  {
  }

  lemma SuffixInRange(s: seq<Pair>, k: nat)
    requires InRange(s) && k <= |s|
    ensures InRange(s[k..])
  {
  }

  lemma PairsLeft(data: seq<Octet>, at: nat)
    requires at % 2 == 0 && at + 2 <= |data|
    ensures |Pairs(data)[at / 2..]| > 0
  {
  }

  lemma WriteMore(s: seq<Pair>, k: nat, n: nat, before: seq<Octet>, after: seq<Octet>)
    requires k + n <= |s| && InRange(s) && Written(s, k, before, after) && |before| >= 32
    requires IsBurst(s[k..][..n])
    ensures var g := s[k..][..n];
            && |after| == |before| && AllBelow(g, |after|) && g[0].reg + n <= |after|
            && Written(s, k + n, before, Apply(after, g))
            && Written(s, k + n, before, AutoIncrement(after, AsBurst(g)))
  {
    var g := s[k..][..n];
    assert s[..k + n] == s[..k] + g;
    assert AllBelow(g, 32) && AllBelow(s[..k + n], 32) by {
      hide Written, IsBurst, Apply;
      forall p | p in s[..k + n] ensures p.reg < 32 { }
    }
    hide IsBurst, AutoIncrement, AsBurst, Apply;
    ApplyConcat(before, s[..k], g);
    BurstIsApply(after, g);
    assert |g| == n;
  }

  lemma FirstGroup(t: seq<Pair>)
    requires t != []
    ensures BurstLen(t, 1) <= |t| && Greedy(t) == [t[..BurstLen(t, 1)]] + Greedy(t[BurstLen(t, 1)..])
  {
  }

  lemma GreedyStep(s: seq<Pair>, k: nat, gs: seq<seq<Pair>>)
    requires k < |s| && gs + Greedy(s[k..]) == Greedy(s)
    ensures var n := BurstLen(s[k..], 1);
            && (gs + [s[k..][..n]]) + Greedy(s[k + n..]) == Greedy(s) && |gs| < |Greedy(s)|
  {
    hide BurstLen;
    var t := s[k..];
    var n := BurstLen(t, 1);
    assert t[n..] == s[k + n..];
    FirstGroup(t);
    hide Greedy;
    Associate(gs, [t[..n]], Greedy(t[n..]));
  }

  lemma GreedyNothing(s: seq<Pair>)
    ensures s == [] ==> Greedy(s) == []
  {
  }

  lemma NoBursts(b: seq<Burst>)
    ensures AllBursts([]) && b + Messages([]) == b
  {
  }

  lemma GroupingMore(gs: seq<seq<Pair>>, g: seq<Pair>)
    requires AllBursts(gs) && IsBurst(g)
    ensures AllBursts(gs + [g]) && Messages(gs + [g]) == Messages(gs) + [AsBurst(g)]
  {
  }

  class Decoder {
    var reg: array<Octet>

    constructor ()
      ensures reg.Length == 32 && fresh(reg) && reg[..] == seq(32, _ => 0)
    {
      reg := new Octet[32](_ => 0);
    }

    /** saa711x_write. */
    method Write(chip: Chip, r: Octet, value: Octet) returns (ret: int)
      requires |chip.regs| == 256 && reg.Length == 32 && r < 32
      modifies chip, reg
      ensures |chip.regs| == 256 && chip.transfers == old(chip.transfers) + 1
      ensures reg[..] == old(reg[..])[r := value]
      ensures ret < 0 <==> old(chip.transfers) == chip.failAt
      ensures if ret < 0 then chip.regs == old(chip.regs) && chip.bursts == old(chip.bursts)
              else chip.regs == old(chip.regs)[r := value] && chip.bursts == old(chip.bursts) + [Burst(r, [value])]
    {
      reg[r] := value;
      ret := chip.Transfer(Burst(r, [value]));
    }

    /** The inner loop: fill block_data from position at with one burst, updating the shadow registers. */
    method FillBlock(data: seq<Octet>, at: nat) returns (b: Burst, next: nat)
      requires reg.Length == 32 && at % 2 == 0 && at + 2 <= |data| && InRange(Pairs(data)[at / 2..])
      modifies reg
      ensures var s := Pairs(data)[at / 2..]; var n := BurstLen(s, 1);
              && next == at + 2 * n && b == AsBurst(s[..n]) && IsBurst(s[..n])
              && AllBelow(s[..n], 32) && reg[..] == Apply(old(reg[..]), s[..n])
    {
      ghost var s := Pairs(data)[at / 2..];
      ghost var n := BurstLen(s, 1);
      hide Pairs, Apply, BurstLen, IsBurst, InRange, AllBelow, Filled;
      FirstPair(data, at);
      FirstBurst(s);
      NothingFilled(s, reg[..]);
      var r: int := data[at];
      var values: seq<Octet> := [];
      var p: nat, len: nat := at, |data| - at;
      ghost var k: nat := 0;
      var first := true;
      while first || (len >= 2 && data[p] == r && 1 + |values| < 32)
        invariant first <==> k == 0
        invariant k <= n && p == at + 2 * k && len == |data| - p && r == s[0].reg + k && |values| == k
        invariant k > 0 ==> n == BurstLen(s, k)
        invariant Filled(s, k, values, old(reg[..]), reg[..])
        decreases n - k
      {
        PairAt(data, at, k);
        NextPair(s, k, values, old(reg[..]), reg[..]);
        values := values + [data[p + 1]];
        reg[r] := data[p + 1];
        r := r + 1;
        len := len - 2;
        p := p + 2;
        k := k + 1;
        first := false;
      }
      if len >= 2 {
        PairAt(data, at, k);
      }
      LastPair(s, k, values, old(reg[..]), reg[..]);
      b := Burst(data[at], values);
      next := p;
    }

    ghost predicate Ready(chip: Chip)
      reads this, chip
    {
      |chip.regs| == 256 && reg.Length == 32
    }

    /** The one-by-one path for adapters without raw I2C. */
    method WriteSingly(chip: Chip, data: seq<Octet>) returns (ret: int, ghost done: nat, ghost shadow: nat)
      requires Ready(chip) && InRange(Pairs(data))
      modifies chip, reg
      ensures Ready(chip) && done <= shadow <= |Pairs(data)|
      ensures Written(Pairs(data), done, old(chip.regs), chip.regs)
      ensures Written(Pairs(data), shadow, old(reg[..]), reg[..])
      ensures Settled(Pairs(data), Singles(Pairs(data)), chip.failAt - old(chip.transfers), done, shadow)
      ensures ret < 0 <==> |data| < 2 || old(chip.transfers) <= chip.failAt < old(chip.transfers) + |Pairs(data)|
    {
      ghost var s := Pairs(data);
      hide Written, Pairs, InRange, Singles, Settled;
      NothingWritten(s, chip.regs);
      NothingWritten(s, reg[..]);
      AllSettled(s, Singles(s), chip.failAt - chip.transfers);
      ret, done, shadow := -1, 0, 0;
      var at: nat, len: nat := 0, |data|;
      PairCount(data);
      while len >= 2
        invariant Ready(chip) && at + len == |data| && at % 2 == 0 && done == shadow == at / 2
        invariant Written(s, done, old(chip.regs), chip.regs) && Written(s, done, old(reg[..]), reg[..])
        invariant ret < 0 <==> at == 0
        invariant chip.transfers == old(chip.transfers) + done && !(old(chip.transfers) <= chip.failAt < chip.transfers)
        decreases len
      {
        FirstPair(data, at);
        WriteOne(s, done, old(reg[..]), reg[..]);
        WriteOne(s, done, old(chip.regs), chip.regs);
        shadow := done + 1;
        ret := Write(chip, data[at], data[at + 1]);
        if ret < 0 {
          SingleSettled(s, done);
          return;
        }
        at := at + 2;
        len := len - 2;
        done := shadow;
      }
    }

    /** The auto-increment path: as many transfers as the best grouping has bursts. A refused transfer
        ends it, with that burst already in the shadow registers. */
    method WriteBursts(chip: Chip, data: seq<Octet>) returns (ret: int, ghost done: nat, ghost shadow: nat)
      requires Ready(chip) && InRange(Pairs(data))
      modifies chip, reg
      ensures Ready(chip) && done <= shadow <= |Pairs(data)|
      ensures Written(Pairs(data), done, old(chip.regs), chip.regs)
      ensures Written(Pairs(data), shadow, old(reg[..]), reg[..])
      ensures Settled(Pairs(data), Greedy(Pairs(data)), chip.failAt - old(chip.transfers), done, shadow)
      ensures ret < 0
         <==> |data| < 2 || old(chip.transfers) <= chip.failAt < old(chip.transfers) + |Greedy(Pairs(data))|
      ensures Sent(Greedy(Pairs(data)), chip.failAt - old(chip.transfers), old(chip.bursts), chip.bursts)
    {
      ghost var s := Pairs(data);
      hide Written, AllBursts, Messages, Pairs, InRange, Greedy, Apply, AutoIncrement, BurstLen, IsBurst, AllBelow;
      hide Settled, Sent, Flatten;
      AllSettled(s, Greedy(s), chip.failAt - chip.transfers);
      NothingWritten(s, chip.regs);
      NothingWritten(s, reg[..]);
      ret, done, shadow := -1, 0, 0;
      var at: nat, len: nat := 0, |data|;
      ghost var gs: seq<seq<Pair>> := [];
      PairCount(data);
      assert s[0..] == s && gs + Greedy(s) == Greedy(s);
      NoGroups();
      GreedyBursts(s);
      NoBursts(chip.bursts);
      while len >= 2
        invariant Ready(chip) && at + len == |data| && at % 2 == 0 && done == shadow == at / 2
        invariant Written(s, done, old(chip.regs), chip.regs) && Written(s, done, old(reg[..]), reg[..])
        invariant gs + Greedy(s[done..]) == Greedy(s)
        invariant chip.transfers == old(chip.transfers) + |gs| && |Flatten(gs)| == done
        invariant ret < 0 <==> at == 0
        invariant !(old(chip.transfers) <= chip.failAt < chip.transfers)
        invariant AllBursts(gs) && chip.bursts == old(chip.bursts) + Messages(gs)
        decreases len
      {
        SuffixInRange(s, done);
        PairsLeft(data, at);
        ghost var regs := reg[..];
        var b, next := FillBlock(data, at);
        ghost var n := BurstLen(s[done..], 1);
        ghost var g := s[done..][..n];
        WriteMore(s, done, n, old(chip.regs), chip.regs);
        WriteMore(s, done, n, old(reg[..]), regs);
        GreedyStep(s, done, gs);
        shadow := next / 2;
        len := len - (next - at);
        at := next;
        ret := chip.Transfer(b);
        GroupingMore(gs, g);
        FlattenMore(gs, g);
        if ret < 0 {
          BurstSettled(s, gs, g, done, Greedy(s[done + n..]));
          SentPart(Greedy(s), gs, |gs|, old(chip.bursts));
          return;
        }
        gs := gs + [g];
        done := shadow;
      }
      GreedyNothing(s[done..]);
      assert gs + [] == gs;
      SentAll(gs, chip.failAt - old(chip.transfers), old(chip.bursts));
    }

    /** saa711x_write_block: rawI2c tells whether the adapter takes raw I2C. The chip holds the first done
        pairs written one by one, the shadow registers the first shadow pairs: all of them, unless transfer k
        of the grouping is refused; then the chip holds the groups before it, and the shadow registers the
        refused group as well. The raw path uses the fewest bursts. */
    method WriteBlock(chip: Chip, data: seq<Octet>, rawI2c: bool) returns (ret: int, ghost done: nat, ghost shadow: nat)
      requires Ready(chip) && InRange(Pairs(data))
      modifies chip, reg
      ensures Ready(chip)
      ensures Written(Pairs(data), done, old(chip.regs), chip.regs)
      ensures Written(Pairs(data), shadow, old(reg[..]), reg[..])
      ensures Settled(Pairs(data), Groups(Pairs(data), rawI2c), chip.failAt - old(chip.transfers), done, shadow)
      ensures done == shadow == |Pairs(data)|
         <==> !(old(chip.transfers) <= chip.failAt < old(chip.transfers) + |Groups(Pairs(data), rawI2c)|)
      ensures ret < 0 <==> |data| < 2 || done < shadow
      ensures rawI2c ==> Sent(Greedy(Pairs(data)), chip.failAt - old(chip.transfers), old(chip.bursts), chip.bursts)
    {
      hide Written, AllBursts, Messages, Pairs, InRange, Settled, Sent, Singles;
      PairCount(data);
      GroupsNonEmpty(Pairs(data), rawI2c);
      SettledMeans(Pairs(data), Groups(Pairs(data), rawI2c), chip.failAt - chip.transfers);
      if rawI2c {
        ret, done, shadow := WriteBursts(chip, data);
      } else {
        ret, done, shadow := WriteSingly(chip, data);
      }
    }
  }

  lemma OneGroup(s: seq<Pair>, rawI2c: bool)
    requires |s| == 1
    ensures Groups(s, rawI2c) == [s] && [s][..0] == [] && Flatten([]) == []
  {
    assert s[1..] == [] && s[..1] == s && Greedy([]) == [];
    assert BurstLen(s, 1) == 1;
    assert [s[0]] == s && Singles(s)[0] == s;
  }

  /** A refused write of one register, on either path: the shadow register has the new value, the chip the
      old one. */
  method RefusedWriteDiffers(rawI2c: bool) returns (chip: Chip, decoder: Decoder)
    ensures |chip.regs| == 256 && decoder.reg.Length == 32 && chip.regs[1] == 0 && decoder.reg[1] == 7
  {
    chip := new Chip(seq(256, _ => 0), 0);
    decoder := new Decoder();
    var data: seq<Octet> := [1, 7];
    ghost var s, before := Pairs(data), decoder.reg[..];
    assert s == [Pair(1, 7)];
    OneGroup(s, rawI2c);
    var ret, done, shadow := decoder.WriteBlock(chip, data, rawI2c);
    assert done == 0 && shadow == 1;
    assert s[..0] == [] && s[..1] == s && s[..1][..0] == [];
    assert decoder.reg[..] == Apply(before, s) == before[1 := 7];
  }
}
