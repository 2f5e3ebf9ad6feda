/** Register writes of the SAA711x merged into auto-increment bursts: the grouping and its optimality. */
module SaaBursts {
  type Octet = x: int | 0 <= x < 256

  datatype Pair = Pair(reg: Octet, value: Octet)

  /** block_data holds the register and at most 31 values. */
  const MAX_VALUES: nat := 31

  /** The (register, value) pairs of a byte list; an odd last byte is ignored. */
  function Pairs(data: seq<Octet>): (r: seq<Pair>)
    ensures |r| == |data| / 2
  {
    seq(|data| / 2, i requires 0 <= i < |data| / 2 => Pair(data[2 * i], data[2 * i + 1]))
  }

  /** A register file after writing pairs one by one. */
  function Apply(regs: seq<Octet>, pairs: seq<Pair>): (r: seq<Octet>)
    requires forall p :: p in pairs ==> p.reg < |regs|
    ensures |r| == |regs|
  {
    if pairs == [] then regs
    else Apply(regs, pairs[..|pairs| - 1])[pairs[|pairs| - 1].reg := pairs[|pairs| - 1].value]
  }

  /** A message the chip takes: a register, then values for it and its successors. */
  datatype Burst = Burst(reg: Octet, values: seq<Octet>)

  /** The chip's auto-increment: value i goes to register reg + i. */
  function AutoIncrement(regs: seq<Octet>, b: Burst): (r: seq<Octet>)
    requires b.reg + |b.values| <= |regs|
    ensures |r| == |regs|
  {
    regs[..b.reg] + b.values + regs[b.reg + |b.values|..]
  }

  /** Consecutive registers, at most 32 bytes as a message. */
  ghost predicate IsBurst(s: seq<Pair>) {
    && 0 < |s| <= MAX_VALUES
    && forall i :: 0 <= i < |s| ==> s[i].reg == s[0].reg + i
  }

  function AsBurst(s: seq<Pair>): Burst
    requires s != []
  {
    Burst(s[0].reg, seq(|s|, i requires 0 <= i < |s| => s[i].value))
  }

  lemma {:induction false} ApplyConcat(regs: seq<Octet>, s: seq<Pair>, t: seq<Pair>)
    requires forall p :: p in s + t ==> p.reg < |regs|
    ensures (forall p :: p in s ==> p.reg < |regs|) && (forall p :: p in t ==> p.reg < |regs|)
    ensures Apply(regs, s + t) == Apply(Apply(regs, s), t)
  {
    forall p | p in s || p in t ensures p in s + t {}
    if t == [] {
      assert s + t == s;
    } else {
      var t' := t[..|t| - 1];
      assert (s + t)[..|s + t| - 1] == s + t';
      ApplyConcat(regs, s, t');
    }
  }

  /** One burst writes what its pairs would write one by one. */
  lemma {:induction false} BurstIsApply(regs: seq<Octet>, s: seq<Pair>)
    requires IsBurst(s) && forall p :: p in s ==> p.reg < |regs|
    ensures s[0].reg + |s| <= |regs|
    ensures AutoIncrement(regs, AsBurst(s)) == Apply(regs, s)
  {
    assert s[|s| - 1] in s;
    if |s| == 1 {
      assert s[..0] == [];
      assert Apply(regs, s) == regs[s[0].reg := s[0].value];
    } else {
      var t := s[..|s| - 1];
      BurstIsApply(regs, t);
      assert AsBurst(s).values == AsBurst(t).values + [s[|s| - 1].value];
    }
  }

  // ---------- the grouping the driver makes ----------

  /** The length of the first burst, once it has k pairs. */
  function BurstLen(s: seq<Pair>, k: nat): (n: nat)
    requires 0 < k <= |s|
    ensures k <= n <= |s|
    decreases |s| - k
  {
    if k < |s| && k < MAX_VALUES && s[k].reg == s[0].reg + k then BurstLen(s, k + 1) else k
  }

  function Greedy(s: seq<Pair>): seq<seq<Pair>>
    decreases |s|
  {
    if s == [] then [] else [s[..BurstLen(s, 1)]] + Greedy(s[BurstLen(s, 1)..])
  }

  function Flatten(gs: seq<seq<Pair>>): seq<Pair> {
    if gs == [] then [] else gs[0] + Flatten(gs[1..])
  }

  /** An order-preserving grouping into bursts. */
  ghost predicate Grouping(gs: seq<seq<Pair>>, s: seq<Pair>) {
    Flatten(gs) == s && forall i :: 0 <= i < |gs| ==> IsBurst(gs[i])
  }

  lemma {:induction false} BurstLenIsBurst(s: seq<Pair>, k: nat)
    requires 0 < k <= |s| && IsBurst(s[..k])
    ensures IsBurst(s[..BurstLen(s, k)])
    decreases |s| - k
  {
    if k < |s| && k < MAX_VALUES && s[k].reg == s[0].reg + k {
      var t := s[..k + 1];
      forall i | 0 <= i < k + 1 ensures t[i].reg == t[0].reg + i {
        if i < k { assert s[..k][i].reg == s[..k][0].reg + i; }
      }
      BurstLenIsBurst(s, k + 1);
    }
  }

  /** A burst ends only at 31 values, at the end of the list, or in front of another register. */
  lemma {:induction false} BurstEnds(s: seq<Pair>, k: nat)
    requires 0 < k <= |s| && k <= MAX_VALUES
    ensures var n := BurstLen(s, k); n <= 31 && (n == 31 || n == |s| || s[n].reg != s[0].reg + n)
    decreases |s| - k
  {
    if k < |s| && k < MAX_VALUES && s[k].reg == s[0].reg + k {
      BurstEnds(s, k + 1);
    }
  }

  /** No burst in front of the list is longer. */
  lemma {:induction false} BurstLenMaximal(s: seq<Pair>, k: nat, m: nat)
    requires 0 < k <= m <= |s| && IsBurst(s[..m])
    ensures BurstLen(s, k) >= m
    decreases m - k
  {
    if k < m {
      assert s[..m][k].reg == s[..m][0].reg + k;
      BurstLenMaximal(s, k + 1, m);
    }
  }

  lemma {:induction false} GreedyIsGrouping(s: seq<Pair>)
    ensures Grouping(Greedy(s), s)
    decreases |s|
  {
    if s != [] {
      var n := BurstLen(s, 1);
      assert IsBurst(s[..1]);
      BurstLenIsBurst(s, 1);
      GreedyIsGrouping(s[n..]);
      var gs := Greedy(s);
      assert gs[1..] == Greedy(s[n..]);
      assert s[..n] + s[n..] == s;
      forall i | 0 <= i < |gs| ensures IsBurst(gs[i]) {
        if i > 0 { assert gs[i] == Greedy(s[n..])[i - 1]; }
      }
    }
  }

  /** A part of a burst is a burst. */
  lemma BurstPart(s: seq<Pair>, m: nat, k: nat)
    requires k < m <= |s| && IsBurst(s[..m])
    ensures IsBurst(s[k..][..m - k])
  {
    var t := s[k..][..m - k];
    forall i | 0 <= i < |t| ensures t[i].reg == t[0].reg + i {
      assert t[i] == s[..m][k + i] && t[0] == s[..m][k];
    }
  }

  /** A shorter rest never needs more bursts. */
  lemma {:induction false} SuffixNeedsNoMore(s: seq<Pair>, k: nat)
    requires k <= |s|
    ensures |Greedy(s[k..])| <= |Greedy(s)|
    decreases |s|
  {
    if 0 < k < |s| {
      var n := BurstLen(s, 1);
      if k >= n {
        SuffixNeedsNoMore(s[n..], k - n);
        assert s[n..][k - n..] == s[k..];
      } else {
        assert IsBurst(s[..1]);
        BurstLenIsBurst(s, 1);
        BurstPart(s, n, k);
        var t := s[k..];
        BurstLenMaximal(t, 1, n - k);
        var n' := BurstLen(t, 1);
        SuffixNeedsNoMore(s[n..], n' - (n - k));
        assert s[n..][n' - (n - k)..] == t[n'..];
      }
    } else if k == 0 {
      assert s[0..] == s;
    }
  }

  /** The driver's grouping is the best: no order-preserving grouping has fewer bursts. */
  lemma {:induction false} GreedyOptimal(s: seq<Pair>, gs: seq<seq<Pair>>)
    requires Grouping(gs, s)
    ensures |Greedy(s)| <= |gs|
    decreases |gs|
  {
    if gs != [] {
      var m := |gs[0]|;
      var rest := Flatten(gs[1..]);
      assert IsBurst(gs[0]);
      assert s[..m] == gs[0] && s[m..] == rest;
      assert Grouping(gs[1..], rest);
      GreedyOptimal(rest, gs[1..]);
      BurstLenMaximal(s, 1, m);
      var n := BurstLen(s, 1);
      SuffixNeedsNoMore(rest, n - m);
      assert rest[n - m..] == s[n..];
    }
  }
}
