/** Storing a piece into a sequence. */
module Sequences {
  lemma Associate<T>(a: seq<T>, b: seq<T>, c: seq<T>)
    ensures a + (b + c) == (a + b) + c
  {
  }

  lemma NothingBefore<T>(a: seq<T>, b: seq<T>)
    requires |a| == 0
    ensures a + b == b
  {
  }

  /** The sequence s with p from position at on. */
  function Overwrite<T>(s: seq<T>, at: nat, p: seq<T>): (r: seq<T>)
    requires at + |p| <= |s|
    ensures |r| == |s|
  {
    s[..at] + p + s[at + |p|..]
  }

  lemma OverwriteAt<T>(s: seq<T>, at: nat, p: seq<T>, k: nat)
    requires at + |p| <= |s| && k < |s|
    ensures Overwrite(s, at, p)[k] == if at <= k < at + |p| then p[k - at] else s[k]
  {
  }

  lemma OverwriteTwice<T>(s: seq<T>, at: nat, p: seq<T>, q: seq<T>)
    requires at + |p| + |q| <= |s|
    ensures Overwrite(Overwrite(s, at, p), at + |p|, q) == Overwrite(s, at, p + q)
  {
  }

  lemma OverwriteAgain<T>(s: seq<T>, at: nat, p: seq<T>, q: seq<T>)
    requires at + |p| <= |s| && |p| == |q|
    ensures Overwrite(Overwrite(s, at, p), at, q) == Overwrite(s, at, q)
  {
  }

  lemma OverwriteSame<T>(s: seq<T>, lo: nat, hi: nat)
    requires lo <= hi <= |s|
    ensures Overwrite(s, lo, s[lo..hi]) == s
  {
  }

  lemma OverwriteThere<T>(s: seq<T>, at: nat, p: seq<T>)
    requires at + |p| <= |s|
    ensures Overwrite(s, at, p)[at..at + |p|] == p
  {
  }

  lemma OverwriteOutside<T>(s: seq<T>, at: nat, p: seq<T>, lo: nat, hi: nat)
    requires at + |p| <= |s| && lo <= hi <= |s| && (hi <= at || at + |p| <= lo)
    ensures Overwrite(s, at, p)[lo..hi] == s[lo..hi]
  {
    var l, r := Overwrite(s, at, p)[lo..hi], s[lo..hi];
    forall k | 0 <= k < hi - lo ensures l[k] == r[k] {
      OverwriteAt(s, at, p, lo + k);
    }
    assert l == r;
  }

  lemma OverwriteWithin<T>(s: seq<T>, lo: nat, n: nat, off: nat, p: seq<T>)
    requires lo + n <= |s| && off + |p| <= n
    ensures Overwrite(s, lo + off, p)[lo..lo + n] == Overwrite(s[lo..lo + n], off, p)
  {
    var l, r := Overwrite(s, lo + off, p)[lo..lo + n], Overwrite(s[lo..lo + n], off, p);
    forall k | 0 <= k < n ensures l[k] == r[k] {
      OverwriteAt(s, lo + off, p, lo + k);
      OverwriteAt(s[lo..lo + n], off, p, k);
    }
    assert l == r;
  }

  lemma OverwriteRight<T>(s: seq<T>, t: seq<T>, off: nat, p: seq<T>)
    requires off + |p| <= |t|
    ensures Overwrite(s + t, |s| + off, p) == s + Overwrite(t, off, p)
  {
  }

  lemma OverwriteLeft<T>(s: seq<T>, t: seq<T>, at: nat, p: seq<T>)
    requires at + |p| <= |s|
    ensures Overwrite(s + t, at, p) == Overwrite(s, at, p) + t
  {
  }

  lemma SliceOfFirst<T>(s: seq<T>, t: seq<T>, a: nat, b: nat)
    requires a <= b <= |s|
    ensures (s + t)[a..b] == s[a..b]
  {
  }
}
