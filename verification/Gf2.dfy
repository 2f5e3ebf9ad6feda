/** Polynomials over GF(2) and division by the SMBus generator x^8 + x^2 + x + 1. */
module Gf2 {
  /** p[i] is the coefficient of x^i; coefficients past the end are zero. */
  type Poly = seq<bool>

  predicate Coef(p: Poly, i: int) {
    0 <= i < |p| && p[i]
  }

  /** Coefficient i of q(x) * (x^8 + x^2 + x + 1). */
  predicate TimesG(q: Poly, i: int) {
    ((Coef(q, i) != Coef(q, i - 1)) != Coef(q, i - 2)) != Coef(q, i - 8)
  }

  /** p = q * G + r. */
  ghost predicate Divides(p: Poly, q: Poly, r: Poly) {
    forall i: int :: Coef(p, i) == (TimesG(q, i) != Coef(r, i))
  }

  /** r is the remainder of p modulo G: some quotient leaves it, and its degree is below 8. */
  ghost predicate IsRemainder(p: Poly, r: Poly) {
    |r| == 8 && exists q: Poly :: Divides(p, q, r)
  }

  function Zeros(n: nat): (r: Poly) {
    seq(n, _ => false)
  }

  /** Addition of polynomials; on equally long bit vectors this is bitwise exclusive or. */
  function Add(p: Poly, q: Poly): (r: Poly)
    ensures |r| == if |p| < |q| then |q| else |p|
    ensures forall i: int :: Coef(r, i) == (Coef(p, i) != Coef(q, i))
  {
    seq(if |p| < |q| then |q| else |p|, i => Coef(p, i) != Coef(q, i))
  }

  /** Number of positions at which two equally long bit strings differ. */
  function Hamming(p: Poly, q: Poly): nat
    requires |p| == |q|
  {
    if p == [] then 0 else (if p[0] != q[0] then 1 else 0) + Hamming(p[1..], q[1..])
  }

  /** p(1): the parity of the number of set bits. */
  predicate Parity(p: Poly) {
    p != [] && p[0] != Parity(p[1..])
  }

  /** If d * G has no coefficient at lo + 8 or above, d has none at lo or above. */
  lemma {:induction false} HighCoefficientsVanish(d: Poly, lo: nat, k: nat)
    requires forall i: int :: i >= lo + 8 ==> !TimesG(d, i)
    requires lo <= k
    ensures !Coef(d, k)
    decreases |d| - k
  {
    if k < |d| {
      HighCoefficientsVanish(d, lo, k + 6);
      HighCoefficientsVanish(d, lo, k + 7);
      HighCoefficientsVanish(d, lo, k + 8);
      assert !TimesG(d, k + 8);
    }
  }

  /** A remainder is unique, so IsRemainder determines r. */
  lemma RemainderUnique(p: Poly, r: Poly, r': Poly)
    requires IsRemainder(p, r) && IsRemainder(p, r')
    ensures r == r'
  {
    var q: Poly :| Divides(p, q, r);
    var q': Poly :| Divides(p, q', r');
    var d := Add(q, q');
    forall i: int ensures TimesG(d, i) == (Coef(r, i) != Coef(r', i)) {
      assert Coef(p, i) == (TimesG(q, i) != Coef(r, i));
      assert Coef(p, i) == (TimesG(q', i) != Coef(r', i));
    }
    forall k: nat ensures !Coef(d, k) {
      HighCoefficientsVanish(d, 0, k);
    }
    forall k | 0 <= k < 8 ensures r[k] == r'[k] {
      assert !TimesG(d, k);
      assert Coef(r, k) == r[k] && Coef(r', k) == r'[k];
    }
  }

  /** If d * G has no coefficient below hi, neither has d (G has constant term 1). */
  lemma {:induction false} LowCoefficientsVanish(d: Poly, hi: nat, k: int)
    requires forall i: int :: i < hi ==> !TimesG(d, i)
    requires k < hi
    ensures !Coef(d, k)
    decreases k + 8
  {
    if k >= 0 {
      LowCoefficientsVanish(d, hi, k - 1);
      LowCoefficientsVanish(d, hi, k - 2);
      LowCoefficientsVanish(d, hi, k - 8);
      assert !TimesG(d, k);
    }
  }

  /** The only multiple of G whose coefficients all lie within eight consecutive positions is zero. */
  lemma NoShortMultiple(e: Poly, lo: nat)
    requires IsRemainder(e, Zeros(8))
    requires forall i: int :: Coef(e, i) ==> lo <= i < lo + 8
    ensures forall i: int :: !Coef(e, i)
  {
    var q: Poly :| Divides(e, q, Zeros(8));
    forall i: int ensures Coef(e, i) == TimesG(q, i) {
      assert Coef(e, i) == (TimesG(q, i) != Coef(Zeros(8), i));
    }
    forall k: int ensures !Coef(q, k) {
      if k < lo { LowCoefficientsVanish(q, lo, k); } else { HighCoefficientsVanish(q, lo, k); }
    }
  }

  lemma {:induction false} ParityConcat(p: Poly, q: Poly)
    ensures Parity(p + q) == (Parity(p) != Parity(q))
  {
    if p == [] {
      assert p + q == q;
    } else {
      ParityConcat(p[1..], q);
      assert (p + q)[1..] == p[1..] + q;
    }
  }

  lemma {:induction false} ParityAdd(p: Poly, q: Poly)
    requires |p| == |q|
    ensures Parity(Add(p, q)) == (Parity(p) != Parity(q))
  {
    var s := Add(p, q);
    if p != [] {
      ParityAdd(p[1..], q[1..]);
      forall i | 0 <= i < |s| ensures s[i] == (p[i] != q[i]) {
        assert Coef(s, i) == s[i];
      }
      var t := Add(p[1..], q[1..]);
      forall i | 0 <= i < |t| ensures t[i] == (p[1..][i] != q[1..][i]) {
        assert Coef(t, i) == t[i];
      }
      assert s[1..] == t;
    }
  }

  /** An odd number of bit differences is exactly a difference of parity. */
  lemma {:induction false} HammingParity(p: Poly, q: Poly)
    requires |p| == |q|
    ensures Hamming(p, q) % 2 == 1 <==> Parity(p) != Parity(q)
  {
    if p != [] {
      HammingParity(p[1..], q[1..]);
    }
  }
}
