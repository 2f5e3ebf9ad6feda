/** Which corruptions of a message its PEC detects. */
module PecDetection {
  import opened Gf2
  import opened Crc
  import opened I2cMessages

  function XorBytes(u: seq<Byte>, v: seq<Byte>): (r: seq<Byte>)
    requires |u| == |v|
    ensures |r| == |u|
  {
    seq(|u|, i requires 0 <= i < |u| => Xor8(u[i], v[i]))
  }

  lemma XorEqual(a: Poly, b: Poly)
    requires |a| == |b|
    ensures a == b <==> forall i: int :: !Coef(Add(a, b), i)
  {
    if forall i: int :: !Coef(Add(a, b), i) {
      forall i | 0 <= i < |a| ensures a[i] == b[i] {
        assert Coef(a, i) == a[i] && Coef(b, i) == b[i] && !Coef(Add(a, b), i);
      }
    }
  }

  lemma CoefExtensional(a: Poly, b: Poly)
    requires |a| == |b| && forall i: int :: Coef(a, i) == Coef(b, i)
    ensures a == b
  {
    forall i | 0 <= i < |a| ensures a[i] == b[i] {
      assert a[i] == Coef(a, i) && b[i] == Coef(b, i);
    }
  }

  lemma StepLinear(a: Word, b: Word)
    ensures Step(Xor16(a, b)) == Xor16(Step(a), Step(b))
  {
    var c := Xor16(a, b);
    assert Coef(c, 15) == (Coef(a, 15) != Coef(b, 15));
    forall i: int ensures Coef(Step(c), i) == Coef(Xor16(Step(a), Step(b)), i) {
      StepBits(a, i);
      StepBits(b, i);
      StepBits(c, i);
    }
    CoefExtensional(Step(c), Xor16(Step(a), Step(b)));
  }

  lemma {:induction false} StepsLinear(a: Word, b: Word, n: nat)
    ensures Steps(Xor16(a, b), n) == Xor16(Steps(a, n), Steps(b, n))
  {
    if n > 0 {
      StepsLinear(a, b, n - 1);
      StepLinear(Steps(a, n - 1), Steps(b, n - 1));
    }
  }

  lemma Crc8Linear(a: Byte, b: Byte)
    ensures Crc8(Shl8(Xor8(a, b))) == Xor8(Crc8(Shl8(a)), Crc8(Shl8(b)))
  {
    CoefExtensional(Shl8(Xor8(a, b)), Xor16(Shl8(a), Shl8(b)));
    StepsLinear(Shl8(a), Shl8(b), 8);
    var x, y := Steps(Shl8(a), 8), Steps(Shl8(b), 8);
    forall i: int ensures Coef(Shr8(Xor16(x, y)), i) == Coef(Xor8(Shr8(x), Shr8(y)), i) {
      assert i >= 0 ==> Coef(Shr8(Xor16(x, y)), i) == Coef(Xor16(x, y), i + 8);
    }
    CoefExtensional(Shr8(Xor16(x, y)), Xor8(Shr8(x), Shr8(y)));
  }

  /** The PEC of an exclusive or is the exclusive or of the PECs. */
  lemma {:induction false} PecLinear(a: Byte, b: Byte, u: seq<Byte>, v: seq<Byte>)
    requires |u| == |v|
    ensures Pec(Xor8(a, b), XorBytes(u, v)) == Xor8(Pec(a, u), Pec(b, v))
  {
    if u != [] {
      var n := |u| - 1;
      PecLinear(a, b, u[..n], v[..n]);
      assert XorBytes(u, v)[..n] == XorBytes(u[..n], v[..n]);
      var x, y := Pec(a, u[..n]), Pec(b, v[..n]);
      CoefExtensional(Xor8(Xor8(x, y), Xor8(u[n], v[n])), Xor8(Xor8(x, u[n]), Xor8(y, v[n])));
      Crc8Linear(Xor8(x, u[n]), Xor8(y, v[n]));
    }
  }

  // ---------- the exact detection criterion ----------

  lemma {:induction false} StepInjective(a: Word, b: Word)
    requires forall i :: 0 <= i < 8 ==> !a[i] && !b[i]
    requires Step(a) == Step(b)
    ensures a == b
  {
    StepBits(a, 8);
    StepBits(b, 8);
    assert a[15] == b[15];
    forall i | 0 <= i < 15 ensures a[i] == b[i] {
      StepBits(a, i + 1);
      StepBits(b, i + 1);
    }
  }

  lemma {:induction false} StepsLowByteClear(a: Byte, n: nat)
    ensures forall i :: 0 <= i < 8 ==> !Steps(Shl8(a), n)[i]
  {
    if n > 0 {
      StepsLowByteClear(a, n - 1);
      var d := Steps(Shl8(a), n - 1);
      forall i | 0 <= i < 8 ensures !Step(d)[i] {
        StepBits(d, i);
        assert Coef(Step(d), i) == Step(d)[i];
      }
    }
  }

  lemma {:induction false} StepsInjective(a: Byte, b: Byte, n: nat)
    requires Steps(Shl8(a), n) == Steps(Shl8(b), n)
    ensures a == b
  {
    if n == 0 {
      assert a == Shr8(Shl8(a)) == Shr8(Shl8(b)) == b;
    } else {
      StepsLowByteClear(a, n - 1);
      StepsLowByteClear(b, n - 1);
      StepInjective(Steps(Shl8(a), n - 1), Steps(Shl8(b), n - 1));
      StepsInjective(a, b, n - 1);
    }
  }

  lemma Crc8Zero(a: Byte)
    ensures Crc8(Shl8(a)) == ZERO <==> a == ZERO
  {
    StepsLowByteClear(a, 8);
    StepsLowByteClear(ZERO, 8);
    Crc8Linear(ZERO, ZERO);
    CoefExtensional(Xor8(ZERO, ZERO), ZERO);
    var z := Crc8(Shl8(ZERO));
    assert z == Xor8(z, z);
    forall i: int ensures Coef(z, i) == Coef(ZERO, i) {
      assert Coef(Xor8(z, z), i) == (Coef(z, i) != Coef(z, i));
    }
    CoefExtensional(z, ZERO);
    if Crc8(Shl8(a)) == ZERO {
      var x, y := Steps(Shl8(a), 8), Steps(Shl8(ZERO), 8);
      assert x == x[..8] + Shr8(x) && y == y[..8] + Shr8(y);
      assert x[..8] == y[..8];
      StepsInjective(a, ZERO, 8);
    }
  }

  /** A stream is accepted exactly when the PEC over all of it, its last byte included, is zero. */
  lemma ResidueZero(c: Byte, w: seq<Byte>)
    requires w != []
    ensures Accepted(c, w) <==> Pec(c, w) == ZERO
  {
    var p := Pec(c, w[..|w| - 1]);
    Crc8Zero(Xor8(p, w[|w| - 1]));
    XorEqual(p, w[|w| - 1]);
    var x := Xor8(p, w[|w| - 1]);
    XorEqual(x, ZERO);
    forall i: int ensures Coef(Add(x, ZERO), i) == Coef(x, i) {}
  }

  /** The error polynomial, shifted by x^8. */
  function ErrorPoly(u: seq<Byte>, v: seq<Byte>): Poly
    requires |u| == |v|
  {
    Zeros(8) + Poly8(XorBytes(u, v))
  }

  /** check_pec misses a corruption exactly when the error is a multiple of the generator. */
  lemma UndetectedIffMultiple(c: Byte, u: seq<Byte>, v: seq<Byte>)
    requires |u| == |v| && u != [] && Accepted(c, u)
    ensures Accepted(c, v) <==> IsRemainder(ErrorPoly(u, v), ZERO)
  {
    var e := XorBytes(u, v);
    ResidueZero(c, u);
    ResidueZero(c, v);
    PecLinear(c, c, u, v);
    XorEqual(c, c);
    forall i: int ensures Coef(Xor8(c, c), i) == Coef(ZERO, i) {}
    CoefExtensional(Xor8(c, c), ZERO);
    assert Pec(ZERO, e) == Xor8(ZERO, Pec(c, v));
    CoefExtensional(Xor8(ZERO, Pec(c, v)), Pec(c, v));
    PecIsRemainder(e);
    if IsRemainder(ErrorPoly(u, v), ZERO) {
      RemainderUnique(ErrorPoly(u, v), Pec(ZERO, e), ZERO);
    }
  }

  // ---------- errors that are always detected ----------

  lemma {:induction false} Poly8Xor(u: seq<Byte>, v: seq<Byte>)
    requires |u| == |v|
    ensures Poly8(XorBytes(u, v)) == Add(Poly8(u), Poly8(v))
  {
    var l, r := Poly8(XorBytes(u, v)), Add(Poly8(u), Poly8(v));
    if u != [] {
      var n := |u| - 1;
      Poly8Xor(u[..n], v[..n]);
      var w := Add(Poly8(u[..n]), Poly8(v[..n]));
      assert XorBytes(u, v)[..n] == XorBytes(u[..n], v[..n]);
      forall i: int ensures Coef(l, i) == Coef(r, i) {
        assert Coef(l, i) == if i < 8 then Coef(Xor8(u[n], v[n]), i) else Coef(w, i - 8);
        assert Coef(Poly8(u), i) == if i < 8 then Coef(u[n], i) else Coef(Poly8(u[..n]), i - 8);
        assert Coef(Poly8(v), i) == if i < 8 then Coef(v[n], i) else Coef(Poly8(v[..n]), i - 8);
      }
      CoefExtensional(l, r);
    }
  }

  /** Every burst is detected: corrupted bits within any eight consecutive bit positions of the
      stream (address, data and PEC), also across a byte boundary. */
  lemma BurstDetected(c: Byte, u: seq<Byte>, v: seq<Byte>, lo: nat)
    requires |u| == |v| && u != [] && Accepted(c, u)
    requires Poly8(u) != Poly8(v)
    requires forall i: int :: Coef(Poly8(u), i) != Coef(Poly8(v), i) ==> lo <= i < lo + 8
    ensures !Accepted(c, v)
  {
    if Accepted(c, v) {
      UndetectedIffMultiple(c, u, v);
      Poly8Xor(u, v);
      var e := ErrorPoly(u, v);
      var x := Add(Poly8(u), Poly8(v));
      forall i: int ensures Coef(e, i) == Coef(x, i - 8) {}
      NoShortMultiple(e, lo + 8);
      forall i: int ensures !Coef(x, i) {
        assert Coef(e, i + 8) == Coef(x, i);
      }
      XorEqual(Poly8(u), Poly8(v));
      assert false;
    }
  }

  lemma {:induction false} Poly8At(p: seq<Byte>, m: nat, j: nat)
    requires m < |p| && j < 8
    ensures 8 * (|p| - 1 - m) + j < |Poly8(p)| && Poly8(p)[8 * (|p| - 1 - m) + j] == p[m][j]
  {
    if m < |p| - 1 {
      Poly8At(p[..|p| - 1], m, j);
    }
  }

  /** Every stream that differs in exactly one byte (address, data or PEC) is rejected. */
  lemma OneByteDetected(c: Byte, u: seq<Byte>, v: seq<Byte>, m: nat)
    requires |u| == |v| && m < |u| && Accepted(c, u)
    requires u[m] != v[m] && forall k :: 0 <= k < |u| && k != m ==> u[k] == v[k]
    ensures !Accepted(c, v)
  {
    var lo := 8 * (|u| - 1 - m);
    forall i: int | Coef(Poly8(u), i) != Coef(Poly8(v), i) ensures lo <= i < lo + 8 {
      var k := |u| - 1 - i / 8;
      Poly8At(u, k, i % 8);
      Poly8At(v, k, i % 8);
    }
    var j :| 0 <= j < 8 && u[m][j] != v[m][j];
    Poly8At(u, m, j);
    Poly8At(v, m, j);
    BurstDetected(c, u, v, lo);
  }

  lemma {:induction false} ParityZeros(n: nat)
    ensures !Parity(Zeros(n))
  {
    if n > 0 {
      ParityZeros(n - 1);
      assert Zeros(n)[1..] == Zeros(n - 1);
    }
  }

  lemma StepParity(d: Word)
    ensures Parity(Step(d)) == Parity(d)
  {
    var x := if d[15] then Xor16(d, POLY) else d;
    if d[15] {
      ParityAdd(d, POLY);
      ParityConcat(Zeros(7) + [true, true, true] + Zeros(5), [true]);
      ParityConcat(Zeros(7) + [true, true, true], Zeros(5));
      ParityConcat(Zeros(7), [true, true, true]);
      ParityZeros(7);
      ParityZeros(5);
      assert Parity([true, true, true]);
      assert Coef(x, 15) == (Coef(d, 15) != Coef(POLY, 15));
    }
    assert x == x[..15] + [false];
    ParityConcat(x[..15], [false]);
  }

  lemma {:induction false} StepsParity(d: Word, n: nat)
    ensures Parity(Steps(d, n)) == Parity(d)
  {
    if n > 0 {
      StepsParity(d, n - 1);
      StepParity(Steps(d, n - 1));
    }
  }

  lemma Crc8Parity(a: Byte)
    ensures Parity(Crc8(Shl8(a))) == Parity(a)
  {
    var d := Steps(Shl8(a), 8);
    StepsParity(Shl8(a), 8);
    StepsLowByteClear(a, 8);
    assert d == Zeros(8) + Shr8(d);
    ParityZeros(8);
    ParityConcat(Zeros(8), Shr8(d));
    ParityConcat(Zeros(8), a);
  }

  /** x + 1 divides the generator, so the PEC has the parity of what it covers. */
  lemma {:induction false} PecParity(c: Byte, p: seq<Byte>)
    ensures Parity(Pec(c, p)) == (Parity(c) != Parity(Poly8(p)))
  {
    if p != [] {
      var n := |p| - 1;
      PecParity(c, p[..n]);
      Crc8Parity(Xor8(Pec(c, p[..n]), p[n]));
      ParityAdd(Pec(c, p[..n]), p[n]);
      ParityConcat(p[n], Poly8(p[..n]));
    }
  }

  /** Every stream that differs in an odd number of bits is rejected. */
  lemma OddBitsDetected(c: Byte, u: seq<Byte>, v: seq<Byte>)
    requires |u| == |v| && u != [] && Accepted(c, u)
    requires Hamming(Poly8(u), Poly8(v)) % 2 == 1
    ensures !Accepted(c, v)
  {
    ResidueZero(c, u);
    ResidueZero(c, v);
    PecParity(c, u);
    PecParity(c, v);
    HammingParity(Poly8(u), Poly8(v));
  }
}
