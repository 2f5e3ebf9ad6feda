/** SMBus Packet Error Checking: the CRC-8 of System Management Bus Specification 2.0, section 5.4.
    Bytes and 16-bit words are vectors of bits, bit i at index i. */
module Crc {
  import opened Gf2

  type Byte = b: seq<bool> | |b| == 8 witness Zeros(8)
  type Word = w: seq<bool> | |w| == 16 witness Zeros(16)

  const ZERO: Byte := Zeros(8)

  /** A number from its bits, lowest first. */
  function Val(p: Poly): nat {
    if p == [] then 0 else (if p[0] then 1 else 0) + 2 * Val(p[1..])
  }

  /** data ^ POLY and data << 1 on 16 bits. */
  function Xor16(a: Word, b: Word): Word { Add(a, b) }
  function Shl1(a: Word): Word { [false] + a[..15] }
  function Shl8(b: Byte): Word { Zeros(8) + b }
  function Shr8(a: Word): Byte { a[8..] }
  function Xor8(a: Byte, b: Byte): Byte { Add(a, b) }

  // ---------- crc8 ----------

  /** 0x1070U << 3, that is 0x8380: bits 15, 9, 8 and 7. */
  const POLY: Word := Zeros(7) + [true, true, true] + Zeros(5) + [true]

  function Step(data: Word): Word {
    Shl1(if data[15] then Xor16(data, POLY) else data)
  }

  function Steps(data: Word, n: nat): Word {
    if n == 0 then data else Step(Steps(data, n - 1))
  }

  function Crc8(data: Word): Byte {
    Shr8(Steps(data, 8))
  }

  /** The shift register after some steps: p = q * G * x^8 + d. */
  ghost predicate Register(p: Poly, q: Poly, d: Word) {
    forall i: int :: Coef(p, i) == (TimesG(q, i - 8) != Coef(d, i))
  }

  /** One step in terms of coefficients: x * d = top * (x^16 + x^10 + x^9 + x^8) + Step(d). */
  lemma StepBits(d: Word, i: int)
    ensures Coef(Step(d), i)
         == ((Coef(d, i - 1) && i < 16) != (d[15] && (i == 8 || i == 9 || i == 10)))
  {
    if d[15] && 1 <= i <= 15 {
      assert Coef(POLY, i - 1) == (i == 8 || i == 9 || i == 10);
      assert Coef(Xor16(d, POLY), i - 1) == (Coef(d, i - 1) != Coef(POLY, i - 1));
    }
  }

  lemma RegisterStep(p: Poly, q: Poly, d: Word)
    requires Register(p, q, d)
    ensures Register([false] + p, [d[15]] + q, Step(d))
  {
    var p', q', t := [false] + p, [d[15]] + q, d[15];
    forall i: int ensures Coef(p', i) == (TimesG(q', i - 8) != Coef(Step(d), i)) {
      assert Coef(p', i) == Coef(p, i - 1);
      assert Coef(p, i - 1) == (TimesG(q, i - 9) != Coef(d, i - 1));
      forall j: int ensures Coef(q', j) == if j == 0 then t else Coef(q, j - 1) {}
      assert TimesG(q', i - 8) == (TimesG(q, i - 9) != (t && (i == 8 || i == 9 || i == 10 || i == 16)));
      StepBits(d, i);
    }
  }

  lemma {:induction false} RegisterAfter(data: Word, n: nat) returns (q: Poly)
    ensures Register(Zeros(n) + data, q, Steps(data, n))
  {
    if n == 0 {
      q := [];
      assert Zeros(0) + data == data;
    } else {
      q := RegisterAfter(data, n - 1);
      RegisterStep(Zeros(n - 1) + data, q, Steps(data, n - 1));
      assert [false] + (Zeros(n - 1) + data) == Zeros(n) + data;
      q := [Steps(data, n - 1)[15]] + q;
    }
  }

  lemma Crc8Division(data: Word) returns (q: Poly)
    ensures Divides(data, q, Crc8(data))
  {
    q := RegisterAfter(data, 8);
    var d := Steps(data, 8);
    var p := Zeros(8) + data;
    forall i: int ensures Coef(data, i) == (TimesG(q, i) != Coef(Shr8(d), i)) {
      assert Coef(p, i + 8) == (TimesG(q, i) != Coef(d, i + 8));
    }
  }

  /** crc8 computes data(x) modulo x^8 + x^2 + x + 1, for every 16-bit argument. */
  lemma Crc8IsRemainder(data: Word)
    ensures IsRemainder(data, Crc8(data))
  {
    var q := Crc8Division(data);
  }

  method ComputeCrc8(data: Word) returns (crc: Byte)
    ensures crc == Crc8(data)
    ensures IsRemainder(data, crc)
  {
    var d := data;
    for i := 0 to 8
      invariant d == Steps(data, i)
    {
      if d[15] {
        d := Xor16(d, POLY);
      }
      d := Shl1(d);
    }
    crc := Shr8(d);
    Crc8IsRemainder(data);
  }

  // ---------- i2c_smbus_pec ----------

  function Pec(crc: Byte, p: seq<Byte>): Byte {
    if p == [] then crc else Crc8(Shl8(Xor8(Pec(crc, p[..|p| - 1]), p[|p| - 1])))
  }

  /** The polynomial of a byte string, first byte and most significant bit first on the wire. */
  function Poly8(p: seq<Byte>): (r: Poly)
    ensures |r| == 8 * |p|
  {
    if p == [] then [] else p[|p| - 1] + Poly8(p[..|p| - 1])
  }

  method ComputePec(crc: Byte, p: array<Byte>, count: nat) returns (r: Byte)
    requires count <= p.Length
    ensures r == Pec(crc, p[..count])
  {
    r := crc;
    for i := 0 to count
      invariant r == Pec(crc, p[..i])
    {
      assert p[..i + 1][..i] == p[..i];
      r := ComputeCrc8(Shl8(Xor8(r, p[i])));
    }
  }

  /** Computing in pieces equals computing over the concatenation. */
  lemma {:induction false} PecConcat(crc: Byte, p: seq<Byte>, q: seq<Byte>)
    ensures Pec(crc, p + q) == Pec(Pec(crc, p), q)
  {
    if q == [] {
      assert p + q == p;
    } else {
      PecConcat(crc, p, q[..|q| - 1]);
      assert (p + q)[..|p + q| - 1] == p + q[..|q| - 1];
    }
  }

  /** One byte of long division: (P * x^8 + b) * x^8 from P * x^8. */
  lemma HornerStep(p: Poly, q: Poly, crc: Byte, b: Byte) returns (q': Poly)
    requires Divides(Zeros(8) + p, q, crc)
    ensures Divides(Zeros(8) + (b + p), q', Crc8(Shl8(Xor8(crc, b))))
  {
    var c := Xor8(crc, b);
    var r := Crc8(Shl8(c));
    var u := Crc8Division(Shl8(c));
    var v := Zeros(8) + q;
    q' := Add(v, u);
    var lhs := Zeros(8) + (b + p);
    forall i: int ensures Coef(lhs, i) == (TimesG(q', i) != Coef(r, i)) {
      assert Coef(Shl8(c), i) == (TimesG(u, i) != Coef(r, i));
      assert Coef(Shl8(c), i) == Coef(c, i - 8) == (Coef(crc, i - 8) != Coef(b, i - 8));
      assert Coef(Zeros(8) + p, i - 8) == (TimesG(q, i - 8) != Coef(crc, i - 8));
      assert Coef(lhs, i) == (Coef(b, i - 8) != Coef(Zeros(8) + p, i - 8));
      forall j: int ensures Coef(v, j) == Coef(q, j - 8) {}
      assert TimesG(v, i) == TimesG(q, i - 8);
      assert TimesG(q', i) == (TimesG(v, i) != TimesG(u, i));
    }
  }

  lemma {:induction false} PecDivision(p: seq<Byte>) returns (q: Poly)
    ensures Divides(Zeros(8) + Poly8(p), q, Pec(ZERO, p))
  {
    if p == [] {
      q := [];
    } else {
      var p' := p[..|p| - 1];
      q := PecDivision(p');
      q := HornerStep(Poly8(p'), q, Pec(ZERO, p'), p[|p| - 1]);
    }
  }

  /** The PEC of a byte string of any length is p(x) * x^8 modulo x^8 + x^2 + x + 1. */
  lemma PecIsRemainder(p: seq<Byte>)
    ensures IsRemainder(Zeros(8) + Poly8(p), Pec(ZERO, p))
  {
    var q := PecDivision(p);
  }
}
