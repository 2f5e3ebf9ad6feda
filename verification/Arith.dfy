/** Facts about remainders that the solver does not find alone. */
module Arith {
  lemma SameSign(a: int, n: nat)
    requires n > 0
    ensures a >= 0 <==> a * n >= 0
  {
  }

  function Min(a: int, b: int): (r: int)
    ensures r <= a && r <= b && (r == a || r == b)
  {
    if a < b then a else b
  }

  lemma Scale(a: nat, b: nat, c: nat)
    ensures a <= b ==> a * c <= b * c
  {
  }

  lemma ProductBound(a: nat, b: nat, c: nat, d: nat)
    requires a <= c && b <= d
    ensures a * b <= c * d
  {
    Scale(a, c, b);
    Scale(b, d, c);
    assert b * c == c * b && d * c == c * d;
  }

  lemma TripleBound(a: nat, b: nat, c: nat, x: nat, y: nat, z: nat)
    requires a <= x && b <= y && c <= z
    ensures a * b * c <= x * y * z
  {
    ProductBound(a, b, x, y);
    ProductBound(a * b, c, x * y, z);
  }

  lemma ModOnce(x: nat, n: nat)
    requires 0 < n <= x < 2 * n
    ensures x % n == x - n
  {
    var q := x / n;
    assert (q - 2) * n == q * n - 2 * n;
    SameSign(q - 2, n);
    SameSign(q - 1, n);
    assert (q - 1) * n == q * n - n;
  }

  lemma Quotient(x: nat, n: nat)
    requires n > 0
    ensures x == x / n * n + x % n && x % n < n
  {
  }

  lemma Distribute(a: int, b: int, c: int)
    ensures (a + b) * c == a * c + b * c
  {
  }

  lemma ModUnique(x: nat, q: nat, r: nat, n: nat)
    requires n > 0 && x == q * n + r && r < n
    ensures x % n == r
  {
    var p := x / n;
    assert p * n + x % n == x;
    assert (p - q) * n == p * n - q * n;
    assert (p - q - 1) * n == (p - q) * n - n;
    assert (p - q + 1) * n == (p - q) * n + n;
    SameSign(p - q - 1, n);
    SameSign(p - q + 1, n);
    SameSign(p - q, n);
    SameSign(q - p, n);
    assert p == q;
  }

  /** Adding less than a whole turn to a position in a ring. */
  lemma ModAdd(x: nat, y: nat, n: nat)
    requires 0 < n && y <= n
    ensures (x + y) % n == if x % n + y < n then x % n + y else x % n + y - n
  {
    var q, z := x / n, x % n + y;
    Quotient(x, n);
    if z < n {
      ModUnique(x + y, q, z, n);
    } else {
      Distribute(q, 1, n);
      ModUnique(x + y, q + 1, z - n, n);
    }
  }

  /** Reducing early does not matter. */
  lemma ModInner(x: nat, y: nat, n: nat)
    requires n > 0
    ensures (x % n + y) % n == (x + y) % n
  {
    var z := x % n + y;
    Quotient(x, n);
    Quotient(z, n);
    Distribute(x / n, z / n, n);
    ModUnique(x + y, x / n + z / n, z % n, n);
  }

  lemma SameQuotient(p: nat, q: nat, d: nat)
    requires d > 0 && p * d == q * d
    ensures p == q
  {
    if p < q { Scale(p + 1, q, d); Distribute(p, 1, d); }
    if q < p { Scale(q + 1, p, d); Distribute(q, 1, d); }
  }

  /** Whole multiples pass through a division. */
  lemma QuotientAdds(x: nat, a: nat, d: nat)
    requires d > 0
    ensures (x + d * a) / d == x / d + a
  {
    Quotient(x, d);
    Quotient(x + d * a, d);
    Distribute(x / d, a, d);
    ModUnique(x + d * a, x / d + a, x % d, d);
    SameQuotient((x + d * a) / d, x / d + a, d);
  }
}
