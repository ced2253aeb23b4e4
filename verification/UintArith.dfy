/** Arithmetic facts about powers, division and bits on which the fixed-width integers rest. */
module Arith {

  function Pow(b: nat, e: nat): nat {
    if e == 0 then 1 else b * Pow(b, e - 1)
  }

  lemma PowZero(b: nat)
    ensures Pow(b, 0) == 1
  {}

  lemma PowSucc(b: nat, e: nat)
    ensures Pow(b, e + 1) == b * Pow(b, e)
  {}

  lemma PowOne(b: nat)
    ensures Pow(b, 1) == b
  {
    PowSucc(b, 0);
  }

  lemma PowTwo(b: nat)
    ensures Pow(b, 2) == b * b
  {
    PowSucc(b, 1);
    PowOne(b);
  }

  lemma {:induction false} PowAdd(b: nat, m: nat, n: nat)
    ensures Pow(b, m + n) == Pow(b, m) * Pow(b, n)
  {
    if m > 0 {
      PowAdd(b, m - 1, n);
      MulAssoc(b, Pow(b, m - 1), Pow(b, n));
    }
  }

  lemma {:induction false} PowMul(b: nat, m: nat, n: nat)
    ensures Pow(Pow(b, m), n) == Pow(b, m * n)
  {
    if n > 0 {
      PowMul(b, m, n - 1);
      PowAdd(b, m, m * (n - 1));
      assert m + m * (n - 1) == m * n;
    } else {
      assert m * n == 0;
    }
  }

  lemma {:induction false} PowPositive(b: nat, e: nat)
    requires b > 0
    ensures Pow(b, e) > 0
  {
    if e > 0 {
      PowPositive(b, e - 1);
      MulPositive(b, Pow(b, e - 1));
    }
  }

  lemma {:induction false} PowIncreases(b: nat, m: nat, n: nat)
    requires b > 0 && m <= n
    ensures Pow(b, m) <= Pow(b, n)
  {
    PowAdd(b, m, n - m);
    PowPositive(b, n - m);
    PowPositive(b, m);
    MulLe(Pow(b, m), 1, Pow(b, n - m));
  }

  lemma PowCancelLt(b: nat, m: nat, n: nat)
    requires b > 0 && Pow(b, m) < Pow(b, n)
    ensures m < n
  {
    if n <= m { PowIncreases(b, n, m); }
  }

  lemma MulAssoc(x: int, y: int, z: int)
    ensures x * (y * z) == (x * y) * z
  {}

  lemma MulSumAssoc(a: int, w: int, x: int, y: int)
    ensures (a + w * x) * y == a * y + w * (x * y)
  {
    MulAssoc(w, x, y);
  }

  lemma MulPositive(x: int, y: int)
    requires x > 0 && y > 0
    ensures x * y > 0
  {}

  /** The product of two naturals as a natural. */
  function Times(a: nat, b: nat): nat {
    MulLe(a, 0, b);
    a * b
  }

  lemma MulLe(x: int, y: int, z: int)
    requires 0 <= x && y <= z
    ensures x * y <= x * z
    ensures y * x <= z * x
  {}

  lemma MulLt(x: int, y: int, z: int)
    requires 0 < x && y < z
    ensures x * y < x * z
    ensures y * x < z * x
  {}

  lemma MulCancelLt(x: int, y: int, z: int)
    requires 0 < x && x * y < x * z
    ensures y < z
  {
    if z <= y { MulLe(x, z, y); }
  }

  /** Division with remainder has only one answer. */
  lemma DivModUnique(a: int, d: int, q: int, r: int)
    requires 0 <= r < d
    requires a == q * d + r
    ensures q == a / d && r == a % d
  {
    var q', r' := a / d, a % d;
    assert d * q' + r' == a;
    assert d * (q - q') == r' - r;
    if q > q' { MulLe(d, 1, q - q'); }
    if q < q' { MulLe(d, q - q', -1); }
  }

  lemma Division(a: int, d: int)
    requires d > 0
    ensures a == d * (a / d) + a % d
    ensures 0 <= a % d < d
  {}

  lemma DivLe(a: int, d: int, q: int)
    requires 0 < d && q * d <= a
    ensures q <= a / d
  {
    assert d * (a / d) + a % d == a;
    MulCancelLt(d, q, a / d + 1);
  }

  lemma DivLt(a: int, d: int, q: int)
    requires 0 < d && a < q * d
    ensures a / d < q
  {
    assert d * (a / d) + a % d == a;
    MulCancelLt(d, a / d, q);
  }

  lemma ModAddMultiple(a: int, k: int, d: int)
    requires 0 < d
    ensures (a + k * d) % d == a % d
  {
    assert d * (a / d) + a % d == a;
    assert a + k * d == (a / d + k) * d + a % d;
    DivModUnique(a + k * d, d, a / d + k, a % d);
  }

  /** Dividing by a product is dividing twice. */
  lemma DivDiv(a: nat, c: nat, d: nat)
    requires 0 < c && 0 < d
    ensures c * d > 0 && a / (c * d) == (a / c) / d
    ensures a % (c * d) == a % c + c * ((a / c) % d)
  {
    MulPositive(c, d);
    var q, r := a / c, a % c;
    assert a == c * q + r;
    var q2, r2 := q / d, q % d;
    assert q == d * q2 + r2;
    MulLe(c, r2, d - 1);
    assert c * (d - 1) == c * d - c;
    assert c * q == (c * d) * q2 + c * r2 by {
      MulAssoc(c, d, q2);
      assert c * (d * q2 + r2) == c * (d * q2) + c * r2;
    }
    DivModUnique(a, c * d, q2, c * r2 + r);
  }

  lemma MulMod(a: int, b: int, d: int)
    requires 0 < d
    ensures ((a % d) * b) % d == (a * b) % d
  {
    var q, r := a / d, a % d;
    assert a == d * q + r;
    assert a * b == r * b + (q * b) * d;
    ModAddMultiple(r * b, q * b, d);
  }
}
