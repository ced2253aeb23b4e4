/** Schoolbook multiplication with a one-bit carry between columns. */
module Mul {
  import opened Arith
  import opened Limbs
  import opened Words

  lemma ProductFits(a: u64, b: u64)
    ensures 0 <= a * b <= (B - 1) * (B - 1)
  {
    MulLe(a, b, B - 1);
    MulLe(B - 1, a, B - 1);
  }

  /** One word times one word plus a carry (`mul_u64`): the low word, then the high word. */
  function MulU64(a: u64, b: u64, carry: u64): (r: (u64, u64))
    ensures r.0 + r.1 * B == a * b + carry
  {
    ProductFits(a, b);
    var (hi, lo) := Split128(a * b + carry);
    (lo, hi)
  }

  lemma MulStep(vr: int, vm: int, k: int, c: int, p: int, r: int, c': int, d: int)
    requires vr + c * p == vm * k
    requires r + c' * B == d * k + c
    ensures (vr + r * p) + c' * (B * p) == (vm + d * p) * k
  {
    assert c' * (B * p) == c' * B * p;
    assert (r + c' * B) * p == d * k * p + c * p;
    assert d * k * p == d * p * k by { MulAssoc(d, k, p); MulAssoc(d, p, k); }
  }

  method OverflowingMulU64(me: seq<u64>, other: u64) returns (r: seq<u64>, carry: u64)
    ensures |r| == |me|
    ensures Val(r) + carry * Modulus(|me|) == Val(me) * other
  {
    hide Val, Pow;
    var n := |me|;
    var ret := new u64[n](i requires 0 <= i < n => me[i]);
    carry := 0;
    ValEmpty();
    assert ret[..0] == [] && me[..0] == [];
    for i := 0 to n
      invariant ret[i..] == me[i..]
      invariant Val(ret[..i]) + carry * Pow(B, i) == Val(me[..i]) * other
    {
      assert ret[i] == ret[i..][0] == me[i..][0] == me[i];
      var (res, c) := MulU64(ret[i], other, carry);
      PowSucc(B, i);
      MulStep(Val(ret[..i]), Val(me[..i]), other, carry, Pow(B, i), res, c, me[i]);
      ValPrefix(me, i);
      ValSnoc(ret[..i], res);
      ghost var done := ret[..i];
      ghost var rest := ret[i..];
      ret[i] := res;
      carry := c;
      assert ret[..i + 1] == done + [res];
      assert ret[i + 1..] == rest[1..] == me[i + 1..];
    }
    assert me[..n] == me && ret[..n] == ret[..];
    r := ret[..];
  }

  /** The column update of `uint_full_mul_reg!`: existing words and carry in, new words and carry out. */
  function MulColumn(a: u64, b: u64, carry: u64, existingLow: u64, existingHi: u64): (r: (u64, u64, u64))
    requires carry <= 1
    ensures r.2 <= 1
    ensures r.0 + r.1 * B + r.2 * B * B == a * b + carry * B + existingLow + existingHi * B
  {
    ProductFits(a, b);
    var (hi, low) := Split128(a * b);
    var (newLow, o) := OverflowingAdd64(low, existingLow);
    var hi := Add64(hi, ToInt(o));
    var (hi, o0) := OverflowingAdd64(hi, carry);
    var (hi, o1) := OverflowingAdd64(hi, existingHi);
    (newLow, hi, ToInt(o0 || o1))
  }

  /** What the inner loop keeps: everything multiplied so far, counting the pending carry. */
  ghost predicate RowSoFar(ret: seq<u64>, carry: nat, me: seq<u64>, you: seq<u64>, i: nat, j: nat)
    requires i < |you| && j <= |me|
  {
    Val(ret) + carry * Pow(B, i + j + 1) == Val(me) * Val(you[..i]) + Val(me[..j]) * you[i] * Pow(B, i)
  }

  /** The row relation on plain numbers. */
  ghost predicate RowEq(vr: int, carry: int, w: int, prev: int, mj: int, b: int, p: int) {
    vr + carry * w == prev + mj * b * p
  }

  ghost predicate ChangedBy(v': int, v: int, d: int, p: int) { v' == v + d * p }

  lemma MulColumnArith(vr: int, carry: int, p: int, q: int, w: int, w1: int, w2: int, prev: int, mj: int, a: int, b: int,
                       low: int, hi: int, low': int, hi': int, carry': int, vr1: int, vr2: int, mj1: int)
    requires ChangedBy(w, 0, p, q) && w1 == B * w && w2 == B * w1
    requires low' + hi' * B + carry' * B * B == a * b + carry * B + low + hi * B
    requires RowEq(vr, carry, w1, prev, mj, b, p)
    requires ChangedBy(vr1, vr, low' - low, w) && ChangedBy(vr2, vr1, hi' - hi, w1) && ChangedBy(mj1, mj, a, q)
    ensures RowEq(vr2, carry', w2, prev, mj1, b, p)
  {
    assert (low' + hi' * B + carry' * B * B - carry * B - low - hi * B) * w == (a * b) * w;
    assert carry' * (B * (B * w)) == carry' * B * B * w;
    assert (mj + a * q) * b * p == mj * b * p + (a * b) * w by {
      assert (mj + a * q) * b == mj * b + a * q * b;
      assert a * q * b * p == (a * b) * w by { AssocHelper(a, q, b, p); }
    }
  }

  lemma AssocHelper(a: int, q: int, b: int, p: int)
    ensures a * q * b * p == (a * b) * (p * q)
  {
    MulAssoc(a, q, b);
    MulAssoc(a, b, q);
    assert a * q * b == (a * b) * q;
    MulAssoc(a * b, q, p);
  }

  lemma MulColumnStep(ret: seq<u64>, carry: u64, me: seq<u64>, you: seq<u64>, i: nat, j: nat)
    requires |ret| == |me| + |you| && i < |you| && j < |me| && carry <= 1
    requires RowSoFar(ret, carry, me, you, i, j)
    ensures var (low, hi, c) := MulColumn(me[j], you[i], carry, ret[i + j], ret[i + j + 1]);
      RowSoFar(ret[i + j := low][i + j + 1 := hi], c, me, you, i, j + 1)
  {
    hide Val, Pow, MulColumn, ChangedBy, RowEq, RowSoFar;
    var (low, hi, c) := MulColumn(me[j], you[i], carry, ret[i + j], ret[i + j + 1]);
    var ret1 := ret[i + j := low];
    var ret2 := ret1[i + j + 1 := hi];
    Weights(i, j);
    WordChanged(ret, i + j, low);
    WordChanged(ret1, i + j + 1, hi);
    WordAdded(me, j);
    RowNumbers(ret, carry, me, you, i, j);
    MulColumnArith(Val(ret), carry, Pow(B, i), Pow(B, j), Pow(B, i + j), Pow(B, i + j + 1), Pow(B, i + j + 2),
                   Val(me) * Val(you[..i]), Val(me[..j]), me[j], you[i], ret[i + j], ret[i + j + 1], low, hi, c,
                   Val(ret1), Val(ret2), Val(me[..j + 1]));
    RowNumbers(ret2, c, me, you, i, j + 1);
  }

  lemma RowNumbers(ret: seq<u64>, carry: u64, me: seq<u64>, you: seq<u64>, i: nat, j: nat)
    requires i < |you| && j <= |me|
    ensures RowSoFar(ret, carry, me, you, i, j) <==>
              RowEq(Val(ret), carry, Pow(B, i + j + 1), Val(me) * Val(you[..i]), Val(me[..j]), you[i], Pow(B, i))
  {}

  lemma Weights(i: nat, j: nat)
    ensures ChangedBy(Pow(B, i + j), 0, Pow(B, i), Pow(B, j))
    ensures Pow(B, i + j + 1) == B * Pow(B, i + j) && Pow(B, i + j + 2) == B * Pow(B, i + j + 1)
  {
    hide Pow;
    PowAdd(B, i, j);
    PowSucc(B, i + j);
    PowSucc(B, i + j + 1);
  }

  lemma WordChanged(s: seq<u64>, i: nat, w: u64)
    requires i < |s|
    ensures ChangedBy(Val(s[i := w]), Val(s), w - s[i], Pow(B, i))
  {
    hide Val, Pow;
    ValUpdate(s, i, w);
  }

  lemma WordAdded(s: seq<u64>, i: nat)
    requires i < |s|
    ensures ChangedBy(Val(s[..i + 1]), Val(s[..i]), s[i], Pow(B, i))
  {
    hide Val, Pow;
    ValPrefix(s, i);
  }

  lemma RowStart(ret: seq<u64>, me: seq<u64>, you: seq<u64>, i: nat)
    requires i < |you| && Val(ret) == Val(me) * Val(you[..i])
    ensures RowSoFar(ret, 0, me, you, i, 0)
  {
    hide Val, Pow;
    ValEmpty();
    assert me[..0] == [];
  }

  /** Skipping a zero word when no carry is pending changes nothing. */
  lemma ZeroColumn(ret: seq<u64>, me: seq<u64>, you: seq<u64>, i: nat, j: nat)
    requires i < |you| && j < |me| && me[j] == 0
    requires RowSoFar(ret, 0, me, you, i, j)
    ensures RowSoFar(ret, 0, me, you, i, j + 1)
  {
    hide Val, Pow;
    ValPrefix(me, j);
  }

  /** The finished row is part of the product, so its last carry is zero. */
  lemma RowDone(ret: seq<u64>, carry: u64, me: seq<u64>, you: seq<u64>, i: nat)
    requires i < |you| && carry <= 1
    requires RowSoFar(ret, carry, me, you, i, |me|)
    ensures carry == 0
    ensures Val(ret) == Val(me) * Val(you[..i + 1])
  {
    hide Val, Pow, RowSoFar;
    RowComplete(ret, carry, me, you, i);
    ProductFitsWords(me, you[..i + 1]);
    NoEscape(Val(ret), carry, Pow(B, i + |me| + 1), Val(me) * Val(you[..i + 1]));
  }

  lemma RowComplete(ret: seq<u64>, carry: u64, me: seq<u64>, you: seq<u64>, i: nat)
    requires i < |you|
    requires RowSoFar(ret, carry, me, you, i, |me|)
    ensures Val(ret) + carry * Pow(B, i + |me| + 1) == Val(me) * Val(you[..i + 1])
  {
    hide Val, Pow;
    assert me[..|me|] == me;
    RowTotal(me, you, i);
  }

  lemma RowTotal(me: seq<u64>, you: seq<u64>, i: nat)
    requires i < |you|
    ensures Val(me) * Val(you[..i]) + Val(me) * you[i] * Pow(B, i) == Val(me) * Val(you[..i + 1])
  {
    hide Val, Pow;
    ValPrefix(you, i);
    RowSum(Val(me), Val(you[..i]), you[i], Pow(B, i));
  }

  lemma ProductFitsWords(x: seq<u64>, y: seq<u64>)
    ensures Val(x) * Val(y) < Pow(B, |y| + |x|)
  {
    hide Val, Pow;
    ValBound(x);
    ValBound(y);
    PowAdd(B, |x|, |y|);
    ProductBound(Val(x), Val(y), Pow(B, |x|), Pow(B, |y|));
  }

  lemma NoEscape(v: nat, carry: nat, w: nat, x: int)
    requires v + carry * w == x < w
    ensures carry == 0 && v == x
  {
    if carry > 0 { MulLe(w, 1, carry); }
  }

  lemma RowSum(m: int, y: int, w: int, p: int)
    ensures m * y + m * w * p == m * (y + w * p)
  {
    MulAssoc(m, w, p);
  }

  lemma ProductBound(x: nat, y: nat, m: nat, n: nat)
    requires x < m && y < n
    ensures x * y < m * n
  {
    MulLe(x, y, n);
    MulLt(n, x, m);
  }

  /**
   * The full double-width product. With `skipZero` (the 8-word variant) columns whose word and
   * carry are both zero are not visited.
   */
  method FullMulReg(me: seq<u64>, you: seq<u64>, skipZero: bool) returns (r: seq<u64>)
    requires |me| == |you|
    ensures |r| == 2 * |me|
    ensures Val(r) == Val(me) * Val(you)
  {
    hide Val, Pow;
    hide RowSoFar, MulColumn;
    var n := |me|;
    var ret := new u64[2 * n](_ => 0);
    ValAllZero(ret[..]);
    ValEmpty();
    assert you[..0] == [] && me[..0] == [];
    for i := 0 to n
      invariant Val(ret[..]) == Val(me) * Val(you[..i])
    {
      var carry: u64 := 0;
      var b := you[i];
      RowStart(ret[..], me, you, i);
      for j := 0 to n
        invariant carry <= 1
        invariant RowSoFar(ret[..], carry, me, you, i, j)
      {
        if !skipZero || me[j] != 0 || carry != 0 {
          MulColumnStep(ret[..], carry, me, you, i, j);
          var (low, hi, c) := MulColumn(me[j], b, carry, ret[i + j], ret[i + j + 1]);
          ghost var was: seq<u64> := ret[..];
          ret[i + j] := low;
          ret[i + j + 1] := hi;
          carry := c;
          assert ret[..] == was[i + j := low][i + j + 1 := hi];
        } else {
          ZeroColumn(ret[..], me, you, i, j);
        }
      }
      RowDone(ret[..], carry, me, you, i);
    }
    assert you[..n] == you;
    r := ret[..];
  }

  method AnyNonzero(arr: seq<u64>) returns (any: bool)
    ensures any <==> Val(arr) != 0
  {
    hide Val;
    ValIsZero(arr);
    for i := 0 to |arr|
      invariant forall k :: 0 <= k < i ==> arr[k] == 0
    {
      if arr[i] != 0 { return true; }
    }
    return false;
  }

  /** The product modulo the width, flagged exactly when it does not fit. */
  method OverflowingMul(me: seq<u64>, you: seq<u64>) returns (r: seq<u64>, overflow: bool)
    requires |me| == |you|
    ensures |r| == |me|
    ensures Val(r) == (Val(me) * Val(you)) % Modulus(|me|)
    ensures overflow <==> Val(me) * Val(you) >= Modulus(|me|)
  {
    hide Val, Pow;
    var n := |me|;
    var ret := FullMulReg(me, you, n == 8);
    ValDivMod(ret, n);
    overflow := AnyNonzero(ret[n..]);
    r := ret[..n];
    DivLe(Val(ret), Modulus(n), 0);
    if Val(ret) >= Modulus(n) { DivLe(Val(ret), Modulus(n), 1); } else { DivLt(Val(ret), Modulus(n), 1); }
  }
}
