/** 64-bit words, and little-endian sequences of words read as natural numbers. */
module Limbs {
  import opened Arith

  const B: nat := 0x1_0000_0000_0000_0000
  const WORD_BITS: nat := 64

  type u64 = x: int | 0 <= x < B

  /** The number denoted by little-endian words; word i weighs B^i. */
  function Val(s: seq<u64>): nat {
    if s == [] then 0 else Val(s[..|s| - 1]) + s[|s| - 1] * Pow(B, |s| - 1)
  }

  function Zeros(n: nat): (s: seq<u64>)
    ensures |s| == n
  {
    seq(n, _ => 0)
  }

  /** The exclusive upper bound of n-word numbers. */
  function Modulus(n: nat): (m: nat)
    ensures m > 0
  {
    PowPositive(B, n);
    Pow(B, n)
  }

  lemma BIsPow2()
    ensures Pow(2, 64) == B
  {
    PowAdd(2, 4, 4);
    PowAdd(2, 8, 8);
    PowAdd(2, 16, 16);
    PowAdd(2, 32, 32);
    assert Pow(2, 4) == 16;
  }

  /** B^n is 2^(64n). */
  lemma PowB(n: nat)
    ensures Pow(B, n) == Pow(2, WORD_BITS * n)
  {
    BIsPow2();
    PowMul(2, 64, n);
  }

  lemma ValEmpty()
    ensures Val([]) == 0
  {}

  lemma ValSnoc(s: seq<u64>, w: u64)
    ensures Val(s + [w]) == Val(s) + w * Pow(B, |s|)
  {
    assert (s + [w])[..|s|] == s;
  }

  lemma ValPrefix(s: seq<u64>, i: nat)
    requires i < |s|
    ensures Val(s[..i + 1]) == Val(s[..i]) + s[i] * Pow(B, i)
  {
    assert s[..i + 1] == s[..i] + [s[i]];
    ValSnoc(s[..i], s[i]);
  }

  lemma {:induction false} ValConcat(s: seq<u64>, t: seq<u64>)
    ensures Val(s + t) == Val(s) + Val(t) * Pow(B, |s|)
  {
    if t == [] {
      assert s + t == s;
    } else {
      var t', w := t[..|t| - 1], t[|t| - 1];
      assert s + t == (s + t') + [w];
      ValSnoc(s + t', w);
      ValConcat(s, t');
      PowAdd(B, |t'|, |s|);
      MulSumAssoc(Val(t'), w, Pow(B, |t'|), Pow(B, |s|));
    }
  }

  lemma ValSplit(s: seq<u64>, i: nat)
    requires i <= |s|
    ensures Val(s) == Val(s[..i]) + Val(s[i..]) * Pow(B, i)
  {
    assert s == s[..i] + s[i..];
    ValConcat(s[..i], s[i..]);
  }

  lemma ValOne(w: u64)
    ensures Val([w]) == w
  {
    assert Val([w][..0]) == 0;
    assert [w] == [] + [w];
    ValSnoc([], w);
    assert Pow(B, 0) == 1;
  }

  lemma ValCons(w: u64, s: seq<u64>)
    ensures Val([w] + s) == w + B * Val(s)
  {
    ValConcat([w], s);
    ValOne(w);
    assert Pow(B, 1) == B * Pow(B, 0) == B;
  }

  lemma {:induction false} ValBound(s: seq<u64>)
    ensures Val(s) < Pow(B, |s|)
  {
    if s != [] {
      ValBound(s[..|s| - 1]);
      var p := Pow(B, |s| - 1);
      MulLe(p, s[|s| - 1], B - 1);
      assert (B - 1) * p == B * p - p;
    }
  }

  lemma {:induction false} ValZeros(n: nat)
    ensures Val(Zeros(n)) == 0
  {
    if n > 0 {
      assert Zeros(n)[..n - 1] == Zeros(n - 1);
      ValZeros(n - 1);
    }
  }

  lemma ValAllZero(s: seq<u64>)
    requires forall k :: 0 <= k < |s| ==> s[k] == 0
    ensures Val(s) == 0
  {
    assert s == Zeros(|s|);
    ValZeros(|s|);
  }

  /** High zero words do not matter. */
  lemma ValHighZeros(s: seq<u64>, i: nat)
    requires i <= |s|
    requires forall k :: i <= k < |s| ==> s[k] == 0
    ensures Val(s) == Val(s[..i])
  {
    ValSplit(s, i);
    ValAllZero(s[i..]);
  }

  lemma ValUpdate(s: seq<u64>, i: nat, w: u64)
    requires i < |s|
    ensures Val(s[i := w]) == Val(s) + (w - s[i]) * Pow(B, i)
  {
    hide Val;
    var t := s[i := w];
    ValSplit(s, i + 1);
    ValSplit(t, i + 1);
    ValPrefix(s, i);
    ValPrefix(t, i);
    assert t[..i] == s[..i] && t[i + 1..] == s[i + 1..];
  }

  /** Each word contributes at least its own weight. */
  lemma ValAtLeast(s: seq<u64>, k: nat)
    requires k < |s|
    ensures s[k] > 0 ==> Val(s) > 0
    ensures s[k] * Pow(B, k) <= Val(s)
  {
    ValSplit(s, k + 1);
    ValPrefix(s, k);
    PowPositive(B, k);
    PowPositive(B, k + 1);
    MulLe(Pow(B, k + 1), 0, Val(s[k + 1..]));
    if s[k] > 0 { MulPositive(s[k], Pow(B, k)); }
  }

  /** A number is zero exactly when all its words are. */
  lemma {:induction false} ValIsZero(s: seq<u64>)
    ensures Val(s) == 0 <==> forall k :: 0 <= k < |s| ==> s[k] == 0
  {
    if Val(s) != 0 {
      if forall k :: 0 <= k < |s| ==> s[k] == 0 { ValAllZero(s); }
    } else {
      forall k | 0 <= k < |s| ensures s[k] == 0 { ValAtLeast(s, k); }
    }
  }

  /** The low words of a number are its remainder, the high words its quotient. */
  lemma ValDivMod(s: seq<u64>, i: nat)
    requires i <= |s|
    ensures Val(s[..i]) == Val(s) % Modulus(i)
    ensures Val(s[i..]) == Val(s) / Modulus(i)
  {
    ValSplit(s, i);
    ValBound(s[..i]);
    DivModUnique(Val(s), Modulus(i), Val(s[i..]), Val(s[..i]));
  }

  lemma ValLast(s: seq<u64>)
    requires s != []
    ensures Val(s[|s| - 1..]) == s[|s| - 1]
  {
    assert s[|s| - 1..] == [s[|s| - 1]];
    ValOne(s[|s| - 1]);
  }

  /** Words of the same length are determined by their value. */
  lemma {:induction false} ValInjective(s: seq<u64>, t: seq<u64>)
    requires |s| == |t| && Val(s) == Val(t)
    ensures s == t
  {
    hide Val;
    if s != [] {
      var n := |s| - 1;
      ValDivMod(s, n);
      ValDivMod(t, n);
      ValInjective(s[..n], t[..n]);
      ValLast(s);
      ValLast(t);
      assert s == s[..n] + [s[n]] && t == t[..n] + [t[n]];
    }
  }
}
