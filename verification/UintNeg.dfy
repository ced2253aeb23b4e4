/** Complement and `overflowing_neg`, which returns the complement. */
module Neg {
  import opened Arith
  import opened Limbs
  import opened Wrappers

  /** `Not`: every bit of every word turned over. */
  method Not(me: seq<u64>) returns (r: seq<u64>)
    ensures |r| == |me|
    ensures Val(r) == Modulus(|me|) - 1 - Val(me)
  {
    hide Val, Pow;
    var ret := new u64[|me|](_ => 0);
    ValEmpty();
    PowZero(B);
    assert me[..0] == [] && ret[..0] == [];
    for i := 0 to |me|
      invariant Val(ret[..i]) + Val(me[..i]) == Pow(B, i) - 1
    {
      ret[i] := B - 1 - me[i];
      assert ret[..i + 1][..i] == ret[..i];
      ValPrefix(ret[..i + 1], i);
      assert ret[..i + 1][..i + 1] == ret[..i + 1];
      ValPrefix(me, i);
      PowSucc(B, i);
      Column(ret[i], me[i], Pow(B, i));
    }
    assert ret[..|me|] == ret[..] && me[..|me|] == me;
    r := ret[..];
  }

  lemma Column(x: int, y: int, p: int)
    requires x + y == B - 1
    ensures x * p + y * p == B * p - p
  {}

  /** What `overflowing_neg` computes from v, modulo m. */
  function Negated(v: nat, m: nat): (nat, bool)
    requires v < m
  { if v == 0 then (v, false) else (m - 1 - v, true) }

  method OverflowingNeg(me: seq<u64>) returns (r: seq<u64>, overflow: bool)
    ensures |r| == |me| && Val(me) < Modulus(|me|)
    ensures (Val(r), overflow) == Negated(Val(me), Modulus(|me|))
  {
    hide Val, Pow;
    ValBound(me);
    ValIsZero(me);
    if forall k :: 0 <= k < |me| ==> me[k] == 0 { return me, false; }
    r := Not(me);
    overflow := true;
  }

  /** The value is the two's-complement negation for zero alone. */
  lemma NegMeetsName(v: nat, m: nat)
    requires v < m
    ensures (v + Negated(v, m).0) % m == 0 <==> v == 0
  {
    if v > 0 { DivModUnique(m - 1, m, 0, m - 1); } else { DivModUnique(0, m, 0, 0); }
  }

  /** In one word, the answer for 1 is 2^64 - 2 where the negation is 2^64 - 1. */
  lemma NegCounterexample()
    ensures Modulus(1) == 0x1_0000_0000_0000_0000
    ensures Negated(1, Modulus(1)) == (0xffff_ffff_ffff_fffe, true)
    ensures (1 + Negated(1, Modulus(1)).0) % Modulus(1) != 0
  {
    PowOne(B);
  }

  /** `checked_neg` drops the wrong value, so it is exact: only zero has a negation that fits. */
  method CheckedNeg(me: seq<u64>) returns (r: Option<seq<u64>>)
    ensures r.Some? <==> Val(me) == 0
    ensures r.Some? ==> |r.value| == |me| && Val(r.value) == 0
  {
    var n, overflow := OverflowingNeg(me);
    if overflow { return None; }
    return Some(n);
  }
}
