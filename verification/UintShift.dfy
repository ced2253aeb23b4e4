/** Bit length, comparison and shifts of multi-word numbers. */
module Shift {
  import opened Arith
  import opened Limbs
  import opened Words
  import DivWord

  /** The bit length is decided by the highest non-zero word. */
  lemma BitLenTop(s: seq<u64>, k: nat)
    requires k < |s| && s[k] > 0
    requires forall i :: k < i < |s| ==> s[i] == 0
    ensures BitLen(Val(s)) == WORD_BITS * k + BitLen(s[k])
  {
    hide Val, Pow, BitLen;
    ValHighZeros(s, k + 1);
    ValPrefix(s, k);
    ValBound(s[..k]);
    PowB(k);
    TopWordRange(Val(s[..k]), s[k], Pow(B, k));
    BitLenScaled(Val(s), s[k], WORD_BITS * k);
  }

  /** A number between w * p and (w + 1) * p. */
  lemma TopWordRange(low: nat, w: nat, p: nat)
    requires low < p
    ensures w * p <= low + w * p < (w + 1) * p
  {}

  lemma BitLenScaled(v: nat, w: nat, a: nat)
    requires w > 0 && w * Pow(2, a) <= v < (w + 1) * Pow(2, a)
    ensures BitLen(v) == a + BitLen(w)
  {
    hide Pow, BitLen;
    var l := BitLen(w);
    BitLenBounds(w);
    PowAdd(2, l, a);
    PowAdd(2, l - 1, a);
    MulLe(Pow(2, a), Pow(2, l - 1), w);
    MulLe(Pow(2, a), w + 1, Pow(2, l));
    BitLenUnique(v, a + l);
  }

  method Bits(me: seq<u64>) returns (bits: nat)
    requires |me| > 0
    ensures bits == BitLen(Val(me))
  {
    hide Val, BitLen;
    var n := |me|;
    for i := 1 to n
      invariant forall k :: n - i < k < n ==> me[k] == 0
    {
      if me[n - i] > 0 {
        BitLenTop(me, n - i);
        return 0x40 * (n - i + 1) - LeadingZeros(me[n - i]);
      }
    }
    if me[0] > 0 { BitLenTop(me, 0); } else { ValAllZero(me); }
    return 0x40 - LeadingZeros(me[0]);
  }

  datatype Ordering = Less | Equal | Greater

  lemma HigherWordDecides(s: seq<u64>, t: seq<u64>, k: nat)
    requires |s| == |t| && k < |s| && s[k + 1..] == t[k + 1..] && s[k] < t[k]
    ensures Val(s) < Val(t)
  {
    hide Val, Pow;
    ValSplit(s, k + 1);
    ValSplit(t, k + 1);
    ValPrefix(s, k);
    ValPrefix(t, k);
    ValBound(s[..k]);
    ValBound(s[..k + 1]);
    TopWordRange(Val(s[..k]), s[k], Pow(B, k));
    MulLe(Pow(B, k), s[k] + 1, t[k]);
    assert Val(s[..k + 1]) < Val(t[..k + 1]);
  }

  /** Comparing words from the most significant one down compares the numbers. */
  method Cmp(me: seq<u64>, you: seq<u64>) returns (o: Ordering)
    requires |me| == |you|
    ensures o.Less? <==> Val(me) < Val(you)
    ensures o.Equal? <==> Val(me) == Val(you)
  {
    hide Val;
    for i := |me| downto 0
      invariant me[i..] == you[i..]
    {
      assert me[i + 1..] == you[i + 1..];
      if me[i] < you[i] {
        HigherWordDecides(me, you, i);
        return Less;
      }
      if me[i] > you[i] {
        HigherWordDecides(you, me, i);
        return Greater;
      }
      assert me[i..] == [me[i]] + me[i + 1..] == you[i..];
    }
    return Equal;
  }

  // ---------- Left shift ----------

  /** The bits of word k-1 that a left shift by bs moves into word k. */
  function CarriedUp(o: seq<u64>, k: nat, bs: nat): u64
    requires k <= |o| && bs < 64
  {
    if k == 0 || bs == 0 then 0 else Shr64(o[k - 1], 64 - bs)
  }

  /** The bits shifted into a word do not overlap its own. */
  lemma JoinFits(o: seq<u64>, k: nat, bs: nat)
    requires k < |o| && bs < 64
    ensures Shl64(o[k], bs) + CarriedUp(o, k, bs) < B
  {
    hide Pow;
    if k > 0 && bs > 0 {
      DivWord.ShiftedWord(o[k - 1], bs);
      Shl64Low(o[k], bs);
      BIsPow2();
      PowAdd(2, 64 - bs, bs);
      TopFits(o[k] % Pow(2, 64 - bs), Pow(2, 64 - bs), Pow(2, bs), Shr64(o[k - 1], 64 - bs));
    }
  }

  lemma TopFits(x: nat, m: nat, e: nat, low: nat)
    requires x < m && low < e
    ensures x * e + low < m * e
  {
    MulLe(e, x + 1, m);
  }

  lemma WordShiftedUp(o: seq<u64>, k: nat, bs: nat)
    requires k < |o| && bs < 64
    ensures Shl64(o[k], bs) + CarriedUp(o, k + 1, bs) * B == o[k] * Pow(2, bs)
  {
    hide Pow;
    if bs > 0 { DivWord.ShiftedWord(o[k], bs); } else { PowZero(2); }
  }

  lemma {:induction false} ShlValue(o: seq<u64>, r: seq<u64>, bs: nat)
    requires |r| <= |o| && bs < 64
    requires forall k :: 0 <= k < |r| ==> r[k] == Shl64(o[k], bs) + CarriedUp(o, k, bs)
    ensures Val(r) + CarriedUp(o, |r|, bs) * Pow(B, |r|) == Val(o[..|r|]) * Pow(2, bs)
  {
    hide Val, Pow;
    if r != [] {
      var n := |r| - 1;
      ShlValue(o, r[..n], bs);
      ValPrefix(r, n);
      assert r[..n + 1] == r;
      ValPrefix(o, n);
      WordShiftedUp(o, n, bs);
      PowSucc(B, n);
      ShlStep(Val(r[..n]), CarriedUp(o, n, bs), Pow(B, n), Val(o[..n]), Pow(2, bs), r[n], CarriedUp(o, n + 1, bs), o[n], Shl64(o[n], bs));
    } else {
      ValEmpty();
      assert r == [] && o[..|r|] == [];
      ZeroTimes(Pow(B, |r|));
      ZeroTimes(Pow(2, bs));
    }
  }

  lemma ShlStep(vr: int, c: int, p: int, vo: int, e: int, r: int, c': int, w: int, low: int)
    requires vr + c * p == vo * e
    requires r == low + c && low + c' * B == w * e
    ensures vr + r * p + c' * (B * p) == (vo + w * p) * e
  {
    assert c' * (B * p) == c' * B * p;
    assert (low + c' * B) * p == w * e * p;
    MulAssoc(w, e, p);
    MulAssoc(w, p, e);
  }

  lemma ShlWords(me: seq<u64>, r: seq<u64>, ws: nat, bs: nat)
    requires |r| == |me| && ws <= |me| && bs < 64
    requires forall k :: 0 <= k < ws ==> r[k] == 0
    requires forall k :: ws <= k < |r| ==> r[k] == Shl64(me[k - ws], bs) + CarriedUp(me, k - ws, bs)
    ensures Val(r) == (Val(me) * Pow(2, WORD_BITS * ws + bs)) % Modulus(|me|)
  {
    hide Val, Pow;
    var j := |me| - ws;
    ShlValue(me, r[ws..], bs);
    ValSplit(r, ws);
    ValAllZero(r[..ws]);
    ValSplit(me, j);
    ValBound(r);
    PowWordsBits(ws, bs);
    PowAdd(B, j, ws);
    ShlRemainder(Val(r), Val(r[ws..]), CarriedUp(me, j, bs), Pow(B, j), Val(me[..j]), Val(me[j..]), Pow(2, bs), Pow(B, ws),
                 Modulus(|me|), Val(me), Pow(2, WORD_BITS * ws + bs));
  }

  lemma PowWordsBits(ws: nat, bs: nat)
    ensures Pow(2, WORD_BITS * ws + bs) == Pow(B, ws) * Pow(2, bs)
  {
    hide Val, Pow;
    PowB(ws);
    PowAdd(2, WORD_BITS * ws, bs);
  }

  lemma ShlRemainder(r: nat, r': nat, c: nat, p: nat, low: nat, high: nat, e: nat, w: nat, m: nat, v: nat, we: nat)
    requires r' + c * p == low * e && r == r' * w && m == p * w && r < m
    requires v == low + high * p && we == w * e
    ensures r == (v * we) % m
  {
    var k := high * e + c;
    MulSumAssoc(low, high, p, e);
    MulAssoc(high, e, p);
    assert v * e == r' + k * p;
    MulAssoc(v, e, w);
    MulSumAssoc(r', k, p, w);
    DivModUnique(v * we, m, k, r);
  }

  lemma ShlTooFar(me: seq<u64>, shift: nat)
    requires shift / 64 >= |me|
    ensures (Val(me) * Pow(2, shift)) % Modulus(|me|) == 0
  {
    hide Val, Pow;
    var n := |me|;
    PowB(n);
    PowAdd(2, shift - WORD_BITS * n, WORD_BITS * n);
    MulAssoc(Val(me), Pow(2, shift - WORD_BITS * n), Modulus(n));
    PowPositive(2, shift - WORD_BITS * n);
    MulLe(Val(me), 0, Pow(2, shift - WORD_BITS * n));
    DivModUnique(Val(me) * Pow(2, shift), Modulus(n), Val(me) * Pow(2, shift - WORD_BITS * n), 0);
  }

  method Shl(me: seq<u64>, shift: nat) returns (r: seq<u64>)
    ensures |r| == |me|
    ensures Val(r) == (Val(me) * Pow(2, shift)) % Modulus(|me|)
  {
    hide Val, Pow;
    var n := |me|;
    var ret := new u64[n](_ => 0);
    var ws, bs := shift / 64, shift % 64;
    if ws >= n {
      ShlTooFar(me, shift);
      ValAllZero(ret[..]);
      return ret[..];
    }
    // Whole words, each shifted within itself.
    for i := ws to n
      invariant forall k :: 0 <= k < ws ==> ret[k] == 0
      invariant forall k :: ws <= k < i ==> ret[k] == Shl64(me[k - ws], bs)
    {
      ret[i] := Shl64(me[i - ws], bs);
    }
    // Bits that cross into the neighbouring word.
    if bs > 0 {
      for i := ws + 1 to n
        invariant forall k :: 0 <= k < ws ==> ret[k] == 0
        invariant forall k :: ws <= k < i ==> ret[k] == Shl64(me[k - ws], bs) + CarriedUp(me, k - ws, bs)
        invariant forall k :: i <= k < n ==> ret[k] == Shl64(me[k - ws], bs)
      {
        JoinFits(me, i - ws, bs);
        ret[i] := Add64(ret[i], Shr64(me[i - 1 - ws], 64 - bs));
      }
    }
    ShlWords(me, ret[..], ws, bs);
    r := ret[..];
  }

  // ---------- Right shift ----------

  /** The bits of word k that a right shift by bs moves out of it; nothing beyond the last word. */
  function ShiftedOut(o: seq<u64>, k: nat, bs: nat): nat
    requires bs < 64
  {
    PowPositive(2, bs);
    if k < |o| then o[k] % Pow(2, bs) else 0
  }

  /** Those bits at the top of the word below. */
  function CarriedDown(o: seq<u64>, k: nat, bs: nat): u64
    requires bs < 64
  {
    if k < |o| && bs > 0 then Shl64(o[k], 64 - bs) else 0
  }

  lemma CarriedDownIs(o: seq<u64>, k: nat, bs: nat)
    requires bs < 64
    ensures CarriedDown(o, k, bs) == ShiftedOut(o, k, bs) * Pow(2, 64 - bs)
    ensures ShiftedOut(o, k, bs) < Pow(2, bs)
  {
    hide Pow;
    PowPositive(2, bs);
    if k < |o| {
      if bs > 0 { Shl64Low(o[k], 64 - bs); } else { PowZero(2); }
    }
  }

  lemma JoinDownFits(o: seq<u64>, k: nat, bs: nat)
    requires k < |o| && bs < 64
    ensures Shr64(o[k], bs) < Pow(2, 64 - bs)
    ensures Shr64(o[k], bs) + CarriedDown(o, k + 1, bs) < B
  {
    hide Pow, ShiftedOut, CarriedDown, Shr64;
    BIsPow2();
    PowAdd(2, 64 - bs, bs);
    Shr64Bound(o[k], bs);
    CarriedDownIs(o, k + 1, bs);
    TopFits(ShiftedOut(o, k + 1, bs), Pow(2, bs), Pow(2, 64 - bs), Shr64(o[k], bs));
  }

  lemma Shr64Bound(w: u64, s: nat)
    requires s < 64
    ensures Shr64(w, s) < Pow(2, 64 - s)
  {
    hide Pow;
    BIsPow2();
    PowAdd(2, 64 - s, s);
    PowPositive(2, s);
    DivLt(w, Pow(2, s), Pow(2, 64 - s));
  }

  lemma {:induction false} ShrValue(o: seq<u64>, r: seq<u64>, bs: nat)
    requires |r| <= |o| && bs < 64
    requires forall k :: 0 <= k < |r| ==> r[k] == Shr64(o[k], bs) + CarriedDown(o, k + 1, bs)
    ensures Pow(2, bs) * Val(r) + ShiftedOut(o, 0, bs) == Val(o[..|r|]) + ShiftedOut(o, |r|, bs) * Pow(B, |r|)
  {
    hide Val, Pow;
    if r != [] {
      var n := |r| - 1;
      ShrValue(o, r[..n], bs);
      ValPrefix(r, n);
      assert r[..n + 1] == r;
      ValPrefix(o, n);
      CarriedDownIs(o, n + 1, bs);
      BIsPow2();
      PowAdd(2, 64 - bs, bs);
      PowPositive(2, bs);
      Division(o[n], Pow(2, bs));
      PowSucc(B, n);
      ShrStep(Pow(2, bs), Val(r[..n]), ShiftedOut(o, 0, bs), Val(o[..n]), ShiftedOut(o, n, bs), Pow(B, n), r[n],
              o[n] / Pow(2, bs), o[n], ShiftedOut(o, n + 1, bs), Pow(2, 64 - bs));
    } else {
      PowZero(B);
      ValEmpty();
      assert r == [] && o[..|r|] == [];
    }
  }

  lemma ShrStep(e: int, vr: int, low: int, vo: int, s: int, p: int, r: int, q: int, w: int, s': int, f: int)
    requires e * vr + low == vo + s * p
    requires w == e * q + s && r == q + s' * f && f * e == B
    ensures e * (vr + r * p) + low == vo + w * p + s' * (B * p)
  {
    assert e * (r * p) == (e * q + s' * (f * e)) * p by {
      MulAssoc(e, r, p);
      MulAssoc(s', f, e);
      assert e * r == e * q + e * (s' * f);
    }
    assert (e * q + s' * B) * p == w * p - s * p + s' * B * p;
    assert s' * (B * p) == s' * B * p;
    assert e * (vr + r * p) == e * vr + e * (r * p);
  }

  lemma ShrWords(me: seq<u64>, r: seq<u64>, ws: nat, bs: nat)
    requires |r| == |me| && ws <= |me| && bs < 64
    requires forall k :: 0 <= k < |me| - ws ==> r[k] == Shr64(me[k + ws], bs) + CarriedDown(me, k + ws + 1, bs)
    requires forall k :: |me| - ws <= k < |me| ==> r[k] == 0
    ensures Val(r) == DivPow2(Val(me), WORD_BITS * ws + bs)
  {
    hide Val, Pow;
    var j := |me| - ws;
    ValHighZeros(r, j);
    ShrAll(me[ws..], r[..j], bs);
    ValDivMod(me, ws);
    PowB(ws);
    assert Val(me[ws..]) == DivPow2(Val(me), WORD_BITS * ws);
    DivPow2Twice(Val(me), WORD_BITS * ws, bs);
  }

  lemma ShrAll(o: seq<u64>, r: seq<u64>, bs: nat)
    requires |r| == |o| && bs < 64
    requires forall k :: 0 <= k < |r| ==> r[k] == Shr64(o[k], bs) + CarriedDown(o, k + 1, bs)
    ensures Val(r) == DivPow2(Val(o), bs)
  {
    hide Val, Pow;
    ShrValue(o, r, bs);
    assert o[..|r|] == o;
    CarriedDownIs(o, 0, bs);
    ZeroTimes(Pow(B, |r|));
    DivPow2Is(Val(o), bs, Val(r), ShiftedOut(o, 0, bs));
  }

  lemma ZeroTimes(p: int)
    ensures 0 * p == 0
  {}

  lemma ShrTooFar(me: seq<u64>, shift: nat)
    requires shift / 64 >= |me|
    ensures DivPow2(Val(me), shift) == 0
  {
    hide Val, Pow;
    PowB(|me|);
    PowPositive(2, shift);
    PowIncreases(2, WORD_BITS * |me|, shift);
    ValBound(me);
    DivModUnique(Val(me), Pow(2, shift), 0, Val(me));
  }

  method Shr(me: seq<u64>, shift: nat) returns (r: seq<u64>)
    ensures |r| == |me|
    ensures Val(r) == DivPow2(Val(me), shift)
  {
    hide Val, Pow;
    var n := |me|;
    var ret := new u64[n](_ => 0);
    var ws, bs := shift / 64, shift % 64;
    if ws >= n {
      ShrTooFar(me, shift);
      ValAllZero(ret[..]);
      return ret[..];
    }
    // Whole words, each shifted within itself.
    for i := ws to n
      invariant forall k :: 0 <= k < i - ws ==> ret[k] == Shr64(me[k + ws], bs)
      invariant forall k :: i - ws <= k < n ==> ret[k] == 0
    {
      ret[i - ws] := Shr64(me[i], bs);
    }
    // Bits that cross into the neighbouring word.
    if bs > 0 {
      for i := ws + 1 to n
        invariant forall k :: 0 <= k < i - ws - 1 ==> ret[k] == Shr64(me[k + ws], bs) + CarriedDown(me, k + ws + 1, bs)
        invariant forall k :: i - ws - 1 <= k < n - ws ==> ret[k] == Shr64(me[k + ws], bs)
        invariant forall k :: n - ws <= k < n ==> ret[k] == 0
      {
        JoinDownFits(me, i - 1, bs);
        ret[i - ws - 1] := Add64(ret[i - ws - 1], Shl64(me[i], 64 - bs));
      }
    }
    ShrWords(me, ret[..], ws, bs);
    r := ret[..];
  }

  // ---------- Shifts with one extra word ----------

  /** The whole number shifted left, in one word more (`full_shl`). */
  method FullShl(me: seq<u64>, shift: nat) returns (u: seq<u64>)
    requires |me| > 0 && shift < 64
    ensures |u| == |me| + 1
    ensures Val(u) == Val(me) * Pow(2, shift)
  {
    hide Val, Pow;
    var lo := Shl64(me[0], shift);
    var hi := Shr(me, 64 - shift);
    u := [lo] + hi;
    ValCons(lo, hi);
    FullShlValue(me, shift);
  }

  lemma FullShlValue(me: seq<u64>, shift: nat)
    requires |me| > 0 && shift < 64
    ensures Shl64(me[0], shift) + B * DivPow2(Val(me), 64 - shift) == Val(me) * Pow(2, shift)
  {
    hide Val, Pow;
    var e, e' := Pow(2, shift), Pow(2, 64 - shift);
    PowPositive(2, shift);
    BIsPow2();
    PowAdd(2, 64 - shift, shift);
    var low := DivPow2Split(Val(me), 64 - shift);
    assert me == [me[0]] + me[1..];
    ValCons(me[0], me[1..]);
    LowBits(Val(me), me[0], Val(me[1..]), e, e');
    Shl64Low(me[0], shift);
    Rescale(Val(me), DivPow2(Val(me), 64 - shift), low, e, e');
  }

  lemma LowBits(v: nat, w: nat, h: nat, e: nat, e': nat)
    requires v == w + B * h && e' * e == B && e' > 0
    ensures v % e' == w % e'
  {
    MulAssoc(e', e, h);
    assert B * h == (e * h) * e';
    ModAddMultiple(w, e * h, e');
  }

  lemma Rescale(v: nat, q: nat, r: nat, e: nat, e': nat)
    requires v == e' * q + r && e' * e == B
    ensures v * e == r * e + B * q
  {
    MulSumAssoc(r, q, e', e);
  }

  /** Shifts the extra word back in; bits above the number's own width are dropped (`full_shr`). */
  method FullShr(u: seq<u64>, shift: nat) returns (r: seq<u64>)
    requires |u| > 0 && shift < 64
    ensures |r| == |u| - 1
    ensures Val(r) == DivPow2(Val(u), shift) % Modulus(|r|)
  {
    hide Val, Pow, BitOr;
    var n := |u| - 1;
    var res := new u64[n](_ => 0);
    for i := 0 to n
      invariant forall k :: 0 <= k < i ==> res[k] == Shr64(u[k], shift)
    {
      res[i] := Shr64(u[i], shift);
    }
    // Bits that cross into the neighbouring word.
    if shift > 0 {
      for i := 1 to n + 1
        invariant forall k :: 0 <= k < i - 1 ==> res[k] == Shr64(u[k], shift) + CarriedDown(u, k + 1, shift)
        invariant forall k :: i - 1 <= k < n ==> res[k] == Shr64(u[k], shift)
      {
        JoinDownFits(u, i - 1, shift);
        CarriedDownIs(u, i, shift);
        BitOrDisjoint(res[i - 1], ShiftedOut(u, i, shift), 64 - shift);
        res[i - 1] := BitOr(res[i - 1], Shl64(u[i], 64 - shift));
      }
    }
    r := res[..];
    FullShrValue(u, r, shift);
  }

  lemma FullShrValue(u: seq<u64>, r: seq<u64>, shift: nat)
    requires |r| == |u| - 1 && shift < 64
    requires forall k :: 0 <= k < |r| ==> r[k] == Shr64(u[k], shift) + CarriedDown(u, k + 1, shift)
    ensures Val(r) == DivPow2(Val(u), shift) % Modulus(|r|)
  {
    hide Val, Pow;
    var n, e := |r|, Pow(2, shift);
    PowPositive(2, shift);
    ShrValue(u, r, shift);
    CarriedDownIs(u, 0, shift);
    Division(u[n], e);
    ValBound(r);
    ValPrefix(u, n);
    assert u[..n + 1] == u;
    DropHigh(Val(u), e, Val(r), ShiftedOut(u, 0, shift), Val(u[..n]), u[n], ShiftedOut(u, n, shift), Shr64(u[n], shift), Pow(B, n));
  }

  lemma DropHigh(v: nat, e: nat, r: nat, low: nat, vo: nat, w: nat, s: nat, q: nat, p: nat)
    requires e > 0 && low < e && r < p
    requires e * r + low == vo + s * p
    requires w == e * q + s && v == vo + w * p
    ensures r == (v / e) % p
  {
    assert w * p == (e * q + s) * p;
    assert (e * q + s) * p == e * q * p + s * p;
    MulAssoc(e, q, p);
    assert v == (r + q * p) * e + low;
    DivModUnique(v, e, r + q * p, low);
    DivModUnique(r + q * p, p, q, r);
  }
}
