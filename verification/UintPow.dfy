/** The panicking `pow`, whose loop clears the wrong bit of an odd exponent. */
module PanickingPow {
  import opened Arith
  import opened Limbs
  import opened Wrappers
  import Mul
  import Shift
  import Div
  import opened Roots

  /** The documented outcome: the power, or a panic (None) when it does not fit below m. */
  function Outcome(b: nat, e: nat, m: nat): Option<nat> {
    if Pow(b, e) < m then Some(Pow(b, e)) else None
  }

  /** Half the modulus: the weight of the topmost bit of an n-word number. */
  function TopBit(n: nat): (h: nat)
    requires n > 0
    ensures 2 * h == Modulus(n) && h > 1
  {
    TopBitIs(n);
    Pow(2, WORD_BITS * n - 1)
  }

  lemma TopBitIs(n: nat)
    requires n > 0
    ensures 2 * Pow(2, WORD_BITS * n - 1) == Modulus(n) && Pow(2, WORD_BITS * n - 1) > 1
  {
    hide Pow;
    PowB(n);
    PowSucc(2, WORD_BITS * n - 1);
    PowOne(2);
    PowIncreases(2, 1, WORD_BITS * n - 1);
  }

  /**
   * The exponent the loop really uses: an odd exponent loses its top bit. When nothing but the
   * low bit is left, the loop ends one multiplication late.
   */
  function Effective(e: nat, h: nat): nat {
    if e % 2 == 1 && e >= h then (if e == h + 1 then 3 else e - h) else e
  }

  /** `n.0[$n_words-1] & ((!0u64)>>1)`: the number without its topmost bit. */
  function ClearTop(n: seq<u64>): (r: seq<u64>)
    requires |n| > 0
    ensures |r| == |n|
  {
    n[|n| - 1 := n[|n| - 1] % (B / 2)]
  }

  lemma ClearTopValue(n: seq<u64>)
    requires |n| > 0
    ensures Val(ClearTop(n)) == if Val(n) >= TopBit(|n|) then Val(n) - TopBit(|n|) else Val(n)
  {
    hide *;
    var k := |n| - 1;
    var w := n[k];
    TopWord(n);
    TopBitScaled(k, Pow(B, k));
    TopBitOf(Val(n[..k]), w, Pow(B, k), Val(n), Val(ClearTop(n)), TopBit(|n|));
  }

  ghost predicate IsSum(v: int, low: int, w: int, p: int) { v == low + w * p }

  lemma TopWord(n: seq<u64>)
    requires |n| > 0
    ensures var k := |n| - 1;
      && 0 <= Val(n[..k]) < Pow(B, k) && IsSum(Val(n), Val(n[..k]), n[k], Pow(B, k))
      && IsSum(Val(ClearTop(n)), Val(n), n[k] % (B / 2) - n[k], Pow(B, k))
  {
    hide Val, Pow, IsSum;
    var k := |n| - 1;
    Updated(n, k, n[k] % (B / 2));
    Longer(n, k);
    assert n[..k + 1] == n;
    ValBound(n[..k]);
  }

  lemma Updated(s: seq<u64>, i: nat, w: u64)
    requires i < |s|
    ensures IsSum(Val(s[i := w]), Val(s), w - s[i], Pow(B, i))
  {
    hide Val, Pow;
    ValUpdate(s, i, w);
  }

  lemma Longer(s: seq<u64>, i: nat)
    requires i < |s|
    ensures IsSum(Val(s[..i + 1]), Val(s[..i]), s[i], Pow(B, i))
  {
    hide Val, Pow;
    ValPrefix(s, i);
  }

  lemma TopBitScaled(k: nat, p: nat)
    requires p == Pow(B, k)
    ensures IsSum(TopBit(k + 1), 0, B / 2, p)
  {
    hide Pow;
    PowSucc(B, k);
  }

  lemma TopBitOf(low: nat, w: u64, p: nat, v: int, cleared: int, top: int)
    requires low < p && IsSum(v, low, w, p) && IsSum(cleared, v, w % (B / 2) - w, p) && IsSum(top, 0, B / 2, p)
    ensures cleared == if v >= top then v - top else v
  {
    hide IsSum;
    if w >= B / 2 {
      assert w % (B / 2) - w == -(B / 2);
      TopSet(low, w, p, v, cleared, top);
    } else {
      assert w % (B / 2) - w == 0;
      TopClear(low, w, p, v, cleared, top);
    }
  }

  lemma TopSet(low: nat, w: int, p: nat, v: int, cleared: int, top: int)
    requires B / 2 <= w && IsSum(v, low, w, p) && IsSum(cleared, v, -(B / 2), p) && IsSum(top, 0, B / 2, p)
    ensures v >= top && cleared == v - top
  {
    MulLe(p, B / 2, w);
  }

  lemma TopClear(low: nat, w: int, p: nat, v: int, cleared: int, top: int)
    requires w < B / 2 && low < p && IsSum(v, low, w, p) && IsSum(cleared, v, 0, p) && IsSum(top, 0, B / 2, p)
    ensures v < top && cleared == v
  {
    MulLe(p, w + 1, B / 2);
  }

  /** The exponent still to be used up; the loop treats zero like one when it ends. */
  function Left(n: nat): nat { if n == 0 then 1 else n }

  /** What the loop keeps: either nothing has been done yet, or x^n * y is the effective power. */
  ghost predicate State(b: nat, e: nat, h: nat, m: nat, x: nat, y: nat, n: nat) {
    && x < m && y < m
    && (x == 0 || y > 0)
    && if n >= h then n == e && x == b && y == 1 else Pow(x, Left(n)) * y == Pow(b, Effective(e, h))
  }

  lemma EvenStep(b: nat, e: nat, h: nat, m: nat, x: nat, y: nat, n: nat)
    requires State(b, e, h, m, x, y, n) && n > 1 && n % 2 == 0 && m == 2 * h && e < m
    ensures x * x < m ==> State(b, e, h, m, x * x, y, n / 2)
    ensures x * x >= m ==> Pow(b, Effective(e, h)) >= m
  {
    hide Pow;
    Round(x, y, n);
    Needed(x, y, n);
    if x > 0 { MulPositive(x, x); }
    if n >= h { MulOne(Pow(b, n)); }
  }

  lemma MulOne(a: int)
    ensures a * 1 == a
  {}

  lemma OddStep(b: nat, e: nat, h: nat, m: nat, x: nat, y: nat, n: nat, n': nat)
    requires State(b, e, h, m, x, y, n) && n > 1 && n % 2 == 1 && m == 2 * h && e < m && h % 2 == 0
    requires n' == (if n >= h then n - h else n) / 2
    ensures x * x < m && x * y < m ==> State(b, e, h, m, x * x, x * y, n')
    ensures x * x >= m || x * y >= m ==> Pow(b, Effective(e, h)) >= m
  {
    hide Pow;
    if x > 0 { MulPositive(x, x); MulPositive(x, y); }
    if n == h + 1 {
      Cube(b);
      PowOne(x * x);
      if b > 0 { MulLe(b * b, 1, b); }
      MulOne(b);
    } else {
      var k := if n >= h then n - h else n;
      Round(x, y, k);
      Needed(x, y, k);
      if n >= h { MulOne(Pow(b, k)); }
    }
  }

  lemma Cube(b: nat)
    ensures Pow(b, 3) == (b * b) * b
  {
    hide Pow;
    PowSucc(b, 2);
    PowTwo(b);
  }

  lemma Finish(b: nat, e: nat, h: nat, m: nat, x: nat, y: nat, n: nat)
    requires State(b, e, h, m, x, y, n) && n <= 1 && h > 1
    ensures x * y == Pow(b, Effective(e, h))
  {
    hide Pow;
    PowOne(x);
  }

  /** A panicking multiplication: None when the product does not fit. */
  method CheckedMul(x: seq<u64>, y: seq<u64>) returns (r: Option<seq<u64>>)
    requires |x| == |y|
    ensures r.None? <==> Val(x) * Val(y) >= Modulus(|x|)
    ensures r.Some? ==> |r.value| == |x| && Val(r.value) == Val(x) * Val(y)
  {
    hide Val, Pow;
    var p, overflow := Mul.OverflowingMul(x, y);
    if overflow { return None; }
    SmallModInt(Val(x) * Val(y), Modulus(|x|));
    return Some(p);
  }

  lemma SmallModInt(x: int, m: int)
    requires 0 < m && x < m
    ensures x >= 0 ==> x % m == x
  {}

  /** `pow` as written: it raises to the effective exponent. */
  method PowOrPanic(me: seq<u64>, expon: seq<u64>) returns (r: Option<seq<u64>>)
    requires |me| == |expon| > 0
    ensures var goal := Pow(Val(me), Effective(Val(expon), TopBit(|me|)));
      && (r.None? <==> goal >= Modulus(|me|))
      && (r.Some? ==> |r.value| == |me| && Val(r.value) == goal)
  {
    hide Val, Pow;
    var size := |me|;
    ghost var b, e, h, m := Val(me), Val(expon), TopBit(size), Modulus(size);
    var nonzero := Mul.AnyNonzero(expon);
    var one := Div.FromU64(1, size);
    if !nonzero { PowZero(b); return Some(one); }
    ValBound(me);
    ValBound(expon);
    TopBitEven(size);
    Start(b, e, h, m);
    var y, n, x := one, expon, me;
    var more := Shift.Cmp(n, one);
    while more.Greater?
      invariant |x| == |y| == |n| == size
      invariant State(b, e, h, m, Val(x), Val(y), Val(n))
      invariant more.Greater? <==> Val(n) > 1
      decreases Val(n)
    {
      Parity(n);
      ghost var tx, ty, tn := Val(x), Val(y), Val(n);
      if n[0] % 2 == 0 {
        EvenStep(b, e, h, m, tx, ty, tn);
        var xx := CheckedMul(x, x);
        if xx.None? { return None; }
        x := xx.value;
        n := Halve(n);
      } else {
        ClearTopValue(n);
        var cleared := ClearTop(n);
        var n' := Halve(cleared);
        OddStep(b, e, h, m, tx, ty, tn, Val(n'));
        var xy := CheckedMul(x, y);
        if xy.None? { return None; }
        var xx := CheckedMul(x, x);
        if xx.None? { return None; }
        y, x, n := xy.value, xx.value, n';
      }
      more := Shift.Cmp(n, one);
    }
    Finish(b, e, h, m, Val(x), Val(y), Val(n));
    r := CheckedMul(x, y);
  }

  lemma TopBitEven(n: nat)
    requires n > 0
    ensures TopBit(n) % 2 == 0
  {
    hide Pow;
    PowSucc(2, WORD_BITS * n - 2);
  }

  lemma Start(b: nat, e: nat, h: nat, m: nat)
    requires e > 0 && b < m && 1 < m
    ensures State(b, e, h, m, b, 1, e)
  {
    hide Pow;
    MulOne(Pow(b, e));
  }

  /** An exponent with the top bit set makes any base above one overflow. */
  lemma TopExponentOverflows(b: nat, e: nat, n: nat)
    requires n > 0 && b >= 2 && e >= TopBit(n)
    ensures Pow(b, e) >= Modulus(n)
  {
    hide Pow;
    PowB(n);
    var k := WORD_BITS * n;
    ExponentBelowPower(k - 2);
    PowSucc(2, k - 2);
    assert e >= k;
    PowIncreases(2, k, e);
    PowBaseIncreases(2, b, e);
  }

  lemma {:induction false} ExponentBelowPower(k: nat)
    ensures k < Pow(2, k)
  {
    if k > 0 { ExponentBelowPower(k - 1); }
  }

  lemma {:induction false} PowBaseIncreases(a: nat, b: nat, e: nat)
    requires a <= b
    ensures Pow(a, e) <= Pow(b, e)
  {
    if e > 0 {
      PowBaseIncreases(a, b, e - 1);
      MulLe(Pow(a, e - 1), a, b);
      MulLe(b, Pow(a, e - 1), Pow(b, e - 1));
    }
  }

  lemma {:induction false} PowOfBit(b: nat, e: nat)
    requires b <= 1 && e > 0
    ensures Pow(b, e) == b
  {
    if e > 1 { PowOfBit(b, e - 1); }
  }

  /** A caller can check this: the exponent is even, its top bit is clear, or the base is zero or one. */
  predicate Harmless(b: nat, e: nat, n: nat)
    requires n > 0
  { e % 2 == 0 || e < TopBit(n) || b <= 1 }

  /**
   * With a harmless exponent `pow` does what it documents. With any other it should panic, and
   * does so exactly when the power to the exponent without its top bit overflows as well.
   */
  lemma PowMeetsDocumentation(b: nat, e: nat, n: nat)
    requires n > 0 && e < Modulus(n)
    ensures Harmless(b, e, n) ==> Outcome(b, Effective(e, TopBit(n)), Modulus(n)) == Outcome(b, e, Modulus(n))
    ensures !Harmless(b, e, n) ==> Outcome(b, e, Modulus(n)) == None
    ensures !Harmless(b, e, n) ==>
              (Outcome(b, Effective(e, TopBit(n)), Modulus(n)) == None <==>
                 Pow(b, if e == TopBit(n) + 1 then 3 else e - TopBit(n)) >= Modulus(n))
  {
    hide Pow;
    var h := TopBit(n);
    TopBitEven(n);
    if e % 2 == 1 && e >= h {
      if b >= 2 { TopExponentOverflows(b, e, n); } else { PowOfBit(b, e); PowOfBit(b, Effective(e, h)); }
    }
  }

  /** Two to the power of 2^63 + 1, in one word, is answered with 8 instead of a panic. */
  lemma PowCounterexample()
    ensures Outcome(2, Effective(TopBit(1) + 1, TopBit(1)), Modulus(1)) == Some(8)
    ensures Outcome(2, TopBit(1) + 1, Modulus(1)) == None
  {
    hide Pow;
    TopBitEven(1);
    Cube(2);
    PowOne(B);
    TopExponentOverflows(2, TopBit(1) + 1, 1);
  }
}
