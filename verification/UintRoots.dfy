/** Integer square root and exponentiation. */
module Roots {
  import opened Arith
  import opened Limbs
  import opened Words
  import opened AddSub
  import opened Mul
  import opened Shift
  import opened Div

  // ---------- Square root ----------

  /** x is at least the integer square root of a. */
  ghost predicate AboveRoot(a: nat, x: nat) {
    a < (x + 1) * (x + 1)
  }

  /** The quotient in a Newton step is hardly larger than the guess. */
  lemma NewtonQuotient(a: nat, x: nat, q: nat)
    requires AboveRoot(a, x) && x > 0 && q * x <= a
    ensures q <= x + 2
  {
    assert q * x < (x + 2) * x + 1;
    MulCancelLt(x, q, x + 3);
  }

  lemma SquareOfSum(x: int, y: int)
    ensures 4 * (y * x) <= (x + y) * (x + y)
  {
    assert (x + y) * (x + y) - 4 * (y * x) == (x - y) * (x - y);
  }

  lemma SquareMonotone(s: nat, t: nat)
    requires s <= t
    ensures s * s <= t * t
  {
    MulLe(s, s, t);
    MulLe(t, s, t);
  }

  /** The arithmetic mean is not below the geometric one: 4a < 4x(q+1) <= (x+q+1)^2 <= 4(r+1)^2. */
  lemma NewtonMean(a: nat, x: nat, q: nat, r: nat)
    requires a < (q + 1) * x && r == (x + q) / 2
    ensures AboveRoot(a, r)
  {
    SquareOfSum(x, q + 1);
    SquareMonotone(x + q + 1, 2 * (r + 1));
    assert (2 * (r + 1)) * (2 * (r + 1)) == 4 * ((r + 1) * (r + 1));
  }

  /** One Newton step from above the root stays above it, and does not overflow. */
  lemma NewtonStep(a: nat, x: nat, q: nat)
    requires a > 1 && AboveRoot(a, x) && x > 0 && IsQuotient(a, x, q)
    ensures AboveRoot(a, (x + q) / 2)
    ensures q <= x + 2
    ensures (x + q) / 2 > 0
    ensures (x + q) / 2 >= x ==> x * x <= a
  {
    NewtonQuotient(a, x, q);
    NewtonMean(a, x, q, (x + q) / 2);
    if (x + q) / 2 >= x { MulLe(x, x, q); }
  }

  /** Twice the initial guess still fits the number's width. */
  lemma GuessFits(n: nat, bits: nat, a: nat)
    requires n > 0 && a > 1 && bits == BitLen(a) && a < Modulus(n)
    ensures var x := Pow(2, (bits + 1) / 2); AboveRoot(a, x) && 2 * x + 2 < Modulus(n) && x > 0
  {
    hide Pow, BitLen;
    var k := (bits + 1) / 2;
    var x := Pow(2, k);
    PowPositive(2, k);
    PowB(n);
    BitLenAtMost(a, WORD_BITS * n);
    BitLenBounds(a);
    PowAdd(2, k, k);
    PowIncreases(2, bits, k + k);
    var h := Pow(2, 32 * n);
    PowAdd(2, 32 * n, 32 * n);
    PowIncreases(2, k, 32 * n);
    PowIncreases(2, 2, 32 * n);
    PowTwo(2);
    MulLe(h, 4, h);
    SquareGrows(x);
  }

  lemma SquareGrows(x: nat)
    ensures x * x <= (x + 1) * (x + 1)
  {}

  /** `(x_prev + self / x_prev) >> 1`; the sum does not panic. */
  method Mean(x: seq<u64>, q: seq<u64>) returns (r: seq<u64>)
    requires |x| == |q| && Val(x) + Val(q) < Modulus(|x|)
    ensures |r| == |x| && Val(r) == (Val(x) + Val(q)) / 2
  {
    hide Val, Pow;
    var sum, overflow := OverflowingAdd(x, q);
    assert !overflow;
    DivModUnique(Val(x) + Val(q), Modulus(|x|), 0, Val(x) + Val(q));
    r := Halve(sum);
  }

  method InitialGuess(one: seq<u64>, ghost a: nat, bits: nat) returns (x: seq<u64>)
    requires |one| > 0 && Val(one) == 1
    requires a > 1 && bits == BitLen(a) && a < Modulus(|one|)
    ensures |x| == |one|
    ensures AboveRoot(a, Val(x)) && 2 * Val(x) + 2 < Modulus(|one|) && Val(x) > 0
  {
    hide Val, Pow, BitLen;
    GuessFits(|one|, bits, a);
    x := Shl(one, (bits + 1) / 2);
    ghost var p := Pow(2, (bits + 1) / 2);
    DivModUnique(p, Modulus(|one|), 0, p);
  }

  lemma QuotientOf(a: nat, d: nat, q: nat, r: nat)
    requires IsDivMod(a, d, q, r)
    ensures IsQuotient(a, d, q)
  {}

  lemma RootOfSmall(a: nat)
    requires a <= 1
    ensures a * a <= a < (a + 1) * (a + 1)
  {}

  method IntegerSqrt(me: seq<u64>) returns (s: seq<u64>)
    requires |me| > 0
    ensures |s| == |me|
    ensures Val(s) * Val(s) <= Val(me) < (Val(s) + 1) * (Val(s) + 1)
  {
    hide Val, Pow;
    var n := |me|;
    var one := FromU64(1, n);
    var order := Cmp(me, one);
    if !order.Greater? {
      RootOfSmall(Val(me));
      return me;
    }
    // The guess is a power of two above the root.
    var bits := Bits(me);
    ValBound(me);
    var xPrev := InitialGuess(one, Val(me), bits);
    while true
      invariant |xPrev| == n
      invariant Val(xPrev) > 0 && 2 * Val(xPrev) + 2 < Modulus(n)
      invariant AboveRoot(Val(me), Val(xPrev))
      decreases Val(xPrev)
    {
      var q, rem := DivMod(me, xPrev);
      QuotientOf(Val(me), Val(xPrev), Val(q), Val(rem));
      NewtonStep(Val(me), Val(xPrev), Val(q));
      var x := Mean(xPrev, q);
      var step := Cmp(x, xPrev);
      if !step.Less? {
        return xPrev;
      }
      xPrev := x;
    }
  }

  // ---------- Exponentiation ----------

  /** The parity of a number is the parity of its lowest word. */
  lemma Parity(s: seq<u64>)
    requires |s| > 0
    ensures Val(s) % 2 == s[0] % 2
  {
    hide Val;
    assert s == [s[0]] + s[1..];
    ValCons(s[0], s[1..]);
  }

  /** Squaring the base halves an even exponent. */
  lemma SquareBase(x: nat, k: nat)
    ensures Pow(x * x, k) == Pow(x, 2 * k)
  {
    hide Pow;
    PowTwo(x);
    PowMul(x, 2, k);
  }

  /** One round of square-and-multiply keeps x^n * y. */
  lemma Round(x: nat, y: nat, n: nat)
    ensures n % 2 == 0 ==> Pow(x * x, n / 2) * y == Pow(x, n) * y
    ensures n % 2 == 1 ==> Pow(x * x, n / 2) * (x * y) == Pow(x, n) * y
  {
    hide Pow;
    SquareBase(x, n / 2);
    if n % 2 == 1 {
      assert n == 2 * (n / 2) + 1;
      MulAssoc(Pow(x, 2 * (n / 2)), x, y);
      PowSucc(x, n - 1);
    }
  }

  /** While the exponent is above one, both products formed are factors of the result. */
  lemma Needed(x: nat, y: nat, n: nat)
    requires n >= 2 && (x == 0 || y > 0)
    ensures x * x <= Pow(x, n) * y || x == 0
    ensures x * y <= Pow(x, n) * y
  {
    hide Pow;
    if x > 0 {
      SquareBase(x, 1);
      PowIncreases(x, 2, n);
      PowIncreases(x, 1, n);
      PowOne(x);
      PowOne(x * x);
      MulLe(Pow(x, n), 1, y);
      MulLe(y, x, Pow(x, n));
    } else {
      MulLe(y, 0, Pow(x, n));
      assert x * y == 0;
    }
  }

  lemma ProductMod(x: nat, y: nat, m: nat)
    requires m > 0
    ensures ((x % m) * (y % m)) % m == (x * y) % m
  {
    MulMod(x, y % m, m);
    MulMod(y, x, m);
    assert (y % m) * x == x * (y % m);
    assert y * x == x * y;
  }

  /** What square-and-multiply keeps: the true x and y, and a flag that is right so far. */
  ghost predicate PowState(goal: nat, m: nat, x: nat, y: nat, n: nat, overflow: bool) {
    && n >= 1
    && Pow(x, n) * y == goal
    && (x == 0 || y > 0)
    && (overflow ==> goal >= m)
    && (!overflow ==> x < m && y < m)
  }

  /** One round: the flag is raised exactly by a product that does not fit. */
  lemma PowRound(goal: nat, m: nat, x: nat, y: nat, n: nat, overflow: bool, overflow': bool)
    requires PowState(goal, m, x, y, n, overflow) && n >= 2 && m > 0
    requires overflow ==> overflow'
    requires !overflow ==> (overflow' <==> x * x >= m || (n % 2 == 1 && x * y >= m))
    ensures n % 2 == 0 ==> PowState(goal, m, x * x, y, n / 2, overflow')
    ensures n % 2 == 1 ==> PowState(goal, m, x * x, x * y, n / 2, overflow')
  {
    hide Pow;
    Round(x, y, n);
    Needed(x, y, n);
    if x > 0 { MulPositive(x, y); MulPositive(x, x); }
  }

  lemma SmallMod(x: nat, m: nat)
    requires x < m
    ensures x % m == x
  {}

  method OverflowingPow(me: seq<u64>, expon: seq<u64>) returns (r: seq<u64>, overflow: bool)
    requires |me| == |expon| > 0
    ensures |r| == |me|
    ensures Val(r) == Pow(Val(me), Val(expon)) % Modulus(|me|)
    ensures overflow <==> Pow(Val(me), Val(expon)) >= Modulus(|me|)
  {
    hide Val, Pow;
    var size := |me|;
    ghost var m := Modulus(size);
    ghost var goal := Pow(Val(me), Val(expon));
    var one := FromU64(1, size);
    ValBound(one);
    SmallMod(1, m);
    var zero := AnyNonzero(expon);
    if !zero { PowZero(Val(me)); return one, false; }
    var y, n, x := one, expon, me;
    overflow := false;
    ghost var tx: nat, ty: nat := Val(me), 1;
    ValBound(me);
    SmallMod(tx, m);
    var more := Cmp(n, one);
    while more.Greater?
      invariant PowWords(goal, size, x, y, n, tx, ty, overflow)
      invariant more.Greater? <==> Val(n) > 1
      decreases Val(n)
    {
      x, y, n, overflow, tx, ty := SquareAndMultiply(goal, size, x, y, n, tx, ty, overflow);
      more := Cmp(n, one);
    }
    PowOne(tx);
    r, overflow := MulTracked(x, y, overflow, tx, ty);
  }

  /** The words hold the true x and y modulo the width. */
  ghost predicate PowWords(goal: nat, size: nat, x: seq<u64>, y: seq<u64>, n: seq<u64>, tx: nat, ty: nat, overflow: bool) {
    && |x| == |y| == |n| == size > 0
    && Val(x) == tx % Modulus(size) && Val(y) == ty % Modulus(size)
    && PowState(goal, Modulus(size), tx, ty, Val(n), overflow)
  }

  /** The loop body of `overflowing_pow`. */
  method SquareAndMultiply(ghost goal: nat, ghost size: nat, x: seq<u64>, y: seq<u64>, n: seq<u64>,
                           ghost tx: nat, ghost ty: nat, overflow: bool)
    returns (x': seq<u64>, y': seq<u64>, n': seq<u64>, overflow': bool, ghost tx': nat, ghost ty': nat)
    requires PowWords(goal, size, x, y, n, tx, ty, overflow) && Val(n) > 1
    ensures PowWords(goal, size, x', y', n', tx', ty', overflow')
    ensures Val(n') == Val(n) / 2
  {
    hide Val, Pow;
    Parity(n);
    if n[0] % 2 == 0 {
      x', overflow' := MulTracked(x, x, overflow, tx, tx);
      y', tx', ty' := y, Times(tx, tx), ty;
      n' := Halve(n);
    } else {
      var overflow1;
      y', overflow1 := MulTracked(x, y, overflow, tx, ty);
      x', overflow' := MulTracked(x, x, overflow1, tx, tx);
      tx', ty' := Times(tx, tx), Times(tx, ty);
      var less := Decrement(n);
      n' := Halve(less);
    }
    PowRound(goal, Modulus(size), tx, ty, Val(n), overflow, overflow');
  }

  /** `overflowing!(x.overflowing_mul(y), overflow)`: the flag stays right for the true factors. */
  method MulTracked(x: seq<u64>, y: seq<u64>, overflow: bool, ghost tx: nat, ghost ty: nat)
    returns (r: seq<u64>, overflow': bool)
    requires |x| == |y|
    requires Val(x) == tx % Modulus(|x|) && Val(y) == ty % Modulus(|x|)
    requires !overflow ==> tx < Modulus(|x|) && ty < Modulus(|x|)
    ensures |r| == |x| && Val(r) == (tx * ty) % Modulus(|x|)
    ensures overflow ==> overflow'
    ensures !overflow ==> (overflow' <==> tx * ty >= Modulus(|x|))
  {
    hide Val, Pow;
    var o;
    r, o := OverflowingMul(x, y);
    overflow' := overflow || o;
    ProductMod(tx, ty, Modulus(|x|));
    if !overflow { SmallMod(tx, Modulus(|x|)); SmallMod(ty, Modulus(|x|)); }
  }

  /** `n >> 1` */
  method Halve(n: seq<u64>) returns (r: seq<u64>)
    ensures |r| == |n| && Val(r) == Val(n) / 2
  {
    hide Val, Pow;
    r := Shr(n, 1);
    PowOne(2);
  }

  /** `n - u_one`, which does not underflow for a positive n. */
  method Decrement(n: seq<u64>) returns (r: seq<u64>)
    requires |n| > 0 && Val(n) > 0
    ensures |r| == |n| && Val(r) == Val(n) - 1
  {
    hide Val, Pow;
    var under;
    r, under := OverflowingSub(n, FromU64(1, |n|));
    assert !under;
    ValBound(n);
    SmallMod(Val(n) - 1, Modulus(|n|));
  }
}
