/** Division with remainder, through all three paths of `div_mod`. */
module Div {
  import opened Arith
  import opened Limbs
  import opened Words
  import opened AddSub
  import Mul
  import Shift
  import DivWord

  /** The quotient and remainder of a by d, stated without dividing. */
  ghost predicate IsDivMod(a: nat, d: nat, q: nat, r: nat) {
    a == q * d + r && r < d
  }

  lemma DivModMeaning(a: nat, d: nat, q: nat, r: nat)
    requires IsDivMod(a, d, q, r)
    ensures q == a / d && r == a % d
  {
    DivModUnique(a, d, q, r);
  }

  /** q is the whole number of times d goes into a. */
  ghost predicate IsQuotient(a: nat, d: nat, q: nat) {
    q * d <= a < (q + 1) * d
  }

  // ---------- Where the words of a number end ----------

  lemma HighWordsZero(s: seq<u64>, n: nat)
    requires n <= |s| && Val(s) < Pow(B, n)
    ensures forall k :: n <= k < |s| ==> s[k] == 0
    ensures Val(s[..n]) == Val(s)
  {
    hide Val, Pow;
    ValDivMod(s, n);
    DivModUnique(Val(s), Modulus(n), 0, Val(s));
    ValIsZero(s[n..]);
    forall k | n <= k < |s| ensures s[k] == 0 { assert s[n..][k - n] == 0; }
  }

  lemma TopWordAtLeast(s: seq<u64>, n: nat, x: nat)
    requires 0 < n <= |s| && x * Pow(B, n - 1) <= Val(s) < Pow(B, n)
    ensures s[n - 1] >= x
  {
    hide Val, Pow;
    HighWordsZero(s, n);
    ValPrefix(s, n - 1);
    ValBound(s[..n - 1]);
    TopAtLeast(Val(s[..n - 1]), s[n - 1], Pow(B, n - 1), x);
  }

  lemma TopAtLeast(low: nat, w: nat, p: nat, x: nat)
    requires low < p && x * p <= low + w * p
    ensures w >= x
  {
    assert low + w * p < (w + 1) * p;
    MulCancelLt(p, x, w + 1);
  }

  /** The least number of words for a non-zero number with the given bit length. */
  function WordsFor(bits: nat): nat
    requires bits > 0
  { 1 + (bits - 1) / WORD_BITS }

  lemma WordsForIs(v: nat, bits: nat)
    requires v > 0 && bits == BitLen(v)
    ensures bits > 0
    ensures Pow(B, WordsFor(bits) - 1) <= v < Pow(B, WordsFor(bits))
  {
    hide Pow, BitLen;
    BitLenBounds(v);
    var n := WordsFor(bits);
    PowB(n);
    PowB(n - 1);
    PowIncreases(2, bits, WORD_BITS * n);
    PowIncreases(2, WORD_BITS * (n - 1), bits - 1);
  }

  lemma WordsForFits(s: seq<u64>)
    requires Val(s) > 0
    ensures BitLen(Val(s)) > 0 && WordsFor(BitLen(Val(s))) <= |s|
  {
    hide Val, Pow, BitLen;
    BitLenBounds(Val(s));
    ValBound(s);
    PowB(|s|);
    BitLenAtMost(Val(s), WORD_BITS * |s|);
  }

  // ---------- Division by one word ----------

  method DivModSmall(me: seq<u64>, other: u64) returns (q: seq<u64>, r: seq<u64>)
    requires |me| > 0 && other > 0
    ensures |q| == |r| == |me|
    ensures IsDivMod(Val(me), other, Val(q), Val(r))
  {
    hide Val;
    var n := |me|;
    var d := new u64[n](i requires 0 <= i < n => me[i]);
    var rem: u64 := 0;
    ValEmpty();
    assert me[n..] == [] && d[n..] == [];
    for i := n downto 0
      invariant d[..i] == me[..i]
      invariant rem < other
      invariant Val(me[i..]) == Val(d[i..]) * other + rem
    {
      assert d[i] == d[..i + 1][i] == me[i];
      var qw, rw := DivWord.DivModWord(rem, d[i], other);
      ghost var rest := d[i + 1..];
      ValCons(me[i], me[i + 1..]);
      ValCons(qw, rest);
      SmallStep(Val(me[i + 1..]), Val(rest), other, rem, me[i], qw, rw);
      d[i] := qw;
      rem := rw;
      assert me[i..] == [me[i]] + me[i + 1..];
      assert d[i..] == [qw] + rest;
    }
    q := d[..];
    assert d[0..] == q && me[0..] == me;
    r := FromU64(rem, n);
  }

  lemma SmallStep(m: int, q: int, d: int, rem: int, w: int, qw: int, rw: int)
    requires m == q * d + rem && qw * d + rw == rem * B + w
    ensures w + B * m == (qw + B * q) * d + rw
  {
    MulAssoc(B, q, d);
  }

  /** A single word as an n-word number (`From<u64>`). */
  function FromU64(w: u64, n: nat): (r: seq<u64>)
    requires n > 0
    ensures |r| == n && Val(r) == w
  {
    ValCons(w, Zeros(n - 1));
    ValZeros(n - 1);
    [w] + Zeros(n - 1)
  }

  // ---------- Algorithm D: estimating a quotient digit ----------

  /** What the D3 loop keeps: the estimate is never below the digit of the three-by-two division. */
  ghost predicate Estimate(ujn: nat, ujn1: nat, ujn2: nat, v1: nat, v0: nat, qHat: int, rHat: int) {
    && qHat * v1 + rHat == ujn * B + ujn1
    && 0 <= qHat && 0 <= rHat
    && (ujn * B + ujn1) * B + ujn2 < (qHat + 1) * (v1 * B + v0)
  }

  lemma EstimateGap(ujn: int, ujn1: int, ujn2: int, v1: int, v0: int, qHat: int, rHat: int)
    requires qHat * v1 + rHat == ujn * B + ujn1
    ensures (ujn * B + ujn1) * B + ujn2 - qHat * (v1 * B + v0) == rHat * B + ujn2 - qHat * v0
  {
    assert qHat * (v1 * B + v0) == (qHat * v1) * B + qHat * v0;
  }

  lemma FirstEstimate(ujn: nat, ujn1: nat, ujn2: nat, v1: nat, v0: nat, qHat: nat, rHat: nat)
    requires qHat * v1 + rHat == ujn * B + ujn1 && rHat < v1 && ujn2 < B
    ensures Estimate(ujn, ujn1, ujn2, v1, v0, qHat, rHat)
  {
    assert (qHat + 1) * v1 + (rHat - v1) == ujn * B + ujn1;
    EstimateGap(ujn, ujn1, ujn2, v1, v0, qHat + 1, rHat - v1);
    MulLe(v0, 0, qHat + 1);
  }

  lemma LowerEstimate(ujn: nat, ujn1: nat, ujn2: nat, v1: nat, v0: nat, qHat: nat, rHat: nat)
    requires Estimate(ujn, ujn1, ujn2, v1, v0, qHat, rHat)
    requires qHat * v0 > rHat * B + ujn2
    ensures qHat > 0 && Estimate(ujn, ujn1, ujn2, v1, v0, qHat - 1, rHat + v1)
  {
    EstimateGap(ujn, ujn1, ujn2, v1, v0, qHat, rHat);
    assert (qHat - 1) * v1 == qHat * v1 - v1;
  }

  lemma FinalEstimate(ujn: nat, ujn1: nat, ujn2: nat, v1: nat, v0: nat, qHat: u64, rHat: nat)
    requires Estimate(ujn, ujn1, ujn2, v1, v0, qHat, rHat)
    requires v0 < B
    requires qHat * v0 <= rHat * B + ujn2 || rHat >= B
    ensures IsQuotient((ujn * B + ujn1) * B + ujn2, v1 * B + v0, qHat)
  {
    EstimateGap(ujn, ujn1, ujn2, v1, v0, qHat, rHat);
    if rHat >= B {
      MulLe(qHat, v0, B);
      MulLe(B, qHat, rHat);
    }
  }

  lemma FewSteps(steps: nat, v1: nat, rHat: nat)
    requires B / 2 <= v1 && steps * v1 <= rHat < B
    ensures steps < 2 && (steps + 1) * v1 <= rHat + v1
  {
    if steps >= 2 { MulLe(v1, 2, steps); }
  }

  /**
   * Step D3. When the leading dividend word is below the leading divisor word the result is
   * exactly the quotient of the top three words by the top two; the loop runs at most twice.
   */
  method EstimateDigit(ujn: u64, ujn1: u64, ujn2: u64, v1: u64, v0: u64) returns (qHat: u64, ghost steps: nat)
    requires B / 2 <= v1
    ensures ujn < v1 ==> IsQuotient((ujn * B + ujn1) * B + ujn2, v1 * B + v0, qHat)
    ensures ujn >= v1 ==> qHat == B - 1
    ensures steps <= 2
  {
    steps := 0;
    if ujn < v1 {
      var rHat;
      qHat, rHat := DivWord.DivModWord(ujn, ujn1, v1);
      FirstEstimate(ujn, ujn1, ujn2, v1, v0, qHat, rHat);
      ghost var trueRHat: nat := rHat;
      while true
        invariant Estimate(ujn, ujn1, ujn2, v1, v0, qHat, trueRHat)
        invariant trueRHat == rHat && steps * v1 <= rHat && steps <= 2
        decreases qHat
      {
        Mul.ProductFits(qHat, v0);
        var (hi, lo) := Split128(qHat * v0);
        // The two-word product against the remainder so far and the third word.
        if hi < rHat || (hi == rHat && lo <= ujn2) {
          break;
        }
        LowerEstimate(ujn, ujn1, ujn2, v1, v0, qHat, rHat);
        FewSteps(steps, v1, rHat);
        qHat := qHat - 1;
        trueRHat := trueRHat + v1;
        steps := steps + 1;
        var (newRHat, overflow) := OverflowingAdd64(rHat, v1);
        rHat := newRHat;
        if overflow {
          break;
        }
      }
      FinalEstimate(ujn, ujn1, ujn2, v1, v0, qHat, trueRHat);
    } else {
      qHat := B - 1;
    }
  }

  // ---------- Algorithm D: the estimate is the digit or one more ----------

  /** TAOCP vol. 2, 4.3.1, exercise 20: a two-word estimate is the digit or one more. */
  lemma TwoWordEstimate(w: nat, v: nat, u3: nat, ulow: nat, v1: nat, v0: nat, vlow: nat, p: nat, qHat: nat)
    requires w == u3 * p + ulow && ulow < p
    requires v == (v1 * B + v0) * p + vlow && vlow < p
    requires 0 < v1 && qHat < B
    requires IsQuotient(u3, v1 * B + v0, qHat)
    ensures (qHat - 1) * v <= w < (qHat + 1) * v
  {
    var v2 := v1 * B + v0;
    EstimateAbove(w, v, u3, ulow, v2, vlow, p, qHat);
    EstimateBelow(w, v, u3, ulow, v2, vlow, p, qHat);
  }

  lemma EstimateAbove(w: nat, v: nat, u3: nat, ulow: nat, v2: nat, vlow: nat, p: nat, q: nat)
    requires w == u3 * p + ulow && ulow < p && v == v2 * p + vlow
    requires u3 < (q + 1) * v2
    ensures w < (q + 1) * v
  {
    MulLe(p, u3 + 1, (q + 1) * v2);
    MulAssoc(q + 1, v2, p);
    MulLe(q + 1, v2 * p, v);
  }

  lemma EstimateBelow(w: nat, v: nat, u3: nat, ulow: nat, v2: nat, vlow: nat, p: nat, q: nat)
    requires w == u3 * p + ulow && v == v2 * p + vlow && vlow < p
    requires q * v2 <= u3 && q < B <= v2
    ensures (q - 1) * v <= w
  {
    assert q * v == q * v2 * p + q * vlow by {
      MulAssoc(q, v2, p);
      assert q * (v2 * p + vlow) == q * (v2 * p) + q * vlow;
    }
    MulLe(p, q * v2, u3);
    assert q * vlow <= v2 * p by {
      MulLe(q, vlow, p);
      MulLe(p, q, v2);
    }
    assert (q - 1) * v == q * v - v;
  }

  /** With equal leading words the estimate B - 1 is the digit or one more. */
  lemma LargestEstimate(w: nat, v: nat, ujn: nat, u2: nat, ulow: nat, v1: nat, v0: nat, vlow: nat, p: nat)
    requires w == (ujn * B * B + u2) * p + ulow
    requires v == (v1 * B + v0) * p + vlow && vlow < p
    requires B / 2 <= v1 <= ujn && v0 < B
    ensures (B - 2) * v <= w
  {
    MulLe(p, v1 * B + v0 + 1, (v1 + 1) * B);
    assert v <= (v1 + 1) * B * p;
    MulLe(B - 2, v, (v1 + 1) * B * p);
    assert (B - 2) * ((v1 + 1) * B * p) == ((B - 2) * (v1 + 1)) * (B * p) by {
      MulAssoc(v1 + 1, B, p);
      MulAssoc(B - 2, v1 + 1, B * p);
    }
    MulLe(B * p, (B - 2) * (v1 + 1), B * ujn);
    assert (B * ujn) * (B * p) == (ujn * B * B) * p;
    assert (ujn * B * B) * p + u2 * p == (ujn * B * B + u2) * p;
    MulLe(p, 0, u2);
  }

  /** The top three words of a window and what lies below them. */
  lemma TopThree(s: seq<u64>)
    requires |s| >= 3
    ensures var k := |s| - 3;
      Val(s) == ((s[k + 2] * B + s[k + 1]) * B + s[k]) * Pow(B, k) + Val(s[..k])
  {
    hide Val, Pow;
    var k := |s| - 3;
    assert s[..k + 3] == s;
    ValPrefix(s, k + 2);
    ValPrefix(s, k + 1);
    ValPrefix(s, k);
    PowSucc(B, k);
    PowSucc(B, k + 1);
    ThreeWords(s[k + 2], s[k + 1], s[k], Pow(B, k), Pow(B, k + 1), Pow(B, k + 2));
  }

  lemma ThreeWords(c: int, b: int, a: int, p: int, p1: int, p2: int)
    requires p1 == B * p && p2 == B * p1
    ensures a * p + b * p1 + c * p2 == ((c * B + b) * B + a) * p
  {
    assert c * p2 == c * B * B * p;
    assert b * p1 == b * B * p;
    assert ((c * B + b) * B + a) * p == (c * B * B) * p + (b * B) * p + a * p;
  }

  lemma TopTwo(s: seq<u64>)
    requires |s| >= 2
    ensures var k := |s| - 2;
      Val(s) == (s[k + 1] * B + s[k]) * Pow(B, k) + Val(s[..k])
  {
    hide Val, Pow;
    var k := |s| - 2;
    assert s[..k + 2] == s;
    ValPrefix(s, k + 1);
    ValPrefix(s, k);
    PowSucc(B, k);
    TwoWords(s[k + 1], s[k], Pow(B, k), Pow(B, k + 1));
  }

  lemma TwoWords(b: int, a: int, p: int, p1: int)
    requires p1 == B * p
    ensures a * p + b * p1 == (b * B + a) * p
  {}

  /** How `qHat` was estimated from the leading words of the window and the divisor. */
  ghost predicate EstimatedFrom(win: seq<u64>, v: seq<u64>, qHat: u64)
    requires |v| >= 2 && |win| == |v| + 1
  {
    var n := |v|;
    if win[n] < v[n - 1]
    then IsQuotient((win[n] * B + win[n - 1]) * B + win[n - 2], v[n - 1] * B + v[n - 2], qHat)
    else qHat == B - 1
  }

  /** The digit estimated from the top words is the quotient digit of the window or one more. */
  lemma DigitOrOneMore(win: seq<u64>, v: seq<u64>, qHat: u64)
    requires |v| >= 2 && |win| == |v| + 1
    requires B / 2 <= v[|v| - 1]
    requires Val(win) < Val(v) * B
    requires EstimatedFrom(win, v, qHat)
    ensures (qHat - 1) * Val(v) <= Val(win) < (qHat + 1) * Val(v)
  {
    hide Val, Pow;
    var n := |v|;
    TopThree(win);
    TopTwo(v);
    ValBound(win[..n - 2]);
    ValBound(v[..n - 2]);
    FromLeadingWords(Val(win), Val(v), win[n], win[n - 1], win[n - 2], v[n - 1], v[n - 2],
                     Val(win[..n - 2]), Val(v[..n - 2]), Pow(B, n - 2), qHat);
  }

  lemma FromLeadingWords(w: nat, v: nat, w2: u64, w1: u64, w0: u64, v1: u64, v0: u64, wlow: nat, vlow: nat, p: nat, qHat: u64)
    requires w == ((w2 * B + w1) * B + w0) * p + wlow && wlow < p
    requires v == (v1 * B + v0) * p + vlow && vlow < p
    requires B / 2 <= v1 && w < v * B
    requires if w2 < v1 then IsQuotient((w2 * B + w1) * B + w0, v1 * B + v0, qHat) else qHat == B - 1
    ensures (qHat - 1) * v <= w < (qHat + 1) * v
  {
    if w2 < v1 {
      TwoWordEstimate(w, v, (w2 * B + w1) * B + w0, wlow, v1, v0, vlow, p, qHat);
    } else {
      LargestEstimate(w, v, w2, w1 * B + w0, wlow, v1, v0, vlow, p);
    }
  }

  // ---------- Algorithm D: subtracting the digit's multiple ----------

  /** Adding the divisor back cancels the borrow. */
  lemma AddBack(l1: nat, t1: nat, l2: nat, c: nat, v: nat, p: nat, r: int)
    requires l2 < p && v <= p && t1 < B && c <= 1
    requires l2 + c * p == l1 + v
    requires r == l1 + t1 * p + v - B * p && 0 <= r < v
    ensures (t1 + c) % B == 0 && l2 == r
  {
    var k := t1 + c - B;
    assert r == l2 + k * p;
    if k > 0 { MulLe(p, 1, k); }
    if k < 0 { MulLe(p, k, -1); }
  }

  lemma DigitMultiple(v: seq<u64>, n: nat, qHat: u64, qv: seq<u64>)
    requires n <= |v| && |qv| == |v| + 1 && Val(qv) == Val(v) * qHat
    requires Val(v) < Pow(B, n)
    ensures Val(qv[..n + 1]) == qHat * Val(v)
  {
    hide Val, Pow;
    WordTimes(Val(v), Pow(B, n), qHat);
    PowSucc(B, n);
    HighWordsZero(qv, n + 1);
  }

  lemma WordTimes(v: nat, p: nat, q: u64)
    requires v < p
    ensures 0 <= v * q < B * p && v * q == q * v
  {
    MulLe(v, q, B - 1);
    MulLe(v, 0, q);
  }

  method FullMulU64(me: seq<u64>, other: u64) returns (r: seq<u64>)
    ensures |r| == |me| + 1
    ensures Val(r) == Val(me) * other
  {
    hide Val;
    var prod, carry := Mul.OverflowingMulU64(me, other);
    r := prod + [carry];
    ValSnoc(prod, carry);
  }

  lemma NoBorrow(w: nat, q: nat, v: nat, w1: nat)
    requires w1 == w - q * v && w < (q + 1) * v
    ensures IsDivMod(w, v, q, w1)
  {}

  lemma OneTooMany(w: nat, q: nat, v: nat)
    requires (q - 1) * v <= w < q * v
    ensures q > 0 && w - (q - 1) * v < v
    ensures IsDivMod(w, v, q - 1, w - (q - 1) * v)
  {}

  /** Step D4: subtracts the estimated multiple of the divisor from the window. */
  method SubtractMultiple(u: array<u64>, j: nat, v: seq<u64>, n: nat, qHat: u64) returns (c: bool)
    requires n <= |v| && j + n < u.Length
    requires Val(v) < Pow(B, n)
    modifies u
    ensures u[..j] == old(u[..j]) && u[j + n + 1..] == old(u[j + n + 1..])
    ensures Val(u[j..j + n + 1]) == old(Val(u[j..j + n + 1])) - qHat * Val(v) + (if c then Pow(B, n + 1) else 0)
  {
    hide Val, Pow;
    var qv := FullMulU64(v, qHat);
    DigitMultiple(v, n, qHat, qv);
    assert qv[..n + 1][..n + 1] == qv[..n + 1];
    c := BinopSlice(Sub, u, j, qv[..n + 1]);
  }

  /**
   * Steps D3 to D6 for digit j: afterwards the window u[j..=j+n] holds its own remainder.
   */
  method ReduceDigit(u: array<u64>, j: nat, v: seq<u64>, n: nat) returns (digit: u64)
    requires 2 <= n <= |v| && j + n < u.Length
    requires Val(v) == Val(v[..n]) < Pow(B, n) && B / 2 <= v[n - 1]
    requires Val(u[j..j + n + 1]) < Val(v) * B
    modifies u
    ensures u[..j] == old(u[..j]) && u[j + n + 1..] == old(u[j + n + 1..])
    ensures IsDivMod(old(Val(u[j..j + n + 1])), Val(v), digit, Val(u[j..j + n + 1]))
  {
    hide Val, Pow;
    ghost var win := u[j..j + n + 1];
    // D3.
    var qHat, _ := EstimateDigit(u[j + n], u[j + n - 1], u[j + n - 2], v[n - 1], v[n - 2]);
    assert win[n] == u[j + n] && win[n - 1] == u[j + n - 1] && win[n - 2] == u[j + n - 2];
    DigitOrOneMore(win, v[..n], qHat);
    // D4.
    var c := SubtractMultiple(u, j, v, n, qHat);
    digit := qHat;
    ValBound(u[j..j + n + 1]);
    if c {
      // D6.
      OneTooMany(Val(win), qHat, Val(v));
      digit := qHat - 1;
      RestoreWindow(u, j, v, n, Val(win) - (qHat - 1) * Val(v));
    } else {
      NoBorrow(Val(win), qHat, Val(v), Val(u[j..j + n + 1]));
    }
  }

  /** Step D6 proper: adds the divisor to the window, dropping the final carry. */
  method RestoreWindow(u: array<u64>, j: nat, v: seq<u64>, n: nat, ghost r: nat)
    requires 2 <= n <= |v| && j + n < u.Length
    requires Val(v) == Val(v[..n]) < Pow(B, n)
    requires r == Val(u[j..j + n + 1]) + Val(v) - Pow(B, n + 1) && r < Val(v)
    modifies u
    ensures u[..j] == old(u[..j]) && u[j + n + 1..] == old(u[j + n + 1..])
    ensures Val(u[j..j + n + 1]) == r
  {
    hide Val, Pow;
    ghost var l1, t1 := u[j..j + n], u[j + n];
    PowSucc(B, n);
    assert u[j..j + n + 1] == l1 + [t1];
    ValSnoc(l1, t1);
    var c := BinopSlice(Add, u, j, v[..n]);
    assert v[..n][..n] == v[..n];
    ghost var l2 := u[j..j + n];
    ValBound(l2);
    assert u[j + n] == u[j + n..][0] == old(u[j + n..])[0] == t1;
    AddBack(Val(l1), t1, Val(l2), ToInt(c), Val(v), Pow(B, n), r);
    ghost var above := u[j + n + 1..];
    assert above == u[j + n..][1..];
    u[j + n] := WrappingAdd(u[j + n], ToInt(c));
    ValSnoc(l2, 0);
    assert u[j..j + n + 1] == l2 + [0];
  }

  // ---------- Algorithm D: all digits ----------

  /** Cuts a buffer into the part below digit j, the window, and the part above it. */
  lemma CutWindow(u: seq<u64>, j: nat, n: nat)
    requires j + n < |u|
    ensures Val(u) == Val(u[..j]) + Val(u[j..j + n + 1]) * Pow(B, j) + Val(u[j + n + 1..]) * Pow(B, j + n + 1)
  {
    hide Val, Pow;
    ValSplit(u, j + n + 1);
    ValSplit(u[..j + n + 1], j);
    assert u[..j + n + 1][..j] == u[..j];
    assert u[..j + n + 1][j..] == u[j..j + n + 1];
  }

  lemma CutBelowZero(u: seq<u64>, j: nat, n: nat)
    requires j + n < |u| && Val(u[j + n + 1..]) == 0
    ensures Val(u) == Val(u[..j]) + Val(u[j..j + n + 1]) * Pow(B, j)
  {
    hide Val, Pow;
    CutWindow(u, j, n);
  }

  lemma WindowSmall(u: seq<u64>, j: nat, n: nat, v: nat)
    requires j + n < |u| && v < Pow(B, n) && Val(u) < v * Pow(B, j + 1)
    ensures Val(u[j..j + n + 1]) < v * B
    ensures Val(u[j + n + 1..]) == 0
  {
    hide Val, Pow;
    CutWindow(u, j, n);
    assert Val(u) < Pow(B, j + n + 1) by {
      PowAdd(B, n, j + 1);
      PowPositive(B, j + 1);
      MulLe(Pow(B, j + 1), v, Pow(B, n));
    }
    var w, hi := Val(u[j..j + n + 1]), Val(u[j + n + 1..]);
    PowPositive(B, j);
    MulLe(Pow(B, j), 0, w);
    ZeroAbove(hi, Pow(B, j + n + 1), Val(u));
    PowSucc(B, j);
    WindowArith(Val(u[..j]), w, Pow(B, j), v, Pow(B, j + 1), Val(u));
  }

  lemma WindowArith(low: nat, w: nat, p: nat, v: nat, p1: nat, total: nat)
    requires p > 0 && p1 == B * p && total == low + w * p < v * p1
    ensures w < v * B
  {
    MulAssoc(v, B, p);
    MulCancelLt(p, w, v * B);
  }

  lemma ZeroAbove(hi: nat, p: nat, total: nat)
    requires hi * p <= total < p
    ensures hi == 0
  {
    if hi > 0 { MulLe(p, 1, hi); }
  }

  /** What the digit loop keeps: the quotient so far times the divisor, plus what is left. */
  ghost predicate Conserved(total: nat, q: seq<u64>, v: nat, u: seq<u64>, next: nat) {
    && total == Val(q) * v + Val(u)
    && Val(u) < v * Pow(B, next)
    && forall k :: 0 <= k < next && k < |q| ==> q[k] == 0
  }

  lemma DigitDone(total: nat, q: seq<u64>, q': seq<u64>, v: nat, u: seq<u64>, u': seq<u64>, j: nat, n: nat, digit: u64)
    requires Conserved(total, q, v, u, j + 1)
    requires v < Pow(B, n) && j < |q| && j + n < |u| == |u'|
    requires q' == q[j := digit]
    requires u[..j] == u'[..j] && u[j + n + 1..] == u'[j + n + 1..]
    requires IsDivMod(Val(u[j..j + n + 1]), v, digit, Val(u'[j..j + n + 1]))
    ensures Conserved(total, q', v, u', j)
  {
    hide Val, Pow;
    WindowSmall(u, j, n, v);
    CutBelowZero(u, j, n);
    CutBelowZero(u', j, n);
    ValUpdate(q, j, digit);
    ValBound(u[..j]);
    DigitArith(total, Val(q), v, Val(u[..j]), Val(u[j..j + n + 1]), Val(u'[j..j + n + 1]), digit, Pow(B, j), Val(u), Val(u'), Val(q'));
  }

  lemma DigitArith(total: nat, q: nat, v: nat, low: nat, w: nat, w': nat, d: nat, p: nat, u: nat, u': nat, q': nat)
    requires total == q * v + u && u == low + w * p && low < p
    requires w == d * v + w' && w' < v
    requires u' == low + w' * p && q' == q + d * p
    ensures total == q' * v + u'
    ensures u' < v * p
  {
    assert (d * v + w') * p == d * v * p + w' * p;
    MulAssoc(d, v, p);
    MulAssoc(d, p, v);
    MulLe(p, w' + 1, v);
    assert q' * v == q * v + (d * p) * v;
  }

  /** Shifting both operands left leaves the quotient alone and scales the remainder. */
  lemma Unshift(a: nat, d: nat, s: nat, e: nat, q: nat, u: nat, v: nat, total: nat, r: nat)
    requires e == Pow(2, s) && v == d * e && total == a * e
    requires total == q * v + u && u < v && r == DivPow2(u, s)
    ensures IsDivMod(a, d, q, r)
  {
    hide Pow;
    PowPositive(2, s);
    MulAssoc(q, d, e);
    var r' := a - q * d;
    assert u == r' * e;
    MulCancelLt(e, r', d);
    MulCancelLt(e, -1, r');
    DivModUnique(u, e, r', 0);
  }

  /** The normalised divisor keeps its words and gets its top bit set. */
  lemma Normalised(v: seq<u64>, n: nat, v': seq<u64>, s: nat)
    requires 0 < n <= |v| == |v'| && v[n - 1] > 0 && Val(v) < Pow(B, n)
    requires s == LeadingZeros(v[n - 1])
    requires Val(v') == (Val(v) * Pow(2, s)) % Modulus(|v|)
    ensures Val(v') == Val(v) * Pow(2, s)
    ensures Val(v') == Val(v'[..n])
    ensures B / 2 * Pow(B, n - 1) <= Val(v') < Pow(B, n)
    ensures B / 2 <= v'[n - 1]
  {
    hide Val, Pow, BitLen;
    var p := Pow(B, n - 1);
    DivisorRange(v, n, s);
    PowIncreases(B, n, |v|);
    DivModUnique(Val(v) * Pow(2, s), Modulus(|v|), 0, Val(v) * Pow(2, s));
    HighWordsZero(v', n);
    TopWordAtLeast(v', n, B / 2);
  }

  lemma DivisorRange(v: seq<u64>, n: nat, s: nat)
    requires 0 < n <= |v| && v[n - 1] > 0 && Val(v) < Pow(B, n)
    requires s == LeadingZeros(v[n - 1])
    ensures B / 2 * Pow(B, n - 1) <= Val(v) * Pow(2, s) < Pow(B, n)
  {
    hide Val, Pow, BitLen, LeadingZeros;
    var top := v[n - 1];
    HighWordsZero(v, n);
    ValPrefix(v, n - 1);
    ValBound(v[..n - 1]);
    Shift.TopWordRange(Val(v[..n - 1]), top, Pow(B, n - 1));
    BitLenBounds(top);
    BIsPow2();
    PowAdd(2, 64 - s, s);
    PowSucc(B, n - 1);
    NormalisedRange(Val(v), top, Pow(B, n - 1), Pow(2, s), Pow(2, 64 - s));
  }

  lemma NormalisedRange(v: nat, top: nat, p: nat, e: nat, f: nat)
    requires top * p <= v < (top + 1) * p && top < f && f * e == B && B / 2 <= top * e
    ensures B / 2 * p <= v * e < B * p
  {
    MulLe(p, top + 1, f);
    MulLe(e, top * p, v);
    assert e != 0;
    MulLt(e, v, f * p);
    MulLe(p, B / 2, top * e);
    assert top * e * p == top * p * e by { MulAssoc(top, e, p); MulAssoc(top, p, e); }
    assert f * p * e == f * e * p by { MulAssoc(f, e, p); MulAssoc(f, p, e); }
  }

  lemma ShiftedSmall(a: nat, e: nat, v: nat, n: nat, m: nat)
    requires a < Pow(B, n + m) && e <= B / 2 && 0 < e
    requires n > 0 && B / 2 * Pow(B, n - 1) <= v
    ensures a * e < v * Pow(B, m + 1)
  {
    hide Pow;
    PowAdd(B, n - 1, m + 1);
    var p, q := Pow(B, n - 1), Pow(B, m + 1);
    PowPositive(B, m + 1);
    MulLt(e, a, p * q);
    MulLe(p * q, e, B / 2);
    MulAssoc(B / 2, p, q);
    MulLe(q, B / 2 * p, v);
  }

  method DivModKnuth(me: seq<u64>, divisor: seq<u64>, n: nat, m: nat) returns (q: seq<u64>, r: seq<u64>)
    requires |me| == |divisor| && 2 <= n && n + m <= |me|
    requires Val(me) < Pow(B, n + m)
    requires Pow(B, n - 1) <= Val(divisor) < Pow(B, n)
    ensures |q| == |r| == |me|
    ensures IsDivMod(Val(me), Val(divisor), Val(q), Val(r))
  {
    hide Val, Pow, BitLen, LeadingZeros, DivPow2;
    // D1.
    TopWordAtLeast(divisor, n, 1);
    var shift := LeadingZeros(divisor[n - 1]);
    var v := Shift.Shl(divisor, shift);
    Normalised(divisor, n, v, shift);
    var shifted := Shift.FullShl(me, shift);
    var u := new u64[|me| + 1](i requires 0 <= i < |shifted| => shifted[i]);
    var quotient := new u64[|me|](_ => 0);
    ghost var total := Val(shifted);
    assert u[..] == shifted;
    ValAllZero(quotient[..]);
    ShiftDistance(shift);
    ShiftedSmall(Val(me), Pow(2, shift), Val(v), n, m);
    DivideDigits(u, v, n, m, quotient, total);
    // D8.
    q := quotient[..];
    r := Shift.FullShr(u[..], shift);
    ghost var rem := DivPow2(Val(u[..]), shift);
    PowZero(B);
    Unshift(Val(me), Val(divisor), shift, Pow(2, shift), Val(q), Val(u[..]), Val(v), total, rem);
    ValBound(divisor);
    DivModUnique(rem, Modulus(|me|), 0, rem);
  }

  /** Steps D2 to D7: all quotient digits, the last one at the bottom. */
  method DivideDigits(u: array<u64>, v: seq<u64>, n: nat, m: nat, quotient: array<u64>, ghost total: nat)
    requires 2 <= n <= |v| && n + m < u.Length && m < quotient.Length && u != quotient
    requires Val(v) == Val(v[..n]) < Pow(B, n) && B / 2 <= v[n - 1]
    requires Conserved(total, quotient[..], Val(v), u[..], m + 1)
    modifies u, quotient
    ensures Conserved(total, quotient[..], Val(v), u[..], 0)
  {
    hide Val, Pow;
    // D2. D7.
    for j := m + 1 downto 0
      invariant Conserved(total, quotient[..], Val(v), u[..], j)
    {
      DivideDigit(u, v, n, j, quotient, total);
    }
  }

  method DivideDigit(u: array<u64>, v: seq<u64>, n: nat, j: nat, quotient: array<u64>, ghost total: nat)
    requires 2 <= n <= |v| && n + j < u.Length && j < quotient.Length && u != quotient
    requires Val(v) == Val(v[..n]) < Pow(B, n) && B / 2 <= v[n - 1]
    requires Conserved(total, quotient[..], Val(v), u[..], j + 1)
    modifies u, quotient
    ensures Conserved(total, quotient[..], Val(v), u[..], j)
  {
    hide Val, Pow;
    ghost var u0: seq<u64>, q0: seq<u64> := u[..], quotient[..];
    WindowSmall(u0, j, n, Val(v));
    assert u0[j..j + n + 1] == u[j..j + n + 1];
    var digit := ReduceDigit(u, j, v, n);
    // D5.
    quotient[j] := digit;
    ghost var u1: seq<u64> := u[..];
    assert u0[..j] == u1[..j] && u0[j + n + 1..] == u1[j + n + 1..] && u1[j..j + n + 1] == u[j..j + n + 1];
    DigitDone(total, q0, quotient[..], Val(v), u0, u1, j, n, digit);
  }

  lemma ShiftDistance(s: nat)
    requires s < 64
    ensures 0 < Pow(2, s) <= B / 2
  {
    hide Pow;
    BIsPow2();
    PowSucc(2, 63);
    PowIncreases(2, s, 63);
    PowPositive(2, s);
  }

  lemma OneWord(s: seq<u64>)
    requires |s| > 0 && BitLen(Val(s)) <= 64
    ensures Val(s) == s[0]
  {
    hide Val, Pow, BitLen;
    BitLenBounds(Val(s));
    BIsPow2();
    PowIncreases(2, BitLen(Val(s)), 64);
    PowOne(B);
    HighWordsZero(s, 1);
    assert s[..1] == [s[0]];
    ValOne(s[0]);
  }

  /** The quotient and remainder by any non-zero divisor; a zero divisor panics. */
  method DivMod(me: seq<u64>, other: seq<u64>) returns (q: seq<u64>, r: seq<u64>)
    requires |me| == |other| > 0
    requires Val(other) != 0
    ensures |q| == |r| == |me|
    ensures IsDivMod(Val(me), Val(other), Val(q), Val(r))
  {
    hide Val, BitLen;
    var myBits := Shift.Bits(me);
    var yourBits := Shift.Bits(other);
    BitLenBounds(Val(other));
    // Fewer bits: the dividend is its own remainder.
    if myBits < yourBits {
      BitLenMonotone(Val(me), Val(other));
      ValZeros(|me|);
      return Zeros(|me|), me;
    }
    if yourBits <= WORD_BITS {
      OneWord(other);
      q, r := DivModSmall(me, other[0]);
      return;
    }
    BitLenZero();
    WordsForIs(Val(me), myBits);
    WordsForIs(Val(other), yourBits);
    WordsForFits(me);
    var myWords, yourWords := WordsFor(myBits), WordsFor(yourBits);
    q, r := DivModKnuth(me, other, yourWords, myWords - yourWords);
  }
}
