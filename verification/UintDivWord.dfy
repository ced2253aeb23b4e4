/** Dividing a two-word number by one word, by two 32-bit quotient digits. */
module DivWord {
  import opened Arith
  import opened Limbs
  import opened Words

  /** The estimate minus the digit's own product, in terms of the partial remainder. */
  lemma PartialRemainder(un: int, d: int, q: int, y1: int, y0: int, rhat: int)
    requires q * y1 + rhat == un
    ensures un * TWO32 + d - q * (y1 * TWO32 + y0) == rhat * TWO32 + d - q * y0
  {
    assert q * (y1 * TWO32 + y0) == (q * y1) * TWO32 + q * y0;
  }

  /** A dividend whose head is below the divisor has a one-digit quotient. */
  lemma OneDigit(un: int, d: int, y: int)
    requires 0 <= un < y && 0 <= d < TWO32
    ensures un * TWO32 + d < TWO32 * y
  {}

  /** What the correction loop keeps: `q` never falls below the true digit. */
  ghost predicate Estimate(un: nat, d: nat, y1: nat, y0: nat, q: int, rhat: int) {
    && q * y1 + rhat == un
    && 0 <= q && 0 <= rhat
    && un * TWO32 + d < (q + 1) * (y1 * TWO32 + y0)
  }

  lemma FirstEstimate(un: nat, d: nat, y1: nat, y0: nat)
    requires 0 < y1 && d < TWO32
    ensures Estimate(un, d, y1, y0, un / y1, un - (un / y1) * y1)
    ensures un - (un / y1) * y1 < y1
  {
    var q, rhat := un / y1, un % y1;
    assert un == q * y1 + rhat;
    PartialRemainder(un, d, q + 1, y1, y0, rhat - y1);
    MulLe(q + 1, 0, y0);
    DivLe(un, y1, 0);
  }

  lemma TooBig(un: nat, d: nat, y1: nat, y0: nat, q: int, rhat: int)
    requires Estimate(un, d, y1, y0, q, rhat)
    requires un < y1 * TWO32 + y0 && d < TWO32
    requires q >= TWO32 || q * y0 > TWO32 * rhat + d
    ensures q > 0 && Estimate(un, d, y1, y0, q - 1, rhat + y1)
  {
    var y := y1 * TWO32 + y0;
    PartialRemainder(un, d, q, y1, y0, rhat);
    if q >= TWO32 {
      OneDigit(un, d, y);
      MulLe(y, TWO32, q);
    }
    assert (q - 1) * y1 == q * y1 - y1;
  }

  /** On leaving the loop the estimate is the quotient digit. */
  lemma Exact(un: nat, d: nat, y1: nat, y0: nat, q: int, rhat: int)
    requires Estimate(un, d, y1, y0, q, rhat)
    requires un < y1 * TWO32 + y0 && d < TWO32 && y0 < TWO32 && 0 < y1
    requires (q < TWO32 && q * y0 <= TWO32 * rhat + d) || rhat >= TWO32
    ensures 0 <= un * TWO32 + d - q * (y1 * TWO32 + y0) < y1 * TWO32 + y0
    ensures q < TWO32
  {
    PartialRemainder(un, d, q, y1, y0, rhat);
    if rhat >= TWO32 {
      assert q * y1 < TWO32 * y1;
      MulCancelLt(y1, q, TWO32);
      MulLe(q, y0, TWO32);
    }
  }

  lemma HalfWordProduct(a: nat, b: nat)
    requires a < TWO32 && b < TWO32
    ensures 0 <= a * b < B
  {
    MulLe(a, b, TWO32);
  }

  /** A product of two 32-bit values does not overflow. */
  function Mul32(a: u64, b: u64): u64
    requires a < TWO32 && b < TWO32
  {
    HalfWordProduct(a, b);
    Mul64(a, b)
  }

  lemma FewSteps(steps: nat, y1: nat, rhat: nat)
    requires TWO32 / 2 <= y1 && steps * y1 <= rhat < TWO32
    ensures steps < 2 && (steps + 1) * y1 <= rhat + y1
  {
    if steps >= 2 { MulLe(y1, 2, steps); }
  }

  /**
   * One quotient digit: an estimate from the top half of the divisor, corrected downwards.
   * Since the divisor has its top bit set, two corrections are enough.
   */
  method QuotientDigit(un: u64, d: u64, y1: u64, y0: u64) returns (q: u64, ghost steps: nat)
    requires TWO32 / 2 <= y1 < TWO32 && y0 < TWO32 && d < TWO32
    requires un < y1 * TWO32 + y0
    ensures 0 <= un * TWO32 + d - q * (y1 * TWO32 + y0) < y1 * TWO32 + y0
    ensures q < TWO32
    ensures steps <= 2
  {
    FirstEstimate(un, d, y1, y0);
    ShrLe(un, y1);
    q := un / y1;
    var rhat := Sub64(un, Mul64(q, y1));
    steps := 0;
    while q >= TWO32 || Mul32(q, y0) > Add64(TWO32 * rhat, d)
      invariant Estimate(un, d, y1, y0, q, rhat)
      invariant rhat < TWO32 && steps * y1 <= rhat && steps <= 2
      decreases q
    {
      TooBig(un, d, y1, y0, q, rhat);
      FewSteps(steps, y1, rhat);
      q := q - 1;
      rhat := Add64(rhat, y1);
      steps := steps + 1;
      if rhat >= TWO32 { break; }
    }
    Exact(un, d, y1, y0, q, rhat);
  }

  /** A wrapped difference whose true value fits a word is that value. */
  lemma WrappedDifference(a: u64, c: u64, d: u64, e: u64, f: u64)
    requires 0 <= a * c + d - e * f < B
    ensures WrappingSub(WrappingAdd(WrappingMul(a, c), d), WrappingMul(e, f)) == a * c + d - e * f
  {
    WrapDifference(a * c, d, e * f);
  }

  lemma WrapDifference(x: int, d: int, y: int)
    requires 0 <= x + d - y < B
    ensures ((x % B + d) % B - y % B) % B == x + d - y
  {}

  /** The head word of the dividend shifted left by s; the shift by 64 yields zero. */
  function HeadWord(hi: u64, lo: u64, s: nat): nat
    requires s < 64
  {
    BitOr(Shl64(hi, s), if s == 0 then 0 else Shr64(lo, 64 - s))
  }

  lemma HeadWordIs(hi: u64, lo: u64, s: nat, p: nat)
    requires s < 64 && p == Pow(2, s) && 0 <= hi * p < B
    ensures s == 0 ==> HeadWord(hi, lo, s) == hi * p
    ensures s > 0 ==> HeadWord(hi, lo, s) == Shr64(lo, 64 - s) + hi * p
  {
    hide Pow, BitOr;
    assert Shl64(hi, s) == hi * p;
    if s == 0 {
      BitOrComm(hi * p, 0);
      BitOrZero(hi * p);
    } else {
      ShiftedWord(lo, s);
      BitOrDisjoint(Shr64(lo, 64 - s), hi, s);
      BitOrComm(hi * p, Shr64(lo, 64 - s));
    }
  }

  /** The dividend shifted by the normalising distance, cut into a head word and a low word. */
  lemma ShiftedDividend(hi: u64, lo: u64, y: u64, s: nat, p: nat)
    requires s < 64 && p == Pow(2, s) && hi < y && y * p < B
    ensures HeadWord(hi, lo, s) * B + Shl64(lo, s) == (hi * B + lo) * p
    ensures HeadWord(hi, lo, s) < y * p
  {
    hide Pow, BitOr;
    PowPositive(2, s);
    MulLe(p, hi, y);
    MulLe(p, 0, hi);
    HeadWordIs(hi, lo, s, p);
    if s == 0 {
      PowZero(2);
    } else {
      ShiftedWord(lo, s);
      AlignHead(hi, lo, y, p, Shr64(lo, 64 - s), Shl64(lo, s));
    }
  }

  lemma AlignHead(hi: nat, lo: nat, y: nat, p: nat, top: nat, low: nat)
    requires hi < y && top < p && top * B + low == lo * p
    ensures (top + hi * p) * B + low == (hi * B + lo) * p
    ensures top + hi * p < y * p
  {
    MulLe(p, hi + 1, y);
  }

  /** Shifting a word out of its 64 bits: the high part and the low part. */
  lemma ShiftedWord(lo: u64, s: nat)
    requires 0 < s < 64
    ensures Shr64(lo, 64 - s) * B + Shl64(lo, s) == lo * Pow(2, s)
    ensures Shr64(lo, 64 - s) < Pow(2, s)
  {
    hide Pow;
    var p, p' := Pow(2, s), Pow(2, 64 - s);
    BIsPow2();
    PowAdd(2, 64 - s, s);
    PowPositive(2, 64 - s);
    Shl64Low(lo, s);
    var top := lo / p';
    DivLt(lo, p', p);
    assert lo == lo % p' + top * p';
    MulSumAssoc(lo % p', top, p', p);
  }

  lemma {:induction false} BitOrComm(a: nat, b: nat)
    ensures BitOr(a, b) == BitOr(b, a)
    decreases a + b
  {
    if a == 0 && b == 0 {} else { BitOrComm(a / 2, b / 2); }
  }

  /** Putting the two quotient digits together and undoing the shift. */
  lemma Assemble(x: nat, y: nat, p: nat, un32: nat, un1: nat, un0: nat, q1: nat, q0: nat, un21: nat, rem: nat)
    requires p > 0 && (un32 * TWO32 + un1) * TWO32 + un0 == x * p
    requires un21 == un32 * TWO32 + un1 - q1 * (y * p)
    requires rem == un21 * TWO32 + un0 - q0 * (y * p) && rem < y * p
    ensures x - (q1 * TWO32 + q0) * y == rem / p < y
    ensures 0 <= x - (q1 * TWO32 + q0) * y
  {
    var q := q1 * TWO32 + q0;
    assert q * (y * p) == q1 * (y * p) * TWO32 + q0 * (y * p);
    assert rem == x * p - q * (y * p);
    MulAssoc(q, y, p);
    var r := x - q * y;
    assert rem == r * p;
    MulCancelLt(p, r, y);
    MulCancelLt(p, -1, r);
    DivModUnique(rem, p, r, 0);
  }

  method DivModWord(hi: u64, lo: u64, y: u64) returns (q: u64, r: u64)
    requires hi < y
    ensures q * y + r == hi * B + lo && r < y
  {
    hide Pow, BitLen, BitOr;
    var s := LeadingZeros(y);
    ghost var p := Pow(2, s);
    PowPositive(2, s);
    MulLe(p, 0, y);
    ShiftedDividend(hi, lo, y, s, p);
    var yy := Shl64(y, s);
    assert yy == y * p;
    var yn1, yn0 := yy / TWO32, yy % TWO32;
    var un32: u64 := HeadWord(hi, lo, s);
    var un10 := Shl64(lo, s);
    var un1, un0 := un10 / TWO32, un10 % TWO32;

    var q1, _ := QuotientDigit(un32, un1, yn1, yn0);
    WrappedDifference(un32, TWO32, un1, q1, yy);
    var un21 := WrappingSub(WrappingAdd(WrappingMul(un32, TWO32), un1), WrappingMul(q1, yy));

    var q0, _ := QuotientDigit(un21, un0, yn1, yn0);
    WrappedDifference(un21, TWO32, un0, yy, q0);
    var rem := WrappingSub(WrappingAdd(WrappingMul(un21, TWO32), un0), WrappingMul(yy, q0));

    Assemble(hi * B + lo, y, p, un32, un1, un0, q1, q0, un21, rem);
    q := Add64(Mul64(q1, TWO32), q0);
    r := Shr64(rem, s);
  }
}
