/** Operations on a single 64-bit word, up to dividing two words by one (`div_mod_word`). */
module Words {
  import opened Arith
  import opened Limbs

  const TWO32: nat := 0x1_0000_0000

  // Arithmetic that the source writes with `+`, `-`, `*`: it must not leave 64 bits.

  function Add64(a: u64, b: u64): (r: u64)
    requires a + b < B
  { a + b }

  function Sub64(a: u64, b: u64): (r: u64)
    requires b <= a
  { a - b }

  function Mul64(a: u64, b: u64): (r: u64)
    requires 0 <= a * b < B
  { a * b }

  // Arithmetic modulo 2^64.

  function WrappingAdd(a: u64, b: u64): u64 { (a + b) % B }

  function WrappingSub(a: u64, b: u64): u64 { (a - b) % B }

  function WrappingMul(a: u64, b: u64): u64 { (a * b) % B }

  function OverflowingAdd64(a: u64, b: u64): (r: (u64, bool))
    ensures r.0 == a + b - (if r.1 then B else 0)
  { ((a + b) % B, a + b >= B) }

  function OverflowingSub64(a: u64, b: u64): (r: (u64, bool))
    ensures r.0 == a - b + (if r.1 then B else 0)
  { ((a - b) % B, a < b) }

  function ToInt(b: bool): u64 { if b then 1 else 0 }

  /** A 128-bit product split into its high and low word (`split_u128`). */
  function Split128(a: nat): (r: (u64, u64))
    requires a < B * B
    ensures r.0 * B + r.1 == a
  {
    DivLt(a, B, B);
    (a / B, a % B)
  }

  /** The number of bits needed to write `a`. */
  function BitLen(a: nat): nat { if a == 0 then 0 else 1 + BitLen(a / 2) }

  lemma BitLenZero()
    ensures BitLen(0) == 0
  {}

  lemma {:induction false} BitLenBounds(a: nat)
    ensures a < Pow(2, BitLen(a))
    ensures a > 0 ==> BitLen(a) > 0 && Pow(2, BitLen(a) - 1) <= a
  {
    if a > 0 { BitLenBounds(a / 2); }
  }

  /** The bit length is the only k with 2^(k-1) <= a < 2^k. */
  lemma BitLenUnique(a: nat, k: nat)
    requires 0 < k && Pow(2, k - 1) <= a < Pow(2, k)
    ensures BitLen(a) == k
  {
    BitLenBounds(a);
    PowPositive(2, k - 1);
    PowCancelLt(2, k - 1, BitLen(a));
    PowCancelLt(2, BitLen(a) - 1, k);
  }

  lemma BitLenAtMost(a: nat, k: nat)
    requires a < Pow(2, k)
    ensures BitLen(a) <= k
  {
    BitLenBounds(a);
    if a > 0 { PowCancelLt(2, BitLen(a) - 1, k); }
  }

  lemma BitLenMonotone(a: nat, b: nat)
    requires BitLen(a) < BitLen(b)
    ensures a < b
  {
    BitLenBounds(a);
    BitLenBounds(b);
    PowIncreases(2, BitLen(a), BitLen(b) - 1);
  }

  /** `v` without its low s bits. */
  function DivPow2(v: nat, s: nat): nat {
    PowPositive(2, s);
    ShrLe(v, Pow(2, s));
    v / Pow(2, s)
  }

  lemma DivPow2Is(v: nat, s: nat, q: nat, r: nat)
    requires v == Pow(2, s) * q + r && r < Pow(2, s)
    ensures DivPow2(v, s) == q
  {
    DivModUnique(v, Pow(2, s), q, r);
  }

  lemma DivPow2Split(v: nat, s: nat) returns (r: nat)
    ensures r < Pow(2, s) && v == Pow(2, s) * DivPow2(v, s) + r
    ensures Pow(2, s) > 0 && r == v % Pow(2, s)
  {
    PowPositive(2, s);
    Division(v, Pow(2, s));
    r := v % Pow(2, s);
  }

  lemma DivPow2Twice(v: nat, a: nat, b: nat)
    ensures DivPow2(DivPow2(v, a), b) == DivPow2(v, a + b)
  {
    PowPositive(2, a);
    PowPositive(2, b);
    PowAdd(2, a, b);
    DivDiv(v, Pow(2, a), Pow(2, b));
  }

  function LeadingZeros(w: u64): (s: nat)
    ensures BitLen(w) <= 64 && s == 64 - BitLen(w)
    ensures w > 0 ==> s < 64 && B / 2 <= w * Pow(2, s) < B
  {
    LeadingZerosRange(w);
    64 - BitLen(w)
  }

  lemma LeadingZerosRange(w: u64)
    ensures BitLen(w) <= 64
    ensures w > 0 ==> BitLen(w) > 0 && B / 2 <= w * Pow(2, 64 - BitLen(w)) < B
  {
    hide Pow, BitLen;
    BIsPow2();
    BitLenAtMost(w, 64);
    BitLenBounds(w);
    var k := BitLen(w);
    PowAdd(2, k, 64 - k);
    PowPositive(2, 64 - k);
    MulLt(Pow(2, 64 - k), w, Pow(2, k));
    if w > 0 {
      PowAdd(2, k - 1, 64 - k);
      PowSucc(2, 63);
      MulLe(Pow(2, 64 - k), Pow(2, k - 1), w);
    }
  }

  function Shl64(w: u64, s: nat): u64
    requires s < 64
  { (w * Pow(2, s)) % B }

  function Shr64(w: u64, s: nat): (r: u64)
    requires s < 64
  {
    PowPositive(2, s);
    ShrLe(w, Pow(2, s));
    w / Pow(2, s)
  }

  lemma ShrLe(w: nat, p: nat)
    requires p > 0
    ensures 0 <= w / p <= w
  {
    MulLe(w, 1, p);
    DivLt(w, p, w + 1);
  }

  /** The word shifted left by s keeps its low 64-s bits. */
  lemma Shl64Low(w: u64, s: nat)
    requires s < 64
    ensures Pow(2, 64 - s) > 0
    ensures Shl64(w, s) == (w % Pow(2, 64 - s)) * Pow(2, s)
  {
    hide Pow;
    PowPositive(2, s);
    PowPositive(2, 64 - s);
    BIsPow2();
    PowAdd(2, 64 - s, s);
    LowProduct(w, Pow(2, s), Pow(2, 64 - s));
  }

  lemma LowProduct(w: nat, p: nat, p': nat)
    requires p > 0 && p' > 0 && p' * p == B
    ensures (w * p) % B == (w % p') * p
  {
    var q, r := w / p', w % p';
    Division(w, p');
    MulSumAssoc(r, q, p', p);
    MulLt(p, r, p');
    MulLe(p, 0, r);
    DivModUnique(w * p, B, q, r * p);
  }

  /** Bitwise or. */
  function BitOr(a: nat, b: nat): nat
    decreases a + b
  {
    if a == 0 && b == 0 then 0
    else 2 * BitOr(a / 2, b / 2) + (if a % 2 == 1 || b % 2 == 1 then 1 else 0)
  }

  lemma {:induction false} BitOrZero(b: nat)
    ensures BitOr(0, b) == b
  {
    if b > 0 { BitOrZero(b / 2); }
  }

  /** Or-ing numbers that share no bit adds them. */
  lemma {:induction false} BitOrDisjoint(a: nat, h: nat, k: nat)
    requires a < Pow(2, k)
    ensures BitOr(a, h * Pow(2, k)) == a + h * Pow(2, k)
  {
    if k == 0 {
      BitOrZero(h * Pow(2, k));
    } else {
      var b := h * Pow(2, k);
      var b' := h * Pow(2, k - 1);
      assert b == 2 * b';
      BitOrDisjoint(a / 2, h, k - 1);
      assert b / 2 == b' && b % 2 == 0;
      if a == 0 && b == 0 {} else {
        assert BitOr(a, b) == 2 * BitOr(a / 2, b / 2) + (if a % 2 == 1 || b % 2 == 1 then 1 else 0);
      }
    }
  }
}
