/** Decimal parsing and printing. */
module Decimal {
  import opened Arith
  import opened Limbs
  import opened Wrappers
  import opened Bytes
  import AddSub
  import Mul
  import Div

  datatype FromDecStrErr = InvalidCharacter | InvalidLength

  const ZERO_CHAR: byte := 48

  predicate IsDigit(b: byte) { ZERO_CHAR <= b <= ZERO_CHAR + 9 }

  ghost predicate AllDigits(s: seq<byte>) {
    forall k :: 0 <= k < |s| ==> IsDigit(s[k])
  }

  /** The number written by decimal digits, most significant first. */
  ghost function DecVal(s: seq<byte>): nat
    requires AllDigits(s)
  {
    if s == [] then 0 else 10 * DecVal(s[..|s| - 1]) + (s[|s| - 1] - ZERO_CHAR)
  }

  /** The usual way of writing v: digits without a leading zero. */
  ghost predicate Writes(s: seq<byte>, v: nat) {
    && AllDigits(s) && s != []
    && DecVal(s) == v
    && (s[0] != ZERO_CHAR || |s| == 1)
  }

  /** The digits are those of ASCII, the first one counting most. */
  lemma DecValExample(b: byte)
    ensures IsDigit(b) <==> 0x30 <= b <= 0x39
    ensures AllDigits([0x34, 0x32]) && DecVal([0x34, 0x32]) == 42
  {
    DecValSnoc([], 0x34);
    DecValSnoc([0x34], 0x32);
    assert [0x34, 0x32] == [0x34] + [0x32] && [] + [0x34] == [0x34];
  }

  lemma DecValSnoc(s: seq<byte>, d: byte)
    requires AllDigits(s) && IsDigit(d)
    ensures AllDigits(s + [d])
    ensures DecVal(s + [d]) == 10 * DecVal(s) + (d - ZERO_CHAR)
  {
    assert (s + [d])[..|s|] == s;
  }

  lemma {:induction false} DecValCons(d: byte, s: seq<byte>)
    requires IsDigit(d) && AllDigits(s)
    ensures AllDigits([d] + s)
    ensures DecVal([d] + s) == (d - ZERO_CHAR) * Pow(10, |s|) + DecVal(s)
  {
    if s == [] {
      DecValSnoc([], d);
      assert [d] + s == [] + [d];
      PowZero(10);
    } else {
      var s', w := s[..|s| - 1], s[|s| - 1];
      assert [d] + s == ([d] + s') + [w];
      DecValCons(d, s');
      DecValSnoc([d] + s', w);
      PowSucc(10, |s'|);
    }
  }

  lemma {:induction false} DecValPrefix(s: seq<byte>, k: nat)
    requires AllDigits(s) && k <= |s|
    ensures AllDigits(s[..k]) && DecVal(s[..k]) <= DecVal(s)
  {
    if k < |s| {
      DecValPrefix(s[..|s| - 1], k);
      assert s[..|s| - 1][..k] == s[..k];
    } else {
      assert s[..k] == s;
    }
  }

  // ---------- Parsing ----------

  /** What `from_dec_str` answers for n-word numbers. */
  ghost predicate ParsesTo(s: seq<byte>, n: nat, r: Result<seq<u64>, FromDecStrErr>) {
    match r
    case Ok(v) => |v| == n && AllDigits(s) && DecVal(s) < Modulus(n) && Val(v) == DecVal(s)
    case Err(InvalidLength) => TooLong(s, n)
    case Err(InvalidCharacter) => !AllDigits(s) && !TooLong(s, n)
  }

  /** Some leading digits already make a number that does not fit. */
  ghost predicate TooLong(s: seq<byte>, n: nat) {
    exists k :: 0 <= k <= |s| && AllDigits(s[..k]) && DecVal(s[..k]) >= Modulus(n)
  }

  lemma NotTooLong(s: seq<byte>, n: nat, i: nat)
    requires i <= |s| && AllDigits(s[..i]) && DecVal(s[..i]) < Modulus(n)
    requires i == |s| || !IsDigit(s[i])
    ensures !TooLong(s, n)
  {
    forall k | 0 <= k <= |s| ensures AllDigits(s[..k]) ==> DecVal(s[..k]) < Modulus(n) {
      if k > i {
        assert s[..k][i] == s[i];
      } else {
        DecValPrefix(s[..i], k);
        assert s[..i][..k] == s[..k];
      }
    }
  }

  /** The outcome is determined: success exactly when all bytes are digits and the value fits. */
  lemma ParseOutcome(s: seq<byte>, n: nat, r: Result<seq<u64>, FromDecStrErr>)
    requires ParsesTo(s, n, r)
    ensures r.Ok? <==> AllDigits(s) && DecVal(s) < Modulus(n)
  {
    assert s[..|s|] == s;
    if AllDigits(s) && DecVal(s) < Modulus(n) { NotTooLong(s, n, |s|); }
  }

  /** One more digit. */
  method TimesTenPlus(res: seq<u64>, digit: byte) returns (r: Option<seq<u64>>)
    requires |res| > 0 && digit <= 9
    ensures r.None? <==> 10 * Val(res) + digit >= Modulus(|res|)
    ensures r.Some? ==> |r.value| == |res| && Val(r.value) == 10 * Val(res) + digit
  {
    hide Val, Pow;
    var m, carry := Mul.OverflowingMulU64(res, 10);
    ValBound(m);
    CarryMeansOverflow(Val(m), carry, Modulus(|res|), Val(res) * 10);
    if carry > 0 { return None; }
    var s, overflow := AddSub.OverflowingAdd(m, Div.FromU64(digit, |res|));
    if overflow { return None; }
    DivModUnique(Val(m) + digit, Modulus(|res|), 0, Val(m) + digit);
    return Some(s);
  }

  lemma CarryMeansOverflow(v: nat, carry: nat, m: nat, x: int)
    requires v + carry * m == x && v < m
    ensures carry > 0 <==> x >= m
  {
    if carry > 0 { MulLe(m, 1, carry); }
  }

  method FromDecStr(s: seq<byte>, n: nat) returns (r: Result<seq<u64>, FromDecStrErr>)
    requires n > 0
    ensures ParsesTo(s, n, r)
  {
    hide Val, Pow;
    var res := Zeros(n);
    ValZeros(n);
    assert s[..0] == [];
    for i := 0 to |s|
      invariant |res| == n && AllDigits(s[..i])
      invariant Val(res) == DecVal(s[..i]) < Modulus(n)
    {
      var b := (s[i] - ZERO_CHAR) % 256;
      if b > 9 {
        NotTooLong(s, n, i);
        return Err(InvalidCharacter);
      }
      assert s[..i + 1] == s[..i] + [s[i]];
      DecValSnoc(s[..i], s[i]);
      var next := TimesTenPlus(res, b);
      if next.None? {
        return Err(InvalidLength);
      }
      res := next.value;
    }
    assert s[..|s|] == s;
    r := Ok(res);
  }

  // ---------- Printing ----------

  /** Twenty decimal digits are enough for each word. */
  lemma DigitsEnough(n: nat)
    requires n > 0
    ensures Modulus(n) < Pow(10, 20 * n)
  {
    hide Pow;
    TenToTwenty();
    PowMul(10, 20, n);
    BaseStrict(B, Pow(10, 20), n);
  }

  lemma TenToTwenty()
    ensures Pow(10, 20) == 100_000_000_000_000_000_000
  {
    assert Pow(10, 5) == 100_000;
    PowAdd(10, 5, 5);
    PowAdd(10, 10, 10);
  }

  lemma {:induction false} BaseStrict(a: nat, b: nat, e: nat)
    requires 0 < a < b && e > 0
    ensures Pow(a, e) < Pow(b, e)
  {
    if e > 1 {
      BaseStrict(a, b, e - 1);
      MulLe(a, Pow(a, e - 1), Pow(b, e - 1));
      PowPositive(b, e - 1);
      MulLt(Pow(b, e - 1), a, b);
    } else {
      PowOne(a);
      PowOne(b);
    }
  }

  /** Digits still to come cannot exceed the room left in the buffer. */
  lemma RoomLeft(v: nat, current: nat, written: nat, low: nat, n: nat)
    requires n > 0 && v < Modulus(n)
    requires v == current * Pow(10, written) + low && current > 0
    ensures written < 20 * n
  {
    hide Pow;
    DigitsEnough(n);
    MulLe(Pow(10, written), 1, current);
    PowCancelLt(10, written, 20 * n);
  }

  /** What the printing loop keeps: the digits written so far stand for the part divided off. */
  ghost predicate Printed(v: nat, current: nat, s: seq<byte>) {
    AllDigits(s) && v == current * Pow(10, |s|) + DecVal(s)
  }

  lemma PrintStep(v: nat, current: nat, s: seq<byte>, q: nat, digit: byte)
    requires Printed(v, current, s) && current == q * 10 + digit && digit <= 9
    ensures Printed(v, q, [digit + ZERO_CHAR] + s)
  {
    hide Pow, DecVal;
    DecValCons(digit + ZERO_CHAR, s);
    PowSucc(10, |s|);
    Regroup(q, digit, Pow(10, |s|), current);
  }

  lemma Regroup(q: int, d: int, p: int, c: int)
    requires c == q * 10 + d
    ensures c * p == q * (10 * p) + d * p
  {}

  method Display(me: seq<u64>) returns (s: seq<byte>)
    requires |me| > 0
    ensures Writes(s, Val(me))
  {
    hide Val, Pow, DecVal;
    var n := |me|;
    var nonzero := Mul.AnyNonzero(me);
    if !nonzero {
      DecValCons(ZERO_CHAR, []);
      DecValEmpty();
      assert [ZERO_CHAR] + [] == [ZERO_CHAR];
      return [ZERO_CHAR];
    }
    ValBound(me);
    var buf := new byte[n * 20](_ => 0);
    var i := buf.Length - 1;
    var current := me;
    var ten := Div.FromU64(10, n);
    DecValEmpty();
    PowZero(10);
    while true
      invariant 0 <= i < buf.Length && |current| == n
      invariant Printed(Val(me), Val(current), buf[i + 1..])
      invariant Val(current) > 0
      decreases i
    {
      var q, r := Div.DivMod(current, ten);
      LowWord(r);
      var digit := r[0];
      PrintStep(Val(me), Val(current), buf[i + 1..], Val(q), digit);
      ghost var done := buf[i + 1..];
      buf[i] := digit + ZERO_CHAR;
      assert buf[i..] == [digit + ZERO_CHAR] + done;
      current := q;
      var more := Mul.AnyNonzero(current);
      if !more {
        break;
      }
      RoomLeft(Val(me), Val(current), |buf[i..]|, DecVal(buf[i..]), n);
      i := i - 1;
    }
    s := buf[i..];
  }

  lemma DecValEmpty()
    ensures DecVal([]) == 0
  {}

  /** A value below ten is its own lowest word. */
  lemma LowWord(r: seq<u64>)
    requires |r| > 0 && Val(r) < 10
    ensures r[0] == Val(r)
  {
    hide Val, Pow;
    PowOne(B);
    Div.HighWordsZero(r, 1);
    assert r[..1] == [r[0]];
    ValOne(r[0]);
  }

  // ---------- Printing and parsing undo each other ----------

  /** Parsing what was printed gives back the very same words. */
  lemma PrintThenParse(x: seq<u64>, s: seq<byte>, r: Result<seq<u64>, FromDecStrErr>)
    requires Writes(s, Val(x))
    requires ParsesTo(s, |x|, r)
    ensures r == Ok(x)
  {
    hide Val, Pow;
    ValBound(x);
    ParseOutcome(s, |x|, r);
    ValInjective(r.value, x);
  }

  /** Printing what was parsed gives the text without its leading zeros. */
  lemma ParseThenPrint(s: seq<byte>, n: nat, v: seq<u64>, t: seq<byte>)
    requires ParsesTo(s, n, Ok(v))
    requires Writes(t, Val(v))
    ensures t == if Trimmed(s) == [] then [ZERO_CHAR] else Trimmed(s)
  {
    hide Val, Pow;
    TrimmedValue(s);
    if Trimmed(s) == [] { DecValCons(ZERO_CHAR, []); DecValEmpty(); assert [ZERO_CHAR] + [] == [ZERO_CHAR]; }
    WritesUnique(t, if Trimmed(s) == [] then [ZERO_CHAR] else Trimmed(s), Val(v));
  }

  function Trimmed(s: seq<byte>): seq<byte> {
    if s != [] && s[0] == ZERO_CHAR then Trimmed(s[1..]) else s
  }

  lemma {:induction false} TrimmedValue(s: seq<byte>)
    requires AllDigits(s)
    ensures AllDigits(Trimmed(s)) && DecVal(Trimmed(s)) == DecVal(s)
    ensures Trimmed(s) != [] ==> Trimmed(s)[0] != ZERO_CHAR
  {
    hide DecVal, Pow;
    if s != [] && s[0] == ZERO_CHAR {
      TrimmedValue(s[1..]);
      DecValCons(s[0], s[1..]);
      assert s == [s[0]] + s[1..];
    }
  }

  /** The first digit fixes the length of the text. */
  lemma {:induction false} DecValRange(s: seq<byte>)
    requires AllDigits(s) && s != []
    ensures (s[0] - ZERO_CHAR) * Pow(10, |s| - 1) <= DecVal(s) < Pow(10, |s|)
  {
    hide DecVal, Pow;
    assert s == [s[0]] + s[1..];
    DecValCons(s[0], s[1..]);
    PowSucc(10, |s| - 1);
    MulLe(Pow(10, |s| - 1), s[0] - ZERO_CHAR, 9);
    if |s| > 1 { DecValRange(s[1..]); } else { DecValEmpty(); PowZero(10); }
  }

  lemma LengthFixed(s: seq<byte>, t: seq<byte>)
    requires AllDigits(s) && AllDigits(t) && s != [] && t != [] && DecVal(s) == DecVal(t)
    requires s[0] != ZERO_CHAR || |s| == 1
    requires t[0] != ZERO_CHAR || |t| == 1
    ensures |s| <= |t|
  {
    hide DecVal, Pow;
    if |s| > |t| {
      DecValRange(s);
      DecValRange(t);
      PowIncreases(10, |t|, |s| - 1);
      MulLe(Pow(10, |s| - 1), 1, s[0] - ZERO_CHAR);
    }
  }

  lemma {:induction false} SameLengthUnique(s: seq<byte>, t: seq<byte>)
    requires AllDigits(s) && AllDigits(t) && |s| == |t| && DecVal(s) == DecVal(t)
    ensures s == t
  {
    if s != [] {
      SameLengthUnique(s[..|s| - 1], t[..|t| - 1]);
      assert s == s[..|s| - 1] + [s[|s| - 1]] && t == t[..|t| - 1] + [t[|t| - 1]];
    }
  }

  /** There is only one way of writing a number. */
  lemma WritesUnique(s: seq<byte>, t: seq<byte>, v: nat)
    requires Writes(s, v) && Writes(t, v)
    ensures s == t
  {
    hide DecVal, Pow;
    LengthFixed(s, t);
    LengthFixed(t, s);
    SameLengthUnique(s, t);
  }
}
