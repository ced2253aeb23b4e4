/** Addition and subtraction with carry: whole numbers, and in place on part of a buffer. */
module AddSub {
  import opened Arith
  import opened Limbs
  import opened Words

  datatype BinOp = Add | Sub {
    /** The effect of an operand, a carry or a borrow on the result. */
    function Sign(): int { if Add? then 1 else -1 }

    function Apply(a: u64, b: u64): (u64, bool) {
      if Add? then OverflowingAdd64(a, b) else OverflowingSub64(a, b)
    }
  }

  /** One column of `uint_overflowing_binop!`: operand first, then the carry. */
  function CarryColumn(op: BinOp, a: u64, b: u64, carry: u64): (r: (u64, u64))
    requires carry <= 1
    ensures r.1 <= 1
    ensures r.0 == a + op.Sign() * b + op.Sign() * carry - op.Sign() * r.1 * B
  {
    if carry != 0 then
      var (res1, overflow1) := op.Apply(a, b);
      var (res2, overflow2) := op.Apply(res1, carry);
      (res2, ToInt(overflow1) + ToInt(overflow2))
    else
      var (res, overflow) := op.Apply(a, b);
      (res, ToInt(overflow))
  }

  /** One column of `binop_slice`: the carry is added to the operand first. */
  function BinopCarry(op: BinOp, a: u64, b: u64, c: bool): (r: (u64, bool))
    ensures r.0 == a + op.Sign() * b + op.Sign() * ToInt(c) - op.Sign() * ToInt(r.1) * B
  {
    var (res1, overflow1) := OverflowingAdd64(b, ToInt(c));
    var (res2, overflow2) := op.Apply(a, res1);
    (res2, overflow1 || overflow2)
  }

  /** Adding a column of weight p to a partial result keeps it exact. */
  lemma CarryStep(sign: int, r: int, x: int, y: int, c: int, vr: int, vx: int, vy: int, c': int, p: int)
    requires r == x + sign * y + sign * c - sign * c' * B
    requires vr == vx + sign * (vy - c * p)
    requires sign == 1 || sign == -1
    ensures vr + r * p == (vx + x * p) + sign * ((vy + y * p) - c' * (B * p))
  {
    assert c' * (B * p) == c' * B * p;
    if sign == 1 {
      assert r * p == x * p + y * p + c * p - c' * B * p;
    } else {
      assert r * p == x * p - y * p - c * p + c' * B * p;
    }
  }

  method OverflowingBinop(op: BinOp, me: seq<u64>, you: seq<u64>) returns (r: seq<u64>, overflow: bool)
    requires |me| == |you|
    ensures |r| == |me|
    ensures Val(r) == Val(me) + op.Sign() * (Val(you) - ToInt(overflow) * Modulus(|me|))
  {
    hide Val, Pow;
    var n := |me|;
    var ret := new u64[n](_ => 0);
    var carry: u64 := 0;
    ValEmpty();
    assert ret[..0] == [] && me[..0] == [] && you[..0] == [];
    for i := 0 to n
      invariant carry <= 1
      invariant Val(ret[..i]) == Val(me[..i]) + op.Sign() * (Val(you[..i]) - carry * Pow(B, i))
    {
      var (res, c) := CarryColumn(op, me[i], you[i], carry);
      PowSucc(B, i);
      CarryStep(op.Sign(), res, me[i], you[i], carry, Val(ret[..i]), Val(me[..i]), Val(you[..i]), c, Pow(B, i));
      ValPrefix(me, i);
      ValPrefix(you, i);
      ret[i] := res;
      carry := c;
      ValPrefix(ret[..], i);
      assert ret[..][..i] == ret[..i] && ret[..][..i + 1] == ret[..i + 1];
    }
    assert me[..n] == me && you[..n] == you && ret[..n] == ret[..];
    r, overflow := ret[..], carry > 0;
  }

  method OverflowingAdd(me: seq<u64>, you: seq<u64>) returns (r: seq<u64>, overflow: bool)
    requires |me| == |you|
    ensures |r| == |me|
    ensures Val(r) == (Val(me) + Val(you)) % Modulus(|me|)
    ensures overflow <==> Val(me) + Val(you) >= Modulus(|me|)
  {
    hide Val, Pow;
    r, overflow := OverflowingBinop(Add, me, you);
    ValBound(r);
    DivModUnique(Val(me) + Val(you), Modulus(|me|), ToInt(overflow), Val(r));
  }

  method OverflowingSub(me: seq<u64>, you: seq<u64>) returns (r: seq<u64>, overflow: bool)
    requires |me| == |you|
    ensures |r| == |me|
    ensures Val(r) == (Val(me) - Val(you)) % Modulus(|me|)
    ensures overflow <==> Val(me) < Val(you)
  {
    hide Val, Pow;
    r, overflow := OverflowingBinop(Sub, me, you);
    ValBound(r);
    ValBound(you);
    Borrowed(Val(r), Val(me), Val(you), ToInt(overflow), Modulus(|me|));
  }

  /** Only a true difference below zero borrows. */
  lemma Borrowed(r: nat, x: nat, y: nat, c: nat, m: nat)
    requires r < m && y < m && c <= 1
    requires r == x - y + c * m
    ensures r == (x - y) % m
    ensures c == 1 <==> x < y
  {
    DivModUnique(x - y, m, 0 - c, r);
  }

  /** The number of words `binop_slice` touches: it stops at the shorter operand. */
  function ZipLen(available: nat, b: seq<u64>): nat {
    if available < |b| then available else |b|
  }

  /** Adds or subtracts `b` in place into the words of `a` from index `from` on. */
  method BinopSlice(op: BinOp, a: array<u64>, from: nat, b: seq<u64>) returns (c: bool)
    requires from <= a.Length
    modifies a
    ensures var k := ZipLen(a.Length - from, b);
      && a[..from] == old(a[..from])
      && a[from + k..] == old(a[from + k..])
      && Val(a[from..from + k]) ==
           old(Val(a[from..from + k])) + op.Sign() * (Val(b[..k]) - ToInt(c) * Modulus(k))
  {
    hide Val, Pow;
    ghost var k := ZipLen(a.Length - from, b);
    ghost var was := a[from..];
    c := false;
    ValEmpty();
    assert a[from..from] == [] && was[..0] == [] && b[..0] == [];
    for i := 0 to ZipLen(a.Length - from, b)
      invariant a[..from] == old(a[..from])
      invariant a[from + i..] == old(a[from + i..])
      invariant Val(a[from..from + i]) == Val(was[..i]) + op.Sign() * (Val(b[..i]) - ToInt(c) * Pow(B, i))
    {
      assert a[from + i] == a[from + i..][0] == old(a[from + i..])[0] == was[i];
      var (res, carry) := BinopCarry(op, a[from + i], b[i], c);
      PowSucc(B, i);
      CarryStep(op.Sign(), res, was[i], b[i], ToInt(c), Val(a[from..from + i]), Val(was[..i]), Val(b[..i]), ToInt(carry), Pow(B, i));
      ValPrefix(was, i);
      ValPrefix(b, i);
      ValSnoc(a[from..from + i], res);
      ghost var done := a[from..from + i];
      ghost var rest := a[from + i..];
      a[from + i] := res;
      c := carry;
      assert a[from..from + i + 1] == done + [res];
      assert a[from + i + 1..] == rest[1..] == old(a[from + i + 1..]);
    }
    assert was[..k] == old(a[from..from + k]);
  }
}
