/** Unsigned integers as items: the shortest big-endian bytes, and nothing else is accepted back. */
module Integers {
  import opened Arith
  import opened Bytes
  import opened Wrappers
  import opened Words
  import opened Encoding
  import opened Reader
  import opened RoundTrip

  // ---------- Writing ----------

  /** `to_be_bytes` for a type of w bytes. */
  function FixedBE(n: nat, w: nat): (s: seq<byte>)
    ensures |s| == w
  {
    if w == 0 then [] else FixedBE(n / 256, w - 1) + [n % 256]
  }

  /** `leading_zeros() / 8` for a type of w bytes. */
  function LeadingEmptyBytes(n: nat, w: nat): nat
    requires BitLen(n) <= 8 * w
  { (8 * w - BitLen(n)) / 8 }

  lemma Pow256(k: nat)
    ensures Pow(256, k) == Pow(2, 8 * k)
  {
    PowAdd(2, 4, 4);
    PowAdd(2, 2, 2);
    PowTwo(2);
    PowMul(2, 8, k);
  }

  /** A number needs as many bytes as its bits fill. */
  lemma ByteCount(n: nat, w: nat)
    requires n < Pow(256, w)
    ensures BitLen(n) <= 8 * w && |BE(n)| <= w
    ensures LeadingEmptyBytes(n, w) == w - |BE(n)|
  {
    hide Pow, BE, BitLen;
    BELength(n, w);
    Pow256(w);
    BitLenAtMost(n, 8 * w);
    var k := |BE(n)|;
    BELength(n, k);
    Pow256(k);
    BitLenAtMost(n, 8 * k);
    if k > 0 {
      BELength(n, k - 1);
      Pow256(k - 1);
      BitLenBounds(n);
      if BitLen(n) <= 8 * (k - 1) { PowIncreases(2, BitLen(n), 8 * (k - 1)); }
    }
  }

  /** Cutting the empty bytes off leaves the shortest form. */
  lemma {:induction false} CutIsShortest(n: nat, w: nat)
    requires |BE(n)| <= w
    ensures FixedBE(n, w)[w - |BE(n)|..] == BE(n)
  {
    if w > 0 && n > 0 {
      CutIsShortest(n / 256, w - 1);
    }
  }

  /** `rlp_append` of u16 to u128: the bytes handed to the encoder. */
  method UintBytes(n: nat, w: nat) returns (b: seq<byte>)
    requires n < Pow(256, w)
    ensures b == BE(n)
  {
    hide Pow, BE, BitLen, FixedBE;
    ByteCount(n, w);
    CutIsShortest(n, w);
    var leadingEmptyBytes := LeadingEmptyBytes(n, w);
    var buffer := FixedBE(n, w);
    b := buffer[leadingEmptyBytes..];
  }

  // ---------- Reading ----------

  /** What the decoders of a type of w bytes make of a byte string. */
  function UintOf(bytes: seq<byte>, w: nat): Result<nat, DecoderError> {
    if bytes == [] then Ok(0)
    else if |bytes| > 1 && |bytes| > w then Err(RlpIsTooBig)
    else if bytes[0] == 0 then Err(RlpInvalidIndirection)
    else Ok(FromBE(bytes))
  }

  /** `decode` of u8 to u128 on the bytes of an item; the sum never leaves the type. */
  method DecodeBytes(bytes: seq<byte>, w: nat) returns (r: Result<nat, DecoderError>)
    requires w > 0
    ensures r == UintOf(bytes, w)
    ensures r.Ok? ==> r.value < Pow(256, w)
  {
    hide Pow, FromBE;
    var l := |bytes|;
    FromBEEmpty();
    FromBEBound(bytes);
    if l <= w { PowIncreases(256, l, w); }
    if l == 0 {
      PowPositive(256, w);
      return Ok(0);
    }
    if l == 1 {
      assert bytes == [] + [bytes[0]];
      FromBESnoc([], bytes[0]);
      if bytes[0] != 0 { return Ok(bytes[0]); }
      return Err(RlpInvalidIndirection);
    }
    if l > w { return Err(RlpIsTooBig); }
    if bytes[0] == 0 { return Err(RlpInvalidIndirection); }
    var res: nat := 0;
    assert bytes[..0] == [];
    for i := 0 to l
      invariant res == FromBE(bytes[..i]) * Pow(256, l - i)
    {
      var weight := Pow(256, l - 1 - i);
      assert bytes[..i + 1] == bytes[..i] + [bytes[i]];
      FromBESnoc(bytes[..i], bytes[i]);
      PowSucc(256, l - 1 - i);
      ShiftByte(FromBE(bytes[..i]), bytes[i], weight);
      res := res + Times(bytes[i], weight);
    }
    PowZero(256);
    assert bytes[..l] == bytes;
    return Ok(res);
  }

  /** Decoding an item as an integer of w bytes. */
  function DecodeUint(s: seq<byte>, w: nat): Result<nat, DecoderError> {
    match DecodeValue(s)
    case Err(e) => Err(e)
    case Ok(b) => UintOf(b, w)
  }

  /** A byte string is read as n exactly when it is how n is written and n fits; too long and a leading zero are told apart. */
  lemma UintReads(bytes: seq<byte>, w: nat, n: nat)
    requires w > 0
    ensures UintOf(bytes, w) == Ok(n) <==> n < Pow(256, w) && bytes == BE(n)
    ensures UintOf(bytes, w) == Err(RlpIsTooBig) <==> |bytes| > w
    ensures UintOf(bytes, w) == Err(RlpInvalidIndirection) <==> 0 < |bytes| <= w && bytes[0] == 0
  {
    hide Pow, BE, FromBE;
    BELength(n, w);
    FromToBE(n);
    ToFromBEIf(bytes);
    FromBEEmpty();
    BEEmpty();
  }

  lemma ToFromBEIf(bytes: seq<byte>)
    ensures bytes == [] || bytes[0] != 0 ==> BE(FromBE(bytes)) == bytes
  {
    if bytes == [] || bytes[0] != 0 { ToFromBE(bytes); }
  }

  // ---------- Both ways ----------

  /** What one integer type writes, another reads back exactly when the value fits it. */
  lemma DecodeWritten(n: nat, v: nat, w: nat)
    requires n < Pow(256, v) && v <= 16 && w > 0
    ensures DecodeUint(Enc(Data(BE(n))), w) == if n < Pow(256, w) then Ok(n) else Err(RlpIsTooBig)
  {
    hide Pow, BE, FromBE, DecodeValue;
    BELength(n, v);
    BELength(n, w);
    FromToBE(n);
    ShortEncoding(BE(n));
    DecodeEncoded(BE(n));
    if BE(n) == [] { FromBEEmpty(); }
  }

  lemma ShortEncoding(b: seq<byte>)
    requires |b| <= 16
    ensures |Enc(Data(b))| < USIZE
  {}

  /** There is only one way to write an integer: an item that is read as n is what n is written as. */
  lemma WrittenOnce(s: seq<byte>, w: nat, n: nat)
    requires IsItem(s) && w > 0 && DecodeUint(s, w) == Ok(n)
    ensures s == Enc(Data(BE(n))) && n < Pow(256, w)
  {
    hide Pow, BE, FromBE, DecodeValue, Enc, ItemInfo;
    var d := DecodeValue(s).value;
    EncodeDecoded(s, d);
    ToFromBE(d);
    FromBEEmpty();
    BEEmpty();
    BELength(n, w);
  }

  lemma BEEmpty()
    ensures BE(0) == []
  {}
}
