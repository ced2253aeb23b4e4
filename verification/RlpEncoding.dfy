/** The recursive-length-prefix encoding of Appendix B of the Ethereum Yellow Paper. */
module Encoding {
  import opened Arith
  import opened Bytes
  import opened Words

  datatype Item = Data(bytes: seq<byte>) | List(items: seq<Item>)

  // ---------- Big-endian numbers ----------

  /** The shortest big-endian bytes of n; none for zero. */
  function BE(n: nat): seq<byte> {
    if n == 0 then [] else BE(n / 256) + [n % 256]
  }

  function FromBE(s: seq<byte>): nat {
    if s == [] then 0 else 256 * FromBE(s[..|s| - 1]) + s[|s| - 1]
  }

  lemma FromBESnoc(s: seq<byte>, b: byte)
    ensures FromBE(s + [b]) == 256 * FromBE(s) + b
  {
    assert (s + [b])[..|s|] == s;
  }

  /** Reading back the bytes of a number. */
  lemma {:induction false} FromToBE(n: nat)
    ensures FromBE(BE(n)) == n
    ensures BE(n) != [] ==> BE(n)[0] != 0
  {
    if n != 0 {
      FromToBE(n / 256);
      FromBESnoc(BE(n / 256), n % 256);
    }
  }

  /** Bytes without a leading zero are the shortest ones for their value. */
  lemma {:induction false} ToFromBE(s: seq<byte>)
    requires s == [] || s[0] != 0
    ensures BE(FromBE(s)) == s
  {
    if s != [] {
      var s', b := s[..|s| - 1], s[|s| - 1];
      ToFromBE(s');
      if s' == [] { assert s == [b]; } else { NonZeroBE(s'); }
      assert s == s' + [b];
    }
  }

  lemma {:induction false} NonZeroBE(s: seq<byte>)
    requires s != [] && s[0] != 0
    ensures FromBE(s) > 0
  {
    if |s| > 1 { NonZeroBE(s[..|s| - 1]); }
  }

  /** k bytes suffice exactly for the numbers below 256^k. */
  lemma {:induction false} BELength(n: nat, k: nat)
    ensures |BE(n)| <= k <==> n < Pow(256, k)
  {
    if k == 0 {
    } else if n == 0 {
      PowPositive(256, k);
    } else {
      BELength(n / 256, k - 1);
      PowSucc(256, k - 1);
    }
  }

  lemma BELengthMonotone(m: nat, n: nat)
    requires m <= n
    ensures |BE(m)| <= |BE(n)|
  {
    BELength(n, |BE(n)|);
    BELength(m, |BE(n)|);
  }

  // ---------- The encoding ----------

  /**
   * The prefix for a payload of `len` bytes: one byte up to 55, else the length of the length and
   * the length. The Yellow Paper leaves lengths from 2^64 on undefined; the lead byte wraps there.
   */
  function Header(base: byte, len: nat): seq<byte>
    requires base <= 0xc0
  {
    if len <= 55 then [base + len] else [(base + 55 + |BE(len)|) % 256] + BE(len)
  }

  function Enc(it: Item): seq<byte>
    decreases it, 0
  {
    match it
    case Data(b) => if |b| == 1 && b[0] < 0x80 then b else Header(0x80, |b|) + b
    case List(items) => Header(0xc0, |EncAll(items)|) + EncAll(items)
  }

  function EncAll(items: seq<Item>): seq<byte>
    decreases items, 1
  {
    if items == [] then [] else Enc(items[0]) + EncAll(items[1..])
  }

  lemma {:induction false} EncAllConcat(s: seq<Item>, t: seq<Item>)
    ensures EncAll(s + t) == EncAll(s) + EncAll(t)
  {
    if s == [] {
      assert s + t == t;
    } else {
      assert (s + t)[0] == s[0] && (s + t)[1..] == s[1..] + t;
      EncAllConcat(s[1..], t);
    }
  }

  // ---------- What the encoder writes: lengths narrowed to 32 bits ----------

  /** The prefix as `insert_size` computes it, after `size as u32`. */
  function WrittenHeader(base: byte, len: nat): seq<byte>
    requires base <= 0xc0
  {
    if len <= 55 then [base + len] else [base + 55 + |NarrowBE(len)|] + NarrowBE(len)
  }

  function NarrowBE(len: nat): (s: seq<byte>)
    ensures |s| <= 4
  {
    BELength(len % TWO32, 4);
    Pow256_4();
    BE(len % TWO32)
  }

  lemma Pow256_4()
    ensures Pow(256, 4) == TWO32
  {
    PowTwo(256);
    PowAdd(256, 2, 2);
  }

  function Written(it: Item): seq<byte>
    decreases it, 0
  {
    match it
    case Data(b) => if |b| == 1 && b[0] < 0x80 then b else WrittenHeader(0x80, |b|) + b
    case List(items) => WrittenHeader(0xc0, |WrittenAll(items)|) + WrittenAll(items)
  }

  function WrittenAll(items: seq<Item>): seq<byte>
    decreases items, 1
  {
    if items == [] then [] else Written(items[0]) + WrittenAll(items[1..])
  }

  lemma {:induction false} WrittenAllConcat(s: seq<Item>, t: seq<Item>)
    ensures WrittenAll(s + t) == WrittenAll(s) + WrittenAll(t)
  {
    if s == [] {
      assert s + t == t;
    } else {
      assert (s + t)[0] == s[0] && (s + t)[1..] == s[1..] + t;
      WrittenAllConcat(s[1..], t);
    }
  }

  lemma WrittenAllSnoc(s: seq<Item>, x: Item)
    ensures WrittenAll(s + [x]) == WrittenAll(s) + Written(x)
  {
    WrittenAllConcat(s, [x]);
    assert WrittenAll([x]) == Written(x) + WrittenAll([][..]);
  }

  /** Every payload, at every depth, is shorter than 2^32 bytes. */
  ghost predicate Fits(it: Item)
    decreases it, 0
  {
    match it
    case Data(b) => |b| < TWO32
    case List(items) => |EncAll(items)| < TWO32 && FitsAll(items)
  }

  ghost predicate FitsAll(items: seq<Item>)
    decreases items, 1
  {
    items == [] || (Fits(items[0]) && FitsAll(items[1..]))
  }

  /** A narrowed prefix is never longer, and is right exactly when the length fits. */
  lemma NarrowHeader(base: byte, len: nat)
    requires base <= 0xc0
    ensures |WrittenHeader(base, len)| <= |Header(base, len)|
    ensures len < TWO32 ==> WrittenHeader(base, len) == Header(base, len)
    ensures len >= TWO32 ==> |WrittenHeader(base, len)| < |Header(base, len)|
  {
    hide BE;
    Pow256_4();
    BELength(len, 4);
  }

  lemma HeaderMonotone(base: byte, m: nat, n: nat)
    requires base <= 0xc0 && m <= n
    ensures |Header(base, m)| <= |Header(base, n)|
  {
    hide BE;
    BELengthMonotone(m, n);
  }

  /** The encoder's output is the Yellow Paper's exactly for items whose payloads all fit 32 bits. */
  lemma {:induction false} WrittenIsEncoding(it: Item)
    ensures |Written(it)| <= |Enc(it)|
    ensures Fits(it) <==> Written(it) == Enc(it)
    ensures Fits(it) <==> |Written(it)| == |Enc(it)|
    decreases it, 0
  {
    hide Header, WrittenHeader;
    match it
    case Data(b) =>
      NarrowHeader(0x80, |b|);
    case List(items) =>
      WrittenAllIsEncoding(items);
      var p, w := EncAll(items), WrittenAll(items);
      NarrowHeader(0xc0, |w|);
      HeaderMonotone(0xc0, |w|, |p|);
  }

  lemma {:induction false} WrittenAllIsEncoding(items: seq<Item>)
    ensures |WrittenAll(items)| <= |EncAll(items)|
    ensures FitsAll(items) <==> WrittenAll(items) == EncAll(items)
    ensures FitsAll(items) <==> |WrittenAll(items)| == |EncAll(items)|
    decreases items, 1
  {
    if items != [] {
      WrittenIsEncoding(items[0]);
      WrittenAllIsEncoding(items[1..]);
    }
  }

  /** A string of 2^32 bytes is written with no length at all. */
  lemma LongStringCounterexample()
    ensures var b: seq<byte> := seq(TWO32, _ => 0);
      && Enc(Data(b)) == [0xbc, 1, 0, 0, 0, 0] + b
      && Written(Data(b)) == [0xb7] + b
      && Written(Data(b)) != Enc(Data(b))
  {
    hide BE;
    var b: seq<byte> := seq(TWO32, _ => 0);
    LongLength();
    assert Enc(Data(b))[0] == 0xbc && Written(Data(b))[0] == 0xb7;
  }

  lemma LongLength()
    ensures BE(TWO32) == [1, 0, 0, 0, 0] && BE(0) == []
  {
    hide BE;
    BEUnfold(0x1_0000_0000);
    BEUnfold(0x100_0000);
    BEUnfold(0x1_0000);
    BEUnfold(0x100);
    BEUnfold(1);
    BEUnfold(0);
  }

  lemma BEUnfold(n: nat)
    ensures BE(n) == if n == 0 then [] else BE(n / 256) + [n % 256]
  {}
}
