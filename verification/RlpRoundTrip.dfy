/** Encoding and decoding undo each other. */
module RoundTrip {
  import opened Arith
  import opened Bytes
  import opened Wrappers
  import opened Encoding
  import opened Reader

  /** `decode_value` with the identity: the bytes of a data item. */
  function DecodeValue(bytes: seq<byte>): Result<seq<byte>, DecoderError> {
    if bytes == [] then Err(RlpIsTooShort)
    else
      var l: nat := bytes[0];
      if l <= 0x7f then Ok([bytes[0]])
      else if l <= 0xb7 then
        var lastIndexOf := 1 + l - 0x80;
        if |bytes| < lastIndexOf then Err(RlpInconsistentLengthAndData)
        else
          var d := bytes[1..lastIndexOf];
          if l == 0x81 && d[0] < 0x80 then Err(RlpInvalidIndirection) else Ok(d)
      else if l <= 0xbf then
        var lenOfLen := l - 0xb7;
        var beginOfValue := 1 + lenOfLen;
        if |bytes| < beginOfValue then Err(RlpInconsistentLengthAndData)
        else
          match DecodeUsize(bytes[1..beginOfValue])
          case Err(e) => Err(e)
          case Ok(len) =>
            if beginOfValue + len >= USIZE then Err(RlpInvalidLength)
            else if |bytes| < beginOfValue + len then Err(RlpInconsistentLengthAndData)
            else Ok(bytes[beginOfValue..beginOfValue + len])
      else Err(RlpExpectedToBeData)
  }

  // ---------- Reading a header that was written ----------

  /** A length below 2^64 is written in one to eight bytes and read back. */
  lemma LengthBytes(len: nat)
    requires 0 < len < USIZE
    ensures 1 <= |BE(len)| <= 8 && DecodeUsize(BE(len)) == Ok(len)
  {
    hide Pow;
    Pow256_4();
    PowAdd(256, 4, 4);
    BELength(len, 8);
    FromToBE(len);
  }

  ghost predicate HeaderBase(base: byte) { base == 0x80 || base == 0xc0 }

  /** A written prefix in front of its payload is read back as what it announces. */
  lemma ReadHeader(base: byte, p: seq<byte>, t: seq<byte>)
    requires HeaderBase(base) && |Header(base, |p|)| + |p| < USIZE
    ensures ItemInfo(Header(base, |p|) + p + t) == Ok(PayloadInfo(|Header(base, |p|)|, |p|))
  {
    hide BE, FromBE, DecodeUsize;
    var s := Header(base, |p|) + p + t;
    if |p| > 55 {
      LengthBytes(|p|);
      FromToBE(|p|);
      assert s[1..1 + |BE(|p|)|] == BE(|p|);
      assert s[1] == BE(|p|)[0];
      var l: nat := base + 55 + |BE(|p|)|;
      assert s[0] == l;
      assert HeaderInfo(s) == CalculatePayloadInfo(s, |BE(|p|)|);
    }
  }

  ghost predicate Headed(s: seq<byte>, base: byte, p: seq<byte>) {
    HeaderBase(base) && s == Header(base, |p|) + p
  }

  /** Exactly these slices are one item: a byte below 0x80, and a payload behind the one prefix for its length. */
  lemma ItemIs(s: seq<byte>)
    ensures IsItem(s) <==> |s| < USIZE && ((|s| == 1 && s[0] < 0x80) || exists base, p :: Headed(s, base, p))
  {
    hide ItemInfo, Header;
    if |s| == 1 && s[0] < 0x80 {
      SingleByte(s, []);
      assert s + [] == s;
    } else {
      if |s| < USIZE && exists base, p :: Headed(s, base, p) {
        var base, p :| Headed(s, base, p);
        ReadHeader(base, p, []);
        assert s + [] == s;
      }
      if IsItem(s) { var base, p := ItemHeaded(s); }
    }
  }

  lemma ItemHeaded(s: seq<byte>) returns (base: byte, p: seq<byte>)
    requires IsItem(s) && !(|s| == 1 && s[0] < 0x80)
    ensures |s| < USIZE && Headed(s, base, p)
  {
    hide BE, FromBE;
    var i := ItemInfo(s).value;
    base := if s[0] < 0xc0 then 0x80 else 0xc0;
    p := s[i.headerLen..];
    if s[0] > base + 55 {
      var k := s[0] - base - 55;
      assert i.headerLen == 1 + k && DecodeUsize(s[1..1 + k]) == Ok(|p|);
      ToFromBE(s[1..1 + k]);
      assert s == [s[0]] + s[1..1 + k] + p;
    } else {
      assert s == [s[0]] + p;
    }
  }

  /** Prefixes as bytes: of nothing, "cat", 56 bytes, the empty list, and a list with a payload of 56 bytes. */
  lemma EncodingExamples(b: seq<byte>)
    requires |b| == 56
    ensures Written(Data([])) == [0x80] && Written(Data([0x63, 0x61, 0x74])) == [0x83, 0x63, 0x61, 0x74]
    ensures Written(Data(b)) == [0xb8, 0x38] + b
    ensures Written(List([])) == [0xc0] && Written(List([Data(b[..54])])) == [0xf7, 0xb6] + b[..54]
    ensures Written(List([Data(b[..55])])) == [0xf8, 0x38, 0xb7] + b[..55]
  {
    assert BE(56) == [0x38] by { assert BE(0) == []; }
    var (x, y) := (Data(b[..54]), Data(b[..55]));
    assert Written(x) == [0xb6] + b[..54] && Written(y) == [0xb7] + b[..55];
    WrittenOne(x);
    WrittenOne(y);
    assert WrittenAll([]) == [];
  }

  lemma WrittenOne(it: Item)
    ensures WrittenAll([it]) == Written(it)
  {
    assert [it][1..] == [];
  }

  /** Of the items that are data, exactly a byte below 0x80 behind a prefix of its own is refused. */
  lemma DataDecodes(s: seq<byte>)
    requires IsItem(s) && s[0] < 0xc0
    ensures DecodeValue(s).Err? <==> |s| == 2 && s[0] == 0x81 && s[1] < 0x80
    ensures DecodeValue(s).Err? ==> DecodeValue(s).error == RlpInvalidIndirection
  {
    hide FromBE;
  }

  /** A malformed item is no reason to expect a list. */
  lemma {:induction false} WalkError(s: seq<byte>, n: nat)
    ensures ConsumeItems(s, n) != Err(RlpExpectedToBeList)
    decreases n
  {
    hide FromBE;
    if n > 0 && ItemInfo(s).Ok? { WalkError(s[ItemInfo(s).value.Total()..], n - 1); }
  }

  lemma LookedInto(s: seq<byte>, cache: Option<OffsetCache>, index: nat)
    requires IsList(s)
    ensures AtStep(s, cache, index).0 != Err(RlpExpectedToBeList)
  {
    hide FromBE, ConsumeItems;
    if cache.Some? && cache.value.index <= index {
      if |s| >= cache.value.offset { WalkError(s[cache.value.offset..], index - cache.value.index); }
    } else if ConsumeListPayload(s).Ok? {
      WalkError(ConsumeListPayload(s).value.0, index);
    }
  }

  /** Data is refused where a list is looked into, and a list where data is wanted. */
  lemma WrongKind(s: seq<byte>, cache: Option<OffsetCache>, index: nat)
    ensures AtStep(s, cache, index).0 == Err(RlpExpectedToBeList) <==> s == [] || s[0] < 0xc0
    ensures DecodeValue(s) == Err(RlpExpectedToBeData) <==> s != [] && s[0] >= 0xc0
  {
    hide FromBE;
    if s != [] && s[0] >= 0xc0 { LookedInto(s, cache, index); }
  }

  /** The first item of a written sequence is found again, whatever follows. */
  lemma ReadItem(it: Item, t: seq<byte>)
    requires |Enc(it)| < USIZE
    ensures ItemInfo(Enc(it) + t).Ok? && ItemInfo(Enc(it) + t).value.Total() == |Enc(it)|
  {
    hide Header, EncAll, ItemInfo;
    match it
    case Data(b) =>
      if |b| == 1 && b[0] < 0x80 { SingleByte(b, t); } else { ReadHeader(0x80, b, t); }
    case List(items) =>
      ReadHeader(0xc0, EncAll(items), t);
  }

  lemma SingleByte(b: seq<byte>, t: seq<byte>)
    requires |b| == 1 && b[0] < 0x80
    ensures ItemInfo(b + t) == Ok(PayloadInfo(0, 1))
  {}

  // ---------- Byte strings ----------

  /** Decoding the encoding of a byte string gives it back. */
  lemma DecodeEncoded(b: seq<byte>)
    requires |Enc(Data(b))| < USIZE
    ensures DecodeValue(Enc(Data(b))) == Ok(b)
  {
    hide BE, FromBE, DecodeUsize;
    var s := Enc(Data(b));
    if |b| == 1 && b[0] < 0x80 {
      assert b == [b[0]];
    } else if |b| <= 55 {
      assert s[1..1 + |b|] == b;
    } else {
      LengthBytes(|b|);
      var k := |BE(|b|)|;
      assert s == [0xb7 + k] + BE(|b|) + b;
      assert s[0] == 0xb7 + k;
      assert s[1..1 + k] == BE(|b|);
      assert s[1 + k..1 + k + |b|] == b;
    }
  }

  /** Conversely, a slice of exactly one item that decodes as a byte string is the encoding of that byte string. */
  lemma EncodeDecoded(s: seq<byte>, d: seq<byte>)
    requires IsItem(s) && DecodeValue(s) == Ok(d)
    ensures Enc(Data(d)) == s
  {
    hide BE, FromBE;
    var l: nat := s[0];
    if l <= 0x7f {
      assert s == [s[0]];
    } else if l <= 0xb7 {
      assert s == [s[0]] + d;
    } else {
      var k := l - 0xb7;
      ToFromBE(s[1..1 + k]);
      assert s[1..1 + k][0] == s[1];
      assert s == [s[0]] + s[1..1 + k] + d;
    }
  }

  /**
   * Whatever `at` hands out, from any slice and with any cache, and decodes as a byte string: the
   * encoder writes that very slice again exactly when the byte string is shorter than 2^32 bytes.
   */
  lemma ReencodeFound(bytes: seq<byte>, cache: Option<OffsetCache>, index: nat, d: seq<byte>)
    requires AtStep(bytes, cache, index).0.Ok? && DecodeValue(AtStep(bytes, cache, index).0.value.0) == Ok(d)
    ensures Enc(Data(d)) == AtStep(bytes, cache, index).0.value.0
    ensures Written(Data(d)) == AtStep(bytes, cache, index).0.value.0 <==> |d| < 0x1_0000_0000
  {
    hide AtStep, DecodeValue, Enc, Written, ItemInfo, Transparent;
    AtFindsItem(bytes, cache, index);
    EncodeDecoded(AtStep(bytes, cache, index).0.value.0, d);
    WrittenIsEncoding(Data(d));
  }

  // ---------- Lists ----------

  lemma {:induction false} EncAllSplit(items: seq<Item>, i: nat)
    requires i <= |items|
    ensures EncAll(items) == EncAll(items[..i]) + EncAll(items[i..])
  {
    assert items == items[..i] + items[i..];
    EncAllConcat(items[..i], items[i..]);
  }

  lemma EncAllFirst(items: seq<Item>, i: nat)
    requires i < |items|
    ensures EncAll(items[i..]) == Enc(items[i]) + EncAll(items[i + 1..])
    ensures EncAll(items[..i + 1]) == EncAll(items[..i]) + Enc(items[i])
    ensures |Enc(items[i])| <= |EncAll(items)|
  {
    hide Enc;
    assert items[i..][1..] == items[i + 1..];
    assert items[..i + 1] == items[..i] + [items[i]];
    EncAllConcat(items[..i], [items[i]]);
    EncAllOne(items[i]);
    EncAllSplit(items, i);
  }

  lemma EncAllOne(it: Item)
    ensures EncAll([it]) == Enc(it)
  {
    hide Enc;
    assert [it][1..] == [];
    assert EncAll([it]) == Enc(it) + EncAll([it][1..]);
  }

  /** Walking i items of a written payload ends behind the first i encodings. */
  lemma {:induction false} WalkEncoded(items: seq<Item>, i: nat)
    requires i <= |items| && |EncAll(items)| < USIZE
    ensures ConsumeItems(EncAll(items), i) == Ok((EncAll(items[i..]), |EncAll(items[..i])|))
    decreases i
  {
    hide Enc, EncAll, ItemInfo, ConsumeItems;
    var all := EncAll(items);
    if i == 0 {
      ConsumeZero(all);
      assert items[0..] == items && items[..0] == [];
      EncAllNone();
    } else {
      WalkEncoded(items, i - 1);
      ConsumeItemsAdd(all, i - 1, 1);
      EncAllFirst(items, i - 1);
      var from := EncAll(items[i - 1..]);
      ReadItem(items[i - 1], EncAll(items[i..]));
      ConsumeStep(from, 0);
      assert from[|Enc(items[i - 1])|..] == EncAll(items[i..]);
      ConsumeZero(EncAll(items[i..]));
    }
  }

  lemma EncAllNone()
    ensures EncAll([]) == []
  {}

  lemma PayloadOfEncoded(items: seq<Item>)
    requires |Enc(List(items))| < USIZE
    ensures var s, p := Enc(List(items)), EncAll(items);
      && IsList(s) && ConsumeListPayload(s) == Ok((p, |Header(0xc0, |p|)|)) && Transparent(s)
  {
    hide EncAll, ItemInfo, StopsAlike, BE;
    var p := EncAll(items);
    var s := Enc(List(items));
    ReadHeader(0xc0, p, []);
    assert Header(0xc0, |p|) + p + [] == s;
    LeadByte(|p|);
    assert s[|Header(0xc0, |p|)|..] == p;
    ExactIsTransparent(s);
  }

  lemma LeadByte(len: nat)
    requires len < USIZE
    ensures Header(0xc0, len)[0] >= 0xc0
  {
    hide BE;
    if len > 55 { LengthBytes(len); }
  }

  /**
   * An encoded list gives back its item count, and at every index, with whatever cache, the
   * encoding of that item and its offset; beyond the end it reports that bytes are missing.
   */
  lemma ReadEncodedList(items: seq<Item>, i: nat)
    requires |Enc(List(items))| < USIZE
    ensures var s := Enc(List(items));
      && Transparent(s) && PayloadItems(s) == |items|
      && Uncached(s, i) ==
           if i < |items| then Ok((Enc(items[i]), |Header(0xc0, |EncAll(items)|)| + |EncAll(items[..i])|))
           else Err(RlpIsTooShort)
  {
    hide Enc, EncAll, Header, ItemInfo, Transparent, ConsumeItems, ConsumeListPayload, ItemsIn;
    var s, p := Enc(List(items)), EncAll(items);
    EncListLength(items);
    PayloadOfEncoded(items);
    CountEncoded(items, 0);
    assert items[0..] == items;
    if i < |items| {
      WalkEncoded(items, i);
      EncAllFirst(items, i);
      ReadItem(items[i], EncAll(items[i + 1..]));
      assert (Enc(items[i]) + EncAll(items[i + 1..]))[..|Enc(items[i])|] == Enc(items[i]);
    } else {
      PastTheEnd(items, i);
    }
  }

  lemma EncListLength(items: seq<Item>)
    ensures |Enc(List(items))| == |Header(0xc0, |EncAll(items)|)| + |EncAll(items)|
  {
    hide EncAll, Header;
  }

  lemma PastTheEnd(items: seq<Item>, i: nat)
    requires |EncAll(items)| < USIZE && i >= |items|
    ensures match ConsumeItems(EncAll(items), i)
            case Err(e) => e == RlpIsTooShort
            case Ok((rest, _)) => ItemInfo(rest) == Err(RlpIsTooShort)
  {
    hide EncAll, Enc, ConsumeItems;
    var n := |items|;
    WalkEncoded(items, n);
    assert items[n..] == [];
    EncAllNone();
    ConsumeItemsAdd(EncAll(items), n, i - n);
    if i == n { ConsumeZero([]); } else { ConsumeStep([], i - n - 1); }
  }

  lemma {:induction false} CountEncoded(items: seq<Item>, i: nat)
    requires i <= |items| && |EncAll(items)| < USIZE
    ensures ItemsIn(EncAll(items[i..])) == |items| - i
    decreases |items| - i
  {
    hide Enc, EncAll, ItemInfo;
    if i == |items| {
      assert items[i..] == [];
      EncAllNone();
      NothingToRead();
    } else {
      EncAllFirst(items, i);
      ReadItem(items[i], EncAll(items[i + 1..]));
      assert (Enc(items[i]) + EncAll(items[i + 1..]))[|Enc(items[i])|..] == EncAll(items[i + 1..]);
      CountEncoded(items, i + 1);
    }
  }

  lemma NothingToRead()
    ensures ItemInfo([]).Err?
  {}

  // ---------- Whole trees ----------

  /**
   * Decoding a tree: lists by iterating over their items, data by `decode_value`. A list whose
   * payload cannot be read has nothing to iterate over.
   */
  function DecodeTree(s: seq<byte>): Result<Item, DecoderError>
    decreases |s|, 0
  {
    if IsList(s) then
      match ConsumeListPayload(s)
      case Err(_) => Ok(List([]))
      case Ok((p, h)) =>
        match DecodeTrees(p)
        case Err(e) => Err(e)
        case Ok(items) => Ok(List(items))
    else
      match DecodeValue(s)
      case Err(e) => Err(e)
      case Ok(b) => Ok(Data(b))
  }

  /** The iterator ends at the first slice that is not a complete item. */
  function DecodeTrees(p: seq<byte>): Result<seq<Item>, DecoderError>
    decreases |p|, 1
  {
    match ItemInfo(p)
    case Err(_) => Ok([])
    case Ok(i) =>
      match DecodeTree(p[..i.Total()])
      case Err(e) => Err(e)
      case Ok(first) =>
        match DecodeTrees(p[i.Total()..])
        case Err(e) => Err(e)
        case Ok(rest) => Ok([first] + rest)
  }

  /** Decoding the encoding of any tree below 2^64 bytes gives the tree back. */
  lemma {:induction false} DecodeEncodedTree(it: Item)
    requires |Enc(it)| < USIZE
    ensures DecodeTree(Enc(it)) == Ok(it)
    decreases it, 0
  {
    hide Header, EncAll, ItemInfo, ConsumeListPayload, DecodeTrees, DecodeValue;
    match it
    case Data(b) =>
      DataIsNoList(b);
      DecodeEncoded(b);
    case List(items) =>
      EncListLength(items);
      PayloadOfEncoded(items);
      DecodeEncodedTrees(items);
  }

  lemma DataIsNoList(b: seq<byte>)
    requires |Enc(Data(b))| < USIZE
    ensures !IsList(Enc(Data(b)))
  {
    hide BE;
    if |b| > 55 { LengthBytes(|b|); }
  }

  lemma {:induction false} DecodeEncodedTrees(items: seq<Item>)
    requires |EncAll(items)| < USIZE
    ensures DecodeTrees(EncAll(items)) == Ok(items)
    decreases items, 1
  {
    hide Enc, ItemInfo, DecodeTree;
    if items == [] {
      NothingToRead();
    } else {
      var first, rest := Enc(items[0]), EncAll(items[1..]);
      ReadItem(items[0], rest);
      DecodeEncodedTree(items[0]);
      DecodeEncodedTrees(items[1..]);
      assert (first + rest)[..|first|] == first && (first + rest)[|first|..] == rest;
      assert [items[0]] + items[1..] == items;
    }
  }

  // ---------- Decoding through the reader object ----------

  /** The items decoded so far, in front of what the rest gives. */
  function Prepend(items: seq<Item>, r: Result<seq<Item>, DecoderError>): Result<seq<Item>, DecoderError> {
    match r
    case Err(e) => Err(e)
    case Ok(rest) => Ok(items + rest)
  }

  lemma PrependOne(items: seq<Item>, x: Item, r: Result<seq<Item>, DecoderError>)
    ensures Prepend(items, Prepend([x], r)) == Prepend(items + [x], r)
  {
    if r.Ok? { assert items + ([x] + r.value) == items + [x] + r.value; }
  }

  lemma PrependNone(items: seq<Item>)
    ensures Prepend(items, Ok([])) == Ok(items)
  {
    assert items + [] == items;
  }

  lemma DecodeTreesStep(p: seq<byte>)
    ensures ItemInfo(p).Err? ==> DecodeTrees(p) == Ok([])
    ensures ItemInfo(p).Ok? ==>
              var k := ItemInfo(p).value.Total();
              match DecodeTree(p[..k])
              case Err(e) => DecodeTrees(p) == Err(e)
              case Ok(x) => DecodeTrees(p) == Prepend([x], DecodeTrees(p[k..]))
  {
    hide ItemInfo, DecodeTree;
  }

  /** The next item of the walk comes behind those decoded so far. */
  lemma DecodeNext(items: seq<Item>, rest: seq<byte>)
    ensures ItemInfo(rest).Err? ==> Prepend(items, DecodeTrees(rest)) == Ok(items)
    ensures ItemInfo(rest).Ok? ==>
              var k := ItemInfo(rest).value.Total();
              match DecodeTree(rest[..k])
              case Err(e) => Prepend(items, DecodeTrees(rest)) == Err(e)
              case Ok(x) => Prepend(items, DecodeTrees(rest)) == Prepend(items + [x], DecodeTrees(rest[k..]))
  {
    hide ItemInfo, DecodeTree, DecodeTrees;
    DecodeTreesStep(rest);
    PrependNone(items);
    if ItemInfo(rest).Ok? {
      var k := ItemInfo(rest).value.Total();
      var first := DecodeTree(rest[..k]);
      if first.Ok? { PrependOne(items, first.value, DecodeTrees(rest[k..])); }
    }
  }

  /** Without a cache, item i is what the walk over the payload stands at after i items. */
  lemma UncachedWalk(bytes: seq<byte>, p: seq<byte>, h: nat, i: nat)
    requires IsList(bytes) && ConsumeListPayload(bytes) == Ok((p, h)) && ConsumeItems(p, i).Ok?
    ensures var (rest, c) := ConsumeItems(p, i).value;
      match ItemInfo(rest)
      case Err(e) => Uncached(bytes, i) == Err(e)
      case Ok(item) =>
        && Uncached(bytes, i) == Ok((rest[..item.Total()], h + c))
        && ConsumeItems(p, i + 1) == Ok((rest[item.Total()..], c + item.Total()))
  {
    hide ItemInfo, ConsumeItems, ConsumeListPayload;
    var (rest, c) := ConsumeItems(p, i).value;
    ConsumeItemsAdd(p, i, 1);
    ConsumeStep(rest, 0);
    if ItemInfo(rest).Ok? { ConsumeZero(rest[ItemInfo(rest).value.Total()..]); }
  }

  /** Item i of the payload. */
  function NthItem(p: seq<byte>, i: nat): seq<byte>
    requires i < ItemsIn(p)
    decreases i
  {
    var k := ItemInfo(p).value.Total();
    if i == 0 then p[..k] else NthItem(p[k..], i - 1)
  }

  lemma {:induction false} NthItemWalk(p: seq<byte>, i: nat)
    requires i < ItemsIn(p)
    ensures ConsumeItems(p, i).Ok? && ItemInfo(ConsumeItems(p, i).value.0).Ok?
    ensures var rest := ConsumeItems(p, i).value.0; NthItem(p, i) == rest[..ItemInfo(rest).value.Total()]
    decreases i
  {
    hide ItemInfo, ConsumeItems;
    if i == 0 {
      ConsumeZero(p);
    } else {
      ConsumeStep(p, i - 1);
      NthItemWalk(p[ItemInfo(p).value.Total()..], i - 1);
    }
  }

  lemma NthUncached(s: seq<byte>, i: nat)
    requires IsList(s) && i < PayloadItems(s)
    ensures ConsumeListPayload(s).Ok? && i < ItemsIn(ConsumeListPayload(s).value.0)
    ensures Uncached(s, i).Ok? && Uncached(s, i).value.0 == NthItem(ConsumeListPayload(s).value.0, i)
  {
    hide ItemInfo, ConsumeItems, ConsumeListPayload, AtStep, ItemsIn, NthItem;
    var (p, h) := ConsumeListPayload(s).value;
    NthItemWalk(p, i);
    UncachedWalk(s, p, h, i);
  }

  /** The trees of a payload, item by item. */
  lemma {:induction false} DecodeTreesIs(p: seq<byte>, items: seq<Item>)
    ensures DecodeTrees(p) == Ok(items) <==>
              |items| == ItemsIn(p) && forall i :: 0 <= i < |items| ==> DecodeTree(NthItem(p, i)) == Ok(items[i])
    decreases |p|
  {
    hide ItemInfo, DecodeTree, DecodeTrees;
    DecodeTreesStep(p);
    if ItemInfo(p).Ok? {
      var k := ItemInfo(p).value.Total();
      if items != [] {
        DecodeTreesIs(p[k..], items[1..]);
        if |items| == ItemsIn(p) { FirstAndRest(p, items); }
        assert items == [items[0]] + items[1..];
      }
    }
  }

  lemma FirstAndRest(p: seq<byte>, items: seq<Item>)
    requires ItemInfo(p).Ok? && items != [] && |items| == ItemsIn(p)
    ensures var k := ItemInfo(p).value.Total();
      (forall i :: 0 <= i < |items| ==> DecodeTree(NthItem(p, i)) == Ok(items[i])) <==>
        && DecodeTree(p[..k]) == Ok(items[0])
        && forall i :: 0 <= i < |items| - 1 ==> DecodeTree(NthItem(p[k..], i)) == Ok(items[1..][i])
  {
    hide ItemInfo, DecodeTree;
    var k := ItemInfo(p).value.Total();
    assert NthItem(p, 0) == p[..k];
    forall i | 0 < i < |items| ensures NthItem(p, i) == NthItem(p[k..], i - 1) && items[i] == items[1..][i - 1] {}
    if forall i :: 0 <= i < |items| ==> DecodeTree(NthItem(p, i)) == Ok(items[i]) {
      forall i | 0 <= i < |items| - 1 ensures DecodeTree(NthItem(p[k..], i)) == Ok(items[1..][i]) {
        assert NthItem(p, i + 1) == NthItem(p[k..], i);
      }
    }
  }

  /** Decoding a list as a tree collects what looking its items up one by one and decoding them gives. */
  lemma TreeCollects(s: seq<byte>, items: seq<Item>)
    requires IsList(s)
    ensures DecodeTree(s) == Ok(List(items)) <==>
              && |items| == PayloadItems(s)
              && forall i :: 0 <= i < |items| ==> Uncached(s, i).Ok? && DecodeTree(Uncached(s, i).value.0) == Ok(items[i])
  {
    hide ItemInfo, ConsumeListPayload, DecodeTrees, NthItem, ItemsIn, Uncached;
    ListTree(s);
    if ConsumeListPayload(s).Ok? {
      var (p, _) := ConsumeListPayload(s).value;
      DecodeTreesIs(p, items);
      if |items| == PayloadItems(s) {
        forall i | 0 <= i < |items| ensures Uncached(s, i).Ok? && Uncached(s, i).value.0 == NthItem(p, i) { NthUncached(s, i); }
      }
    }
  }

  lemma ListTree(s: seq<byte>)
    requires IsList(s)
    ensures DecodeTree(s) ==
              match ConsumeListPayload(s)
              case Err(_) => Ok(List([]))
              case Ok((p, _)) =>
                match DecodeTrees(p)
                case Err(e) => Err(e)
                case Ok(items) => Ok(List(items))
  {
    hide ConsumeListPayload, DecodeTrees;
  }

  /**
   * `as_list` and `as_val` for trees: the items of a list are looked up one after the other and
   * decoded; the first that cannot be looked up ends the list, the first that cannot be decoded
   * fails it.
   */
  method ReadTree(rlp: Rlp) returns (r: Result<Item, DecoderError>)
    requires rlp.Valid()
    modifies rlp`offsetCache
    ensures rlp.Valid()
    ensures Transparent(rlp.bytes) ==> r == DecodeTree(rlp.bytes)
    decreases |rlp.bytes|
  {
    hide ItemInfo, AtStep, Transparent, CacheExact, ConsumeItems, ConsumeListPayload, DecodeTrees, DecodeValue, CacheBounded;
    var bytes := rlp.bytes;
    if !IsList(bytes) {
      match DecodeValue(bytes)
      case Err(e) => return Err(e);
      case Ok(b) => return Ok(Data(b));
    }
    var items: seq<Item>, i := [], 0;
    ghost var payload, exact := ConsumeListPayload(bytes), Transparent(bytes);
    ghost var p := if payload.Ok? then payload.value.0 else [];
    ghost var rest := p;
    StartOfWalk(p);
    while true
      invariant rlp.Valid() && i <= |bytes| && (exact && payload.Err? ==> items == [])
      invariant exact && payload.Ok? ==> ConsumeItems(p, i).Ok? && rest == ConsumeItems(p, i).value.0
      invariant exact && payload.Ok? ==> DecodeTrees(p) == Prepend(items, DecodeTrees(rest))
      decreases |bytes| - i
    {
      var found := rlp.AtWithOffset(i);
      if exact && payload.Ok? {
        UncachedWalk(bytes, p, payload.value.1, i);
        DecodeNext(items, rest);
      } else if payload.Err? {
        UnreadableList(bytes, i);
      }
      if found.Err? { return Ok(List(items)); }
      var inner := new Rlp(found.value.0);
      FoundTransparent(bytes, i);
      var x := ReadTree(inner);
      if x.Err? { return Err(x.error); }
      if exact && payload.Ok? { rest := rest[ItemInfo(rest).value.Total()..]; }
      items, i := items + [x.value], i + 1;
    }
  }

  lemma StartOfWalk(p: seq<byte>)
    ensures ConsumeItems(p, 0) == Ok((p, 0))
    ensures DecodeTrees(p) == Prepend([], DecodeTrees(p))
  {
    hide DecodeTrees;
    if DecodeTrees(p).Ok? { assert [] + DecodeTrees(p).value == DecodeTrees(p).value; }
  }

  lemma UnreadableList(bytes: seq<byte>, i: nat)
    requires ConsumeListPayload(bytes).Err?
    ensures Uncached(bytes, i).Err?
  {}

  lemma FoundTransparent(bytes: seq<byte>, i: nat)
    ensures Uncached(bytes, i).Ok? ==> Transparent(Uncached(bytes, i).value.0)
  {
    hide AtStep, Transparent;
    if Uncached(bytes, i).Ok? { AtFindsItem(bytes, None, i); }
  }

  /** No two trees share an encoding. */
  lemma EncInjective(a: Item, b: Item)
    requires |Enc(a)| < USIZE && Enc(a) == Enc(b)
    ensures a == b
  {
    hide Enc, DecodeTree;
    DecodeEncodedTree(a);
    DecodeEncodedTree(b);
  }
}
