/** The lazy decoder: item headers, walking a list, and the offset cache. */
module Reader {
  import opened Arith
  import opened Bytes
  import opened Wrappers
  import opened Encoding

  datatype DecoderError =
    | RlpIsTooBig
    | RlpIsTooShort
    | RlpExpectedToBeList
    | RlpExpectedToBeData
    | RlpDataLenWithZeroPrefix
    | RlpInvalidIndirection
    | RlpInconsistentLengthAndData
    | RlpInvalidLength

  /** usize is 64 bits wide. */
  const USIZE: nat := 0x1_0000_0000_0000_0000

  datatype PayloadInfo = PayloadInfo(headerLen: nat, valueLen: nat) {
    function Total(): nat { headerLen + valueLen }
  }

  // ---------- Headers ----------

  /** Big-endian length bytes; at most eight, and without a leading zero. */
  function DecodeUsize(bytes: seq<byte>): Result<nat, DecoderError>
    requires bytes != []
  {
    if |bytes| > 8 then Err(RlpIsTooBig)
    else if bytes[0] == 0 then Err(RlpInvalidIndirection)
    else Ok(FromBE(bytes))
  }

  /** The loop of `decode_usize`: every byte shifted to its place. */
  method DecodeUsizeLoop(bytes: seq<byte>) returns (r: Result<nat, DecoderError>)
    requires bytes != []
    ensures r == DecodeUsize(bytes)
    ensures r.Ok? ==> r.value < USIZE
  {
    hide Pow, FromBE;
    var l := |bytes|;
    if l > 8 { return Err(RlpIsTooBig); }
    if bytes[0] == 0 { return Err(RlpInvalidIndirection); }
    var res: nat := 0;
    FromBEEmpty();
    assert bytes[..0] == [];
    for i := 0 to l
      invariant res == FromBE(bytes[..i]) * Pow(256, l - i)
    {
      var weight := Pow(256, l - 1 - i);
      assert bytes[..i + 1] == bytes[..i] + [bytes[i]];
      FromBESnoc(bytes[..i], bytes[i]);
      PowSucc(256, l - 1 - i);
      ShiftByte(FromBE(bytes[..i]), bytes[i], weight);
      res := res + Times(bytes[i], weight);
    }
    PowZero(256);
    assert bytes[..l] == bytes;
    UsizeBound(bytes);
    r := Ok(res);
  }

  lemma FromBEEmpty()
    ensures FromBE([]) == 0
  {}

  lemma ShiftByte(high: nat, b: byte, weight: nat)
    ensures high * (256 * weight) + b * weight == (256 * high + b) * weight
  {}

  lemma {:induction false} FromBEBound(s: seq<byte>)
    ensures FromBE(s) < Pow(256, |s|)
  {
    if s != [] {
      FromBEBound(s[..|s| - 1]);
      PowSucc(256, |s| - 1);
    }
  }

  lemma UsizeBound(s: seq<byte>)
    requires |s| <= 8
    ensures FromBE(s) < USIZE
  {
    hide Pow, FromBE;
    FromBEBound(s);
    PowIncreases(256, |s|, 8);
    Pow256_4();
    PowAdd(256, 4, 4);
  }

  function CalculatePayloadInfo(header: seq<byte>, lenOfLen: nat): Result<PayloadInfo, DecoderError>
    requires header != [] && lenOfLen > 0
  {
    var headerLen := 1 + lenOfLen;
    if |header| > 1 && header[1] == 0 then Err(RlpDataLenWithZeroPrefix)
    else if |header| < 2 then Err(RlpIsTooShort)
    else if |header| < headerLen then Err(RlpIsTooShort)
    else
      match DecodeUsize(header[1..headerLen])
      case Err(e) => Err(e)
      case Ok(valueLen) => if valueLen <= 55 then Err(RlpInvalidIndirection) else Ok(PayloadInfo(headerLen, valueLen))
  }

  /** `PayloadInfo::from` */
  function HeaderInfo(bytes: seq<byte>): Result<PayloadInfo, DecoderError> {
    if bytes == [] then Err(RlpIsTooShort)
    else
      var l := bytes[0];
      if l <= 0x7f then Ok(PayloadInfo(0, 1))
      else if l <= 0xb7 then Ok(PayloadInfo(1, l - 0x80))
      else if l <= 0xbf then CalculatePayloadInfo(bytes, l - 0xb7)
      else if l <= 0xf7 then Ok(PayloadInfo(1, l - 0xc0))
      else CalculatePayloadInfo(bytes, l - 0xf7)
  }

  /** The first item's header and value, when all of the item is present (`payload_info`). */
  function ItemInfo(bytes: seq<byte>): (r: Result<PayloadInfo, DecoderError>)
    ensures r.Ok? ==> 0 < r.value.Total() <= |bytes|
    ensures r.Ok? ==> bytes[0] >= 0xc0 ==> r.value.headerLen > 0
  {
    match HeaderInfo(bytes)
    case Err(e) => Err(e)
    case Ok(item) =>
      if item.Total() < USIZE && item.Total() <= |bytes| then Ok(item) else Err(RlpIsTooShort)
  }

  /** The number of length bytes behind the first byte; none when that byte holds the length or the value. */
  function LengthOfLength(s: seq<byte>): nat
    requires s != []
  {
    if 0xb8 <= s[0] <= 0xbf then s[0] - 0xb7 else if s[0] >= 0xf8 then s[0] - 0xf7 else 0
  }

  /**
   * Why there is no item: its length begins with a zero byte, its length would have fitted the first
   * byte, or the slice ends before the item does.
   */
  lemma WhyUnreadable(s: seq<byte>)
    ensures ItemInfo(s) == Err(RlpDataLenWithZeroPrefix) <==> |s| > 1 && LengthOfLength(s) > 0 && s[1] == 0
    ensures ItemInfo(s) == Err(RlpInvalidIndirection) <==>
              |s| > 1 && 0 < LengthOfLength(s) < |s| && s[1] != 0 && FromBE(s[1..1 + LengthOfLength(s)]) <= 55
    ensures ItemInfo(s).Err? && ItemInfo(s).error != RlpDataLenWithZeroPrefix && ItemInfo(s).error != RlpInvalidIndirection ==>
              ItemInfo(s).error == RlpIsTooShort
  {
    hide FromBE;
  }

  /** Bytes behind a complete item do not change how it is read. */
  lemma ItemInfoExtends(s: seq<byte>, t: seq<byte>)
    requires ItemInfo(s).Ok?
    ensures ItemInfo(s + t) == ItemInfo(s)
  {
    hide CalculatePayloadInfo;
    var l: nat := s[0];
    assert (s + t)[0] == s[0];
    if 0xb7 < l <= 0xbf { CalculateExtends(s, t, l - 0xb7); }
    if 0xf7 < l { CalculateExtends(s, t, l - 0xf7); }
  }

  lemma CalculateExtends(s: seq<byte>, t: seq<byte>, k: nat)
    requires s != [] && k > 0 && CalculatePayloadInfo(s, k).Ok?
    ensures CalculatePayloadInfo(s + t, k) == CalculatePayloadInfo(s, k)
  {
    hide DecodeUsize;
    assert |s| >= 1 + k;
    assert (s + t)[1..1 + k] == s[1..1 + k];
  }

  /** The slice is exactly one item. */
  predicate IsItem(s: seq<byte>) { ItemInfo(s).Ok? && ItemInfo(s).value.Total() == |s| }

  /** Cutting off what follows an item does not change how it is read either. */
  lemma ItemCut(s: seq<byte>)
    requires ItemInfo(s).Ok?
    ensures IsItem(s[..ItemInfo(s).value.Total()])
  {
    hide CalculatePayloadInfo;
    var item := s[..ItemInfo(s).value.Total()];
    var l: nat := s[0];
    assert item[0] == s[0];
    if 0xb7 < l <= 0xbf { CalculateCut(s, item, l - 0xb7); }
    if 0xf7 < l { CalculateCut(s, item, l - 0xf7); }
  }

  lemma CalculateCut(s: seq<byte>, item: seq<byte>, k: nat)
    requires s != [] && k > 0 && CalculatePayloadInfo(s, k).Ok?
    requires CalculatePayloadInfo(s, k).value.Total() <= |item| <= |s| && item == s[..|item|]
    ensures CalculatePayloadInfo(item, k) == CalculatePayloadInfo(s, k)
  {
    hide DecodeUsize;
    assert item[1..1 + k] == s[1..1 + k];
  }

  // ---------- Walking items ----------

  /** `consume_items`: what is left after n items, and how many bytes they took. */
  function ConsumeItems(bytes: seq<byte>, n: nat): (r: Result<(seq<byte>, nat), DecoderError>)
    ensures r.Ok? ==> n <= r.value.1 <= |bytes| && r.value.0 == bytes[r.value.1..]
    decreases n
  {
    if n == 0 then Ok((bytes, 0))
    else
      match ItemInfo(bytes)
      case Err(e) => Err(e)
      case Ok(i) =>
        match ConsumeItems(bytes[i.Total()..], n - 1)
        case Err(e) => Err(e)
        case Ok((rest, c)) => Ok((rest, i.Total() + c))
  }

  lemma ConsumeZero(s: seq<byte>)
    ensures ConsumeItems(s, 0) == Ok((s, 0))
  {}

  lemma ConsumeStep(s: seq<byte>, n: nat)
    ensures ItemInfo(s).Err? ==> ConsumeItems(s, n + 1) == Err(ItemInfo(s).error)
    ensures ItemInfo(s).Ok? ==>
              ConsumeItems(s, n + 1) == AfterBytes(ItemInfo(s).value.Total(), ConsumeItems(s[ItemInfo(s).value.Total()..], n))
  {}

  /** The outcome of a walk that began k bytes further on. */
  function AfterBytes(k: nat, r: Result<(seq<byte>, nat), DecoderError>): Result<(seq<byte>, nat), DecoderError> {
    match r
    case Err(e) => Err(e)
    case Ok((rest, c)) => Ok((rest, k + c))
  }

  /** Walking n more items from where an earlier walk ended. */
  function Onward(r: Result<(seq<byte>, nat), DecoderError>, n: nat): Result<(seq<byte>, nat), DecoderError> {
    match r
    case Err(e) => Err(e)
    case Ok((rest, c)) => AfterBytes(c, ConsumeItems(rest, n))
  }

  lemma {:induction false} ConsumeItemsAdd(s: seq<byte>, m: nat, n: nat)
    ensures ConsumeItems(s, m + n) == Onward(ConsumeItems(s, m), n)
    decreases m
  {
    hide ItemInfo, ConsumeItems, AfterBytes;
    if m == 0 {
      ConsumeZero(s);
      OnwardStart(s, n);
    } else {
      ConsumeStep(s, m - 1);
      ConsumeStep(s, m + n - 1);
      if ItemInfo(s).Ok? {
        var k := ItemInfo(s).value.Total();
        ConsumeItemsAdd(s[k..], m - 1, n);
        OnwardAfter(k, ConsumeItems(s[k..], m - 1), n);
      }
    }
  }

  lemma OnwardStart(s: seq<byte>, n: nat)
    ensures Onward(Ok((s, 0)), n) == ConsumeItems(s, n)
  {
    hide ConsumeItems;
  }

  lemma OnwardAfter(k: nat, r: Result<(seq<byte>, nat), DecoderError>, n: nat)
    ensures Onward(AfterBytes(k, r), n) == AfterBytes(k, Onward(r, n))
  {
    hide ConsumeItems;
  }

  method ConsumeItemsLoop(bytes: seq<byte>, items: nat) returns (r: Result<(seq<byte>, nat), DecoderError>)
    ensures r == ConsumeItems(bytes, items)
  {
    hide ItemInfo, ConsumeItems;
    ConsumeZero(bytes);
    var result := bytes;
    var consumed := 0;
    for k := 0 to items
      invariant ConsumeItems(bytes, k) == Ok((result, consumed))
    {
      ConsumeItemsAdd(bytes, k, 1);
      ConsumeItemsAdd(bytes, k, items - k);
      ConsumeStep(result, 0);
      ConsumeStep(result, items - k - 1);
      match ItemInfo(result)
      case Err(e) => return Err(e);
      case Ok(i) =>
        var toConsume := i.headerLen + i.valueLen;
        ConsumeZero(result[toConsume..]);
        result := result[toConsume..];
        consumed := consumed + toConsume;
    }
    r := Ok((result, consumed));
  }

  /** The number of complete items at the front. */
  function ItemsIn(s: seq<byte>): nat
    decreases |s|
  {
    match ItemInfo(s)
    case Err(_) => 0
    case Ok(i) => 1 + ItemsIn(s[i.Total()..])
  }

  /** Walking stops with an error exactly behind the last complete item. */
  lemma {:induction false} WalkEnds(s: seq<byte>, n: nat)
    ensures n < ItemsIn(s) ==> ConsumeItems(s, n).Ok? && ItemInfo(ConsumeItems(s, n).value.0).Ok?
    ensures n == ItemsIn(s) ==> ConsumeItems(s, n).Ok? && ItemInfo(ConsumeItems(s, n).value.0).Err?
    ensures n > ItemsIn(s) ==> ConsumeItems(s, n).Err?
    decreases |s|, n
  {
    hide ItemInfo;
    match ItemInfo(s)
    case Err(_) =>
    case Ok(i) => if n > 0 { WalkEnds(s[i.Total()..], n - 1); }
  }

  /**
   * Reading on past the end of s into t goes wrong just as stopping there does: at the first
   * incomplete item of s, the same error comes out with and without t.
   */
  ghost predicate StopsAlike(s: seq<byte>, t: seq<byte>)
    decreases |s|
  {
    match ItemInfo(s)
    case Ok(i) => StopsAlike(s[i.Total()..], t)
    case Err(_) => ItemInfo(s + t) == ItemInfo(s)
  }

  lemma {:induction false} StopsAlikeNothing(s: seq<byte>)
    ensures StopsAlike(s, [])
    decreases |s|
  {
    hide ItemInfo;
    assert s + [] == s;
    match ItemInfo(s)
    case Ok(i) => StopsAlikeNothing(s[i.Total()..]);
    case Err(_) =>
  }

  /** The same walk with t still behind it. */
  function WithTail(r: Result<(seq<byte>, nat), DecoderError>, t: seq<byte>): Result<(seq<byte>, nat), DecoderError> {
    match r
    case Err(e) => Err(e)
    case Ok((rest, c)) => Ok((rest + t, c))
  }

  /** Then the walk does not notice t at all. */
  lemma {:induction false} WalkAlike(s: seq<byte>, t: seq<byte>, n: nat)
    requires StopsAlike(s, t)
    ensures ConsumeItems(s + t, n) == WithTail(ConsumeItems(s, n), t)
    ensures ConsumeItems(s, n).Ok? ==> StopsAlike(ConsumeItems(s, n).value.0, t)
    decreases n
  {
    hide ItemInfo, ConsumeItems;
    if n == 0 {
      ConsumeZero(s);
      ConsumeZero(s + t);
    } else {
      ConsumeStep(s, n - 1);
      ConsumeStep(s + t, n - 1);
      if ItemInfo(s).Ok? {
        var k := ItemInfo(s).value.Total();
        ItemInfoExtends(s, t);
        assert (s + t)[k..] == s[k..] + t;
        WalkAlike(s[k..], t, n - 1);
        TailAfter(k, ConsumeItems(s[k..], n - 1), t);
      }
    }
  }

  lemma TailAfter(k: nat, r: Result<(seq<byte>, nat), DecoderError>, t: seq<byte>)
    ensures AfterBytes(k, WithTail(r, t)) == WithTail(AfterBytes(k, r), t)
  {}

  /** The items of s, and then those that begin where its complete items end. */
  lemma {:induction false} ItemsInOnward(s: seq<byte>, t: seq<byte>)
    ensures ConsumeItems(s, ItemsIn(s)).Ok?
    ensures ItemsIn(s + t) == ItemsIn(s) + ItemsIn(ConsumeItems(s, ItemsIn(s)).value.0 + t)
    decreases |s|
  {
    hide ItemInfo, ConsumeItems;
    match ItemInfo(s)
    case Err(_) => ConsumeZero(s);
    case Ok(i) =>
      var k := i.Total();
      ItemInfoExtends(s, t);
      assert (s + t)[k..] == s[k..] + t;
      ItemsInOnward(s[k..], t);
      ConsumeStep(s, ItemsIn(s[k..]));
  }

  /** Where the complete items end, walking on with t goes differently if the two do not stop alike. */
  lemma {:induction false} StopsDifferently(s: seq<byte>, t: seq<byte>)
    requires !StopsAlike(s, t)
    ensures var n := ItemsIn(s);
      && ConsumeItems(s, n).Ok?
      && var rest := ConsumeItems(s, n).value.0;
      ItemInfo(rest).Err? && ItemInfo(rest + t) != ItemInfo(rest)
    decreases |s|
  {
    hide ItemInfo;
    match ItemInfo(s)
    case Err(_) =>
    case Ok(i) => StopsDifferently(s[i.Total()..], t);
  }

  // ---------- Random access ----------

  datatype OffsetCache = OffsetCache(index: nat, offset: nat)

  type Found = Result<(seq<byte>, nat), DecoderError>

  predicate IsList(bytes: seq<byte>) { bytes != [] && bytes[0] >= 0xc0 }

  function ConsumeListPayload(bytes: seq<byte>): (r: Result<(seq<byte>, nat), DecoderError>)
    ensures r.Ok? ==> var (p, h) := r.value; h + |p| <= |bytes| && p == bytes[h..h + |p|]
    ensures r.Ok? && IsList(bytes) ==> r.value.1 > 0
  {
    match ItemInfo(bytes)
    case Err(e) => Err(e)
    case Ok(item) => Ok((bytes[item.headerLen..item.headerLen + item.valueLen], item.headerLen))
  }

  /**
   * The item `skip` items into `from`, which begins `consumed` bytes into the slice; the cache
   * remembers the item's place even when the item itself cannot be read.
   */
  function Locate(from: seq<byte>, skip: nat, consumed: nat, index: nat, cache: Option<OffsetCache>)
    : (Found, Option<OffsetCache>)
  {
    match ConsumeItems(from, skip)
    case Err(e) => (Err(e), cache)
    case Ok((rest, c)) =>
      var cache' := Some(OffsetCache(index, consumed + c));
      match ItemInfo(rest)
      case Err(e) => (Err(e), cache')
      case Ok(found) => (Ok((rest[..found.Total()], consumed + c)), cache')
  }

  /** `at_with_offset` for a given cache: the item with its offset, and the cache afterwards. */
  function AtStep(bytes: seq<byte>, cache: Option<OffsetCache>, index: nat): (Found, Option<OffsetCache>) {
    if !IsList(bytes) then (Err(RlpExpectedToBeList), cache)
    else if cache.Some? && cache.value.index <= index then
      if |bytes| >= cache.value.offset
      then Locate(bytes[cache.value.offset..], index - cache.value.index, cache.value.offset, index, cache)
      else (Err(RlpIsTooShort), cache)
    else
      match ConsumeListPayload(bytes)
      case Err(e) => (Err(e), cache)
      case Ok((p, h)) => Locate(p, index, h, index, cache)
  }

  /** Reading without a cache. */
  function Uncached(bytes: seq<byte>, index: nat): Found {
    AtStep(bytes, None, index).0
  }

  /** All queries in order, each with the cache the previous ones left. */
  function Query(bytes: seq<byte>, cache: Option<OffsetCache>, indexes: seq<nat>): (r: seq<Found>)
    ensures |r| == |indexes|
    decreases |indexes|
  {
    if indexes == [] then []
    else
      var (found, cache') := AtStep(bytes, cache, indexes[0]);
      [found] + Query(bytes, cache', indexes[1..])
  }

  /** The slice is not a readable list, or what follows its payload stops the walk like the end. */
  ghost predicate Transparent(bytes: seq<byte>) {
    IsList(bytes) && ConsumeListPayload(bytes).Ok? ==>
      var (p, h) := ConsumeListPayload(bytes).value;
      StopsAlike(p, bytes[h + |p|..])
  }

  /** A slice that is exactly one item is transparent. */
  lemma ExactIsTransparent(bytes: seq<byte>)
    requires ItemInfo(bytes).Ok? && ItemInfo(bytes).value.Total() == |bytes|
    ensures Transparent(bytes)
  {
    hide ItemInfo, StopsAlike;
    if IsList(bytes) {
      var (p, h) := ConsumeListPayload(bytes).value;
      StopsAlikeNothing(p);
      assert bytes[h + |p|..] == [];
    }
  }

  /** The cached offset is the header plus the first `index` items. */
  ghost predicate CacheExact(bytes: seq<byte>, cache: Option<OffsetCache>) {
    cache.Some? ==>
      && IsList(bytes) && ConsumeListPayload(bytes).Ok?
      && var (p, h) := ConsumeListPayload(bytes).value;
      && ConsumeItems(p, cache.value.index).Ok?
      && cache.value.offset == h + ConsumeItems(p, cache.value.index).value.1
  }

  /** Bytes behind the payload do not change what is located. */
  lemma LocateAlike(s: seq<byte>, t: seq<byte>, skip: nat, consumed: nat, index: nat, cache: Option<OffsetCache>)
    requires StopsAlike(s, t)
    ensures Locate(s + t, skip, consumed, index, cache) == Locate(s, skip, consumed, index, cache)
  {
    hide ItemInfo, ConsumeItems, StopsAlike;
    WalkAlike(s, t, skip);
    if ConsumeItems(s, skip).Ok? { FoundAlike(ConsumeItems(s, skip).value.0, t); }
  }

  /** Resuming a walk locates what walking from the start does. */
  lemma LocateOnward(p: seq<byte>, i: nat, h: nat, index: nat, cache: Option<OffsetCache>)
    requires i <= index && ConsumeItems(p, i).Ok?
    ensures var (rest, c) := ConsumeItems(p, i).value;
      Locate(rest, index - i, h + c, index, cache) == Locate(p, index, h, index, cache)
  {
    hide ItemInfo, ConsumeItems;
    ConsumeItemsAdd(p, i, index - i);
  }

  lemma LocateCache(p: seq<byte>, h: nat, index: nat, cache: Option<OffsetCache>)
    ensures var (found, cache') := Locate(p, index, h, index, cache);
      && found == Locate(p, index, h, index, None).0
      && (cache' == cache ||
          (ConsumeItems(p, index).Ok? && cache' == Some(OffsetCache(index, h + ConsumeItems(p, index).value.1))))
  {
    hide ItemInfo, ConsumeItems;
  }

  /** With an exact cache on a transparent slice, the answer is the uncached one. */
  lemma AtStepExact(bytes: seq<byte>, cache: Option<OffsetCache>, index: nat)
    requires Transparent(bytes) && CacheExact(bytes, cache)
    ensures AtStep(bytes, cache, index).0 == Uncached(bytes, index)
    ensures CacheExact(bytes, AtStep(bytes, cache, index).1)
  {
    hide ItemInfo, StopsAlike, ConsumeItems, ConsumeListPayload, Locate;
    if IsList(bytes) && ConsumeListPayload(bytes).Ok? {
      var (p, h) := ConsumeListPayload(bytes).value;
      LocateCache(p, h, index, cache);
      if cache.Some? && cache.value.index <= index {
        var i := cache.value.index;
        var (rest, c) := ConsumeItems(p, i).value;
        var t := bytes[h + |p|..];
        assert bytes[cache.value.offset..] == rest + t;
        WalkAlike(p, t, i);
        LocateAlike(rest, t, index - i, h + c, index, cache);
        LocateOnward(p, i, h, index, cache);
      }
    }
  }

  lemma FoundAlike(s: seq<byte>, t: seq<byte>)
    requires StopsAlike(s, t)
    ensures ItemInfo(s + t) == ItemInfo(s)
    ensures ItemInfo(s).Ok? ==> (s + t)[..ItemInfo(s).value.Total()] == s[..ItemInfo(s).value.Total()]
  {
    hide ItemInfo;
    if ItemInfo(s).Ok? { ItemInfoExtends(s, t); }
  }

  lemma {:induction false} QueryExact(bytes: seq<byte>, cache: Option<OffsetCache>, indexes: seq<nat>)
    requires Transparent(bytes) && CacheExact(bytes, cache)
    ensures forall k :: 0 <= k < |indexes| ==> Query(bytes, cache, indexes)[k] == Uncached(bytes, indexes[k])
    decreases |indexes|
  {
    hide AtStep, Uncached, Transparent, CacheExact;
    if indexes != [] {
      AtStepExact(bytes, cache, indexes[0]);
      var cache' := AtStep(bytes, cache, indexes[0]).1;
      QueryExact(bytes, cache', indexes[1..]);
    }
  }

  /** Asking twice for the first missing item reveals a slice that is not transparent. */
  lemma CacheShows(bytes: seq<byte>)
    requires !Transparent(bytes)
    ensures var n := PayloadItems(bytes);
      Query(bytes, None, [n, n])[1] != Uncached(bytes, n)
  {
    hide ItemInfo, StopsAlike;
    var (p, h) := ConsumeListPayload(bytes).value;
    var t := bytes[h + |p|..];
    var n := ItemsIn(p);
    StopsDifferently(p, t);
    var (rest, c) := ConsumeItems(p, n).value;
    assert bytes[h + c..] == rest + t;
    hide ConsumeItems, ItemsIn, ConsumeListPayload;
    FirstLook(bytes, n);
    ConsumeZero(rest + t);
    QueryTwice(bytes, n, n);
  }

  lemma FirstLook(bytes: seq<byte>, n: nat)
    requires IsList(bytes) && ConsumeListPayload(bytes).Ok?
    ensures var (p, h) := ConsumeListPayload(bytes).value; AtStep(bytes, None, n) == Locate(p, n, h, n, None)
  {
    hide Locate, ConsumeListPayload;
  }

  /** The offset cache is invisible exactly on transparent slices. */
  lemma CacheInvisible(bytes: seq<byte>)
    ensures Transparent(bytes) <==>
              forall indexes, k :: 0 <= k < |indexes| ==> Query(bytes, None, indexes)[k] == Uncached(bytes, indexes[k])
  {
    hide Query, Uncached, Transparent;
    if Transparent(bytes) {
      forall indexes: seq<nat>, k | 0 <= k < |indexes|
        ensures Query(bytes, None, indexes)[k] == Uncached(bytes, indexes[k])
      {
        QueryExact(bytes, None, indexes);
      }
    } else {
      CacheShows(bytes);
      var n := PayloadItems(bytes);
      var indexes: seq<nat> := [n, n];
      assert indexes[1] == n;
      assert Query(bytes, None, indexes)[1] != Uncached(bytes, indexes[1]);
    }
  }

  /** An empty list with a byte behind it: the second look at index 0 finds that byte. */
  lemma CacheCounterexample()
    ensures Uncached([0xc0, 0x01], 0) == Err(RlpIsTooShort)
    ensures Query([0xc0, 0x01], None, [0, 0])[1] == Ok(([0x01], 1))
  {
    hide AtStep, Query;
    CounterexampleSteps();
    QueryTwice([0xc0, 0x01], 0, 0);
  }

  lemma CounterexampleSteps()
    ensures AtStep([0xc0, 0x01], None, 0) == (Err(RlpIsTooShort), Some(OffsetCache(0, 1)))
    ensures AtStep([0xc0, 0x01], Some(OffsetCache(0, 1)), 0).0 == Ok(([0x01], 1))
  {
    hide ConsumeItems, FromBE, ItemInfo;
    var bytes: seq<byte> := [0xc0, 0x01];
    var rest: seq<byte> := [0x01];
    ConsumeZero([]);
    ConsumeZero(rest);
    ShortItems();
    assert bytes[1..1] == [] && bytes[1..] == rest && rest[..1] == rest;
  }

  lemma ShortItems()
    ensures ItemInfo([]) == Err(RlpIsTooShort)
    ensures ItemInfo([0x01]) == Ok(PayloadInfo(0, 1))
    ensures ItemInfo([0xc0, 0x01]) == Ok(PayloadInfo(1, 0))
  {
    hide FromBE;
  }

  lemma QueryTwice(bytes: seq<byte>, i: nat, j: nat)
    ensures Query(bytes, None, [i, j])[1] == AtStep(bytes, AtStep(bytes, None, i).1, j).0
  {
    hide AtStep;
    var cache' := AtStep(bytes, None, i).1;
    assert [i, j][1..] == [j];
    assert Query(bytes, None, [i, j]) == [AtStep(bytes, None, i).0] + Query(bytes, cache', [j]);
    assert Query(bytes, cache', [j])[0] == AtStep(bytes, cache', j).0;
  }

  // ---------- The reader object ----------

  // ---------- What is found is one item ----------

  lemma LocateFinds(from: seq<byte>, skip: nat, consumed: nat, index: nat, cache: Option<OffsetCache>)
    ensures var r := Locate(from, skip, consumed, index, cache).0; r.Ok? ==> IsItem(r.value.0)
  {
    hide ItemInfo, ConsumeItems;
    match ConsumeItems(from, skip)
    case Err(_) =>
    case Ok((rest, _)) => if ItemInfo(rest).Ok? { ItemCut(rest); }
  }

  /** Whatever the slice and the cache, `at` hands out exactly one item, so looking inside it is transparent. */
  lemma AtFindsItem(bytes: seq<byte>, cache: Option<OffsetCache>, index: nat)
    requires AtStep(bytes, cache, index).0.Ok?
    ensures IsItem(AtStep(bytes, cache, index).0.value.0) && Transparent(AtStep(bytes, cache, index).0.value.0)
  {
    hide ItemInfo, Locate, ConsumeListPayload, Transparent;
    if cache.Some? && cache.value.index <= index {
      LocateFinds(bytes[cache.value.offset..], index - cache.value.index, cache.value.offset, index, cache);
    } else {
      var (p, h) := ConsumeListPayload(bytes).value;
      LocateFinds(p, index, h, index, cache);
    }
    ExactIsTransparent(AtStep(bytes, cache, index).0.value.0);
  }

  // ---------- Counting by looking up one index after the other ----------

  /** How many look-ups succeed from index i on, each with the cache the previous one left. */
  ghost function CountFrom(bytes: seq<byte>, cache: Option<OffsetCache>, i: nat): nat
    requires CacheBounded(bytes, cache)
    decreases |bytes| - i
  {
    hide AtStep;
    AtStepBounded(bytes, cache, i);
    var (r, cache') := AtStep(bytes, cache, i);
    if r.Err? then 0 else 1 + CountFrom(bytes, cache', i + 1)
  }

  /** The look-up after item i starts where that item ends. */
  lemma NextLook(bytes: seq<byte>, i: nat, offset: nat)
    requires IsList(bytes) && i < offset <= |bytes| && ItemInfo(bytes[offset..]).Ok?
    ensures var next := offset + ItemInfo(bytes[offset..]).value.Total();
      var (r, cache) := AtStep(bytes, Some(OffsetCache(i, offset)), i + 1);
      && next <= |bytes| && cache == Some(OffsetCache(i + 1, next)) && (r.Ok? <==> ItemInfo(bytes[next..]).Ok?)
  {
    hide ItemInfo, ConsumeItems;
    var q := bytes[offset..];
    var k := ItemInfo(q).value.Total();
    ConsumeStep(q, 0);
    ConsumeZero(q[k..]);
    assert q[k..] == bytes[offset + k..];
  }

  lemma ItemsInStep(s: seq<byte>)
    ensures ItemsIn(s) == if ItemInfo(s).Ok? then 1 + ItemsIn(s[ItemInfo(s).value.Total()..]) else 0
  {
    hide ItemInfo;
  }

  /** Behind item i, found at the cached offset, the look-ups go on to the end of the slice. */
  lemma {:induction false} CountOnward(bytes: seq<byte>, i: nat, offset: nat)
    requires IsList(bytes) && i < offset <= |bytes| && ItemInfo(bytes[offset..]).Ok?
    ensures CountFrom(bytes, Some(OffsetCache(i, offset)), i + 1) == ItemsIn(bytes[offset..]) - 1
    decreases |bytes| - offset
  {
    hide ItemInfo, AtStep, ItemsIn, IsList;
    var q := bytes[offset..];
    var k := ItemInfo(q).value.Total();
    NextLook(bytes, i, offset);
    assert q[k..] == bytes[offset + k..];
    ItemsInStep(q);
    ItemsInStep(q[k..]);
    var cache := Some(OffsetCache(i, offset));
    var (r, cache') := AtStep(bytes, cache, i + 1);
    AtStepBounded(bytes, cache, i + 1);
    assert CountFrom(bytes, cache, i + 1) == if r.Err? then 0 else 1 + CountFrom(bytes, cache', i + 1 + 1);
    if ItemInfo(q[k..]).Ok? { CountOnward(bytes, i + 1, offset + k); }
  }

  /** A fresh count sees the items up to the end of the slice, not of the payload, if it sees any. */
  lemma FreshCount(bytes: seq<byte>)
    requires IsList(bytes) && ConsumeListPayload(bytes).Ok?
    ensures var (p, h) := ConsumeListPayload(bytes).value;
      CountFrom(bytes, None, 0) == if ItemsIn(p) == 0 then 0 else ItemsIn(bytes[h..])
  {
    hide ItemInfo, ConsumeItems, ConsumeListPayload;
    var (p, h) := ConsumeListPayload(bytes).value;
    FirstLook(bytes, 0);
    ConsumeZero(p);
    if ItemInfo(p).Ok? {
      ItemInfoExtends(p, bytes[h + |p|..]);
      assert p + bytes[h + |p|..] == bytes[h..];
      CountOnward(bytes, 0, h);
    }
  }

  /**
   * A fresh count is the number of items of the payload exactly when there are none, or when no
   * complete item begins where they end, read on to the end of the slice.
   */
  lemma FreshCountExact(bytes: seq<byte>)
    requires IsList(bytes) && ConsumeListPayload(bytes).Ok?
    ensures var (p, h) := ConsumeListPayload(bytes).value;
      && ConsumeItems(p, ItemsIn(p)).Ok?
      && (CountFrom(bytes, None, 0) == PayloadItems(bytes) <==>
            ItemsIn(p) == 0 || ItemInfo(bytes[h + ConsumeItems(p, ItemsIn(p)).value.1..]).Err?)
  {
    hide ItemInfo, ConsumeItems, ConsumeListPayload;
    FreshCount(bytes);
    var (p, h) := ConsumeListPayload(bytes).value;
    var t := bytes[h + |p|..];
    assert p + t == bytes[h..];
    ItemsInOnward(p, t);
    var (rest, c) := ConsumeItems(p, ItemsIn(p)).value;
    assert rest + t == bytes[h + c..];
  }

  /** A list of one item with a byte behind it is counted as two items. */
  lemma CountCounterexample()
    ensures PayloadItems([0xc1, 0x01, 0x02]) == 1 && CountFrom([0xc1, 0x01, 0x02], None, 0) == 2
  {
    hide ItemInfo;
    var bytes: seq<byte> := [0xc1, 0x01, 0x02];
    OneByteItems();
    assert bytes[1..2] == [0x01] && bytes[1..] == [0x01, 0x02];
    assert ConsumeListPayload(bytes) == Ok(([0x01], 1));
    assert [0x01][1..] == [] && [0x01, 0x02][1..] == [0x02] && [0x02][1..] == [];
    assert ItemsIn([0x02]) == 1 && ItemsIn([0x01]) == 1 && ItemsIn([0x01, 0x02]) == 2;
    FreshCount(bytes);
  }

  lemma OneByteItems()
    ensures ItemInfo([0xc1, 0x01, 0x02]) == Ok(PayloadInfo(1, 1))
    ensures ItemInfo([0x01]) == Ok(PayloadInfo(0, 1)) && ItemInfo([0x01, 0x02]) == Ok(PayloadInfo(0, 1))
    ensures ItemInfo([0x02]) == Ok(PayloadInfo(0, 1)) && ItemInfo([]).Err?
  {
    hide FromBE;
  }

  // ---------- Staying inside the slice ----------

  /** A successful look-up lies inside the slice, one byte further for every item skipped. */
  ghost predicate CacheBounded(bytes: seq<byte>, cache: Option<OffsetCache>) {
    cache.Some? ==> cache.value.index < cache.value.offset <= |bytes|
  }

  lemma AtStepBounded(bytes: seq<byte>, cache: Option<OffsetCache>, index: nat)
    requires CacheBounded(bytes, cache)
    ensures CacheBounded(bytes, AtStep(bytes, cache, index).1)
    ensures AtStep(bytes, cache, index).0.Ok? ==> index < |bytes| && |AtStep(bytes, cache, index).0.value.0| < |bytes|
  {
    hide ItemInfo, ConsumeItems;
  }

  class Rlp {
    const bytes: seq<byte>
    var offsetCache: Option<OffsetCache>
    var countCache: Option<nat>

    constructor (b: seq<byte>)
      ensures bytes == b && offsetCache == None && Valid()
    {
      bytes, offsetCache, countCache := b, None, None;
    }

    ghost predicate Valid()
      reads this
    {
      && CacheBounded(bytes, offsetCache)
      && (Transparent(bytes) ==> CacheExact(bytes, offsetCache))
      && (Transparent(bytes) && countCache.Some? ==> IsList(bytes) && countCache.value == PayloadItems(bytes))
    }

    method AtWithOffset(index: nat) returns (r: Found)
      requires Valid()
      modifies `offsetCache
      ensures Valid()
      ensures (r, offsetCache) == AtStep(bytes, old(offsetCache), index)
      ensures Transparent(bytes) ==> r == Uncached(bytes, index)
      ensures r.Ok? ==> index < |bytes| && |r.value.0| < |bytes|
    {
      hide ItemInfo, Transparent, CacheExact, ConsumeItems;
      AtStepBounded(bytes, offsetCache, index);
      if Transparent(bytes) { AtStepExact(bytes, offsetCache, index); }
      if !IsList(bytes) {
        return Err(RlpExpectedToBeList);
      }
      // The walk starts at the cached place unless that lies behind the index.
      var from, indexesToSkip, bytesConsumed;
      if offsetCache.Some? && offsetCache.value.index <= index {
        from := bytes[offsetCache.value.offset..];
        indexesToSkip := index - offsetCache.value.index;
        bytesConsumed := offsetCache.value.offset;
      } else {
        var payload := ConsumeListPayload(bytes);
        if payload.Err? { return Err(payload.error); }
        from, indexesToSkip, bytesConsumed := payload.value.0, index, payload.value.1;
      }
      var skipped := ConsumeItemsLoop(from, indexesToSkip);
      if skipped.Err? { return Err(skipped.error); }
      var (rest, consumed) := skipped.value;
      // The place is remembered even if no item can be read there.
      var offset := bytesConsumed + consumed;
      offsetCache := Some(OffsetCache(index, offset));
      var found := ItemInfo(rest);
      if found.Err? { return Err(found.error); }
      return Ok((rest[..found.value.headerLen + found.value.valueLen], offset));
    }

    /** `iter().count()`: looks up one index after the other until one is missing. */
    method CountByIterating() returns (c: nat)
      requires Valid()
      modifies `offsetCache
      ensures Valid() && old(CacheBounded(bytes, offsetCache))
      ensures c == CountFrom(bytes, old(offsetCache), 0)
      ensures Transparent(bytes) && IsList(bytes) ==> c == PayloadItems(bytes)
    {
      hide AtStep, Transparent, CacheExact, PayloadItems;
      c := 0;
      while true
        invariant Valid() && c <= |bytes|
        invariant CountFrom(bytes, old(offsetCache), 0) == c + CountFrom(bytes, offsetCache, c)
        invariant Transparent(bytes) && IsList(bytes) ==> c <= PayloadItems(bytes)
        decreases |bytes| - c
      {
        var item := AtWithOffset(c);
        UncachedFinds(bytes, c);
        if item.Err? { break; }
        c := c + 1;
      }
    }

    method ItemCount() returns (r: Result<nat, DecoderError>)
      requires Valid()
      modifies this
      ensures Valid()
      ensures !IsList(bytes) ==> r == Err(RlpExpectedToBeList)
      ensures old(CacheBounded(bytes, offsetCache))
      ensures IsList(bytes) ==> r == Ok(if old(countCache).Some? then old(countCache).value else CountFrom(bytes, old(offsetCache), 0))
      ensures IsList(bytes) ==> countCache == Some(r.value)
      ensures IsList(bytes) && Transparent(bytes) ==> r == Ok(PayloadItems(bytes))
    {
      if !IsList(bytes) { return Err(RlpExpectedToBeList); }
      if countCache.Some? { return Ok(countCache.value); }
      var c := CountByIterating();
      countCache := Some(c);
      return Ok(c);
    }
  }

  /** How many items the payload of a list holds before the walk fails. */
  ghost function PayloadItems(bytes: seq<byte>): nat {
    match ConsumeListPayload(bytes)
    case Err(_) => 0
    case Ok((p, _)) => ItemsIn(p)
  }

  /** Without a cache, exactly the indexes below the item count are found. */
  lemma UncachedFinds(bytes: seq<byte>, index: nat)
    ensures IsList(bytes) ==> (Uncached(bytes, index).Ok? <==> index < PayloadItems(bytes))
  {
    hide ItemInfo, ConsumeItems, ConsumeListPayload;
    match ConsumeListPayload(bytes)
    case Err(_) =>
    case Ok((p, h)) => WalkEnds(p, index);
  }
}
