/** The root hash of a list: every value stands under the encoding of its index. */
module TrieOrdered {
  import opened Arith
  import opened Bytes
  import opened Encoding
  import opened TrieNode
  import opened TrieHash
  import opened TrieRoot
  import opened TrieMerkle
  import Integers
  import Reader
  import RoundTrip

  /** `rlp::encode` of an index. */
  function IndexKey(i: nat): seq<byte> { Written(Data(BE(i))) }

  /** Zero is the empty string; up to 127 an index is one byte. */
  lemma IndexKeyExamples()
    ensures IndexKey(0) == [0x80] && IndexKey(1) == [0x01] && IndexKey(127) == [0x7f] && IndexKey(128) == [0x81, 0x80]
    ensures IndexKey(256) == [0x82, 0x01, 0x00]
  {
    assert BE(0) == [] && BE(1) == [1] && BE(127) == [127] && BE(128) == [128] && BE(256) == [1, 0];
  }

  /** No two indexes share a key. */
  lemma IndexKeyInjective(i: nat, j: nat)
    requires i < Reader.USIZE && j < Reader.USIZE && IndexKey(i) == IndexKey(j)
    ensures i == j
  {
    hide Enc, BE, Pow, Integers.DecodeUint, IndexKey;
    Pow256_4();
    PowAdd(256, 4, 4);
    IndexKeyIs(i);
    IndexKeyIs(j);
    Integers.DecodeWritten(i, 8, 8);
    Integers.DecodeWritten(j, 8, 8);
  }

  function Numbered(values: seq<Value>): seq<Pair> {
    seq(|values|, i requires 0 <= i < |values| => Pair(IndexKey(i), values[i]))
  }

  /** m holds exactly the values of the list, each under its index. */
  ghost predicate HoldsList(m: map<seq<byte>, Value>, values: seq<Value>) {
    && (forall i :: 0 <= i < |values| ==> IndexKey(i) in m && m[IndexKey(i)] == values[i])
    && (forall k :: k in m ==> exists i :: 0 <= i < |values| && IndexKey(i) == k)
  }

  lemma {:induction false} NumberedHolds(values: seq<Value>)
    requires |values| <= Reader.USIZE
    ensures HoldsList(AsMap(Numbered(values)), values)
  {
    hide IndexKey, AsMap, Numbered, HoldsList;
    if values == [] {
      NumberedNone();
    } else {
      var n := |values| - 1;
      NumberedHolds(values[..n]);
      NumberedSnoc(values);
      HoldsOneMore(AsMap(Numbered(values[..n])), values);
    }
  }

  lemma NumberedNone()
    ensures HoldsList(AsMap(Numbered([])), [])
  {}

  lemma NumberedSnoc(values: seq<Value>)
    requires values != []
    ensures var n := |values| - 1; AsMap(Numbered(values)) == AsMap(Numbered(values[..n]))[IndexKey(n) := values[n]]
  {
    hide IndexKey;
    var n := |values| - 1;
    assert Numbered(values)[..n] == Numbered(values[..n]);
  }

  lemma HoldsOneMore(m: map<seq<byte>, Value>, values: seq<Value>)
    requires 0 < |values| <= Reader.USIZE && HoldsList(m, values[..|values| - 1])
    ensures HoldsList(m[IndexKey(|values| - 1) := values[|values| - 1]], values)
  {
    hide IndexKey;
    var n := |values| - 1;
    forall i | 0 <= i < n ensures IndexKey(i) in m && m[IndexKey(i)] == values[i] && IndexKey(i) != IndexKey(n) {
      assert values[..n][i] == values[i];
      if IndexKey(i) == IndexKey(n) { IndexKeyInjective(i, n); }
    }
  }

  /** `ordered_trie_root` */
  method OrderedTrieRoot(h: Hasher, values: seq<Value>) returns (r: seq<byte>)
    ensures IsRoot(h, AsMap(Numbered(values)), r)
  {
    hide IsRoot, AsMap;
    r := RootOf(h, Numbered(values));
  }

  /** The collection behind the root of a list determines the list, with its order and its length. */
  lemma ListDetermined(values: seq<Value>, values': seq<Value>)
    requires |values| <= Reader.USIZE && |values'| <= Reader.USIZE
    requires AsMap(Numbered(values)) == AsMap(Numbered(values'))
    ensures values == values'
  {
    hide IndexKey, AsMap, Numbered;
    var m := AsMap(Numbered(values));
    NumberedHolds(values);
    NumberedHolds(values');
    NotLonger(m, values, values');
    NotLonger(m, values', values);
    forall i | 0 <= i < |values| ensures values[i] == values'[i] { assert m[IndexKey(i)] == values[i]; }
  }

  lemma NotLonger(m: map<seq<byte>, Value>, values: seq<Value>, values': seq<Value>)
    requires |values| <= Reader.USIZE && |values'| <= Reader.USIZE && HoldsList(m, values) && HoldsList(m, values')
    ensures |values| <= |values'|
  {
    hide IndexKey;
    if |values'| < |values| {
      assert IndexKey(|values'|) in m;
      var i :| 0 <= i < |values'| && IndexKey(i) == IndexKey(|values'|);
      IndexKeyInjective(i, |values'|);
    }
  }

  lemma IndexKeyIs(i: nat)
    requires i < Reader.USIZE
    ensures IndexKey(i) == Enc(Data(BE(i))) && |IndexKey(i)| < Reader.USIZE
  {
    hide Enc, BE, Pow, Written;
    Pow256_4();
    PowAdd(256, 4, 4);
    BELength(i, 8);
    WrittenIsEncoding(Data(BE(i)));
    Integers.ShortEncoding(BE(i));
  }

  /** No key of a list goes on behind another. */
  lemma KeysPrefixFree(i: nat, j: nat)
    requires i < Reader.USIZE && j < Reader.USIZE
    ensures !GoesOn(IndexKey(j), IndexKey(i))
  {
    hide Enc, BE, IndexKey, Reader.ItemInfo;
    IndexKeyIs(i);
    IndexKeyIs(j);
    var k, a := IndexKey(i), IndexKey(j);
    RoundTrip.ReadItem(Data(BE(j)), []);
    assert a + [] == a;
    if GoesOn(a, k) {
      assert a == k + a[|k|..];
      RoundTrip.ReadItem(Data(BE(i)), a[|k|..]);
    }
  }

  /** So in a list nothing is invisible. */
  lemma ListVisible(m: Store, values: seq<Value>, k: seq<byte>)
    requires HoldsList(m, values) && |values| <= Reader.USIZE && k in m
    ensures !Parts(m, k)
  {
    hide IndexKey;
    var i :| 0 <= i < |values| && IndexKey(i) == k;
    forall a | a in m ensures !GoesOn(a, k) {
      var j :| 0 <= j < |values| && IndexKey(j) == a;
      KeysPrefixFree(i, j);
    }
  }

  /** The root of a list stands for the list, empty values or not. */
  lemma ListRoots(h: Hasher, values: seq<Value>, values': seq<Value>, r: seq<byte>, r': seq<byte>)
    requires |values| <= Reader.USIZE && |values'| <= Reader.USIZE
    requires var (m, m') := (AsMap(Numbered(values)), AsMap(Numbered(values')));
      && IsRoot(h, m, r) && IsRoot(h, m', r')
      && Fitting(h, m) && Fitting(h, m') && NoCollision(h, m, m')
    ensures r == r' <==> values == values'
  {
    hide IsRoot, Fitting, NoCollision, Parts, AsMap, Numbered, HoldsList;
    var (m, m') := (AsMap(Numbered(values)), AsMap(Numbered(values')));
    RootDeterminesContents(h, m, m', r, r');
    NumberedHolds(values);
    NumberedHolds(values');
    if LooksLike(m, m') {
      forall k ensures Find(m, k) == Find(m', k) {
        assert SameAt(m, m', k);
        if k in m { ListVisible(m, values, k); }
        if k in m' { ListVisible(m', values', k); }
      }
      SameFind(m, m');
      ListDetermined(values, values');
    }
  }
}
