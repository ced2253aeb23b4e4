/** Collections whose entries are short enough for the encoder's 32-bit lengths. */
module TrieShort {
  import opened Bytes
  import opened Wrappers
  import opened Encoding
  import opened TrieNode
  import opened TrieErase
  import opened TrieHash
  import opened TrieRoot
  import opened TrieMerkle

  const SHORT_KEY: nat := 0x2000_0000
  const SHORT_VALUE: nat := 0x8000_0000

  /** A caller can check this: keys below 2^29 bytes, values below 2^31, and a hash of up to 64 bytes. */
  ghost predicate Short(h: Hasher, m: Store) {
    && (forall x :: |h(x)| <= 64)
    && (forall k :: k in m ==> |k| < SHORT_KEY && |m[k]| < SHORT_VALUE)
  }

  ghost predicate ShortContents(h: Hasher, c: Contents) {
    && (forall x :: |h(x)| <= 64)
    && (forall k :: k in c ==> |k| < 2 * SHORT_KEY && |c[k]| < SHORT_VALUE)
  }

  /** Then everything fits 32-bit lengths. */
  lemma ShortFitting(h: Hasher, m: Store)
    requires Short(h, m)
    ensures Fitting(h, m)
  {
    hide Composes, AllFit, ShortContents;
    forall c, n | Composed(m, c, n) ensures AllFit(h, n) {
      ShortNibbles(h, m, c);
      ShortFits(h, n, c, 0);
    }
  }

  lemma ShortNibbles(h: Hasher, m: Store, c: Contents)
    requires Short(h, m) && SameContents(c, m)
    ensures ShortContents(h, c)
  {
    hide Nibbles, Pairs;
    forall x | x in c ensures |x| < 2 * SHORT_KEY && |c[x]| < SHORT_VALUE {
      var k :| k in m && Nibbles(k) == x;
      PairsOfNibbles(k);
    }
  }

  lemma {:induction false} ShortFits(h: Hasher, n: Node, c: Contents, i: nat)
    requires Composes(n, c, i) && ShortContents(h, c)
    ensures AllFit(h, n)
    decreases n
  {
    hide Composes, Fits, NodeItem, Below;
    match n
    case Null => NullFits(h);
    case Leaf(path, v) =>
      LeafShort(n, c, i);
      LeafFits(h, path, v);
    case Extension(path, child) =>
      ExtensionLength(n, c, i);
      ExtensionShort(n, c, i);
      ShortFits(h, child, c, i + |path|);
      ExtensionFits(h, path, child);
    case Branch(children, stored) =>
      BranchLength(n, c, i);
      forall x: nibble ensures AllFit(h, children[x]) {
        BranchChild(n, c, i, x);
        ShortBelow(h, c, i, x);
        ShortFits(h, children[x], Below(c, i, x), i + 1);
      }
      StoredShort(n, c, i);
      BranchFits(h, children, stored);
  }

  lemma ShortBelow(h: Hasher, c: Contents, i: nat, x: nibble)
    requires ShortContents(h, c)
    ensures ShortContents(h, Below(c, i, x))
  {}

  lemma LeafShort(n: Node, c: Contents, i: nat)
    requires Composes(n, c, i) && n.Leaf? && forall k :: k in c ==> |k| < 2 * SHORT_KEY && |c[k]| < SHORT_VALUE
    ensures |n.path| < 2 * SHORT_KEY && |n.value| < SHORT_VALUE
  {
    var k :| k in c && c == map[k := n.value] && i <= |k| && k[i..] == n.path;
    assert c[k] == n.value;
  }

  lemma ExtensionShort(n: Node, c: Contents, i: nat)
    requires Composes(n, c, i) && n.Extension? && forall k :: k in c ==> |k| < 2 * SHORT_KEY && |c[k]| < SHORT_VALUE
    ensures |n.path| < 2 * SHORT_KEY
  {
    hide Composes;
    ExtensionLength(n, c, i);
    var a := SomeKey(c);
    ExtensionPath(n, c, i, a);
  }

  lemma StoredShort(n: Node, c: Contents, i: nat)
    requires Composes(n, c, i) && n.Branch? && forall k :: k in c ==> |k| < 2 * SHORT_KEY && |c[k]| < SHORT_VALUE
    ensures |n.stored.GetOr([])| < SHORT_VALUE
  {
    hide Agree, Several;
    if k :| k in c && |k| == i { assert n.stored == Some(c[k]); }
  }

  /** A byte string costs at most five bytes more than it has. */
  lemma DataFits(b: seq<byte>)
    requires |b| < 0x1_0000_0000
    ensures Fits(Data(b)) && |Enc(Data(b))| <= |b| + 5
  {
    hide Header;
    HeaderShort(0x80, |b|);
  }

  lemma RefFits(h: Hasher, n: Node)
    requires Fits(NodeItem(h, n)) && |h(Written(NodeItem(h, n)))| <= 64
    ensures Fits(Ref(h, n)) && |Enc(Ref(h, n))| <= 69
  {
    hide Fits, Enc, Written, NodeItem;
    WrittenIsEncoding(NodeItem(h, n));
    DataFits(h(Written(NodeItem(h, n))));
  }

  lemma NullFits(h: Hasher)
    ensures Fits(NodeItem(h, Null))
  {}

  lemma PairFits(x: Item, y: Item)
    requires Fits(x) && Fits(y) && |Enc(x)| + |Enc(y)| < 0x1_0000_0000
    ensures Fits(List([x, y]))
  {
    hide Enc;
    assert [x, y][1..] == [y] && [y][1..] == [];
    assert EncAll([y]) == Enc(y) + EncAll([]);
    assert EncAll([x, y]) == Enc(x) + EncAll([y]);
    assert FitsAll([y]);
  }

  lemma HexPrefixLength(path: Key, leaf: bool)
    ensures |HexPrefix(path, leaf)| <= 1 + |path| / 2
  {}

  lemma LeafFits(h: Hasher, path: Key, v: Value)
    requires |path| < 2 * SHORT_KEY && |v| < SHORT_VALUE
    ensures Fits(NodeItem(h, Leaf(path, v)))
  {
    hide HexPrefix, Fits, Enc;
    HexPrefixLength(path, true);
    DataFits(HexPrefix(path, true));
    DataFits(v);
    PairFits(Data(HexPrefix(path, true)), Data(v));
  }

  lemma ExtensionFits(h: Hasher, path: Key, child: Node)
    requires |path| < 2 * SHORT_KEY && AllFit(h, child) && |h(Written(NodeItem(h, child)))| <= 64
    ensures Fits(NodeItem(h, Extension(path, child)))
  {
    hide HexPrefix, Fits, Enc, Ref, Written, AllFit;
    OwnFits(h, child);
    HexPrefixLength(path, false);
    DataFits(HexPrefix(path, false));
    RefFits(h, child);
    PairFits(Data(HexPrefix(path, false)), Ref(h, child));
  }

  lemma {:induction false} SmallItemsFit(items: seq<Item>, each: nat)
    requires forall k :: 0 <= k < |items| ==> Fits(items[k]) && |Enc(items[k])| <= each
    ensures FitsAll(items) && |EncAll(items)| <= each * |items|
  {
    hide Fits, Enc;
    if items != [] {
      SmallItemsFit(items[1..], each);
      assert each * |items| == each + each * (|items| - 1);
    }
  }

  lemma {:induction false} FitsAllConcat(s: seq<Item>, t: seq<Item>)
    requires FitsAll(s) && FitsAll(t)
    ensures FitsAll(s + t)
  {
    hide Fits;
    if s == [] {
      assert s + t == t;
    } else {
      assert (s + t)[0] == s[0] && (s + t)[1..] == s[1..] + t;
      FitsAllConcat(s[1..], t);
    }
  }

  lemma BranchFits(h: Hasher, children: seq<Node>, stored: Option<Value>)
    requires |children| == 16 && |stored.GetOr([])| < SHORT_VALUE && forall x :: |h(x)| <= 64
    requires forall k :: 0 <= k < 16 ==> AllFit(h, children[k])
    ensures Fits(NodeItem(h, Branch(children, stored)))
  {
    hide Fits, Enc, EncAll, FitsAll, Ref, Written, AllFit;
    var refs, last := Refs(h, children), [Data(stored.GetOr([]))];
    forall k | 0 <= k < 16 ensures Fits(refs[k]) && |Enc(refs[k])| <= 69 {
      OwnFits(h, children[k]);
      RefFits(h, children[k]);
    }
    SmallItemsFit(refs, 69);
    DataFits(stored.GetOr([]));
    SmallItemsFit(last, |stored.GetOr([])| + 5);
    FitsAllConcat(refs, last);
    EncAllConcat(refs, last);
    ListFits(refs + last);
  }

  lemma ListFits(items: seq<Item>)
    requires FitsAll(items) && |EncAll(items)| < 0x1_0000_0000
    ensures Fits(List(items))
  {}

  /** For short entries the hash is all that stands between a root and what the collection looks like. */
  lemma ShortRoots(h: Hasher, m: Store, m': Store, r: seq<byte>, r': seq<byte>)
    requires IsRoot(h, m, r) && IsRoot(h, m', r') && Short(h, m) && Short(h, m') && NoCollision(h, m, m')
    ensures r == r' <==> LooksLike(m, m')
  {
    hide IsRoot, Fitting, NoCollision, LooksLike, Short;
    ShortFitting(h, m);
    ShortFitting(h, m');
    RootDeterminesContents(h, m, m', r, r');
  }
}
