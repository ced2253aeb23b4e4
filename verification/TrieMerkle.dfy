/** When two collections have the same root: what the hash and the encoding let through. */
module TrieMerkle {
  import opened Bytes
  import opened Wrappers
  import opened Encoding
  import opened TrieNode
  import opened TrieErase
  import opened TrieHash
  import opened TrieRoot
  import RoundTrip
  import Reader

  // ---------- What is hashed ----------

  /** What is hashed for the nodes inside n: the encodings that do not stand there themselves. */
  ghost function HashedInside(h: Hasher, n: Node): set<seq<byte>>
    decreases n, 0
  {
    match n
    case Extension(_, child) => HashedRef(h, child)
    case Branch(children, _) => set k, e | 0 <= k < |children| && e in HashedRef(h, children[k]) :: e
    case _ => {}
  }

  ghost function HashedRef(h: Hasher, n: Node): set<seq<byte>>
    decreases n, 1
  {
    var out := Written(NodeItem(h, n));
    (if |out| <= 31 then {} else {out}) + HashedInside(h, n)
  }

  /** What is hashed for a root: its own encoding, and those inside. */
  ghost function Hashed(h: Hasher, n: Node): set<seq<byte>> {
    {Written(NodeItem(h, n))} + HashedInside(h, n)
  }

  /** The hash tells the given strings apart, and is never empty. */
  ghost predicate Collisionless(h: Hasher, s: set<seq<byte>>) {
    && (forall x, y :: x in s && y in s && h(x) == h(y) ==> x == y)
    && (forall x :: x in s ==> h(x) != [])
  }

  /** All encodings fit the encoder's 32-bit lengths. */
  ghost predicate AllFit(h: Hasher, n: Node)
    decreases n
  {
    && Fits(NodeItem(h, n))
    && match n
       case Extension(_, child) => AllFit(h, child)
       case Branch(children, stored) => forall k :: 0 <= k < |children| ==> AllFit(h, children[k])
       case _ => true
  }

  ghost predicate Sixteen(n: Node) {
    match n
    case Extension(_, child) => Sixteen(child)
    case Branch(children, _) => |children| == 16 && forall k :: 0 <= k < |children| ==> Sixteen(children[k])
    case _ => true
  }

  lemma {:induction false} ComposedSixteen(n: Node, c: Contents, i: nat)
    requires Composes(n, c, i)
    ensures Sixteen(n)
    decreases n
  {
    hide Composes;
    match n
    case Null =>
    case Leaf(_, _) =>
    case Extension(path, child) =>
      ExtensionLength(n, c, i);
      ComposedSixteen(child, c, i + |path|);
    case Branch(children, _) =>
      BranchLength(n, c, i);
      forall x: nibble ensures Sixteen(children[x]) {
        BranchChild(n, c, i, x);
        ComposedSixteen(children[x], Below(c, i, x), i + 1);
      }
  }

  lemma HeaderShort(base: byte, len: nat)
    requires base <= 0xc0 && len < 0x1_0000_0000
    ensures |Header(base, len)| <= 5
  {
    hide BE;
    NarrowHeader(base, len);
  }

  lemma FitsIsSmall(it: Item)
    requires Fits(it)
    ensures |Enc(it)| < Reader.USIZE
  {
    hide Header, EncAll;
    match it
    case Data(b) => HeaderShort(0x80, |b|);
    case List(items) => HeaderShort(0xc0, |EncAll(items)|);
  }

  /** Equal output means equal items, if they fit. */
  lemma WrittenInjective(a: Item, b: Item)
    requires Fits(a) && Fits(b) && Written(a) == Written(b)
    ensures a == b
  {
    hide Written, Enc, Fits;
    WrittenIsEncoding(a);
    WrittenIsEncoding(b);
    FitsIsSmall(a);
    RoundTrip.EncInjective(a, b);
  }

  // ---------- A node can be recovered from its item, but for empty values of branches ----------

  lemma ChildHashed(h: Hasher, n: Node, k: nat)
    requires n.Branch? && k < |n.children|
    ensures HashedRef(h, n.children[k]) <= HashedInside(h, n)
  {
    hide HashedRef;
    forall e | e in HashedRef(h, n.children[k]) ensures e in HashedInside(h, n) {}
  }

  lemma FitChild(h: Hasher, n: Node, k: nat)
    requires n.Branch? && AllFit(h, n) && Sixteen(n) && k < |n.children|
    ensures AllFit(h, n.children[k]) && Sixteen(n.children[k]) && |n.children| == 16
  {
    hide Fits, NodeItem;
  }

  lemma OwnFits(h: Hasher, n: Node)
    requires AllFit(h, n)
    ensures Fits(NodeItem(h, n))
  {
    hide Fits, NodeItem;
  }

  /** Equal references stand for equal node items. */
  lemma RefDetermines(h: Hasher, n: Node, n': Node, s: set<seq<byte>>)
    requires AllFit(h, n) && AllFit(h, n')
    requires HashedRef(h, n) <= s && HashedRef(h, n') <= s && Collisionless(h, s)
    requires Ref(h, n) == Ref(h, n')
    ensures NodeItem(h, n) == NodeItem(h, n')
  {
    hide Written, Fits, HashedInside, AllFit;
    OwnFits(h, n);
    OwnFits(h, n');
    var out, out' := Written(NodeItem(h, n)), Written(NodeItem(h, n'));
    ItemKind(h, n);
    ItemKind(h, n');
    if |out| > 31 { assert out in s; }
    if |out'| > 31 { assert out' in s; }
    if |out| > 31 && |out'| > 31 { WrittenInjective(NodeItem(h, n), NodeItem(h, n')); }
  }

  /** Only the empty node is not a list. */
  lemma ItemKind(h: Hasher, n: Node)
    ensures NodeItem(h, n).Data? ==> NodeItem(h, n) == Data([])
  {}

  /** Different kinds of nodes have different items. */
  lemma KindDetermined(h: Hasher, n: Node, n': Node)
    requires Sixteen(n) && Sixteen(n') && NodeItem(h, n) == NodeItem(h, n')
    ensures n.Null? <==> n'.Null?
    ensures n.Leaf? <==> n'.Leaf?
    ensures n.Extension? <==> n'.Extension?
  {
    hide Ref, HexPrefix;
    KindOf(h, n);
    KindOf(h, n');
    if n.Leaf? && n'.Extension? { HexPrefixInjective(n.path, true, n'.path, false); }
    if n'.Leaf? && n.Extension? { HexPrefixInjective(n'.path, true, n.path, false); }
  }

  lemma KindOf(h: Hasher, n: Node)
    requires Sixteen(n)
    ensures n.Null? ==> NodeItem(h, n).Data?
    ensures n.Leaf? ==>
              && NodeItem(h, n).List? && |NodeItem(h, n).items| == 2
              && NodeItem(h, n).items[0] == Data(HexPrefix(n.path, true))
    ensures n.Extension? ==>
              && NodeItem(h, n).List? && |NodeItem(h, n).items| == 2
              && NodeItem(h, n).items[0] == Data(HexPrefix(n.path, false))
    ensures n.Branch? ==> NodeItem(h, n).List? && |NodeItem(h, n).items| == 17
  {
    hide Ref, HexPrefix;
  }

  /** Nodes with the same item are the same but for empty values of branches. */
  lemma {:induction false} NodeDetermined(h: Hasher, n: Node, n': Node, s: set<seq<byte>>)
    requires AllFit(h, n) && AllFit(h, n') && Sixteen(n) && Sixteen(n')
    requires HashedInside(h, n) <= s && HashedInside(h, n') <= s && Collisionless(h, s)
    requires NodeItem(h, n) == NodeItem(h, n')
    ensures Erase(n) == Erase(n')
    decreases n
  {
    hide Ref, HexPrefix, Fits, HashedInside, Collisionless, AllFit, Sixteen, Refs, Written;
    KindDetermined(h, n, n');
    match n
    case Null =>
    case Leaf(path, v) =>
      LeafItem(h, n);
      LeafItem(h, n');
      HexPrefixInjective(path, true, n'.path, true);
    case Extension(path, child) =>
      ExtensionItem(h, n);
      ExtensionItem(h, n');
      HexPrefixInjective(path, false, n'.path, false);
      RefDetermines(h, child, n'.child, s);
      NodeDetermined(h, child, n'.child, s);
    case Branch(children, stored) =>
      BranchItem(h, n);
      BranchItem(h, n');
      forall k | 0 <= k < 16 ensures Erase(children[k]) == Erase(n'.children[k]) {
        FitChild(h, n, k);
        FitChild(h, n', k);
        ChildHashed(h, n, k);
        ChildHashed(h, n', k);
        RefDetermines(h, children[k], n'.children[k], s);
        NodeDetermined(h, children[k], n'.children[k], s);
      }
      assert EraseAll(children) == EraseAll(n'.children);
  }

  lemma LeafItem(h: Hasher, n: Node)
    requires n.Leaf?
    ensures NodeItem(h, n) == List([Data(HexPrefix(n.path, true)), Data(n.value)])
    ensures NodeItem(h, n).items[0].bytes == HexPrefix(n.path, true) && NodeItem(h, n).items[1].bytes == n.value
  {
    hide HexPrefix;
  }

  lemma ExtensionItem(h: Hasher, n: Node)
    requires n.Extension? && AllFit(h, n) && Sixteen(n)
    ensures NodeItem(h, n) == List([Data(HexPrefix(n.path, false)), Ref(h, n.child)])
    ensures NodeItem(h, n).items[0].bytes == HexPrefix(n.path, false) && NodeItem(h, n).items[1] == Ref(h, n.child)
    ensures AllFit(h, n.child) && Sixteen(n.child) && HashedRef(h, n.child) == HashedInside(h, n)
  {
    hide HexPrefix, Ref, Written, Fits, HashedRef;
  }

  lemma BranchItem(h: Hasher, n: Node)
    requires n.Branch? && Sixteen(n)
    ensures |n.children| == 16
    ensures NodeItem(h, n).List? && |NodeItem(h, n).items| == 17
    ensures forall k :: 0 <= k < 16 ==> NodeItem(h, n).items[k] == Ref(h, n.children[k])
    ensures NodeItem(h, n).items[16] == Data(n.stored.GetOr([]))
  {
    hide HexPrefix, Ref;
  }

  /** The item of a node does not show the empty values of its branches. */
  lemma {:induction false} ErasedItem(h: Hasher, n: Node)
    ensures NodeItem(h, Erase(n)) == NodeItem(h, n)
    decreases n
  {
    hide HexPrefix, Ref;
    match n
    case Null =>
    case Leaf(_, _) =>
    case Extension(path, child) =>
      ErasedItem(h, child);
      SameRef(h, Erase(child), child);
    case Branch(children, stored) =>
      forall k | 0 <= k < |children| ensures Ref(h, Erase(children[k])) == Ref(h, children[k]) {
        ErasedItem(h, children[k]);
        SameRef(h, Erase(children[k]), children[k]);
      }
      assert Refs(h, EraseAll(children)) == Refs(h, children);
  }

  lemma SameRef(h: Hasher, n: Node, n': Node)
    requires NodeItem(h, n) == NodeItem(h, n')
    ensures Ref(h, n) == Ref(h, n')
  {
    hide Written, NodeItem;
  }

  /** Two nodes are hashed to the same root exactly when they differ in empty values of branches at most. */
  lemma RootsIffErased(h: Hasher, n: Node, n': Node)
    requires AllFit(h, n) && AllFit(h, n') && Sixteen(n) && Sixteen(n')
    requires Collisionless(h, Hashed(h, n) + Hashed(h, n'))
    ensures h(Written(NodeItem(h, n))) == h(Written(NodeItem(h, n'))) <==> Erase(n) == Erase(n')
  {
    hide AllFit, Sixteen, HashedInside, NodeItem, Written, Fits, Erase;
    var s := Hashed(h, n) + Hashed(h, n');
    assert Written(NodeItem(h, n)) in s && Written(NodeItem(h, n')) in s;
    ErasedItem(h, n);
    ErasedItem(h, n');
    if h(Written(NodeItem(h, n))) == h(Written(NodeItem(h, n'))) {
      OwnFits(h, n);
      OwnFits(h, n');
      WrittenInjective(NodeItem(h, n), NodeItem(h, n'));
      NodeDetermined(h, n, n', s);
    }
  }

  // ---------- Collections of byte keys ----------

  type Store = map<seq<byte>, Value>

  function Find(m: Store, k: seq<byte>): Option<Value> { if k in m then Some(m[k]) else None }

  /** Key a goes on behind k. */
  predicate GoesOn(a: seq<byte>, k: seq<byte>) { |k| < |a| && a[..|k|] == k }

  /** Two keys go on behind k with bytes that differ in their high nibble. */
  ghost predicate Parts(m: Store, k: seq<byte>) {
    exists a, b :: a in m && b in m && GoesOn(a, k) && GoesOn(b, k) && a[|k|] / 16 != b[|k|] / 16
  }

  /** The root does not show whether k is absent or holds the empty value. */
  ghost predicate Invisible(m: Store, k: seq<byte>) {
    (k in m ==> m[k] == []) && Parts(m, k)
  }

  ghost predicate SameAt(m: Store, m': Store, k: seq<byte>) {
    Find(m, k) == Find(m', k) || (Invisible(m, k) && Invisible(m', k))
  }

  /** The same pairs, but for keys that are invisible in both. */
  ghost predicate LooksLike(m: Store, m': Store) {
    forall k :: SameAt(m, m', k)
  }

  lemma {:induction false} NibblesBehind(a: seq<byte>, k: seq<byte>)
    ensures |Nibbles(a)| == 2 * |a|
    ensures Behind(Nibbles(a), Nibbles(k)) <==> GoesOn(a, k)
    ensures GoesOn(a, k) ==> Nibbles(a)[|Nibbles(k)|] == a[|k|] / 16
  {
    hide Pairs;
    PairsOfNibbles(a);
    PairsOfNibbles(k);
    if k == [] {
      assert Nibbles(a)[..0] == [];
    } else if a != [] {
      var x, y := Nibbles(a[1..]), Nibbles(k[1..]);
      NibblesBehind(a[1..], k[1..]);
      assert Nibbles(a) == [a[0] / 16, a[0] % 16] + x && Nibbles(k) == [k[0] / 16, k[0] % 16] + y;
      PrependBehind(a, k, x, y);
    }
  }

  lemma PrependBehind(a: seq<byte>, k: seq<byte>, x: Key, y: Key)
    requires a != [] && k != [] && (Behind(x, y) <==> GoesOn(a[1..], k[1..]))
    ensures Behind([a[0] / 16, a[0] % 16] + x, [k[0] / 16, k[0] % 16] + y) <==> GoesOn(a, k)
  {
    var u: Key, v: Key := [a[0] / 16, a[0] % 16], [k[0] / 16, k[0] % 16];
    if |y| < |x| {
      assert (u + x)[..|v + y|] == u + x[..|y|];
      assert u + x[..|y|] == v + y ==> (u + x[..|y|])[..2] == (v + y)[..2] && (u + x[..|y|])[2..] == (v + y)[2..];
    }
    if |k| < |a| { assert a[..|k|] == [a[0]] + a[1..][..|k| - 1] && k == [k[0]] + k[1..]; }
  }

  lemma GetNibbles(c: Contents, m: Store, k: seq<byte>)
    requires SameContents(c, m)
    ensures Get(c, Nibbles(k)) == Find(m, k)
  {
    hide Nibbles, Pairs;
    if Nibbles(k) in c {
      var k' :| k' in m && Nibbles(k') == Nibbles(k);
      PairsOfNibbles(k);
      PairsOfNibbles(k');
    }
  }

  lemma ForksNibbles(c: Contents, m: Store, k: seq<byte>)
    requires SameContents(c, m)
    ensures Forks(c, Nibbles(k)) <==> Parts(m, k)
  {
    hide Nibbles;
    if Forks(c, Nibbles(k)) {
      var x, y := ForkKeys(c, Nibbles(k));
      var a :| a in m && Nibbles(a) == x;
      var b :| b in m && Nibbles(b) == y;
      NibblesBehind(a, k);
      NibblesBehind(b, k);
    }
    if Parts(m, k) {
      var a, b :| a in m && b in m && GoesOn(a, k) && GoesOn(b, k) && a[|k|] / 16 != b[|k|] / 16;
      NibblesBehind(a, k);
      NibblesBehind(b, k);
      assert Nibbles(a) in c && Nibbles(b) in c;
    }
  }

  lemma SameAtNibbles(c: Contents, c': Contents, m: Store, m': Store, k: seq<byte>)
    requires SameContents(c, m) && SameContents(c', m')
    ensures AlikeAt(c, c', Nibbles(k)) <==> SameAt(m, m', k)
  {
    hide Nibbles, Forks, Parts, SameContents;
    GetNibbles(c, m, k);
    GetNibbles(c', m', k);
    ForksNibbles(c, m, k);
    ForksNibbles(c', m', k);
  }

  lemma LooksLikeAlike(c: Contents, c': Contents, m: Store, m': Store)
    requires SameContents(c, m) && SameContents(c', m')
    ensures Alike(c, c') <==> LooksLike(m, m')
  {
    hide Nibbles, SameAt, Hidden;
    if Alike(c, c') {
      forall k ensures SameAt(m, m', k) { SameAtNibbles(c, c', m, m', k); }
    }
    if LooksLike(m, m') {
      forall x: Key ensures AlikeAt(c, c', x) {
        if k :| Nibbles(k) == x { SameAtNibbles(c, c', m, m', k); }
      }
    }
  }

  // ---------- Roots ----------

  /** Node n is what the collection composes to. */
  ghost predicate Composed(m: Store, c: Contents, n: Node) { SameContents(c, m) && Composes(n, c, 0) }

  ghost predicate Fitting(h: Hasher, m: Store) {
    forall c, n :: Composed(m, c, n) ==> AllFit(h, n)
  }

  /** The hash tells apart all that is hashed for the two collections. */
  ghost predicate NoCollision(h: Hasher, m: Store, m': Store) {
    forall c, n, c', n' :: Composed(m, c, n) && Composed(m', c', n') ==> Collisionless(h, Hashed(h, n) + Hashed(h, n'))
  }

  lemma RootNode(h: Hasher, m: Store, r: seq<byte>) returns (c: Contents, n: Node)
    requires IsRoot(h, m, r)
    ensures Composed(m, c, n) && r == h(Written(NodeItem(h, n))) && Sixteen(n)
  {
    hide SameContents, Composes, NodeItem, Written, Sixteen;
    c, n :| SameContents(c, m) && Composes(n, c, 0) && r == h(Written(NodeItem(h, n)));
    ComposedSixteen(n, c, 0);
  }

  /**
   * Two collections have the same root exactly when they hold the same pairs, but for keys under
   * which each holds nothing or the empty value while two other keys of its own part right there.
   */
  lemma RootDeterminesContents(h: Hasher, m: Store, m': Store, r: seq<byte>, r': seq<byte>)
    requires IsRoot(h, m, r) && IsRoot(h, m', r')
    requires Fitting(h, m) && Fitting(h, m') && NoCollision(h, m, m')
    ensures r == r' <==> LooksLike(m, m')
  {
    hide SameContents, Composes, NodeItem, Written, Sixteen, AllFit, Hashed, Collisionless, LooksLike, Alike, Erase, IsRoot;
    var c, n := RootNode(h, m, r);
    var c', n' := RootNode(h, m', r');
    RootsIffErased(h, n, n');
    ErasureIsAlike(n, n', c, c');
    LooksLikeAlike(c, c', m, m');
  }

  ghost predicate NoEmptyValue(m: Store) { forall k :: k in m ==> m[k] != [] }

  /** Without empty values the root stands for the whole collection. */
  lemma NonEmptyDetermined(h: Hasher, m: Store, m': Store, r: seq<byte>, r': seq<byte>)
    requires IsRoot(h, m, r) && IsRoot(h, m', r')
    requires Fitting(h, m) && Fitting(h, m') && NoCollision(h, m, m')
    requires NoEmptyValue(m) && NoEmptyValue(m')
    ensures r == r' <==> m == m'
  {
    hide IsRoot, Fitting, NoCollision, Parts;
    RootDeterminesContents(h, m, m', r, r');
    if LooksLike(m, m') {
      forall k ensures Find(m, k) == Find(m', k) { assert SameAt(m, m', k); }
      SameFind(m, m');
    }
  }

  lemma SameFind(m: Store, m': Store)
    requires forall k :: Find(m, k) == Find(m', k)
    ensures m == m'
  {
    assert forall k :: k in m ==> Find(m, k) == Find(m', k);
    assert forall k :: k in m' ==> Find(m, k) == Find(m', k);
  }

  // ---------- An invisible key ----------

  /** A branch that stores the empty value is encoded like one that stores none. */
  lemma EmptyValueInvisible(h: Hasher, children: seq<Node>)
    ensures NodeItem(h, Branch(children, Some([]))) == NodeItem(h, Branch(children, None))
  {}

  const TWO_CHILDREN: seq<Node> :=
    [Leaf([0], [1]), Leaf([0], [1]), Null, Null, Null, Null, Null, Null, Null, Null, Null, Null, Null, Null, Null, Null]

  lemma TwoChildrenBelow(c: Contents, x: nibble)
    requires [0, 0] in c && [1, 0] in c && c[[0, 0]] == [1] && c[[1, 0]] == [1]
    requires forall k :: k in c ==> k == [] || k == [0, 0] || k == [1, 0]
    ensures Composes(TWO_CHILDREN[x], Below(c, 0, x), 1)
  {
    var a: Key, b: Key := [0, 0], [1, 0];
    assert a[1..] == [0] && b[1..] == [0];
    if x == 0 {
      assert Below(c, 0, x) == map[a := [1]];
    } else if x == 1 {
      assert Below(c, 0, x) == map[b := [1]];
    } else {
      assert Below(c, 0, x) == map[];
      assert TWO_CHILDREN[x] == Null;
    }
  }

  lemma TwoChildrenCompose(c: Contents, stored: Option<Value>)
    requires [0, 0] in c && [1, 0] in c && c[[0, 0]] == [1] && c[[1, 0]] == [1]
    requires forall k :: k in c ==> k == [] || k == [0, 0] || k == [1, 0]
    requires stored == Get(c, [])
    ensures Composes(Branch(TWO_CHILDREN, stored), c, 0)
  {
    var a: Key, b: Key := [0, 0], [1, 0];
    assert a[..1] == [0] && b[..1] == [1];
    assert Several(c) && !Agree(c, 1);
    forall x: nibble ensures Composes(TWO_CHILDREN[x], Below(c, 0, x), 1) { TwoChildrenBelow(c, x); }
    assert forall k: Key :: |k| == 0 ==> k == [];
  }

  /** Three keys, the shortest with an empty value, have the same root as the other two alone. */
  lemma EmptyValueCounterexample(h: Hasher)
    ensures var m: map<seq<byte>, Value> := map[[0x00] := [1], [0x10] := [1]];
      exists r :: IsRoot(h, m, r) && IsRoot(h, m[[] := []], r)
  {
    hide NodeItem, Written, Composes, SameContents;
    var m: map<seq<byte>, Value> := map[[0x00] := [1], [0x10] := [1]];
    var c: Contents := map[[0, 0] := [1], [1, 0] := [1]];
    TwoKeyContents(c, m);
    TwoChildrenCompose(c, None);
    TwoChildrenCompose(c[[] := []], Some([]));
    EmptyValueInvisible(h, TWO_CHILDREN);
    var r := h(Written(NodeItem(h, Branch(TWO_CHILDREN, None))));
    assert IsRoot(h, m, r) && IsRoot(h, m[[] := []], r);
  }

  lemma TwoKeyContents(c: Contents, m: map<seq<byte>, Value>)
    requires c == map[[0, 0] := [1], [1, 0] := [1]] && m == map[[0x00] := [1], [0x10] := [1]]
    ensures SameContents(c, m) && SameContents(c[[] := []], m[[] := []])
  {
    hide Nibbles;
    SingleByteNibbles();
  }

  lemma SingleByteNibbles()
    ensures Nibbles([]) == [] && Nibbles([0x00]) == [0, 0] && Nibbles([0x10]) == [1, 0]
  {
    assert [0x00][1..] == [] && [0x10][1..] == [];
  }
}
