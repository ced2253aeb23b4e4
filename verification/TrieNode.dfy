/** Merkle-Patricia nodes: the structure a set of keys composes to, and how a key is looked up in it. */
module TrieNode {
  import opened Bytes
  import opened Wrappers

  type nibble = x: int | 0 <= x < 16

  type Key = seq<nibble>

  type Value = seq<byte>

  datatype Node =
    | Null
    | Leaf(path: Key, value: Value)
    | Extension(path: Key, child: Node)
    | Branch(children: seq<Node>, stored: Option<Value>)

  // ---------- Hex-prefix encoding (Yellow Paper, Appendix C) ----------

  function Pairs(n: Key): (s: seq<byte>)
    requires |n| % 2 == 0
    ensures |s| == |n| / 2
  {
    if n == [] then [] else [(n[0] as int) * 16 + n[1]] + Pairs(n[2..])
  }

  function HexPrefix(n: Key, leaf: bool): (s: seq<byte>)
    ensures s != []
  {
    var odd := |n| % 2;
    var bits := (odd + (if leaf then 2 else 0)) * 16;
    var first := if odd == 1 then bits + n[0] else bits;
    [first] + Pairs(n[odd..])
  }

  lemma {:induction false} PairsAt(n: Key, k: nat)
    requires |n| % 2 == 0 && 2 * k < |n|
    ensures Pairs(n)[k] == 16 * (n[2 * k] as int) + n[2 * k + 1]
  {
    if k > 0 {
      PairsAt(n[2..], k - 1);
      assert n[2..][2 * (k - 1)] == n[2 * k] && n[2..][2 * (k - 1) + 1] == n[2 * k + 1];
    }
  }

  /**
   * The bytes of Appendix C: the first one holds the flags, 2 for a leaf and 1 for an odd length, and
   * the first nibble of an odd path; all others hold two nibbles each.
   */
  lemma HexPrefixBytes(n: Key, leaf: bool)
    ensures var (s, odd) := (HexPrefix(n, leaf), |n| % 2);
      && |s| == 1 + |n| / 2
      && s[0] / 16 == odd + (if leaf then 2 else 0)
      && s[0] % 16 == (if odd == 1 then n[0] else 0)
      && forall k :: 0 <= k < |n| / 2 ==> s[k + 1] == 16 * (n[odd + 2 * k] as int) + n[odd + 2 * k + 1]
  {
    hide Pairs;
    var (s, odd) := (HexPrefix(n, leaf), |n| % 2);
    forall k: nat | k < |n| / 2 ensures s[k + 1] == 16 * (n[odd + 2 * k] as int) + n[odd + 2 * k + 1] {
      PairsAt(n[odd..], k);
    }
  }

  function Nibbles(s: seq<byte>): Key {
    if s == [] then [] else [s[0] / 16, s[0] % 16] + Nibbles(s[1..])
  }

  /** The high nibble of each byte comes first. */
  lemma {:induction false} NibblesAt(s: seq<byte>, k: nat)
    requires k < |s|
    ensures |Nibbles(s)| == 2 * |s| && Nibbles(s)[2 * k] == s[k] / 16 && Nibbles(s)[2 * k + 1] == s[k] % 16
  {
    if k > 0 { NibblesAt(s[1..], k - 1); } else { NibblesLength(s[1..]); }
  }

  lemma {:induction false} NibblesLength(s: seq<byte>)
    ensures |Nibbles(s)| == 2 * |s|
  {
    if s != [] { NibblesLength(s[1..]); }
  }

  /** Reading a hex-prefix path back. */
  function UnHexPrefix(s: seq<byte>): (Key, bool)
    requires s != []
  {
    var flags := s[0] / 16;
    ((if flags % 2 == 1 then [s[0] % 16] else []) + Nibbles(s[1..]), flags >= 2)
  }

  lemma {:induction false} NibblesOfPairs(n: Key)
    requires |n| % 2 == 0
    ensures Nibbles(Pairs(n)) == n
  {
    if n != [] {
      NibblesOfPairs(n[2..]);
      assert Pairs(n)[1..] == Pairs(n[2..]);
      assert n == [n[0], n[1]] + n[2..];
    }
  }

  /** The path and the leaf flag can be read back, so no two of them share an encoding. */
  lemma HexPrefixReadsBack(n: Key, leaf: bool)
    ensures UnHexPrefix(HexPrefix(n, leaf)) == (n, leaf)
  {
    hide Pairs, Nibbles;
    var odd := |n| % 2;
    NibblesOfPairs(n[odd..]);
    assert HexPrefix(n, leaf)[1..] == Pairs(n[odd..]);
    if odd == 1 { assert n == [n[0]] + n[1..]; } else { assert n[0..] == n && [] + n == n; }
  }

  lemma HexPrefixInjective(m: Key, a: bool, n: Key, b: bool)
    requires HexPrefix(m, a) == HexPrefix(n, b)
    ensures m == n && a == b
  {
    hide HexPrefix, UnHexPrefix;
    HexPrefixReadsBack(m, a);
    HexPrefixReadsBack(n, b);
  }

  // ---------- Structural composition (Yellow Paper, Appendix D) ----------

  type Contents = map<Key, Value>

  /** All keys reach j nibbles and agree on them. */
  ghost predicate Agree(m: Contents, j: nat) {
    && (forall k :: k in m ==> j <= |k|)
    && (forall a, b :: a in m && b in m ==> a[..j] == b[..j])
  }

  /** At least two keys. */
  ghost predicate Several(m: Contents) {
    exists a, b :: a in m && b in m && a != b
  }

  /** The keys that go on with nibble x after i nibbles. */
  ghost function Below(m: Contents, i: nat, x: nibble): Contents {
    map k | k in m && i < |k| && k[i] == x :: m[k]
  }

  /** Node n is the structural composition c(m, i) of the keys of m from nibble i on. */
  ghost predicate Composes(n: Node, m: Contents, i: nat)
    decreases n
  {
    match n
    case Null => m == map[]
    case Leaf(path, v) =>
      exists k :: k in m && m == map[k := v] && i <= |k| && k[i..] == path
    case Extension(path, child) =>
      // the longest path shared by all keys
      && Several(m) && path != []
      && Agree(m, i + |path|) && !Agree(m, i + |path| + 1)
      && (forall k :: k in m ==> k[i..i + |path|] == path)
      && Composes(child, m, i + |path|)
    case Branch(children, stored) =>
      && Several(m) && !Agree(m, i + 1)
      && |children| == 16
      && (forall x: nibble :: Composes(children[x], Below(m, i, x), i + 1))
      && (forall k :: k in m && |k| == i ==> stored == Some(m[k]))
      && ((forall k :: k in m ==> |k| != i) ==> stored == None)
  }

  lemma AgreeLess(m: Contents, i: nat, j: nat)
    requires Agree(m, j) && i <= j
    ensures Agree(m, i)
  {
    forall a, b | a in m && b in m ensures a[..i] == b[..i] {
      assert a[..i] == a[..j][..i] && b[..i] == b[..j][..i];
    }
  }

  lemma BelowAgrees(m: Contents, i: nat, x: nibble)
    requires Agree(m, i)
    ensures Agree(Below(m, i, x), i + 1)
  {
    var s := Below(m, i, x);
    forall a, b | a in s && b in s ensures a[..i + 1] == b[..i + 1] {
      assert a[..i + 1] == a[..i] + [a[i]] && b[..i + 1] == b[..i] + [b[i]];
    }
  }

  lemma NodeKinds(n: Node, m: Contents, i: nat)
    requires Composes(n, m, i)
    ensures n.Null? <==> m == map[]
    ensures n.Leaf? ==> m != map[] && !Several(m)
    ensures n.Extension? || n.Branch? ==> Several(m)
  {
    if Several(m) {
      var a, b :| a in m && b in m && a != b;
    }
  }

  /** The composition is a function of the key set: it has exactly one node. */
  lemma {:induction false} ComposesUnique(n: Node, n': Node, m: Contents, i: nat)
    requires Agree(m, i) && Composes(n, m, i) && Composes(n', m, i)
    ensures n == n'
    decreases n
  {
    hide Agree, Several, Composes;
    NodeKinds(n, m, i);
    NodeKinds(n', m, i);
    match n
    case Null =>
    case Leaf(path, v) => SameLeaf(n, n', m, i);
    case Extension(path, child) =>
      SameExtension(n, n', m, i);
      ExtensionLength(n, m, i);
      ExtensionLength(n', m, i);
      ComposesUnique(child, n'.child, m, i + |path|);
    case Branch(children, stored) =>
      BranchLength(n, m, i);
      if n'.Extension? {
        ExtensionLength(n', m, i);
        AgreeLess(m, i + 1, i + |n'.path|);
      } else {
        BranchLength(n', m, i);
        forall x: nibble ensures children[x] == n'.children[x] {
          BelowAgrees(m, i, x);
          BranchChild(n, m, i, x);
          BranchChild(n', m, i, x);
          ComposesUnique(children[x], n'.children[x], Below(m, i, x), i + 1);
        }
        assert children == n'.children;
        SameBranchValue(n, n', m, i);
      }
  }

  lemma SameLeaf(n: Node, n': Node, m: Contents, i: nat)
    requires Composes(n, m, i) && Composes(n', m, i) && n.Leaf? && n'.Leaf?
    ensures n == n'
  {
    var k :| k in m && m == map[k := n.value] && i <= |k| && k[i..] == n.path;
    var k' :| k' in m && m == map[k' := n'.value] && i <= |k'| && k'[i..] == n'.path;
    assert k == k';
    assert m[k] == n.value == n'.value;
  }

  lemma SameExtension(n: Node, n': Node, m: Contents, i: nat)
    requires Composes(n, m, i) && Composes(n', m, i) && n.Extension?
    requires n'.Extension? || n'.Branch?
    ensures n'.Extension? && n'.path == n.path
  {
    hide Agree, Composes;
    ExtensionLength(n, m, i);
    if n'.Branch? {
      BranchLength(n', m, i);
      AgreeLess(m, i + 1, i + |n.path|);
    } else {
      ExtensionLength(n', m, i);
      if |n.path| < |n'.path| { AgreeLess(m, i + |n.path| + 1, i + |n'.path|); }
      if |n'.path| < |n.path| { AgreeLess(m, i + |n'.path| + 1, i + |n.path|); }
      var a, b :| a in m && b in m && a != b;
      ExtensionPath(n, m, i, a);
      ExtensionPath(n', m, i, a);
    }
  }

  lemma ExtensionLength(n: Node, m: Contents, i: nat)
    requires n.Extension? && Composes(n, m, i)
    ensures Several(m) && n.path != [] && Agree(m, i + |n.path|) && !Agree(m, i + |n.path| + 1)
    ensures Composes(n.child, m, i + |n.path|)
  {
    hide Agree, Several;
  }

  lemma BranchLength(n: Node, m: Contents, i: nat)
    requires n.Branch? && Composes(n, m, i)
    ensures !Agree(m, i + 1) && |n.children| == 16
  {
    hide Agree, Several;
  }

  lemma BranchChild(n: Node, m: Contents, i: nat, x: nibble)
    requires n.Branch? && Composes(n, m, i)
    ensures |n.children| == 16 && Composes(n.children[x], Below(m, i, x), i + 1)
  {
    hide Agree, Several, Below;
  }

  lemma ExtensionPath(n: Node, m: Contents, i: nat, k: Key)
    requires n.Extension? && Composes(n, m, i) && k in m
    ensures i + |n.path| <= |k| && k[i..i + |n.path|] == n.path
  {
    hide Several;
  }

  lemma SameBranchValue(n: Node, n': Node, m: Contents, i: nat)
    requires Composes(n, m, i) && Composes(n', m, i) && n.Branch? && n'.Branch?
    ensures n.stored == n'.stored
  {
    if k :| k in m && |k| == i { assert n.stored == Some(m[k]); }
  }

  // ---------- Looking a key up ----------

  /** Follows the nibbles of a key through the nodes. */
  function Lookup(n: Node, key: Key): Option<Value> {
    match n
    case Null => None
    case Leaf(path, v) => if key == path then Some(v) else None
    case Extension(path, child) =>
      if |path| <= |key| && key[..|path|] == path then Lookup(child, key[|path|..]) else None
    case Branch(children, stored) =>
      if key == [] then stored
      else if key[0] < |children| then Lookup(children[key[0]], key[1..])
      else None
  }

  function Get(m: Contents, k: Key): Option<Value> {
    if k in m then Some(m[k]) else None
  }

  /** A key found so far along the way agrees with the stored keys on the nibbles used up. */
  ghost predicate OnTheWay(m: Contents, key: Key, i: nat) {
    i <= |key| && forall k :: k in m ==> i <= |k| && k[..i] == key[..i]
  }

  /** A key leads to its own value, and a key that is not stored leads to nothing. */
  lemma {:induction false} LookupFinds(n: Node, m: Contents, i: nat, key: Key)
    requires Composes(n, m, i) && OnTheWay(m, key, i)
    ensures Lookup(n, key[i..]) == Get(m, key)
    decreases n
  {
    hide Agree, Several;
    match n
    case Null =>
    case Leaf(path, v) => LookupLeaf(n, m, i, key);
    case Extension(path, child) =>
      var j := i + |path|;
      if j <= |key| && key[i..j] == path {
        ExtensionOnTheWay(m, i, path, key);
        LookupFinds(child, m, j, key);
        assert key[i..][..|path|] == path && key[i..][|path|..] == key[j..];
      } else {
        ExtensionLeavesTheWay(m, i, path, key);
      }
    case Branch(children, stored) =>
      if |key| == i {
        assert key[i..] == [];
        if key !in m { ShortKeyAlone(m, key, i); }
      } else {
        var x := key[i];
        var s := Below(m, i, x);
        assert key[i..][0] == x && key[i..][1..] == key[i + 1..];
        BelowOnTheWay(m, key, i);
        LookupFinds(children[x], s, i + 1, key);
      }
  }

  lemma LookupLeaf(n: Node, m: Contents, i: nat, key: Key)
    requires n.Leaf? && Composes(n, m, i) && OnTheWay(m, key, i)
    ensures Lookup(n, key[i..]) == Get(m, key)
  {
    var k :| k in m && m == map[k := n.value] && i <= |k| && k[i..] == n.path;
    assert k == k[..i] + k[i..] && key == key[..i] + key[i..];
  }

  lemma ExtensionOnTheWay(m: Contents, i: nat, path: Key, key: Key)
    requires OnTheWay(m, key, i) && i + |path| <= |key| && key[i..i + |path|] == path
    requires Agree(m, i + |path|) && forall k :: k in m ==> k[i..i + |path|] == path
    ensures OnTheWay(m, key, i + |path|)
  {
    var j := i + |path|;
    forall k | k in m ensures k[..j] == key[..j] {
      assert k[..j] == k[..i] + k[i..j] && key[..j] == key[..i] + key[i..j];
    }
  }

  lemma ExtensionLeavesTheWay(m: Contents, i: nat, path: Key, key: Key)
    requires i <= |key| && !(i + |path| <= |key| && key[i..i + |path|] == path)
    requires Agree(m, i + |path|) && forall k :: k in m ==> k[i..i + |path|] == path
    ensures key !in m
    ensures !(|path| <= |key[i..]| && key[i..][..|path|] == path)
  {}

  lemma ShortKeyAlone(m: Contents, key: Key, i: nat)
    requires OnTheWay(m, key, i) && |key| == i && key !in m
    ensures forall k :: k in m ==> |k| != i
  {
    forall k | k in m ensures |k| == i ==> k == key {
      assert key[..i] == key;
      if |k| == i { assert k[..i] == k; }
    }
  }

  lemma BelowOnTheWay(m: Contents, key: Key, i: nat)
    requires OnTheWay(m, key, i) && i < |key|
    ensures OnTheWay(Below(m, i, key[i]), key, i + 1)
    ensures Get(Below(m, i, key[i]), key) == Get(m, key)
  {
    forall k | k in Below(m, i, key[i]) ensures k[..i + 1] == key[..i + 1] {
      assert k[..i + 1] == k[..i] + [k[i]] && key[..i + 1] == key[..i] + [key[i]];
    }
  }
}
