/** The root hash of a key-value collection, and what it says about the collection. */
module TrieRoot {
  import opened Bytes
  import opened Encoding
  import opened Lexico
  import opened TrieNode
  import opened TrieBuild
  import opened TrieHash
  import Stream

  datatype Pair = Pair(key: seq<byte>, value: Value)

  // ---------- The sorted collection ----------

  ghost predicate SortedPairs(m: seq<Pair>) {
    forall a, b :: 0 <= a < b < |m| ==> Less(m[a].key, m[b].key)
  }

  /** Collecting into an ordered map: the keys ascend, and the last value of a key wins. */
  function Insert(m: seq<Pair>, p: Pair): seq<Pair> {
    if m == [] || Less(p.key, m[0].key) then [p] + m
    else if m[0].key == p.key then [p] + m[1..]
    else [m[0]] + Insert(m[1..], p)
  }

  function Collect(input: seq<Pair>): seq<Pair> {
    if input == [] then [] else Insert(Collect(input[..|input| - 1]), input[|input| - 1])
  }

  /** The collection as a map: the last pair with a key counts. */
  function AsMap(input: seq<Pair>): map<seq<byte>, Value> {
    if input == [] then map[] else AsMap(input[..|input| - 1])[input[|input| - 1].key := input[|input| - 1].value]
  }

  /** Of all pairs with a key the last one counts; a key without a pair is not in the collection. */
  lemma {:induction false} LastPairWins(input: seq<Pair>, k: seq<byte>)
    ensures k in AsMap(input) <==> exists i :: 0 <= i < |input| && input[i].key == k
    ensures forall i :: 0 <= i < |input| && input[i].key == k && (forall j :: i < j < |input| ==> input[j].key != k) ==>
      k in AsMap(input) && AsMap(input)[k] == input[i].value
  {
    if input != [] {
      var n := |input| - 1;
      LastPairWins(input[..n], k);
      assert input == input[..n] + [input[n]];
    }
  }

  /** The pairs of a sorted list are exactly those of the map. */
  ghost predicate Lists(s: seq<Pair>, m: map<seq<byte>, Value>) {
    && SortedPairs(s)
    && (forall a :: 0 <= a < |s| ==> s[a].key in m && m[s[a].key] == s[a].value)
    && (forall k :: k in m ==> exists a :: 0 <= a < |s| && s[a].key == k)
  }

  lemma {:induction false} InsertKeys(s: seq<Pair>, p: Pair, low: seq<int>)
    requires SortedPairs(s) && Less(low, p.key) && forall a :: 0 <= a < |s| ==> Less(low, s[a].key)
    ensures forall a :: 0 <= a < |Insert(s, p)| ==> Less(low, Insert(s, p)[a].key)
  {
    hide Less;
    if s == [] || Less(p.key, s[0].key) {
    } else if s[0].key == p.key {
    } else {
      InsertKeys(s[1..], p, low);
    }
  }

  lemma {:induction false} InsertSorted(s: seq<Pair>, p: Pair)
    requires SortedPairs(s)
    ensures SortedPairs(Insert(s, p))
  {
    hide Less;
    if s == [] {
    } else if Less(p.key, s[0].key) {
      forall a | 0 < a < |s| ensures Less(p.key, s[a].key) { Transitive(p.key, s[0].key, s[a].key); }
    } else if s[0].key == p.key {
    } else {
      Total(p.key, s[0].key);
      InsertSorted(s[1..], p);
      InsertKeys(s[1..], p, s[0].key);
    }
  }

  /** Afterwards the new pair is listed, and all others with another key. */
  lemma {:induction false} InsertMembers(s: seq<Pair>, p: Pair, q: Pair)
    requires SortedPairs(s)
    ensures q in Insert(s, p) <==> q == p || (q in s && q.key != p.key)
  {
    hide Less;
    if s == [] {
    } else if Less(p.key, s[0].key) {
      if q in s { NotBelow(s, p, q); }
    } else if s[0].key == p.key {
      if q in s[1..] { NotFirst(s, q); }
      assert s == [s[0]] + s[1..];
    } else {
      InsertMembers(s[1..], p, q);
      assert s == [s[0]] + s[1..];
    }
  }

  lemma NotBelow(s: seq<Pair>, p: Pair, q: Pair)
    requires SortedPairs(s) && s != [] && Less(p.key, s[0].key) && q in s
    ensures q.key != p.key
  {
    hide Less;
    var a :| 0 <= a < |s| && s[a] == q;
    if a > 0 { Transitive(p.key, s[0].key, s[a].key); }
    Irreflexive(p.key);
  }

  lemma NotFirst(s: seq<Pair>, q: Pair)
    requires SortedPairs(s) && s != [] && q in s[1..]
    ensures q.key != s[0].key
  {
    hide Less;
    var rest := s[1..];
    var a :| 0 <= a < |rest| && rest[a] == q;
    assert s[a + 1] == q;
    Irreflexive(q.key);
  }

  lemma {:induction false} CollectLists(input: seq<Pair>)
    ensures Lists(Collect(input), AsMap(input))
  {
    hide Less, Insert;
    if input != [] {
      var init, p := input[..|input| - 1], input[|input| - 1];
      CollectLists(init);
      var s, s', m := Collect(init), Collect(input), AsMap(init);
      InsertSorted(s, p);
      var m' := AsMap(input);
      forall a | 0 <= a < |s'| ensures s'[a].key in m' && m'[s'[a].key] == s'[a].value {
        InsertMembers(s, p, s'[a]);
        assert s'[a] in s';
      }
      forall k | k in m' ensures exists a :: 0 <= a < |s'| && s'[a].key == k {
        var q := if k == p.key then p else ListedPair(s, m, k);
        InsertMembers(s, p, q);
        assert q in s';
      }
    }
  }

  ghost function ListedPair(s: seq<Pair>, m: map<seq<byte>, Value>, k: seq<byte>): (q: Pair)
    requires Lists(s, m) && k in m
    ensures q in s && q.key == k
  {
    var a :| 0 <= a < |s| && s[a].key == k;
    s[a]
  }

  // ---------- Keys as nibbles ----------

  lemma {:induction false} PairsOfNibbles(k: seq<byte>)
    ensures |Nibbles(k)| == 2 * |k| && Pairs(Nibbles(k)) == k
  {
    if k != [] {
      PairsOfNibbles(k[1..]);
      assert Nibbles(k)[2..] == Nibbles(k[1..]);
      assert k == [k[0]] + k[1..];
    }
  }

  lemma {:induction false} NibblesOrder(a: seq<byte>, b: seq<byte>)
    requires Less(a, b)
    ensures Less(Nibbles(a), Nibbles(b))
    decreases |a|
  {
    if a != [] {
      var x, y := Nibbles(a), Nibbles(b);
      assert x[1..][1..] == Nibbles(a[1..]) && y[1..][1..] == Nibbles(b[1..]);
      assert x[1..][0] == a[0] % 16 && y[1..][0] == b[0] % 16;
      if a[0] == b[0] { NibblesOrder(a[1..], b[1..]); }
      assert Less(x[1..], y[1..]) == (a[0] % 16 < b[0] % 16 || (a[0] % 16 == b[0] % 16 && Less(Nibbles(a[1..]), Nibbles(b[1..]))));
    }
  }

  /** The nibble keys hold what the byte keys hold. */
  ghost predicate SameContents(c: TrieNode.Contents, m: map<seq<byte>, Value>) {
    && (forall k :: k in m ==> Nibbles(k) in c && c[Nibbles(k)] == m[k])
    && (forall n :: n in c ==> exists k :: k in m && Nibbles(k) == n)
  }

  lemma SameContentsUnique(c: TrieNode.Contents, d: TrieNode.Contents, m: map<seq<byte>, Value>)
    requires SameContents(c, m) && SameContents(d, m)
    ensures c == d
  {
    hide Nibbles;
    assert forall n :: n in c <==> n in d;
    forall n | n in c ensures c[n] == d[n] {
      var k :| k in m && Nibbles(k) == n;
    }
  }

  /** The entries of a sorted list of pairs. */
  ghost predicate EntriesOf(entries: seq<Entry>, s: seq<Pair>) {
    |entries| == |s| && forall a :: 0 <= a < |s| ==> entries[a] == Entry(Nibbles(s[a].key), s[a].value)
  }

  lemma EntriesReady(entries: seq<Entry>, s: seq<Pair>, m: map<seq<byte>, Value>)
    requires EntriesOf(entries, s) && Lists(s, m)
    ensures Ready(entries, 0) && SameContents(TrieBuild.Contents(entries), m)
  {
    hide Less, Nibbles, TrieBuild.Contents;
    forall a, b | 0 <= a < b < |entries| ensures Less(entries[a].key, entries[b].key) {
      NibblesOrder(s[a].key, s[b].key);
    }
    ContentsAre(entries);
    var c := TrieBuild.Contents(entries);
    forall k | k in m ensures Nibbles(k) in c && c[Nibbles(k)] == m[k] {
      var a :| 0 <= a < |s| && s[a].key == k;
      assert entries[a].key in c;
    }
    forall n | n in c ensures exists k :: k in m && Nibbles(k) == n {
      var a :| 0 <= a < |entries| && entries[a].key == n;
      assert s[a].key in m;
    }
  }

  // ---------- The root ----------

  /** r is the root hash of the collection: the hash of the encoding of the composition of its keys. */
  ghost predicate IsRoot(h: Hasher, m: map<seq<byte>, Value>, r: seq<byte>) {
    exists c, n :: SameContents(c, m) && Composes(n, c, 0) && r == h(Written(NodeItem(h, n)))
  }

  lemma AgreeAtStart(c: TrieNode.Contents)
    ensures Agree(c, 0)
  {}

  /** The root depends on nothing but the collection's contents: neither order nor repetition. */
  lemma RootUnique(h: Hasher, m: map<seq<byte>, Value>, r: seq<byte>, r': seq<byte>)
    requires IsRoot(h, m, r) && IsRoot(h, m, r')
    ensures r == r'
  {
    hide SameContents, Composes, NodeItem, Written;
    var c, n :| SameContents(c, m) && Composes(n, c, 0) && r == h(Written(NodeItem(h, n)));
    var c', n' :| SameContents(c', m) && Composes(n', c', 0) && r' == h(Written(NodeItem(h, n')));
    SameContentsUnique(c, c', m);
    AgreeAtStart(c);
    ComposesUnique(n, n', c, 0);
  }

  /** An empty collection has the hash of an empty item as its root. */
  lemma EmptyRoot(h: Hasher, r: seq<byte>)
    ensures IsRoot(h, map[], r) <==> r == h([0x80])
  {
    hide Nibbles;
    NullRef(h);
    assert SameContents(map[], map[]) && Composes(Null, map[], 0);
    assert IsRoot(h, map[], h([0x80]));
    if IsRoot(h, map[], r) { RootUnique(h, map[], r, h([0x80])); }
  }

  /** A collection of one pair is a leaf whose path is the whole key: the hash of its flags and bytes, and the value. */
  lemma OnePairRoot(h: Hasher, k: seq<byte>, v: Value, r: seq<byte>)
    ensures IsRoot(h, map[k := v], r) <==> r == h(Written(List([Data([0x20] + k), Data(v)])))
  {
    hide Nibbles, Written, Composes, SameContents;
    var (c, n) := (map[Nibbles(k) := v], Leaf(Nibbles(k), v));
    OneLeaf(k, v);
    LeafItem(h, k, v);
    var root := h(Written(List([Data([0x20] + k), Data(v)])));
    assert IsRoot(h, map[k := v], root);
    if IsRoot(h, map[k := v], r) { RootUnique(h, map[k := v], r, root); }
  }

  lemma OneLeaf(k: seq<byte>, v: Value)
    ensures SameContents(map[Nibbles(k) := v], map[k := v]) && Composes(Leaf(Nibbles(k), v), map[Nibbles(k) := v], 0)
  {
    hide Nibbles;
    assert Nibbles(k)[0..] == Nibbles(k);
  }

  lemma LeafItem(h: Hasher, k: seq<byte>, v: Value)
    ensures NodeItem(h, Leaf(Nibbles(k), v)) == List([Data([0x20] + k), Data(v)])
  {
    hide Nibbles, Pairs;
    PairsOfNibbles(k);
    assert Nibbles(k)[0..] == Nibbles(k);
  }

  /** The value 1 under the key 0x41. */
  lemma OnePairExample(h: Hasher, r: seq<byte>)
    ensures IsRoot(h, map[[0x41] := [1]], r) <==> r == h([0xc4, 0x82, 0x20, 0x41, 0x01])
  {
    OnePairRoot(h, [0x41], [1], r);
    assert Written(List([Data([0x20] + [0x41]), Data([1])])) == [0xc4, 0x82, 0x20, 0x41, 0x01] by {
      var items := [Data([0x20, 0x41]), Data([1])];
      assert [0x20] + [0x41] == [0x20, 0x41];
      assert Written(items[0]) == [0x82, 0x20, 0x41] && Written(items[1]) == [0x01];
      assert items[1..] == [items[1]] && items[1..][1..] == [];
      assert WrittenAll(items[1..]) == [0x01];
      assert WrittenAll(items) == [0x82, 0x20, 0x41, 0x01];
    }
  }

  /** The a-th of the slices between consecutive ends. */
  ghost predicate KeyAt(nibbles: Key, lens: seq<nat>, a: nat, key: seq<byte>) {
    a + 1 < |lens| && lens[a] <= lens[a + 1] <= |nibbles| && nibbles[lens[a]..lens[a + 1]] == Nibbles(key)
  }

  /** All key nibbles in one buffer, and where each key ends in it. */
  method FillNibbles(input: seq<Pair>) returns (nibbles: Key, lens: seq<nat>)
    ensures |lens| == |input| + 1
    ensures forall a :: 0 <= a < |input| ==> KeyAt(nibbles, lens, a, input[a].key)
  {
    hide Nibbles;
    nibbles, lens := [], [0];
    for i := 0 to |input|
      invariant |lens| == i + 1 && lens[i] == |nibbles|
      invariant forall a :: 0 <= a < i ==> KeyAt(nibbles, lens, a, input[a].key)
    {
      var more := SplitBytes(input[i].key);
      ghost var was, wasLens := nibbles, lens;
      nibbles := nibbles + more;
      lens := lens + [|nibbles|];
      forall a | 0 <= a <= i ensures KeyAt(nibbles, lens, a, input[a].key) {
        if a < i {
          assert KeyAt(was, wasLens, a, input[a].key);
          assert nibbles[lens[a]..lens[a + 1]] == was[wasLens[a]..wasLens[a + 1]];
        }
      }
    }
  }

  method SplitBytes(k: seq<byte>) returns (n: Key)
    ensures n == Nibbles(k)
  {
    n := [];
    for j := 0 to |k|
      invariant n + Nibbles(k[j..]) == Nibbles(k)
    {
      assert k[j..][1..] == k[j + 1..];
      assert n + ([k[j] / 16, k[j] % 16] + Nibbles(k[j + 1..])) == (n + [k[j] / 16] + [k[j] % 16]) + Nibbles(k[j + 1..]);
      n := n + [k[j] / 16];
      n := n + [k[j] % 16];
    }
    assert k[|k|..] == [];
  }

  method RootOf(h: Hasher, input: seq<Pair>) returns (r: seq<byte>)
    ensures IsRoot(h, AsMap(input), r)
  {
    hide Nibbles, NodeItem, Written, Build, Collect, AsMap, SameContents, Composes, TrieBuild.Contents, Ready, Lists;
    var sorted := Collect(input);
    CollectLists(input);
    var nibbles, lens := FillNibbles(sorted);
    // Each key is the slice of the buffer between its ends.
    var entries := seq(|sorted|, a requires 0 <= a < |sorted| && KeyAt(nibbles, lens, a, sorted[a].key) =>
      Entry(nibbles[lens[a]..lens[a + 1]], sorted[a].value));
    EntriesReady(entries, sorted, AsMap(input));
    var stream := new Stream.RlpStream([]);
    Hash256Rlp(h, entries, 0, stream);
    BuildComposes(entries, 0);
    ghost var n := Build(entries, 0);
    assert [] + Written(NodeItem(h, n)) == Written(NodeItem(h, n));
    r := h(stream.buffer);
    assert SameContents(TrieBuild.Contents(entries), AsMap(input)) && Composes(n, TrieBuild.Contents(entries), 0);
  }
}
