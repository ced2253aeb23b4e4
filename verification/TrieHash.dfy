/** Emitting nodes as RLP, and the root hash of a key-value set. The hash is left uninterpreted. */
module TrieHash {
  import opened Bytes
  import opened Wrappers
  import opened Encoding
  import opened TrieNode
  import opened TrieBuild
  import Stream

  type Hasher = seq<byte> -> seq<byte>

  // ---------- Nodes as RLP (Yellow Paper, Appendix D) ----------

  /** The RLP item of a node. */
  function NodeItem(h: Hasher, n: Node): Item
    decreases n, 0
  {
    match n
    case Null => Data([])
    case Leaf(path, v) => List([Data(HexPrefix(path, true)), Data(v)])
    case Extension(path, child) => List([Data(HexPrefix(path, false)), Ref(h, child)])
    case Branch(children, stored) => List(Refs(h, children) + [Data(stored.GetOr([]))])
  }

  /** How a node appears inside another: itself when its encoding is below 32 bytes, else its hash. */
  function Ref(h: Hasher, n: Node): Item
    decreases n, 1
  {
    var out := Written(NodeItem(h, n));
    if |out| <= 31 then NodeItem(h, n) else Data(h(out))
  }

  function Refs(h: Hasher, ns: seq<Node>): (r: seq<Item>)
    ensures |r| == |ns|
    ensures forall k :: 0 <= k < |ns| ==> r[k] == Ref(h, ns[k])
    decreases ns, 2
  {
    if ns == [] then [] else [Ref(h, ns[0])] + Refs(h, ns[1..])
  }

  lemma NullRef(h: Hasher)
    ensures Ref(h, Null) == Data([]) && Written(Data([])) == [0x80] && NodeItem(h, Null) == Data([])
  {
    assert Written(Data([])) == [0x80];
  }

  /** Below 32 bytes a node is inlined, from 32 bytes on its hash stands for it. */
  lemma RefInlines(h: Hasher, n: Node)
    ensures var out := Written(NodeItem(h, n));
      && (|out| < 32 ==> Ref(h, n) == NodeItem(h, n))
      && (|out| >= 32 ==> Ref(h, n) == Data(h(out)))
  {}

  /**
   * What stands where in the item of a node: the path comes first, its first byte telling leaves and
   * extensions apart, and of a branch the references come first, in the order of the nibbles.
   */
  lemma NodeLayout(h: Hasher, n: Node)
    ensures match n
      case Null => NodeItem(h, n) == Data([])
      case Leaf(path, v) => exists p ::
        NodeItem(h, n) == List([Data(p), Data(v)]) && p != [] && p[0] >= 0x20 && UnHexPrefix(p).0 == path
      case Extension(path, child) => exists p ::
        NodeItem(h, n) == List([Data(p), Ref(h, child)]) && p != [] && p[0] < 0x20 && UnHexPrefix(p).0 == path
      case Branch(children, stored) =>
        && NodeItem(h, n).List?
        && var items := NodeItem(h, n).items;
        && |items| == |children| + 1
        && (forall k :: 0 <= k < |children| ==> items[k] == Ref(h, children[k]))
        && items[|children|] == (if stored.Some? then Data(stored.value) else Data([]))
  {
    hide HexPrefix, UnHexPrefix, Ref;
    match n
    case Null =>
    case Leaf(path, v) =>
      HexPrefixBytes(path, true);
      HexPrefixReadsBack(path, true);
    case Extension(path, child) =>
      HexPrefixBytes(path, false);
      HexPrefixReadsBack(path, false);
    case Branch(children, stored) =>
  }

  // ---------- The recursion over the stream ----------

  /** Appends the node of a sorted slice to the stream, as one item. */
  method Hash256Rlp(h: Hasher, input: seq<Entry>, pre: nat, stream: Stream.RlpStream)
    requires Ready(input, pre) && Stream.Valid(stream.View())
    modifies stream
    ensures stream.View() == Stream.AppendItem(old(stream.View()), Written(NodeItem(h, Build(input, pre))))
    decreases Left(input, pre), 3
  {
    hide Written, Ready, Left, Stream.Note, Stream.Progress, Stream.Valid, NodeItem, SharedPrefix;
    if |input| == 0 {
      EmitEmpty(h, input, pre);
      stream.AppendEmptyData();
      return;
    }
    var key, value := input[0].key, input[0].value;
    // A leaf.
    if |input| == 1 {
      BuildLeaf(input, pre);
      EmitLeaf(h, stream, key[pre..], value);
      return;
    }
    SharedIsLongest(input, pre);
    LongestAtLeast(input, 0);
    var sharedPrefix := SharedPrefix(input);
    // An extension by what is shared beyond `pre`.
    if sharedPrefix > pre {
      LeftLess(input, pre, sharedPrefix);
      EmitExtension(h, input, pre, sharedPrefix, stream);
      return;
    }
    EmitBranch(h, input, pre, stream);
  }

  lemma BuildLeaf(input: seq<Entry>, pre: nat)
    requires Ready(input, pre) && |input| == 1
    ensures pre <= |input[0].key| && Build(input, pre) == Leaf(input[0].key[pre..], input[0].value)
  {}

  lemma LeftLess(input: seq<Entry>, pre: nat, shared: nat)
    requires pre < shared <= Longest(input)
    ensures Left(input, shared) < Left(input, pre)
  {}

  lemma EmitEmpty(h: Hasher, input: seq<Entry>, pre: nat)
    requires Ready(input, pre) && input == []
    ensures Written(NodeItem(h, Build(input, pre))) == [0x80]
  {
    NullRef(h);
  }

  method EmitLeaf(h: Hasher, stream: Stream.RlpStream, path: Key, value: Value)
    requires Stream.Valid(stream.View())
    modifies stream
    ensures stream.View() == Stream.AppendItem(old(stream.View()), Written(NodeItem(h, Leaf(path, value))))
  {
    hide Written, Stream.Note, Stream.Progress;
    ghost var st := stream.View();
    ghost var items := [Data(HexPrefix(path, true)), Data(value)];
    stream.BeginList(2);
    Stream.ListStart(st, items, true);
    Stream.ListStep(st, items, 0, true);
    stream.AppendIter(HexPrefix(path, true));
    Stream.ListStep(st, items, 1, true);
    stream.Append(Stream.Leaf(value));
    Stream.ProgressEnd(st, items);
  }

  method EmitExtension(h: Hasher, input: seq<Entry>, pre: nat, shared: nat, stream: Stream.RlpStream)
    requires Ready(input, pre) && |input| >= 2 && Stream.Valid(stream.View())
    requires Ready(input, shared) && shared == SharedPrefix(input) && pre < shared <= |input[0].key|
    requires Left(input, shared) < Left(input, pre)
    modifies stream
    ensures stream.View() == Stream.AppendItem(old(stream.View()), Written(NodeItem(h, Build(input, pre))))
    decreases Left(input, pre), 2
  {
    hide Written, Ready, Left, Stream.Note, Stream.Progress, SharedPrefix;
    ghost var st := stream.View();
    var path := input[0].key[pre..shared];
    ghost var items := [Data(HexPrefix(path, false)), Ref(h, Build(input, shared))];
    stream.BeginList(2);
    Stream.ListStart(st, items, true);
    Stream.ListStep(st, items, 0, true);
    stream.AppendIter(HexPrefix(path, false));
    Stream.ListStep(st, items, 1, true);
    Hash256Aux(h, input, shared, stream);
    Stream.ProgressEnd(st, items);
    assert NodeItem(h, Build(input, pre)) == List(items);
  }

  /** A branch: an item for every possible nibble, and one for the data. */
  method EmitBranch(h: Hasher, input: seq<Entry>, pre: nat, stream: Stream.RlpStream)
    requires Ready(input, pre) && |input| >= 2 && Stream.Valid(stream.View())
    requires SharedPrefix(input) == pre
    modifies stream
    ensures stream.View() == Stream.AppendItem(old(stream.View()), Written(NodeItem(h, Build(input, pre))))
    decreases Left(input, pre), 2
  {
    hide Written, Ready, From, Before, Left, RunLen, Child, Build, SharedPrefix, Refs, BranchItems, Children, NodeItem;
    hide Stream.Note, Stream.Progress, Stream.AppendItem, Stream.Valid;
    ghost var st := stream.View();
    var key, value := input[0].key, input[0].value;
    FirstRun(input, pre);
    // Only the first key can end here; it goes into no child.
    var begin := if pre == |key| then 1 else 0;
    ghost var nodes := Children(input, begin, pre, 0);
    ghost var stored := if pre == |key| then Some(value) else None;
    ghost var items := BranchItems(h, nodes, stored);
    stream.BeginList(17);
    Stream.ListStart(st, items, true);
    for i := 0 to 16
      invariant From(input, begin, pre, i)
      invariant nodes[i..] == Children(input, begin, pre, i)
      invariant Stream.Valid(stream.View()) && stream.View() == Stream.Progress(st, items, i, true)
    {
      ChildrenStep(input, begin, pre, i);
      NextRun(input, begin, pre, i);
      var len := RunLen(input, begin, pre, i);
      ghost var child := Child(input, begin, begin + len, pre, i);
      assert nodes[i] == nodes[i..][0] == child;
      assert nodes[i + 1..] == nodes[i..][1..];
      Stream.ListStep(st, items, i, true);
      EmitChild(h, input, begin, begin + len, pre, i, stream);
      begin := begin + len;
    }
    Stream.ListStep(st, items, 16, true);
    // The seventeenth item is the value of the key that ends here.
    if pre == |key| {
      stream.Append(Stream.Leaf(value));
    } else {
      NullRef(h);
      stream.AppendEmptyData();
    }
    Stream.ProgressEnd(st, items);
    BuildBranch(h, input, pre);
  }

  function BranchItems(h: Hasher, nodes: seq<Node>, stored: Option<Value>): (r: seq<Item>)
    ensures |r| == |nodes| + 1
    ensures forall k :: 0 <= k < |nodes| ==> r[k] == Ref(h, nodes[k])
    ensures r[|nodes|] == Data(stored.GetOr([]))
    ensures NodeItem(h, Branch(nodes, stored)) == List(r)
  {
    Refs(h, nodes) + [Data(stored.GetOr([]))]
  }

  lemma BuildBranch(h: Hasher, input: seq<Entry>, pre: nat)
    requires Ready(input, pre) && |input| >= 2 && SharedPrefix(input) == pre
    ensures var begin := if pre == |input[0].key| then 1 else 0;
      && From(input, begin, pre, 0)
      && Build(input, pre) == Branch(Children(input, begin, pre, 0), if pre == |input[0].key| then Some(input[0].value) else None)
  {
    hide Ready, From, Children, SharedPrefix;
    FirstRun(input, pre);
  }

  lemma ChildrenStep(input: seq<Entry>, begin: nat, pre: nat, x: nat)
    requires Ready(input, pre) && From(input, begin, pre, x) && x < 16
    ensures var end := begin + RunLen(input, begin, pre, x);
      && From(input, end, pre, x + 1)
      && Children(input, begin, pre, x) == [Child(input, begin, end, pre, x)] + Children(input, end, pre, x + 1)
  {
    hide Ready, From, RunLen, Child;
    NextRun(input, begin, pre, x);
  }

  method EmitChild(h: Hasher, input: seq<Entry>, begin: nat, end: nat, pre: nat, x: nat, stream: Stream.RlpStream)
    requires Ready(input, pre) && From(input, begin, pre, x) && x < 16 && Stream.Valid(stream.View())
    requires end == begin + RunLen(input, begin, pre, x)
    modifies stream
    ensures stream.View() == Stream.AppendItem(old(stream.View()), Written(Ref(h, Child(input, begin, end, pre, x))))
    decreases Left(input, pre), 1
  {
    hide Written, Ready, Stream.Note;
    if begin == end {
      NullRef(h);
      stream.AppendEmptyData();
    } else {
      RunReady(input, begin, pre, x);
      RunShorter(input, begin, end, pre);
      Hash256Aux(h, input[begin..end], pre + 1, stream);
    }
  }

  /** Appends a node by itself or by its hash. */
  method Hash256Aux(h: Hasher, input: seq<Entry>, pre: nat, stream: Stream.RlpStream)
    requires Ready(input, pre) && Stream.Valid(stream.View())
    modifies stream
    ensures stream.View() == Stream.AppendItem(old(stream.View()), Written(Ref(h, Build(input, pre))))
    decreases Left(input, pre), 4
  {
    hide Written, Ready, Left, NodeItem, Build;
    var s := new Stream.RlpStream([]);
    Hash256Rlp(h, input, pre, s);
    var out := s.buffer;
    assert s.View() == Stream.AppendItem(Stream.State([], 0, []), Written(NodeItem(h, Build(input, pre))));
    assert out == [] + Written(NodeItem(h, Build(input, pre))) == Written(NodeItem(h, Build(input, pre)));
    if |out| <= 31 {
      stream.AppendRaw(out, 1);
    } else {
      stream.Append(Stream.Leaf(h(out)));
    }
  }
}
