/** Building the node of a sorted slice of keys, by shared prefixes and runs of equal nibbles. */
module TrieBuild {
  import opened Wrappers
  import opened TrieNode
  import opened Lexico

  datatype Entry = Entry(key: Key, value: Value)

  ghost predicate Sorted(input: seq<Entry>) {
    forall a, b :: 0 <= a < b < |input| ==> Less(input[a].key, input[b].key)
  }

  /** A sorted slice all of whose keys agree on their first `pre` nibbles. */
  ghost predicate Ready(input: seq<Entry>, pre: nat) {
    && Sorted(input)
    && (forall a :: 0 <= a < |input| ==> pre <= |input[a].key|)
    && (forall a :: 0 <= a < |input| ==> input[a].key[..pre] == input[0].key[..pre])
  }

  // ---------- The key set of a slice ----------

  function Contents(input: seq<Entry>): TrieNode.Contents {
    if input == [] then map[] else
      var last := input[|input| - 1];
      Contents(input[..|input| - 1])[last.key := last.value]
  }

  lemma {:induction false} ContentsAre(input: seq<Entry>)
    requires Sorted(input)
    ensures forall a :: 0 <= a < |input| ==> input[a].key in Contents(input) && Contents(input)[input[a].key] == input[a].value
    ensures forall k :: k in Contents(input) ==> exists a :: 0 <= a < |input| && input[a].key == k
  {
    if input != [] {
      var n := |input| - 1;
      ContentsAre(input[..n]);
      forall a | 0 <= a < n ensures input[a].key != input[n].key {
        Irreflexive(input[n].key);
      }
      forall k | k in Contents(input) ensures exists a :: 0 <= a < |input| && input[a].key == k {
        if k != input[n].key {
          assert k in Contents(input[..n]);
          var a :| 0 <= a < n && input[..n][a].key == k;
          assert input[a].key == k;
        }
      }
    }
  }

  lemma DistinctKeys(input: seq<Entry>, a: nat, b: nat)
    requires Sorted(input) && a < |input| && b < |input| && a != b
    ensures input[a].key != input[b].key
  {
    hide Less;
    Irreflexive(input[a].key);
  }

  lemma ReadyAgrees(input: seq<Entry>, pre: nat)
    requires Ready(input, pre)
    ensures Agree(Contents(input), pre)
  {
    hide Contents, Less;
    ContentsAre(input);
  }

  // ---------- Shared prefixes ----------

  /** The number of leading elements two keys share. */
  function SharedPrefixLen(first: Key, second: Key): (n: nat)
    ensures n <= |first| && n <= |second| && first[..n] == second[..n]
    ensures n < |first| && n < |second| ==> first[n] != second[n]
  {
    if first == [] || second == [] || first[0] != second[0] then 0
    else
      var n := SharedPrefixLen(first[1..], second[1..]);
      assert first[..n + 1] == [first[0]] + first[1..][..n];
      assert second[..n + 1] == [second[0]] + second[1..][..n];
      1 + n
  }

  function Min(a: nat, b: nat): nat { if a <= b then a else b }

  /** The fold over the entries behind the first one. */
  function FoldShared(key: Key, rest: seq<Entry>, acc: nat): (n: nat)
    ensures n <= acc
    ensures forall a :: 0 <= a < |rest| ==> n <= SharedPrefixLen(key, rest[a].key)
    ensures n == acc || exists a :: 0 <= a < |rest| && n == SharedPrefixLen(key, rest[a].key)
    decreases |rest|
  {
    if rest == [] then acc
    else
      var m := Min(SharedPrefixLen(key, rest[0].key), acc);
      var n := FoldShared(key, rest[1..], m);
      assert forall a :: 0 < a < |rest| ==> rest[a] == rest[1..][a - 1];
      n
  }

  function SharedPrefix(input: seq<Entry>): nat
    requires input != []
  {
    FoldShared(input[0].key, input[1..], |input[0].key|)
  }

  lemma {:induction false} SharesAtLeast(a: Key, b: Key, pre: nat)
    requires pre <= |a| && pre <= |b| && a[..pre] == b[..pre]
    ensures pre <= SharedPrefixLen(a, b)
  {
    if pre > 0 {
      assert a[0] == a[..pre][0] == b[..pre][0] == b[0];
      assert a[1..][..pre - 1] == a[..pre][1..] && b[1..][..pre - 1] == b[..pre][1..];
      SharesAtLeast(a[1..], b[1..], pre - 1);
    }
  }

  /** The fold finds the longest prefix shared by the whole key set. */
  lemma SharedIsLongest(input: seq<Entry>, pre: nat)
    requires Ready(input, pre) && |input| >= 2
    ensures var s := SharedPrefix(input);
      && pre <= s <= |input[0].key| && Ready(input, s)
      && !Agree(Contents(input), s + 1)
  {
    hide Less, Contents, SharedPrefix;
    var key, s := input[0].key, SharedPrefix(input);
    SharedByAll(input, pre);
    ContentsAre(input);
    var b := Witness(input, s);
    DifferAt(key, input[b].key, s);
    assert key in Contents(input) && input[b].key in Contents(input);
  }

  lemma SharedByAll(input: seq<Entry>, pre: nat)
    requires Ready(input, pre) && |input| >= 2
    ensures pre <= SharedPrefix(input) <= |input[0].key| && Ready(input, SharedPrefix(input))
  {
    hide Less, Sorted, SharedPrefixLen;
    var key, s := input[0].key, SharedPrefix(input);
    forall a | 0 < a < |input|
      ensures s <= SharedPrefixLen(key, input[a].key) && pre <= SharedPrefixLen(key, input[a].key)
    {
      assert input[a] == input[1..][a - 1];
      SharesAtLeast(key, input[a].key, pre);
    }
    forall a | 0 <= a < |input| ensures s <= |input[a].key| && input[a].key[..s] == key[..s] {
      if a > 0 { ShorterShared(key, input[a].key, s); }
    }
  }

  lemma ShorterShared(a: Key, b: Key, s: nat)
    requires s <= SharedPrefixLen(a, b)
    ensures s <= |a| && s <= |b| && b[..s] == a[..s]
  {
    hide SharedPrefixLen;
    var n := SharedPrefixLen(a, b);
    assert b[..s] == b[..n][..s] && a[..s] == a[..n][..s];
  }

  lemma DifferAt(a: Key, b: Key, s: nat)
    requires s < |a| && s < |b| ==> a[s] != b[s]
    ensures !(s + 1 <= |a| && s + 1 <= |b| && a[..s + 1] == b[..s + 1])
  {
    if s < |a| && s < |b| { assert a[..s + 1][s] == a[s] && b[..s + 1][s] == b[s]; }
  }

  /** Some key ends or differs from the first one right behind the shared prefix. */
  lemma Witness(input: seq<Entry>, s: nat) returns (b: nat)
    requires |input| >= 2 && s == SharedPrefix(input)
    ensures b < |input|
    ensures s < |input[0].key| && s < |input[b].key| ==> input[0].key[s] != input[b].key[s]
  {
    hide SharedPrefixLen;
    var key := input[0].key;
    if s == |key| { return 0; }
    var a :| 0 <= a < |input[1..]| && s == SharedPrefixLen(key, input[1..][a].key);
    b := a + 1;
    assert input[b] == input[1..][a];
  }

  // ---------- Runs of equal nibbles ----------

  /** Everything from `begin` on goes on behind `pre`, with nibble x or a larger one. */
  ghost predicate From(input: seq<Entry>, begin: nat, pre: nat, x: nat) {
    && begin <= |input|
    && forall a :: begin <= a < |input| ==> pre < |input[a].key| && x <= input[a].key[pre]
  }

  /** Everything before `begin` ends at `pre` or goes on with a nibble below x. */
  ghost predicate Before(input: seq<Entry>, begin: nat, pre: nat, x: nat) {
    && begin <= |input|
    && forall a :: 0 <= a < begin ==> pre < |input[a].key| ==> input[a].key[pre] < x
  }

  /** How many successive entries from `begin` have nibble x next (`take_while`). */
  function RunLen(input: seq<Entry>, begin: nat, pre: nat, x: nat): (n: nat)
    requires From(input, begin, pre, x)
    ensures begin + n <= |input|
    ensures forall a :: begin <= a < begin + n ==> input[a].key[pre] == x
    ensures begin + n < |input| ==> input[begin + n].key[pre] != x
    decreases |input| - begin
  {
    if begin < |input| && input[begin].key[pre] == x then 1 + RunLen(input, begin + 1, pre, x) else 0
  }

  lemma NibblesAscend(input: seq<Entry>, pre: nat, a: nat, b: nat)
    requires Ready(input, pre) && a < b < |input|
    ensures pre < |input[b].key|
    ensures pre < |input[a].key| ==> input[a].key[pre] <= input[b].key[pre]
  {
    DropCommon(input[a].key, input[b].key, pre);
    assert Less(input[a].key[pre..], input[b].key[pre..]);
  }

  /** The first entry may end at `pre`; all others go on. */
  lemma FirstRun(input: seq<Entry>, pre: nat)
    requires Ready(input, pre) && input != []
    ensures var begin := if |input[0].key| == pre then 1 else 0;
      From(input, begin, pre, 0) && Before(input, begin, pre, 0)
  {
    hide Less;
    forall b | 0 < b < |input| ensures pre < |input[b].key| { NibblesAscend(input, pre, 0, b); }
  }

  /** Behind the run of x come larger nibbles only. */
  lemma NextRun(input: seq<Entry>, begin: nat, pre: nat, x: nat)
    requires Ready(input, pre) && From(input, begin, pre, x)
    ensures From(input, begin + RunLen(input, begin, pre, x), pre, x + 1)
    ensures Before(input, begin, pre, x) ==> Before(input, begin + RunLen(input, begin, pre, x), pre, x + 1)
  {
    hide Less, RunLen;
    var end := begin + RunLen(input, begin, pre, x);
    forall a | end <= a < |input| ensures x + 1 <= input[a].key[pre] {
      if end < a { NibblesAscend(input, pre, end, a); }
    }
  }

  lemma RunReady(input: seq<Entry>, begin: nat, pre: nat, x: nat)
    requires Ready(input, pre) && From(input, begin, pre, x)
    ensures Ready(input[begin..begin + RunLen(input, begin, pre, x)], pre + 1)
  {
    hide Less, RunLen;
    var run := input[begin..begin + RunLen(input, begin, pre, x)];
    forall a | 0 <= a < |run| ensures pre + 1 <= |run[a].key| && run[a].key[..pre + 1] == input[0].key[..pre] + [x as nibble] {
      assert run[a] == input[begin + a];
      assert run[a].key[..pre + 1] == run[a].key[..pre] + [run[a].key[pre]];
    }
  }

  function Longest(input: seq<Entry>): nat {
    if input == [] then 0
    else
      var n := Longest(input[1..]);
      if n <= |input[0].key| then |input[0].key| else n
  }

  lemma {:induction false} LongestIs(input: seq<Entry>, n: nat)
    requires forall a :: 0 <= a < |input| ==> |input[a].key| <= n
    ensures Longest(input) <= n
  {
    if input != [] { LongestIs(input[1..], n); }
  }

  lemma {:induction false} LongestAtLeast(input: seq<Entry>, a: nat)
    requires a < |input|
    ensures |input[a].key| <= Longest(input)
  {
    if a > 0 { LongestAtLeast(input[1..], a - 1); }
  }

  /** The keys of a run have less left than those of the whole slice. */
  lemma RunShorter(input: seq<Entry>, begin: nat, end: nat, pre: nat)
    requires begin < end <= |input| && pre < |input[begin].key|
    ensures pre < Longest(input[begin..end]) <= Longest(input)
  {
    hide Longest;
    var run := input[begin..end];
    forall a | 0 <= a < |run| ensures |run[a].key| <= Longest(input) { LongestAtLeast(input, begin + a); }
    LongestIs(run, Longest(input));
    LongestAtLeast(run, 0);
  }

  // ---------- The recursion ----------

  /** The key nibbles left, on which the recursion ends. */
  function Left(input: seq<Entry>, pre: nat): nat {
    if pre <= Longest(input) then Longest(input) - pre else 0
  }

  /** The node of a sorted slice from nibble `pre` on. */
  function Build(input: seq<Entry>, pre: nat): Node
    requires Ready(input, pre)
    decreases Left(input, pre), 17
  {
    if input == [] then Null
    else
      var key := input[0].key;
      if |input| == 1 then Leaf(key[pre..], input[0].value)
      else
        SharedIsLongest(input, pre);
        LongestAtLeast(input, 0);
        var shared := SharedPrefix(input);
        if shared > pre then Extension(key[pre..shared], Build(input, shared))
        else
          FirstRun(input, pre);
          var begin := if pre == |key| then 1 else 0;
          Branch(Children(input, begin, pre, 0), if pre == |key| then Some(input[0].value) else None)
  }

  /** The children for the nibbles from x on, each built from its run of entries. */
  function Children(input: seq<Entry>, begin: nat, pre: nat, x: nat): (r: seq<Node>)
    requires Ready(input, pre) && From(input, begin, pre, x) && x <= 16
    ensures |r| == 16 - x
    decreases Left(input, pre), 16 - x
  {
    if x == 16 then []
    else
      NextRun(input, begin, pre, x);
      var end := begin + RunLen(input, begin, pre, x);
      [Child(input, begin, end, pre, x)] + Children(input, end, pre, x + 1)
  }

  function Child(input: seq<Entry>, begin: nat, end: nat, pre: nat, x: nat): Node
    requires Ready(input, pre) && From(input, begin, pre, x) && x < 16
    requires end == begin + RunLen(input, begin, pre, x)
    decreases Left(input, pre), 0
  {
    if begin == end then Null
    else
      RunReady(input, begin, pre, x);
      RunShorter(input, begin, end, pre);
      Build(input[begin..end], pre + 1)
  }

  // ---------- The node built is the composition of the key set ----------

  /** An entry belongs to the run of x exactly when its next nibble is x. */
  lemma RunMember(input: seq<Entry>, begin: nat, pre: nat, x: nibble, a: nat)
    requires Ready(input, pre) && From(input, begin, pre, x) && Before(input, begin, pre, x) && a < |input|
    ensures begin <= a < begin + RunLen(input, begin, pre, x) <==> pre < |input[a].key| && input[a].key[pre] == x
  {
    hide Sorted, Less, RunLen;
    NextRun(input, begin, pre, x);
  }

  /** The run of x holds exactly the keys the composition puts below x. */
  lemma RunIsBelow(input: seq<Entry>, begin: nat, pre: nat, x: nibble)
    requires Ready(input, pre) && From(input, begin, pre, x) && Before(input, begin, pre, x)
    ensures Contents(input[begin..begin + RunLen(input, begin, pre, x)]) == Below(Contents(input), pre, x)
  {
    hide Ready, From, Before, Sorted, Less, Contents, RunLen;
    var end := begin + RunLen(input, begin, pre, x);
    var run := input[begin..end];
    SortedParts(input, begin, end, pre);
    ContentsAre(input);
    ContentsAre(run);
    var c, d := Contents(run), Below(Contents(input), pre, x);
    forall k | k in c ensures k in d && d[k] == c[k] {
      var a :| 0 <= a < |run| && run[a].key == k;
      InRun(input, begin, end, a);
      RunMember(input, begin, pre, x, begin + a);
    }
    forall k | k in d ensures k in c {
      var a :| 0 <= a < |input| && input[a].key == k;
      RunMember(input, begin, pre, x, a);
      InRun(input, begin, end, a - begin);
    }
  }

  lemma SortedParts(input: seq<Entry>, begin: nat, end: nat, pre: nat)
    requires Ready(input, pre) && begin <= end <= |input|
    ensures Sorted(input) && Sorted(input[begin..end])
  {
    hide Less;
  }

  lemma InRun(input: seq<Entry>, begin: nat, end: nat, a: nat)
    requires begin <= end <= |input| && a < end - begin
    ensures input[begin..end][a] == input[begin + a]
  {}

  lemma NothingBelow(input: seq<Entry>, begin: nat, pre: nat, x: nibble)
    requires Ready(input, pre) && From(input, begin, pre, x) && Before(input, begin, pre, x)
    requires RunLen(input, begin, pre, x) == 0
    ensures Below(Contents(input), pre, x) == map[]
  {
    hide Less, RunLen;
    RunIsBelow(input, begin, pre, x);
    assert input[begin..begin] == [];
  }

  lemma {:induction false} ChildrenCompose(input: seq<Entry>, begin: nat, pre: nat, x: nat, y: nibble)
    requires Ready(input, pre) && From(input, begin, pre, x) && Before(input, begin, pre, x) && x <= y
    ensures Composes(Children(input, begin, pre, x)[y - x], Below(Contents(input), pre, y), pre + 1)
    decreases Left(input, pre), 16 - x
  {
    hide Less, Ready, From, Before, RunLen, Contents, Below, Left, Composes;
    NextRun(input, begin, pre, x);
    var end := begin + RunLen(input, begin, pre, x);
    if x == y {
      ChildComposes(input, begin, end, pre, y);
    } else {
      ChildrenCompose(input, end, pre, x + 1, y);
    }
  }

  lemma {:induction false} ChildComposes(input: seq<Entry>, begin: nat, end: nat, pre: nat, x: nibble)
    requires Ready(input, pre) && From(input, begin, pre, x) && Before(input, begin, pre, x)
    requires end == begin + RunLen(input, begin, pre, x)
    ensures Composes(Child(input, begin, end, pre, x), Below(Contents(input), pre, x), pre + 1)
    decreases Left(input, pre), 0
  {
    hide Less, Before, RunLen, Contents, Below, Agree, Several, Composes, From;
    if begin == end {
      NothingBelow(input, begin, pre, x);
      NullComposes(Below(Contents(input), pre, x), pre + 1);
    } else {
      RunReady(input, begin, pre, x);
      RunShorter(input, begin, end, pre);
      RunIsBelow(input, begin, pre, x);
      BuildComposes(input[begin..end], pre + 1);
    }
  }

  lemma NullComposes(m: TrieNode.Contents, i: nat)
    requires m == map[]
    ensures Composes(Null, m, i)
  {}

  /** The node built from a sorted slice is the structural composition of its keys. */
  lemma {:induction false} BuildComposes(input: seq<Entry>, pre: nat)
    requires Ready(input, pre)
    ensures Composes(Build(input, pre), Contents(input), pre)
    decreases Left(input, pre), 17
  {
    hide Less, Contents, Agree, SharedPrefix, From, Before, Children, Composes, Several, Below;
    if |input| == 0 {
      EmptyContents(input);
      NullComposes(Contents(input), pre);
    } else if |input| == 1 {
      SingleComposes(input, pre);
    } else {
      SharedIsLongest(input, pre);
      LongestAtLeast(input, 0);
      TwoKeys(input);
      var key, shared := input[0].key, SharedPrefix(input);
      if shared > pre {
        BuildComposes(input, shared);
        ReadyAgrees(input, shared);
        ExtensionNode(input, pre, shared, Build(input, shared));
      } else {
        FirstRun(input, pre);
        var begin := if pre == |key| then 1 else 0;
        forall y: nibble ensures Composes(Children(input, begin, pre, 0)[y], Below(Contents(input), pre, y), pre + 1) {
          ChildrenCompose(input, begin, pre, 0, y);
        }
        BranchNode(input, pre, Children(input, begin, pre, 0));
      }
    }
  }

  lemma ExtensionNode(input: seq<Entry>, pre: nat, shared: nat, child: Node)
    requires Ready(input, shared) && pre < shared && input != [] && Several(Contents(input))
    requires Agree(Contents(input), shared) && !Agree(Contents(input), shared + 1)
    requires Composes(child, Contents(input), shared)
    ensures |input[0].key| >= shared && Composes(Extension(input[0].key[pre..shared], child), Contents(input), pre)
  {
    hide Less, Contents, Agree, Several, Ready;
    ExtensionComposes(input, pre, shared);
  }

  lemma BranchNode(input: seq<Entry>, pre: nat, children: seq<Node>)
    requires Ready(input, pre) && |input| >= 2 && Several(Contents(input)) && !Agree(Contents(input), pre + 1)
    requires |children| == 16 && forall y: nibble :: Composes(children[y], Below(Contents(input), pre, y), pre + 1)
    ensures Composes(Branch(children, if pre == |input[0].key| then Some(input[0].value) else None), Contents(input), pre)
  {
    hide Less, Contents, Agree, Several, Below, Ready;
    ValueComposes(input, pre);
  }

  lemma EmptyContents(input: seq<Entry>)
    requires input == []
    ensures Contents(input) == map[]
  {}

  lemma SingleComposes(input: seq<Entry>, pre: nat)
    requires Ready(input, pre) && |input| == 1
    ensures Composes(Leaf(input[0].key[pre..], input[0].value), Contents(input), pre)
  {
    hide Less, Agree, Several;
    var k := input[0].key;
    assert Contents(input[..0]) == map[];
    assert Contents(input) == map[k := input[0].value];
  }

  lemma TwoKeys(input: seq<Entry>)
    requires Sorted(input) && |input| >= 2
    ensures Several(Contents(input))
  {
    hide Less, Contents;
    ContentsAre(input);
    DistinctKeys(input, 0, 1);
  }

  lemma ExtensionComposes(input: seq<Entry>, pre: nat, shared: nat)
    requires Ready(input, shared) && pre < shared && input != []
    ensures |input[0].key| >= shared
    ensures forall k :: k in Contents(input) ==> shared <= |k| && k[pre..shared] == input[0].key[pre..shared]
  {
    hide Less, Contents;
    ContentsAre(input);
    forall k | k in Contents(input) ensures shared <= |k| && k[pre..shared] == input[0].key[pre..shared] {
      var a :| 0 <= a < |input| && input[a].key == k;
      assert k[pre..shared] == k[..shared][pre..] == input[0].key[..shared][pre..];
    }
  }

  lemma ValueComposes(input: seq<Entry>, pre: nat)
    requires Ready(input, pre) && |input| >= 2
    ensures forall k :: k in Contents(input) && |k| == pre ==> |input[0].key| == pre && Contents(input)[k] == input[0].value
    ensures (forall k :: k in Contents(input) ==> |k| != pre) ==> |input[0].key| != pre
  {
    hide Less, Contents;
    ContentsAre(input);
    forall k | k in Contents(input) && |k| == pre ensures k == input[0].key {
      var a :| 0 <= a < |input| && input[a].key == k;
      if a > 0 { NibblesAscend(input, pre, 0, a); }
    }
  }
}
