/** What the encoding of a node does not show: whether a branch stores the empty value or none. */
module TrieErase {
  import opened Wrappers
  import opened TrieNode

  /** The node with every empty value of a branch taken out. */
  function Erase(n: Node): Node
    decreases n, 0
  {
    match n
    case Extension(path, child) => Extension(path, Erase(child))
    case Branch(children, stored) => Branch(EraseAll(children), if stored == Some([]) then None else stored)
    case _ => n
  }

  function EraseAll(ns: seq<Node>): (r: seq<Node>)
    ensures |r| == |ns|
    ensures forall k :: 0 <= k < |ns| ==> r[k] == Erase(ns[k])
    decreases ns, 1
  {
    if ns == [] then [] else [Erase(ns[0])] + EraseAll(ns[1..])
  }

  lemma ErasedKind(n: Node)
    ensures Erase(n).Null? <==> n.Null?
    ensures Erase(n).Leaf? <==> n.Leaf?
    ensures Erase(n).Extension? <==> n.Extension?
    ensures n.Leaf? ==> Erase(n) == n
  {}

  // ---------- What a collection does not show ----------

  /** Key a goes on behind k. */
  predicate Behind(a: Key, k: Key) { |k| < |a| && a[..|k|] == k }

  /** Two keys part right behind k. */
  ghost predicate Forks(c: Contents, k: Key) {
    exists a, b :: a in c && b in c && Behind(a, k) && Behind(b, k) && a[|k|] != b[|k|]
  }

  /** Under k stands nothing, or the empty value, and two other keys part there. */
  ghost predicate Hidden(c: Contents, k: Key) {
    (k in c ==> c[k] == []) && Forks(c, k)
  }

  ghost predicate AlikeAt(c: Contents, c': Contents, k: Key) {
    Get(c, k) == Get(c', k) || (Hidden(c, k) && Hidden(c', k))
  }

  /** The same contents, but for keys that are hidden in both. */
  ghost predicate Alike(c: Contents, c': Contents) {
    forall k: Key :: AlikeAt(c, c', k)
  }

  lemma AlikeTurned(c: Contents, c': Contents)
    requires Alike(c, c')
    ensures Alike(c', c)
  {
    hide Hidden, Get;
    forall k: Key ensures AlikeAt(c', c, k) { assert AlikeAt(c, c', k); }
  }

  lemma ForkKeys(c: Contents, k: Key) returns (a: Key, b: Key)
    requires Forks(c, k)
    ensures a in c && b in c && Behind(a, k) && Behind(b, k) && a[|k|] != b[|k|]
  {
    a, b :| a in c && b in c && Behind(a, k) && Behind(b, k) && a[|k|] != b[|k|];
  }

  lemma AlikeMember(c: Contents, c': Contents, k: Key)
    requires Alike(c, c') && k in c'
    ensures k in c || Forks(c, k)
  {
    hide Forks;
    assert AlikeAt(c, c', k);
  }

  lemma ForksSeveral(c: Contents, k: Key)
    requires Forks(c, k)
    ensures Several(c)
  {
    var a, b := ForkKeys(c, k);
    assert a != b;
  }

  lemma SeveralFull(c: Contents)
    requires Several(c)
    ensures c != map[]
  {}

  lemma AlikeSeveral(c: Contents, c': Contents)
    requires Alike(c, c') && Several(c')
    ensures Several(c)
  {
    hide Alike, Forks;
    var a, b :| a in c' && b in c' && a != b;
    AlikeMember(c, c', a);
    AlikeMember(c, c', b);
    if a !in c { ForksSeveral(c, a); } else if b !in c { ForksSeveral(c, b); }
  }

  lemma AlikeEmpty(c: Contents, c': Contents)
    requires Alike(c, c') && c == map[]
    ensures c' == map[]
  {
    hide Alike;
    if k: Key :| k in c' { AlikeMember(c, c', k); }
  }

  /** A collection of at most one key has nothing to hide. */
  lemma AlikeSingle(c: Contents, c': Contents)
    requires Alike(c, c') && !Several(c)
    ensures c == c'
  {
    hide Several, Forks;
    forall k: Key ensures Get(c, k) == Get(c', k) {
      assert AlikeAt(c, c', k);
      if Forks(c, k) { ForksSeveral(c, k); }
    }
    SameGet(c, c');
  }

  lemma SameGet(c: Contents, c': Contents)
    requires forall k: Key :: Get(c, k) == Get(c', k)
    ensures c == c'
  {
    assert forall k :: k in c ==> Get(c, k) == Get(c', k);
    assert forall k :: k in c' ==> Get(c, k) == Get(c', k);
  }

  /** A prefix shared in one is shared in both. */
  lemma AlikeAgree(c: Contents, c': Contents, j: nat)
    requires Alike(c, c') && Agree(c, j)
    ensures Agree(c', j)
    ensures forall a, b :: a in c && b in c' ==> j <= |a| && j <= |b| && b[..j] == a[..j]
  {
    hide Alike, Forks, Agree;
    forall a, b | a in c && b in c' ensures j <= |a| && j <= |b| && b[..j] == a[..j] { PrefixShared(c, c', j, a, b); }
    forall b | b in c' ensures exists a :: a in c {
      AlikeMember(c, c', b);
      if b !in c { var a, _ := ForkKeys(c, b); }
    }
    AgreeFrom(c, c', j);
  }

  lemma AgreeFrom(c: Contents, c': Contents, j: nat)
    requires forall b :: b in c' ==> exists a :: a in c
    requires forall a, b :: a in c && b in c' ==> j <= |a| && j <= |b| && b[..j] == a[..j]
    ensures Agree(c', j)
  {}

  lemma PrefixShared(c: Contents, c': Contents, j: nat, a: Key, b: Key)
    requires Alike(c, c') && Agree(c, j) && a in c && b in c'
    ensures j <= |a| && j <= |b| && b[..j] == a[..j]
  {
    hide Alike, Forks;
    AlikeMember(c, c', b);
    if b !in c {
      var x, y := ForkKeys(c, b);
      SameUpTo(x, y, j);
      if j <= |b| { assert b[..j] == x[..j]; }
    }
  }

  lemma SameUpTo(x: Key, y: Key, j: nat)
    requires j <= |x| && j <= |y| && x[..j] == y[..j]
    ensures forall n :: 0 <= n < j ==> x[n] == y[n]
  {
    forall n | 0 <= n < j ensures x[n] == y[n] { assert x[..j][n] == y[..j][n]; }
  }

  lemma AlikeBelow(c: Contents, c': Contents, i: nat, x: nibble)
    requires Alike(c, c')
    ensures Alike(Below(c, i, x), Below(c', i, x))
  {
    hide Forks;
    forall k: Key ensures AlikeAt(Below(c, i, x), Below(c', i, x), k) {
      assert AlikeAt(c, c', k);
      if i < |k| && k[i] == x && Hidden(c, k) && Hidden(c', k) {
        ForksBelow(c, i, x, k);
        ForksBelow(c', i, x, k);
      }
    }
  }

  lemma ForksBelow(c: Contents, i: nat, x: nibble, k: Key)
    requires i < |k| && k[i] == x
    ensures Forks(c, k) <==> Forks(Below(c, i, x), k)
  {
    if Forks(c, k) {
      var a, b := ForkKeys(c, k);
      assert a[i] == a[..|k|][i] && b[i] == b[..|k|][i];
      assert a in Below(c, i, x) && b in Below(c, i, x);
    }
  }

  // ---------- Equal erasure from alike contents ----------

  lemma {:induction false} AlikeErases(n: Node, n': Node, c: Contents, c': Contents, i: nat, p: Key)
    requires Composes(n, c, i) && Composes(n', c', i) && Alike(c, c')
    requires OnTheWay(c, p, i) && OnTheWay(c', p, i)
    ensures Erase(n) == Erase(n')
    decreases n
  {
    hide Agree, Several, Composes, Alike, OnTheWay, Below;
    NodeKinds(n, c, i);
    NodeKinds(n', c', i);
    AlikeTurned(c, c');
    match n
    case Null => AlikeEmpty(c, c');
    case Leaf(path, v) =>
      AlikeSingle(c, c');
      SameLeaf(n, n', c, i);
    case Extension(path, child) =>
      AlikeSeveral(c', c);
      SeveralFull(c');
      AlikeExtension(n, n', c, c', i);
      ExtensionLength(n, c, i);
      ExtensionLength(n', c', i);
      var j := i + |path|;
      var a := SharedWay(c, c', j);
      AlikeErases(child, n'.child, c, c', j, a);
    case Branch(children, stored) =>
      AlikeSeveral(c', c);
      SeveralFull(c');
      BranchLength(n, c, i);
      WayLength(c, p, i);
      if n'.Extension? {
        AlikeExtension(n', n, c', c, i);
      } else {
        BranchLength(n', c', i);
        forall x: nibble ensures Erase(children[x]) == Erase(n'.children[x]) {
          BranchChild(n, c, i, x);
          BranchChild(n', c', i, x);
          AlikeBelow(c, c', i, x);
          ChildWay(c, p, i, x);
          ChildWay(c', p, i, x);
          AlikeErases(children[x], n'.children[x], Below(c, i, x), Below(c', i, x), i + 1, p[..i] + [x]);
        }
        assert EraseAll(children) == EraseAll(n'.children);
        StoredAlike(n, n', c, c', i, p);
      }
  }

  /** An extension's path is the longest shared prefix, and alike contents share it. */
  lemma AlikeExtension(n: Node, n': Node, c: Contents, c': Contents, i: nat)
    requires Composes(n, c, i) && Composes(n', c', i) && Alike(c, c') && n.Extension? && (n'.Extension? || n'.Branch?)
    ensures n'.Extension? && n'.path == n.path
  {
    hide Agree, Composes, Alike, Several, Forks;
    AlikeTurned(c, c');
    ExtensionLength(n, c, i);
    var j := i + |n.path|;
    AlikeAgree(c, c', j);
    if n'.Branch? {
      BranchLength(n', c', i);
      AgreeLess(c', i + 1, j);
    } else {
      ExtensionLength(n', c', i);
      var j' := i + |n'.path|;
      AlikeAgree(c', c, j');
      if j < j' { AgreeLess(c, j + 1, j'); }
      if j' < j { AgreeLess(c', j' + 1, j); }
      AlikePath(n, n', c, c', i);
    }
  }

  lemma AlikePath(n: Node, n': Node, c: Contents, c': Contents, i: nat)
    requires Composes(n, c, i) && Composes(n', c', i) && Alike(c, c') && n.Extension? && n'.Extension? && |n'.path| == |n.path|
    ensures n'.path == n.path
  {
    hide Agree, Composes, Alike, Several, Forks;
    ExtensionLength(n, c, i);
    ExtensionLength(n', c', i);
    var j := i + |n.path|;
    AlikeAgree(c, c', j);
    var a := SomeKey(c);
    var b := SomeKey(c');
    ExtensionPath(n, c, i, a);
    ExtensionPath(n', c', i, b);
    assert a[i..j] == a[..j][i..] && b[i..j] == b[..j][i..];
  }

  lemma SomeKey(c: Contents) returns (a: Key)
    requires Several(c)
    ensures a in c
  {
    a :| a in c;
  }

  /** Some key leads the way for both. */
  lemma SharedWay(c: Contents, c': Contents, j: nat) returns (a: Key)
    requires Alike(c, c') && Several(c) && Agree(c, j)
    ensures OnTheWay(c, a, j) && OnTheWay(c', a, j)
  {
    hide Alike;
    a :| a in c;
    AlikeAgree(c, c', j);
  }

  lemma ChildWay(c: Contents, p: Key, i: nat, x: nibble)
    requires OnTheWay(c, p, i)
    ensures OnTheWay(Below(c, i, x), p[..i] + [x], i + 1)
  {
    var q := p[..i] + [x];
    forall k | k in Below(c, i, x) ensures k[..i + 1] == q[..i + 1] {
      assert k[..i + 1] == k[..i] + [k[i]];
    }
  }

  /** What a branch stores is the value of the key that ends there. */
  lemma StoredIs(n: Node, c: Contents, i: nat, p: Key)
    requires Composes(n, c, i) && n.Branch? && OnTheWay(c, p, i)
    ensures n.stored == Get(c, p[..i])
  {
    hide Composes;
    var k := p[..i];
    assert k[i..] == [] && k[..i] == k;
    LookupFinds(n, c, i, k);
  }

  lemma StoredAlike(n: Node, n': Node, c: Contents, c': Contents, i: nat, p: Key)
    requires Composes(n, c, i) && Composes(n', c', i) && n.Branch? && n'.Branch? && Alike(c, c')
    requires OnTheWay(c, p, i) && OnTheWay(c', p, i)
    ensures n.stored == n'.stored || (n.stored.GetOr([]) == [] && n'.stored.GetOr([]) == [])
  {
    hide Composes, Forks, OnTheWay;
    WayLength(c, p, i);
    StoredIs(n, c, i, p);
    StoredIs(n', c', i, p);
    assert AlikeAt(c, c', p[..i]);
  }

  // ---------- Alike contents from equal erasure ----------

  lemma {:induction false} ErasedAlikeAt(n: Node, n': Node, c: Contents, c': Contents, i: nat, k: Key)
    requires Composes(n, c, i) && Composes(n', c', i) && Erase(n) == Erase(n')
    requires OnTheWay(c, k, i) && OnTheWay(c', k, i)
    ensures AlikeAt(c, c', k)
    decreases n
  {
    hide Agree, Several, Composes, OnTheWay, Below, Forks, Get;
    ErasedKind(n);
    ErasedKind(n');
    match n
    case Null => SameLookup(n, n', c, c', i, k);
    case Leaf(path, v) => SameLookup(n, n', c, c', i, k);
    case Extension(path, child) =>
      var j := i + |path|;
      if j <= |k| && k[i..j] == path {
        ExtensionStep(n, c, i, k);
        ExtensionStep(n', c', i, k);
        ErasedAlikeAt(child, n'.child, c, c', j, k);
      } else {
        OffThePath(n, c, i, k);
        OffThePath(n', c', i, k);
      }
    case Branch(children, stored) =>
      BranchLength(n, c, i);
      BranchLength(n', c', i);
      WayLength(c, k, i);
      if |k| == i {
        assert k[..i] == k;
        StoredIs(n, c, i, k);
        StoredIs(n', c', i, k);
        if stored != n'.stored { HiddenBranch(n, n', c, c', i, k); }
      } else {
        var x := k[i];
        BranchChild(n, c, i, x);
        BranchChild(n', c', i, x);
        BelowOnTheWay(c, k, i);
        BelowOnTheWay(c', k, i);
        assert EraseAll(children)[x] == EraseAll(n'.children)[x];
        ErasedAlikeAt(children[x], n'.children[x], Below(c, i, x), Below(c', i, x), i + 1, k);
        AboveAlike(c, c', i, k);
      }
  }

  lemma WayLength(c: Contents, k: Key, i: nat)
    requires OnTheWay(c, k, i)
    ensures i <= |k|
  {}

  lemma SameLookup(n: Node, n': Node, c: Contents, c': Contents, i: nat, k: Key)
    requires Composes(n, c, i) && Composes(n', c', i) && n == n' && OnTheWay(c, k, i) && OnTheWay(c', k, i)
    ensures Get(c, k) == Get(c', k)
  {
    hide Composes, Lookup;
    LookupFinds(n, c, i, k);
    LookupFinds(n', c', i, k);
  }

  lemma ExtensionStep(n: Node, c: Contents, i: nat, k: Key)
    requires Composes(n, c, i) && n.Extension? && OnTheWay(c, k, i)
    requires i + |n.path| <= |k| && k[i..i + |n.path|] == n.path
    ensures OnTheWay(c, k, i + |n.path|) && Composes(n.child, c, i + |n.path|)
  {
    hide Agree, Several;
    ExtensionOnTheWay(c, i, n.path, k);
  }

  lemma OffThePath(n: Node, c: Contents, i: nat, k: Key)
    requires Composes(n, c, i) && n.Extension? && OnTheWay(c, k, i)
    requires !(i + |n.path| <= |k| && k[i..i + |n.path|] == n.path)
    ensures Get(c, k) == None
  {
    hide Agree, Several;
    ExtensionLeavesTheWay(c, i, n.path, k);
  }

  /** Hidden below means hidden above. */
  lemma AboveAlike(c: Contents, c': Contents, i: nat, k: Key)
    requires i < |k| && AlikeAt(Below(c, i, k[i]), Below(c', i, k[i]), k)
    ensures AlikeAt(c, c', k)
  {
    hide Forks;
    ForksBelow(c, i, k[i], k);
    ForksBelow(c', i, k[i], k);
  }

  /** A branch has a child exactly where some key goes on. */
  lemma ChildKeys(n: Node, c: Contents, i: nat, k: Key, x: nibble)
    requires Composes(n, c, i) && n.Branch? && OnTheWay(c, k, i) && |k| == i
    ensures |n.children| == 16
    ensures !n.children[x].Null? <==> exists a :: a in c && Behind(a, k) && a[i] == x
  {
    hide Composes, Several;
    BranchChild(n, c, i, x);
    NodeKinds(n.children[x], Below(c, i, x), i + 1);
    assert k[..i] == k;
    if a :| a in Below(c, i, x) { assert a in c && Behind(a, k) && a[i] == x; }
    if a: Key :| a in c && Behind(a, k) && a[i] == x { assert a in Below(c, i, x); }
  }

  /** Where no key ends, a branch is there because keys part. */
  lemma BranchForks(n: Node, c: Contents, i: nat, k: Key)
    requires Composes(n, c, i) && n.Branch? && OnTheWay(c, k, i) && |k| == i && k !in c
    ensures Forks(c, k)
  {
    hide Composes, Several;
    BranchLength(n, c, i);
    assert k[..i] == k;
    ShortKeyAlone(c, k, i);
    var a, b :| a in c && b in c && a[..i + 1] != b[..i + 1];
    assert a[..i + 1] == a[..i] + [a[i]] && b[..i + 1] == b[..i] + [b[i]];
    assert Behind(a, k) && Behind(b, k);
  }

  lemma ForksCarried(n: Node, n': Node, c: Contents, c': Contents, i: nat, k: Key)
    requires Composes(n, c, i) && Composes(n', c', i) && n.Branch? && n'.Branch? && EraseAll(n.children) == EraseAll(n'.children)
    requires OnTheWay(c, k, i) && OnTheWay(c', k, i) && |k| == i && Forks(c', k)
    ensures Forks(c, k)
  {
    hide Composes, Erase, OnTheWay;
    var a', b' := ForkKeys(c', k);
    var a := ChildCarried(n, n', c, c', i, k, a');
    var b := ChildCarried(n, n', c, c', i, k, b');
  }

  lemma ChildCarried(n: Node, n': Node, c: Contents, c': Contents, i: nat, k: Key, a': Key) returns (a: Key)
    requires Composes(n, c, i) && Composes(n', c', i) && n.Branch? && n'.Branch? && EraseAll(n.children) == EraseAll(n'.children)
    requires OnTheWay(c, k, i) && OnTheWay(c', k, i) && |k| == i && a' in c' && Behind(a', k)
    ensures a in c && Behind(a, k) && a[i] == a'[i]
  {
    hide Composes, Erase, OnTheWay;
    var x := a'[i];
    ChildKeys(n, c, i, k, x);
    ChildKeys(n', c', i, k, x);
    assert EraseAll(n.children)[x] == EraseAll(n'.children)[x];
    ErasedKind(n.children[x]);
    ErasedKind(n'.children[x]);
    a :| a in c && Behind(a, k) && a[i] == x;
  }

  lemma HiddenBranch(n: Node, n': Node, c: Contents, c': Contents, i: nat, k: Key)
    requires Composes(n, c, i) && Composes(n', c', i) && n.Branch? && n'.Branch? && Erase(n) == Erase(n')
    requires OnTheWay(c, k, i) && OnTheWay(c', k, i) && |k| == i
    requires n.stored == Get(c, k) && n'.stored == Get(c', k) && n.stored != n'.stored
    ensures Hidden(c, k) && Hidden(c', k)
  {
    hide Composes, OnTheWay, Forks, EraseAll;
    if n.stored.None? {
      BranchForks(n, c, i, k);
      ForksCarried(n', n, c', c, i, k);
    } else {
      BranchForks(n', c', i, k);
      ForksCarried(n, n', c, c', i, k);
    }
  }

  /** Two compositions differ in nothing but empty values of branches exactly when their contents are alike. */
  lemma ErasureIsAlike(n: Node, n': Node, c: Contents, c': Contents)
    requires Composes(n, c, 0) && Composes(n', c', 0)
    ensures Erase(n) == Erase(n') <==> Alike(c, c')
  {
    hide Composes, AlikeAt, Erase;
    if Erase(n) == Erase(n') {
      forall k: Key ensures AlikeAt(c, c', k) { ErasedAlikeAt(n, n', c, c', 0, k); }
    }
    if Alike(c, c') { AlikeErases(n, n', c, c', 0, []); }
  }
}
