/** Lexicographic order, as Rust compares byte slices. */
module Lexico {

  predicate Less(a: seq<int>, b: seq<int>)
    decreases |a|
  {
    if b == [] then false
    else if a == [] then true
    else a[0] < b[0] || (a[0] == b[0] && Less(a[1..], b[1..]))
  }

  predicate AtMost(a: seq<int>, b: seq<int>) { !Less(b, a) }

  lemma {:induction false} Irreflexive(a: seq<int>)
    ensures !Less(a, a)
  {
    if a != [] { Irreflexive(a[1..]); }
  }

  lemma {:induction false} Transitive(a: seq<int>, b: seq<int>, c: seq<int>)
    requires Less(a, b) && Less(b, c)
    ensures Less(a, c)
    decreases |a|
  {
    if a != [] && a[0] == b[0] == c[0] { Transitive(a[1..], b[1..], c[1..]); }
  }

  lemma {:induction false} Total(a: seq<int>, b: seq<int>)
    ensures Less(a, b) || a == b || Less(b, a)
    decreases |a|
  {
    if a != [] && b != [] && a[0] == b[0] {
      Total(a[1..], b[1..]);
      assert a == [a[0]] + a[1..] && b == [b[0]] + b[1..];
    }
  }

  /** A common beginning does not matter. */
  lemma {:induction false} DropCommon(a: seq<int>, b: seq<int>, p: nat)
    requires p <= |a| && p <= |b| && a[..p] == b[..p]
    ensures Less(a, b) <==> Less(a[p..], b[p..])
  {
    if p > 0 {
      assert a[0] == a[..p][0] == b[..p][0] == b[0];
      assert a[1..][..p - 1] == a[..p][1..] && b[1..][..p - 1] == b[..p][1..];
      DropCommon(a[1..], b[1..], p - 1);
      assert a[1..][p - 1..] == a[p..] && b[1..][p - 1..] == b[p..];
    }
  }

  ghost predicate StartsWith(k: seq<int>, prefix: seq<int>) {
    |prefix| <= |k| && k[..|prefix|] == prefix
  }
}
