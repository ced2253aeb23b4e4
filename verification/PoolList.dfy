/** Transactions, the pluggable orderings, and one sender's sorted list. */
module PoolList {
  import opened Wrappers

  /** Any type with equality serves as hash or sender. */
  type Hash = nat

  type Sender = nat

  /** Any totally ordered type serves as score; the default is zero. */
  type Score = int

  /** What the pool knows of a transaction. */
  datatype Body = Body(hash: Hash, sender: Sender, mem: nat)

  /** A transaction with its insertion id. */
  datatype Tx = Tx(id: nat, body: Body)

  datatype Choice = RejectNew | ReplaceOld | InsertNew

  datatype Change = InsertedAt(index: nat) | RemovedAt(index: nat) | ReplacedAt(index: nat) | Culled(count: nat) | Event(event: nat)

  /** A `Scoring` implementation; `compare` is negative, zero or positive. */
  datatype Scoring = Scoring(
    compare: (Body, Body) -> int,
    choose: (Body, Body) -> Choice,
    updateScores: (seq<Tx>, seq<Score>, Change) -> seq<Score>,
    ignoreSenderLimit: Body -> bool)

  /**
   * What an implementation must keep: `compare` orders the transactions of one sender, scores stay
   * one per transaction, and of one sender equal transactions are never both kept.
   */
  ghost predicate Lawful(s: Scoring) {
    && Orderly(s)
    && forall a: Body, b: Body :: a.sender == b.sender && s.compare(a, b) == 0 ==> s.choose(a, b) != InsertNew
  }

  /** The first two of these. */
  ghost predicate Orderly(s: Scoring) {
    && (forall a: Body, b: Body :: a.sender == b.sender ==> (s.compare(a, b) < 0 <==> s.compare(b, a) > 0))
    && (forall a: Body, b: Body, c: Body :: a.sender == b.sender == c.sender && s.compare(a, b) <= 0 && s.compare(b, c) <= 0 ==>
          s.compare(a, c) <= 0 && (s.compare(a, b) < 0 || s.compare(b, c) < 0 ==> s.compare(a, c) < 0))
    && (forall txs, scores, c :: |s.updateScores(txs, scores, c)| == |scores|)
  }

  lemma SelfEqual(s: Scoring, a: Body)
    requires Lawful(s)
    ensures s.compare(a, a) == 0
  {}

  /** A sender's transactions with their scores. */
  datatype TxList = TxList(txs: seq<Tx>, scores: seq<Score>)

  const EMPTY: TxList := TxList([], [])

  /** Strictly ascending, all from one sender, with one score each. */
  ghost predicate Ordered(l: TxList, sender: Sender, s: Scoring) {
    && |l.txs| == |l.scores|
    && (forall i :: 0 <= i < |l.txs| ==> l.txs[i].body.sender == sender)
    && (forall i, j :: 0 <= i < j < |l.txs| ==> s.compare(l.txs[i].body, l.txs[j].body) < 0)
  }

  // ---------- Searching ----------

  /** `binary_search_by`: the only place in a strictly ascending list where b is or belongs. */
  function Position(txs: seq<Tx>, b: Body, s: Scoring): (i: nat)
    ensures i <= |txs|
    ensures forall k :: 0 <= k < i ==> s.compare(txs[k].body, b) < 0
    ensures i < |txs| ==> s.compare(txs[i].body, b) >= 0
  {
    if txs == [] || s.compare(txs[0].body, b) >= 0 then 0
    else
      var i := Position(txs[1..], b, s);
      assert forall k :: 0 < k < |txs| ==> txs[k] == txs[1..][k - 1];
      i + 1
  }

  /** The search loop over a sorted list. */
  method BinarySearch(txs: seq<Tx>, b: Body, s: Scoring, ghost sender: Sender) returns (i: nat, found: bool)
    requires Lawful(s) && Ordered(TxList(txs, seq(|txs|, _ => 0)), sender, s) && b.sender == sender
    ensures i == Position(txs, b, s)
    ensures found <==> i < |txs| && s.compare(txs[i].body, b) == 0
  {
    var lo, hi := 0, |txs|;
    while lo < hi
      invariant lo <= hi <= |txs|
      invariant lo <= Position(txs, b, s) <= hi
    {
      var mid := (lo + hi) / 2;
      Halves(txs, b, s, sender, mid);
      if s.compare(txs[mid].body, b) < 0 { lo := mid + 1; } else { hi := mid; }
    }
    i := lo;
    found := i < |txs| && s.compare(txs[i].body, b) == 0;
  }

  lemma Halves(txs: seq<Tx>, b: Body, s: Scoring, sender: Sender, mid: nat)
    requires Lawful(s) && Ordered(TxList(txs, seq(|txs|, _ => 0)), sender, s) && b.sender == sender && mid < |txs|
    ensures s.compare(txs[mid].body, b) < 0 ==> mid < Position(txs, b, s)
    ensures s.compare(txs[mid].body, b) >= 0 ==> Position(txs, b, s) <= mid
  {
    hide Position;
    var i := Position(txs, b, s);
    if i < mid { Above(txs, b, s, sender, i, mid); }
  }

  /** Behind a transaction that is not below b come only larger ones. */
  lemma Above(txs: seq<Tx>, b: Body, s: Scoring, sender: Sender, i: nat, k: nat)
    requires Lawful(s) && i < k < |txs| && b.sender == sender == txs[i].body.sender == txs[k].body.sender
    requires s.compare(txs[i].body, txs[k].body) < 0 && s.compare(txs[i].body, b) >= 0
    ensures s.compare(txs[k].body, b) > 0
  {
    assert s.compare(b, txs[i].body) <= 0;
    assert s.compare(b, txs[k].body) < 0;
  }

  /** A transaction in the list is found at its own index. */
  lemma FindsItself(l: TxList, sender: Sender, s: Scoring, k: nat)
    requires Lawful(s) && Ordered(l, sender, s) && k < |l.txs|
    ensures Position(l.txs, l.txs[k].body, s) == k && s.compare(l.txs[k].body, l.txs[k].body) == 0
  {
    hide Position, Lawful;
    SelfEqual(s, l.txs[k].body);
    PositionIs(l.txs, l.txs[k].body, s, k);
  }

  lemma {:induction false} PositionIs(txs: seq<Tx>, b: Body, s: Scoring, k: nat)
    requires k < |txs| && s.compare(txs[k].body, b) >= 0
    requires forall j :: 0 <= j < k ==> s.compare(txs[j].body, b) < 0
    ensures Position(txs, b, s) == k
  {
    if k > 0 { PositionIs(txs[1..], b, s, k - 1); }
  }

  lemma NoDuplicates(l: TxList, sender: Sender, s: Scoring, i: nat, j: nat)
    requires Lawful(s) && Ordered(l, sender, s) && i < |l.txs| && j < |l.txs| && i != j
    ensures l.txs[i] != l.txs[j]
  {
    hide Lawful;
    SelfEqual(s, l.txs[i].body);
    assert i < j ==> s.compare(l.txs[i].body, l.txs[j].body) < 0;
    assert j < i ==> s.compare(l.txs[j].body, l.txs[i].body) < 0;
  }

  /** `find_next`: the entry behind the one that compares equal. */
  function FindNext(l: TxList, b: Body, s: Scoring): Option<(Score, Tx)>
    requires |l.txs| == |l.scores|
  {
    var i := Position(l.txs, b, s);
    if i < |l.txs| && s.compare(l.txs[i].body, b) == 0 && i + 1 < |l.scores|
    then Some((l.scores[i + 1], l.txs[i + 1]))
    else None
  }

  // ---------- Adding ----------

  datatype AddResult =
    | Added(tx: Tx)
    | TooCheapToEnter(tx: Tx, score: Score)
    | TooCheap(existing: Tx, tx: Tx)
    | Replaced(displaced: Tx, tx: Tx)
    | PushedOut(displaced: Tx, tx: Tx)

  function InsertAt<T>(q: seq<T>, i: nat, x: T): seq<T>
    requires i <= |q|
  { q[..i] + [x] + q[i..] }

  function RemoveAt<T>(q: seq<T>, i: nat): seq<T>
    requires i < |q|
  { q[..i] + q[i + 1..] }

  function Rescored(txs: seq<Tx>, scores: seq<Score>, s: Scoring, c: Change): TxList {
    TxList(txs, s.updateScores(txs, scores, c))
  }

  function PushCheapest(l: TxList, tx: Tx, s: Scoring, maxCount: nat): (TxList, AddResult)
    requires maxCount > 0 && |l.txs| == |l.scores|
  {
    var index := |l.txs|;
    if index == maxCount && !s.ignoreSenderLimit(tx.body)
    then (l, TooCheapToEnter(tx, l.scores[index - 1]))
    else (Rescored(l.txs + [tx], l.scores + [0], s, InsertedAt(index)), Added(tx))
  }

  /** `Transactions::add` */
  function Add(l: TxList, new_: Tx, s: Scoring, maxCount: nat): (TxList, AddResult)
    requires maxCount > 0 && |l.txs| == |l.scores| && Lawful(s)
  {
    var index := Position(l.txs, new_.body, s);
    if index == |l.txs| then PushCheapest(l, new_, s, maxCount)
    else
      match s.choose(l.txs[index].body, new_.body)
      case RejectNew => (l, TooCheap(l.txs[index], new_))
      case InsertNew =>
        var grown := Rescored(InsertAt(l.txs, index, new_), InsertAt(l.scores, index, 0), s, InsertedAt(index));
        if |grown.txs| > maxCount then
          var n := |grown.txs| - 1;
          (Rescored(grown.txs[..n], grown.scores[..n], s, RemovedAt(n)), PushedOut(grown.txs[n], new_))
        else (grown, Added(new_))
      case ReplaceOld =>
        (Rescored(l.txs[index := new_], l.scores, s, ReplacedAt(index)), Replaced(l.txs[index], new_))
  }

  /** The transaction that left the list, if any. */
  function Evicted(r: AddResult): Option<Tx> {
    if r.Replaced? || r.PushedOut? then Some(r.displaced) else None
  }

  predicate Entered(r: AddResult) { r.Added? || r.Replaced? || r.PushedOut? }

  lemma InsertOrdered(l: TxList, sender: Sender, s: Scoring, new_: Tx, scores: seq<Score>)
    requires Lawful(s) && Ordered(l, sender, s) && new_.body.sender == sender
    requires var i := Position(l.txs, new_.body, s); i < |l.txs| ==> s.compare(l.txs[i].body, new_.body) > 0
    requires |scores| == |l.txs| + 1
    ensures Ordered(TxList(InsertAt(l.txs, Position(l.txs, new_.body, s), new_), scores), sender, s)
  {
    hide Position, Lawful;
    var i := Position(l.txs, new_.body, s);
    forall k | i <= k < |l.txs| ensures s.compare(new_.body, l.txs[k].body) < 0 {
      if i < k { Above(l.txs, new_.body, s, sender, i, k); }
      Turned(s, new_.body, l.txs[k].body);
    }
  }

  lemma Turned(s: Scoring, a: Body, b: Body)
    requires Lawful(s) && a.sender == b.sender
    ensures s.compare(a, b) < 0 <==> s.compare(b, a) > 0
  {}

  /**
   * Keeping a newcomer along with the one it is compared to leaves the list in order exactly when
   * the two are not equal, which is why `choose` may not ask for it then.
   */
  lemma InsertKeepsOrder(l: TxList, sender: Sender, s: Scoring, new_: Tx, scores: seq<Score>)
    requires Orderly(s) && Ordered(l, sender, s) && new_.body.sender == sender && |scores| == |l.txs| + 1
    ensures var i := Position(l.txs, new_.body, s);
      Ordered(TxList(InsertAt(l.txs, i, new_), scores), sender, s) <==>
        i == |l.txs| || s.compare(l.txs[i].body, new_.body) != 0
  {
    hide Position, Orderly;
    var i := Position(l.txs, new_.body, s);
    var q := InsertAt(l.txs, i, new_);
    if i < |l.txs| {
      Opposite(s, l.txs[i].body, new_.body);
      assert q[i] == new_ && q[i + 1] == l.txs[i];
      forall k | i < k < |l.txs| ensures s.compare(l.txs[i].body, new_.body) > 0 ==> s.compare(new_.body, l.txs[k].body) < 0 {
        if s.compare(l.txs[i].body, new_.body) > 0 { Chain(s, new_.body, l.txs[i].body, l.txs[k].body); }
      }
    }
  }

  lemma Opposite(s: Scoring, a: Body, b: Body)
    requires Orderly(s) && a.sender == b.sender
    ensures s.compare(a, b) < 0 <==> s.compare(b, a) > 0
    ensures s.compare(a, b) > 0 <==> s.compare(b, a) < 0
  {}

  lemma Chain(s: Scoring, a: Body, b: Body, c: Body)
    requires Orderly(s) && a.sender == b.sender == c.sender && s.compare(b, a) > 0 && s.compare(b, c) < 0
    ensures s.compare(a, c) < 0
  {
    Opposite(s, a, b);
  }

  lemma ReplaceOrdered(l: TxList, sender: Sender, s: Scoring, new_: Tx, scores: seq<Score>)
    requires Lawful(s) && Ordered(l, sender, s) && new_.body.sender == sender
    requires Position(l.txs, new_.body, s) < |l.txs| == |scores|
    ensures Ordered(TxList(l.txs[Position(l.txs, new_.body, s) := new_], scores), sender, s)
  {
    hide Position;
    var i := Position(l.txs, new_.body, s);
    forall k | i < k < |l.txs| ensures s.compare(new_.body, l.txs[k].body) < 0 {
      Above(l.txs, new_.body, s, sender, i, k);
    }
  }

  lemma PrefixOrdered(l: TxList, sender: Sender, s: Scoring, n: nat, scores: seq<Score>)
    requires Ordered(l, sender, s) && n <= |l.txs| && |scores| == n
    ensures Ordered(TxList(l.txs[..n], scores), sender, s)
  {}

  /** Adding keeps the order and one score per transaction. */
  lemma AddOrdered(l: TxList, sender: Sender, s: Scoring, new_: Tx, maxCount: nat)
    requires Lawful(s) && Ordered(l, sender, s) && new_.body.sender == sender && maxCount > 0
    ensures Ordered(Add(l, new_, s, maxCount).0, sender, s)
    ensures Add(l, new_, s, maxCount).0.txs == [] ==> l.txs == [] && !Entered(Add(l, new_, s, maxCount).1)
  {
    hide Position, Ordered;
    Lengths(l, sender, s);
    var i := Position(l.txs, new_.body, s);
    if i == |l.txs| {
      InsertOrdered(l, sender, s, new_, Rescored(l.txs + [new_], l.scores + [0], s, InsertedAt(i)).scores);
      assert InsertAt(l.txs, i, new_) == l.txs + [new_];
    } else if s.choose(l.txs[i].body, new_.body) == InsertNew {
      var grown := Rescored(InsertAt(l.txs, i, new_), InsertAt(l.scores, i, 0), s, InsertedAt(i));
      InsertOrdered(l, sender, s, new_, grown.scores);
      var n := |l.txs|;
      PrefixOrdered(grown, sender, s, n, Rescored(grown.txs[..n], grown.scores[..n], s, RemovedAt(n)).scores);
    } else {
      ReplaceOrdered(l, sender, s, new_, Rescored(l.txs[i := new_], l.scores, s, ReplacedAt(i)).scores);
    }
  }

  lemma Lengths(l: TxList, sender: Sender, s: Scoring)
    requires Ordered(l, sender, s)
    ensures |l.txs| == |l.scores|
    ensures forall i :: 0 <= i < |l.txs| ==> l.txs[i].body.sender == sender
  {}

  /** Who is in the list afterwards: the newcomer if it entered, and all others but the evicted one. */
  lemma AddMembers(l: TxList, sender: Sender, s: Scoring, new_: Tx, maxCount: nat, t: Tx)
    requires Lawful(s) && Ordered(l, sender, s) && maxCount > 0 && new_ !in l.txs
    ensures var (l', r) := Add(l, new_, s, maxCount);
      && (t in l'.txs <==> (t in l.txs && Evicted(r) != Some(t)) || (t == new_ && Entered(r)))
      && (Evicted(r).Some? ==> Evicted(r).value in l.txs)
  {
    hide Position, Lawful, Ordered;
    Lengths(l, sender, s);
    var i := Position(l.txs, new_.body, s);
    if i < |l.txs| && s.choose(l.txs[i].body, new_.body) == InsertNew {
      ScoreCount(s, InsertAt(l.txs, i, new_), InsertAt(l.scores, i, 0), InsertedAt(i));
      InsertMembers(l.txs, i, new_, t);
      PushOutMembers(l, sender, s, i, new_, t);
    } else if i < |l.txs| && s.choose(l.txs[i].body, new_.body) == ReplaceOld {
      UpdateMembers(l, sender, s, i, new_, t);
    }
  }

  /** Inserting before the end and dropping the last one. */
  lemma PushOutMembers(l: TxList, sender: Sender, s: Scoring, i: nat, x: Tx, t: Tx)
    requires Lawful(s) && Ordered(l, sender, s) && i < |l.txs| && x !in l.txs
    ensures var n := |l.txs|;
      var q := InsertAt(l.txs, i, x);
      && q[n] == l.txs[n - 1]
      && (t in q[..n] <==> t == x || (t in l.txs && t != q[n]))
  {
    hide Lawful, Ordered;
    var n := |l.txs|;
    var q := InsertAt(l.txs, i, x);
    assert q[..n] == InsertAt(l.txs[..n - 1], i, x);
    InsertMembers(l.txs[..n - 1], i, x, t);
    assert RemoveAt(l.txs, n - 1) == l.txs[..n - 1];
    RemoveAtMembers(l, sender, s, n - 1, t);
  }

  lemma InsertMembers(q: seq<Tx>, i: nat, x: Tx, t: Tx)
    requires i <= |q|
    ensures t in InsertAt(q, i, x) <==> t == x || t in q
  {
    assert q == q[..i] + q[i..];
  }

  lemma UpdateMembers(l: TxList, sender: Sender, s: Scoring, i: nat, x: Tx, t: Tx)
    requires Lawful(s) && Ordered(l, sender, s) && i < |l.txs| && x !in l.txs
    ensures t in l.txs[i := x] <==> t == x || (t in l.txs && t != l.txs[i])
  {
    hide Lawful, Ordered;
    var q := l.txs[i := x];
    assert q[i] == x;
    if t in q && t != x {
      var k :| 0 <= k < |q| && q[k] == t;
      NoDuplicates(l, sender, s, k, i);
    }
    if t in l.txs && t != l.txs[i] {
      var k :| 0 <= k < |l.txs| && l.txs[k] == t;
      assert q[k] == t;
    }
  }

  /** A list never outgrows the limit unless some transaction ignores it. */
  lemma AddWithinLimit(l: TxList, s: Scoring, new_: Tx, maxCount: nat)
    requires Lawful(s) && |l.txs| == |l.scores| <= maxCount && maxCount > 0 && !s.ignoreSenderLimit(new_.body)
    ensures |Add(l, new_, s, maxCount).0.txs| <= maxCount
  {
    hide Position;
  }

  // ---------- What decides ----------

  /** Transaction i is the first that does not compare below b; there is none if i is the length. */
  ghost predicate BelongsAt(txs: seq<Tx>, b: Body, s: Scoring, i: nat) {
    && i <= |txs| && (forall k :: 0 <= k < i ==> s.compare(txs[k].body, b) < 0)
    && (i < |txs| ==> s.compare(txs[i].body, b) >= 0)
  }

  lemma BelongsOnce(txs: seq<Tx>, b: Body, s: Scoring, i: nat)
    requires BelongsAt(txs, b, s, i)
    ensures Position(txs, b, s) == i
  {
    hide Position;
    if i < |txs| { PositionIs(txs, b, s, i); }
  }

  /** Behind all others: refused exactly at the limit, unless the limit is ignored. */
  lemma AddBehind(l: TxList, new_: Tx, s: Scoring, maxCount: nat)
    requires Lawful(s) && |l.txs| == |l.scores| && maxCount > 0 && BelongsAt(l.txs, new_.body, s, |l.txs|)
    ensures var (l', r) := Add(l, new_, s, maxCount);
      var n := |l.txs|;
      if n == maxCount && !s.ignoreSenderLimit(new_.body)
      then l' == l && r == TooCheapToEnter(new_, l.scores[n - 1])
      else
        && r == Added(new_) && l'.txs == l.txs + [new_]
        && l'.scores == s.updateScores(l.txs + [new_], l.scores + [0], InsertedAt(n))
  {
    hide Position, Lawful, BelongsAt;
    BelongsOnce(l.txs, new_.body, s, |l.txs|);
  }

  /** A rejected newcomer changes nothing. */
  lemma AddRejected(l: TxList, new_: Tx, s: Scoring, maxCount: nat, i: nat)
    requires Lawful(s) && |l.txs| == |l.scores| && maxCount > 0 && BelongsAt(l.txs, new_.body, s, i) && i < |l.txs|
    requires s.choose(l.txs[i].body, new_.body) == RejectNew
    ensures Add(l, new_, s, maxCount) == (l, TooCheap(l.txs[i], new_))
  {
    hide Position, Lawful, BelongsAt;
    BelongsOnce(l.txs, new_.body, s, i);
  }

  /** A replacing newcomer takes the place of exactly that one. */
  lemma AddReplacing(l: TxList, new_: Tx, s: Scoring, maxCount: nat, i: nat)
    requires Lawful(s) && |l.txs| == |l.scores| && maxCount > 0 && BelongsAt(l.txs, new_.body, s, i) && i < |l.txs|
    requires s.choose(l.txs[i].body, new_.body) == ReplaceOld
    ensures var (l', r) := Add(l, new_, s, maxCount);
      && r == Replaced(l.txs[i], new_) && l'.txs == l.txs[i := new_]
      && l'.scores == s.updateScores(l.txs[i := new_], l.scores, ReplacedAt(i))
  {
    hide Position, Lawful, BelongsAt;
    BelongsOnce(l.txs, new_.body, s, i);
  }

  /** A newcomer to be kept along goes in before it; at the limit or past it the last one goes. */
  lemma AddInserting(l: TxList, new_: Tx, s: Scoring, maxCount: nat, i: nat)
    requires Lawful(s) && |l.txs| == |l.scores| && maxCount > 0 && BelongsAt(l.txs, new_.body, s, i) && i < |l.txs|
    requires s.choose(l.txs[i].body, new_.body) == InsertNew
    ensures var (l', r) := Add(l, new_, s, maxCount);
      var n := |l.txs|;
      var txs := l.txs[..i] + [new_] + l.txs[i..];
      var scores := s.updateScores(txs, l.scores[..i] + [0] + l.scores[i..], InsertedAt(i));
      && |txs| == |scores| == n + 1 && txs[n] == l.txs[n - 1]
      && if n < maxCount
         then r == Added(new_) && l' == TxList(txs, scores)
         else
           && r == PushedOut(l.txs[n - 1], new_)
           && l' == TxList(txs[..n], s.updateScores(txs[..n], scores[..n], RemovedAt(n)))
  {
    hide Position, Lawful, BelongsAt;
    BelongsOnce(l.txs, new_.body, s, i);
    ScoreCount(s, l.txs[..i] + [new_] + l.txs[i..], l.scores[..i] + [0] + l.scores[i..], InsertedAt(i));
  }

  /**
   * The limit is compared for equality alone. A list that respects it goes on to, but one that has
   * once been taken past it stays past it, whatever comes.
   */
  lemma LimitKeptIfKept(l: TxList, s: Scoring, new_: Tx, maxCount: nat)
    requires Lawful(s) && |l.txs| == |l.scores| && maxCount > 0 && !s.ignoreSenderLimit(new_.body)
    ensures |Add(l, new_, s, maxCount).0.txs| <= maxCount <==> |l.txs| <= maxCount
  {
    hide Position;
  }

  /** Past the limit, a transaction that does not ignore it enters and the list grows. */
  lemma GrowsPastLimit(l: TxList, s: Scoring, new_: Tx, maxCount: nat)
    requires Lawful(s) && |l.txs| == |l.scores| && maxCount > 0 && !s.ignoreSenderLimit(new_.body)
    requires BelongsAt(l.txs, new_.body, s, |l.txs|) && |l.txs| > maxCount
    ensures Add(l, new_, s, maxCount).1 == Added(new_) && |Add(l, new_, s, maxCount).0.txs| == |l.txs| + 1
  {
    hide Position, Lawful, BelongsAt;
    AddBehind(l, new_, s, maxCount);
  }

  /** Transactions of one sender ascend by their hashes, none replaces another, and one hash ignores the limit. */
  function ByHash(ignoring: Hash): Scoring {
    Scoring((a: Body, b: Body) => a.hash - b.hash, (_: Body, _: Body) => RejectNew,
            (_: seq<Tx>, scores: seq<Score>, _: Change) => scores, (b: Body) => b.hash == ignoring)
  }

  /** With a limit of one the second transaction ignores it, and a third one, which does not, enters too. */
  lemma PastLimitCounterexample()
    ensures var s := ByHash(11);
      var (t, u, v) := (Tx(1, Body(10, 0, 1)), Tx(2, Body(11, 0, 1)), Tx(3, Body(12, 0, 1)));
      && Lawful(s) && !s.ignoreSenderLimit(v.body)
      && Add(TxList([t], [0]), u, s, 1) == (TxList([t, u], [0, 0]), Added(u))
      && Add(TxList([t, u], [0, 0]), v, s, 1) == (TxList([t, u, v], [0, 0, 0]), Added(v))
  {
    hide Add, Position;
    var s := ByHash(11);
    var (t, u, v) := (Tx(1, Body(10, 0, 1)), Tx(2, Body(11, 0, 1)), Tx(3, Body(12, 0, 1)));
    assert Lawful(s);
    AddBehind(TxList([t], [0]), u, s, 1);
    AddBehind(TxList([t, u], [0, 0]), v, s, 1);
    assert [t] + [u] == [t, u] && [0] + [0] == [0, 0] && [t, u] + [v] == [t, u, v] && [0, 0] + [0] == [0, 0, 0];
  }

  // ---------- Removing ----------

  /** `Transactions::remove` */
  function Remove(l: TxList, b: Body, s: Scoring): (TxList, bool)
    requires |l.txs| == |l.scores|
  {
    var index := Position(l.txs, b, s);
    if index < |l.txs| && s.compare(l.txs[index].body, b) == 0
    then (Rescored(RemoveAt(l.txs, index), RemoveAt(l.scores, index), s, RemovedAt(index)), true)
    else (l, false)
  }

  /** Removing a listed transaction removes it and nothing else. */
  lemma RemoveListed(l: TxList, sender: Sender, s: Scoring, x: Tx)
    requires Lawful(s) && Ordered(l, sender, s) && x in l.txs
    ensures var (l', ok) := Remove(l, x.body, s);
      && ok && Ordered(l', sender, s) && |l'.txs| == |l.txs| - 1
      && forall t :: t in l'.txs <==> t in l.txs && t != x
  {
    hide Position, Lawful;
    var i :| 0 <= i < |l.txs| && l.txs[i] == x;
    FindsItself(l, sender, s, i);
    ScoreCount(s, RemoveAt(l.txs, i), RemoveAt(l.scores, i), RemovedAt(i));
    forall t ensures t in RemoveAt(l.txs, i) <==> t in l.txs && t != x { RemoveAtMembers(l, sender, s, i, t); }
  }

  /** Transaction and score leave from the same place, and the scoring is told which. */
  lemma RemovedScores(l: TxList, sender: Sender, s: Scoring, i: nat)
    requires Lawful(s) && Ordered(l, sender, s) && i < |l.txs|
    ensures var txs := l.txs[..i] + l.txs[i + 1..];
      Remove(l, l.txs[i].body, s) == (TxList(txs, s.updateScores(txs, l.scores[..i] + l.scores[i + 1..], RemovedAt(i))), true)
  {
    hide Position, Lawful;
    FindsItself(l, sender, s, i);
  }

  /** What compares equal to nothing is not removed, and nothing else is. */
  lemma RemoveAbsent(l: TxList, s: Scoring, b: Body)
    requires |l.txs| == |l.scores| && forall k :: 0 <= k < |l.txs| ==> s.compare(l.txs[k].body, b) != 0
    ensures Remove(l, b, s) == (l, false)
  {
    hide Position;
  }

  lemma ScoreCount(s: Scoring, txs: seq<Tx>, scores: seq<Score>, c: Change)
    requires Lawful(s)
    ensures |Rescored(txs, scores, s, c).scores| == |scores|
  {}

  lemma RemoveAtMembers(l: TxList, sender: Sender, s: Scoring, i: nat, t: Tx)
    requires Lawful(s) && Ordered(l, sender, s) && i < |l.txs|
    ensures t in RemoveAt(l.txs, i) <==> t in l.txs && t != l.txs[i]
  {
    hide Lawful, Ordered;
    var q := RemoveAt(l.txs, i);
    if t in q {
      var k :| 0 <= k < |q| && q[k] == t;
      var k' := if k < i then k else k + 1;
      assert l.txs[k'] == t;
      NoDuplicates(l, sender, s, k', i);
    }
    if t in l.txs && t != l.txs[i] {
      var k :| 0 <= k < |l.txs| && l.txs[k] == t;
      assert q[if k < i then k else k - 1] == t;
    }
  }

  /** Removing the last one leaves the list in front of it. */
  lemma RemoveLast(l: TxList, sender: Sender, s: Scoring)
    requires Lawful(s) && Ordered(l, sender, s) && l.txs != []
    ensures Remove(l, l.txs[|l.txs| - 1].body, s).0.txs == l.txs[..|l.txs| - 1]
  {
    hide Position, Lawful, Ordered;
    var n := |l.txs| - 1;
    Lengths(l, sender, s);
    FindsItself(l, sender, s, n);
    assert RemoveAt(l.txs, n) == l.txs[..n];
  }

  // ---------- Culling ----------

  datatype Readiness = Stale | Ready | Future

  /** A `Ready` implementation: its answer may depend on every transaction it was asked before. */
  type ReadyFn = (seq<Body>, Body) -> Readiness

  /** How many transactions at the front are stale, and what has been asked by then. */
  function StalePrefix(txs: seq<Tx>, ready: ReadyFn, asked: seq<Body>): (r: (nat, seq<Body>))
    ensures r.0 <= |txs|
    decreases |txs|
  {
    if txs == [] then (0, asked)
    else
      var b := txs[0].body;
      var asked' := asked + [b];
      if ready(asked, b) == Stale then
        var (n, after) := StalePrefix(txs[1..], ready, asked');
        (n + 1, after)
      else (0, asked')
  }

  function Bodies(txs: seq<Tx>): (r: seq<Body>)
    ensures |r| == |txs| && forall k :: 0 <= k < |txs| ==> r[k] == txs[k].body
  {
    seq(|txs|, k requires 0 <= k < |txs| => txs[k].body)
  }

  /** Each of the front was found stale, having been asked for in order, and the one behind it was not. */
  lemma {:induction false} StalePrefixIs(txs: seq<Tx>, ready: ReadyFn, asked: seq<Body>)
    ensures var (n, after) := StalePrefix(txs, ready, asked);
      && (forall k :: 0 <= k < n ==> ready(asked + Bodies(txs[..k]), txs[k].body) == Stale)
      && (n < |txs| ==> ready(asked + Bodies(txs[..n]), txs[n].body) != Stale)
      && after == asked + Bodies(txs[..if n < |txs| then n + 1 else n])
    decreases |txs|
  {
    hide Bodies;
    BodiesNone();
    if txs == [] {
      assert asked + [] == asked;
    } else {
      var b := txs[0].body;
      var asked' := asked + [b];
      assert asked + [] == asked && txs[..0] == [];
      BodiesMore(txs, asked, 1);
      if ready(asked, b) == Stale {
        StalePrefixIs(txs[1..], ready, asked');
        var (n, _) := StalePrefix(txs[1..], ready, asked');
        forall k | 0 < k <= |txs| ensures asked' + Bodies(txs[1..][..k - 1]) == asked + Bodies(txs[..k]) {
          BodiesMore(txs, asked, k);
        }
        forall k | 0 < k <= n ensures ready(asked + Bodies(txs[..k]), txs[k].body) == Stale {
          assert txs[k] == txs[1..][k - 1];
        }
      } else {
        assert txs[1..][..0] == [] && asked' + [] == asked';
      }
    }
  }

  lemma BodiesNone()
    ensures Bodies([]) == []
  {}

  lemma BodiesMore(txs: seq<Tx>, asked: seq<Body>, k: nat)
    requires 0 < k <= |txs|
    ensures asked + [txs[0].body] + Bodies(txs[1..][..k - 1]) == asked + Bodies(txs[..k])
  {}

  function Reverse<T>(q: seq<T>): (r: seq<T>)
    ensures |r| == |q|
    ensures forall k :: 0 <= k < |q| ==> r[k] == q[|q| - 1 - k]
  {
    if q == [] then [] else Reverse(q[1..]) + [q[0]]
  }

  /** `Transactions::cull`: the stale front leaves; it is handed back last one first. */
  function Cull(l: TxList, ready: ReadyFn, asked: seq<Body>, s: Scoring): (TxList, seq<Tx>, seq<Body>)
    requires |l.txs| == |l.scores|
  {
    var (n, after) := StalePrefix(l.txs, ready, asked);
    if n == 0 then (l, [], after)
    else (Rescored(l.txs[n..], l.scores[n..], s, Culled(n)), Reverse(l.txs[..n]), after)
  }

  /** The scores behind the stale front stay with their transactions, and the scoring is told how many have gone. */
  lemma CulledScores(l: TxList, ready: ReadyFn, asked: seq<Body>, s: Scoring, n: nat)
    requires |l.txs| == |l.scores| && n == StalePrefix(l.txs, ready, asked).0
    ensures Cull(l, ready, asked, s).0 ==
              if n == 0 then l else TxList(l.txs[n..], s.updateScores(l.txs[n..], l.scores[n..], Culled(n)))
  {
    hide StalePrefix, Reverse;
  }

  /** What is handed back is in the order of the list exactly when it is at most one transaction. */
  lemma CullOrder(l: TxList, sender: Sender, s: Scoring, ready: ReadyFn, asked: seq<Body>)
    requires Lawful(s) && Ordered(l, sender, s)
    ensures var removed := Cull(l, ready, asked, s).1;
      && |removed| <= |l.txs|
      && (removed == l.txs[..|removed|] <==> |removed| <= 1)
  {
    hide StalePrefix, Reverse, Lawful, Ordered;
    Lengths(l, sender, s);
    var removed := Cull(l, ready, asked, s).1;
    var n := |removed|;
    if n > 1 { NoDuplicates(l, sender, s, 0, n - 1); }
  }

  /** Two stale transactions come back the second one first. */
  lemma CullOrderCounterexample(s: Scoring)
    ensures var (t, u) := (Tx(1, Body(10, 0, 1)), Tx(2, Body(11, 0, 1)));
      Cull(TxList([t, u], [0, 0]), (_, _) => Stale, [], s).1 == [u, t]
  {
    var (t, u) := (Tx(1, Body(10, 0, 1)), Tx(2, Body(11, 0, 1)));
    var ready: ReadyFn := (_, _) => Stale;
    hide Reverse, StalePrefix;
    StalePrefixIs([t, u], ready, []);
    assert [t, u][..2] == [t, u];
  }

  lemma ReverseMembers<T>(q: seq<T>, t: T)
    ensures t in Reverse(q) <==> t in q
  {
    if t in Reverse(q) {
      var k :| 0 <= k < |q| && Reverse(q)[k] == t;
      assert q[|q| - 1 - k] == t;
    }
    if t in q {
      var k :| 0 <= k < |q| && q[k] == t;
      assert Reverse(q)[|q| - 1 - k] == t;
    }
  }

  /** Culling keeps the order and parts the list into what stays and what is handed back. */
  lemma CullMembers(l: TxList, sender: Sender, s: Scoring, ready: ReadyFn, asked: seq<Body>)
    requires Lawful(s) && Ordered(l, sender, s)
    ensures var (l', removed, _) := Cull(l, ready, asked, s);
      && Ordered(l', sender, s)
      && (forall t :: t in l'.txs <==> t in l.txs && t !in removed)
      && (forall t :: t in removed ==> t in l.txs)
  {
    hide StalePrefix, Reverse;
    var (n, _) := StalePrefix(l.txs, ready, asked);
    var front, back := l.txs[..n], l.txs[n..];
    assert l.txs == front + back;
    forall t ensures t in Reverse(front) <==> t in front { ReverseMembers(front, t); }
    forall i: nat, j: nat | i < n && j < |back| ensures front[i] != back[j] {
      NoDuplicates(l, sender, s, i, n + j);
    }
  }
}
