/** The iterator over pending transactions: a greedy walk that only ever looks at one entry per sender. */
module PoolPending {
  import opened Wrappers
  import opened PoolList
  import opened PoolModel
  import opened PoolOps

  /** A transaction that was looked at, and what the readiness check said. */
  datatype Seen = Seen(tx: Tx, state: Readiness)

  // ---------- What a walk may take next ----------

  ghost predicate WasSeen(h: seq<Seen>, t: Tx) {
    exists e :: e in h && e.tx == t
  }

  /** Looked at, and not held back as Future. */
  ghost predicate Passed(h: seq<Seen>, t: Tx) {
    exists e :: e in h && e.tx == t && e.state != Future
  }

  /** Transaction i of this sender is next in its list: everything before it passed. */
  ghost predicate IsNext(lists: map<Sender, TxList>, h: seq<Seen>, sender: Sender, i: nat) {
    && sender in lists && i < |lists[sender].txs| == |lists[sender].scores|
    && !WasSeen(h, lists[sender].txs[i])
    && forall j :: 0 <= j < i ==> Passed(h, lists[sender].txs[j])
  }

  /** The place of transaction i of this sender in the order of the pool. */
  function PlaceOf(l: TxList, i: nat): (Score, nat)
    requires i < |l.txs| == |l.scores|
  { (l.scores[i], l.txs[i].id) }

  /** Every other sender's next transaction has a lower score, or the same and a larger id. */
  ghost predicate NoneBefore(lists: map<Sender, TxList>, h: seq<Seen>, sender: Sender, place: (Score, nat)) {
    forall other, j: nat :: IsNext(lists, h, other, j) ==>
      other == sender || Outranks(place.0, place.1, lists[other].scores[j], lists[other].txs[j].id)
  }

  /** The higher score first, then the older transaction. */
  predicate Outranks(score: Score, id: nat, score': Score, id': nat) {
    score > score' || (score == score' && id < id')
  }

  /** Transaction i of this sender is t, is next, and comes before all others that are. */
  ghost predicate TakesNext(lists: map<Sender, TxList>, h: seq<Seen>, t: Tx, i: nat) {
    var sender := t.body.sender;
    IsNext(lists, h, sender, i) && lists[sender].txs[i] == t && NoneBefore(lists, h, sender, PlaceOf(lists[sender], i))
  }

  /** Looking at e after h. */
  ghost predicate GreedyStep(lists: map<Sender, TxList>, h: seq<Seen>, e: Seen, ready: ReadyFn) {
    e.state == ready(Asked(h), e.tx.body) && exists i: nat :: TakesNext(lists, h, e.tx, i)
  }

  function Asked(h: seq<Seen>): seq<Body> { seq(|h|, i requires 0 <= i < |h| => h[i].tx.body) }

  /** A walk all of whose steps are greedy. */
  ghost predicate Greedy(lists: map<Sender, TxList>, h: seq<Seen>, ready: ReadyFn) {
    forall n :: 0 <= n < |h| ==> GreedyStep(lists, h[..n], h[n], ready)
  }

  /** Nothing is left to look at. */
  ghost predicate Exhausted(lists: map<Sender, TxList>, h: seq<Seen>) {
    forall sender, i: nat :: !IsNext(lists, h, sender, i)
  }

  /** Of one list at most one transaction is next. */
  lemma NextUnique(lists: map<Sender, TxList>, h: seq<Seen>, sender: Sender, i: nat, j: nat)
    requires IsNext(lists, h, sender, i) && IsNext(lists, h, sender, j)
    ensures i == j
  {
    if i < j { PassedSeen(h, lists[sender].txs[i]); }
    if j < i { PassedSeen(h, lists[sender].txs[j]); }
  }

  lemma PassedSeen(h: seq<Seen>, t: Tx)
    requires Passed(h, t)
    ensures WasSeen(h, t)
  {}

  // ---------- What greedy walks have in common ----------

  /** No transaction is looked at twice, and only pooled ones are. */
  lemma {:induction false} GreedyDistinct(lists: map<Sender, TxList>, h: seq<Seen>, ready: ReadyFn, m: nat, n: nat)
    requires Greedy(lists, h, ready) && m < n < |h|
    ensures h[m].tx != h[n].tx && Pooled(lists, h[n].tx)
  {
    hide Asked, NoneBefore;
    assert GreedyStep(lists, h[..n], h[n], ready);
    var i: nat :| TakesNext(lists, h[..n], h[n].tx, i);
    assert h[..n][m] in h[..n];
  }

  /** One sender's transactions come in the order of its list, and never past a Future one. */
  lemma {:induction false} GreedyInOrder(lists: map<Sender, TxList>, h: seq<Seen>, ready: ReadyFn, s: Scoring, m: nat, n: nat)
    requires Lawful(s) && ListsOk(lists, s) && Greedy(lists, h, ready) && m < n < |h|
    requires h[m].tx.body.sender == h[n].tx.body.sender
    ensures s.compare(h[m].tx.body, h[n].tx.body) < 0 && h[m].state != Future
  {
    hide Asked, Lawful, WasSeen, Passed;
    var sender := h[n].tx.body.sender;
    assert GreedyStep(lists, h[..m], h[m], ready) && GreedyStep(lists, h[..n], h[n], ready);
    var i: nat :| TakesNext(lists, h[..m], h[m].tx, i);
    var j: nat :| TakesNext(lists, h[..n], h[n].tx, j);
    SeenAt(h, m, n);
    if j < i {
      assert Passed(h[..m], lists[sender].txs[j]);
      SeenLater(h, m, n, lists[sender].txs[j]);
    }
    assert i < j;
    assert Passed(h[..n], lists[sender].txs[i]);
    PassedOnce(lists, h, ready, m, n);
  }

  lemma SeenAt(h: seq<Seen>, m: nat, n: nat)
    requires m < n <= |h|
    ensures WasSeen(h[..n], h[m].tx)
  {
    assert h[..n][m] in h[..n];
  }

  lemma SeenLater(h: seq<Seen>, m: nat, n: nat, t: Tx)
    requires m <= n <= |h| && Passed(h[..m], t)
    ensures WasSeen(h[..n], t)
  {
    var e :| e in h[..m] && e.tx == t;
    var k :| 0 <= k < m && h[k] == e;
    assert h[..n][k] in h[..n];
  }

  /** What passed by step n and was looked at in step m passed in step m. */
  lemma PassedOnce(lists: map<Sender, TxList>, h: seq<Seen>, ready: ReadyFn, m: nat, n: nat)
    requires Greedy(lists, h, ready) && m < n <= |h| && Passed(h[..n], h[m].tx)
    ensures h[m].state != Future
  {
    hide Greedy;
    var e :| e in h[..n] && e.tx == h[m].tx && e.state != Future;
    var k :| 0 <= k < n && h[k] == e;
    if k < m { GreedyDistinct(lists, h, ready, k, m); }
    if m < k { GreedyDistinct(lists, h, ready, m, k); }
  }

  /**
   * What is looked at has at least the score of every other sender's next transaction, and of those
   * with the same score it is the oldest.
   */
  lemma GreedyByScore(lists: map<Sender, TxList>, h: seq<Seen>, ready: ReadyFn, n: nat, other: Sender, j: nat) returns (i: nat)
    requires Greedy(lists, h, ready) && n < |h| && IsNext(lists, h[..n], other, j)
    ensures var sender := h[n].tx.body.sender;
      && IsNext(lists, h[..n], sender, i) && lists[sender].txs[i] == h[n].tx
      && (other != sender ==> lists[sender].scores[i] >= lists[other].scores[j])
      && (other != sender && lists[sender].scores[i] == lists[other].scores[j] ==> h[n].tx.id < lists[other].txs[j].id)
  {
    hide Asked, WasSeen, Passed;
    assert GreedyStep(lists, h[..n], h[n], ready);
    i :| TakesNext(lists, h[..n], h[n].tx, i);
  }

  /** Each answer was given with all that had been looked at before as its history, in order. */
  lemma AnsweredInOrder(lists: map<Sender, TxList>, h: seq<Seen>, ready: ReadyFn, n: nat, asked: seq<Body>)
    requires Greedy(lists, h, ready) && n < |h| && |asked| == n
    requires forall k :: 0 <= k < n ==> asked[k] == h[k].tx.body
    ensures h[n].state == ready(asked, h[n].tx.body)
  {
    assert GreedyStep(lists, h[..n], h[n], ready);
    assert Asked(h[..n]) == asked;
  }

  /** The whole walk is determined by the pool and the readiness check. */
  lemma {:induction false} GreedyUnique(lists: map<Sender, TxList>, h: seq<Seen>, h': seq<Seen>, ready: ReadyFn)
    requires Greedy(lists, h, ready) && Greedy(lists, h', ready) && |h| == |h'|
    ensures h == h'
    decreases |h|
  {
    hide Asked, WasSeen, Passed, IsNext;
    if h != [] {
      var n := |h| - 1;
      GreedyPrefix(lists, h, ready, n);
      GreedyPrefix(lists, h', ready, n);
      GreedyUnique(lists, h[..n], h'[..n], ready);
      StepUnique(lists, h[..n], h[n], h'[n], ready);
      assert h == h[..n] + [h[n]] && h' == h'[..n] + [h'[n]];
    }
  }

  lemma GreedyPrefix(lists: map<Sender, TxList>, h: seq<Seen>, ready: ReadyFn, n: nat)
    requires Greedy(lists, h, ready) && n < |h|
    ensures Greedy(lists, h[..n], ready) && GreedyStep(lists, h[..n], h[n], ready)
  {
    hide GreedyStep;
    forall k | 0 <= k < n ensures GreedyStep(lists, h[..n][..k], h[..n][k], ready) {
      assert h[..n][..k] == h[..k];
    }
  }

  lemma StepUnique(lists: map<Sender, TxList>, h: seq<Seen>, e: Seen, e': Seen, ready: ReadyFn)
    requires GreedyStep(lists, h, e, ready) && GreedyStep(lists, h, e', ready)
    ensures e == e'
  {
    hide Asked, IsNext;
    var (a, b) := (e.tx.body.sender, e'.tx.body.sender);
    var i: nat :| TakesNext(lists, h, e.tx, i);
    var j: nat :| TakesNext(lists, h, e'.tx, j);
    NextUnique(lists, h, a, i, j);
  }

  // ---------- One step of the walk ----------

  /** What was looked at of a list is a front of it, and all of it but the last one passed. */
  ghost predicate Closed(lists: map<Sender, TxList>, h: seq<Seen>) {
    forall sender, i: nat, j: nat ::
      sender in lists && j < i < |lists[sender].txs| && WasSeen(h, lists[sender].txs[i]) ==> Passed(h, lists[sender].txs[j])
  }

  lemma Snoc(h: seq<Seen>, e: Seen, t: Tx)
    ensures WasSeen(h + [e], t) <==> WasSeen(h, t) || t == e.tx
    ensures Passed(h + [e], t) <==> Passed(h, t) || (t == e.tx && e.state != Future)
  {
    assert forall x :: x in h + [e] <==> x in h || x == e;
    if WasSeen(h, t) {
      var x :| x in h && x.tx == t;
      assert x in h + [e];
    }
    if Passed(h, t) {
      var x :| x in h && x.tx == t && x.state != Future;
      assert x in h + [e];
    }
    if t == e.tx { assert e in h + [e]; }
  }

  lemma ClosedSnoc(lists: map<Sender, TxList>, h: seq<Seen>, e: Seen, i: nat, s: Scoring)
    requires Lawful(s) && ListsOk(lists, s) && Closed(lists, h)
    requires IsNext(lists, h, e.tx.body.sender, i) && lists[e.tx.body.sender].txs[i] == e.tx
    ensures Closed(lists, h + [e])
  {
    hide WasSeen, Passed, Ordered, Lawful;
    forall sender, k: nat, j: nat
      | sender in lists && j < k < |lists[sender].txs| && WasSeen(h + [e], lists[sender].txs[k])
      ensures Passed(h + [e], lists[sender].txs[j])
    {
      Snoc(h, e, lists[sender].txs[k]);
      Snoc(h, e, lists[sender].txs[j]);
      if !WasSeen(h, lists[sender].txs[k]) { SameIndex(lists, s, sender, k, e.tx, i); }
    }
  }

  /** A transaction stands in one list, at one index. */
  lemma SameIndex(lists: map<Sender, TxList>, s: Scoring, sender: Sender, k: nat, t: Tx, i: nat)
    requires Lawful(s) && ListsOk(lists, s) && sender in lists && k < |lists[sender].txs|
    requires t.body.sender in lists && i < |lists[t.body.sender].txs| && lists[t.body.sender].txs[i] == t
    ensures lists[sender].txs[k] == t <==> sender == t.body.sender && k == i
  {
    if sender == t.body.sender && k != i { NoDuplicates(lists[sender], sender, s, k, i); }
  }

  /** Which transactions are next after one has been looked at. */
  lemma NextSnoc(lists: map<Sender, TxList>, h: seq<Seen>, e: Seen, i: nat, s: Scoring, sender: Sender, j: nat)
    requires Lawful(s) && ListsOk(lists, s) && Closed(lists, h)
    requires IsNext(lists, h, e.tx.body.sender, i) && lists[e.tx.body.sender].txs[i] == e.tx
    ensures IsNext(lists, h + [e], sender, j) <==>
              if sender == e.tx.body.sender
              then e.state != Future && j == i + 1 && j < |lists[sender].txs|
              else IsNext(lists, h, sender, j)
  {
    hide WasSeen, Passed, Ordered, Lawful, Closed;
    if sender in lists && j < |lists[sender].txs| {
      var txs := lists[sender].txs;
      ListSizes(lists, s, sender);
      forall k: nat | k <= j
        ensures WasSeen(h + [e], txs[k]) <==> WasSeen(h, txs[k]) || (sender == e.tx.body.sender && k == i)
        ensures Passed(h + [e], txs[k]) <==>
                  Passed(h, txs[k]) || (sender == e.tx.body.sender && k == i && e.state != Future)
      {
        Snoc(h, e, txs[k]);
        SameIndex(lists, s, sender, k, e.tx, i);
      }
      if sender == e.tx.body.sender { OwnNext(lists, h, e, i, j); }
    }
  }

  lemma ListSizes(lists: map<Sender, TxList>, s: Scoring, sender: Sender)
    requires ListsOk(lists, s) && sender in lists
    ensures |lists[sender].txs| == |lists[sender].scores|
  {}

  lemma OwnNext(lists: map<Sender, TxList>, h: seq<Seen>, e: Seen, i: nat, j: nat)
    requires Closed(lists, h) && IsNext(lists, h, e.tx.body.sender, i) && j < |lists[e.tx.body.sender].txs|
    ensures var txs := lists[e.tx.body.sender].txs;
      && !Passed(h, txs[i])
      && (j > i ==> !WasSeen(h, txs[j]))
      && (j > i + 1 ==> !Passed(h, txs[i + 1]))
      && (j < i ==> WasSeen(h, txs[j]))
  {
    hide WasSeen, Passed;
    var txs := lists[e.tx.body.sender].txs;
    if Passed(h, txs[i]) { PassedSeen(h, txs[i]); }
    if j > i + 1 && Passed(h, txs[i + 1]) { PassedSeen(h, txs[i + 1]); }
    if j < i { PassedSeen(h, txs[j]); }
  }

  /** A walk that has ended looked at exactly each list's front, up to and including its first Future one. */
  lemma ExhaustedSeen(lists: map<Sender, TxList>, h: seq<Seen>, ready: ReadyFn, s: Scoring, sender: Sender, i: nat)
    requires Lawful(s) && ListsOk(lists, s) && Greedy(lists, h, ready) && Exhausted(lists, h)
    requires sender in lists && i < |lists[sender].txs|
    ensures WasSeen(h, lists[sender].txs[i]) <==> forall j :: 0 <= j < i ==> FoundReadyOrStale(h, lists[sender].txs[j])
  {
    hide WasSeen, Passed, Greedy, Ordered, Lawful, FoundReadyOrStale;
    GreedyClosed(lists, h, ready, s);
    ListSizes(lists, s, sender);
    assert !IsNext(lists, h, sender, i);
    forall j | 0 <= j < i ensures Passed(h, lists[sender].txs[j]) <==> FoundReadyOrStale(h, lists[sender].txs[j]) {
      PassedIs(h, lists[sender].txs[j]);
    }
  }

  ghost predicate FoundReadyOrStale(h: seq<Seen>, t: Tx) {
    Seen(t, Ready) in h || Seen(t, Stale) in h
  }

  lemma PassedIs(h: seq<Seen>, t: Tx)
    ensures Passed(h, t) <==> FoundReadyOrStale(h, t)
  {
    if e :| e in h && e.tx == t && e.state != Future { assert e == Seen(t, Ready) || e == Seen(t, Stale); }
  }

  lemma {:induction false} GreedyClosed(lists: map<Sender, TxList>, h: seq<Seen>, ready: ReadyFn, s: Scoring)
    requires Lawful(s) && ListsOk(lists, s) && Greedy(lists, h, ready)
    ensures Closed(lists, h)
    decreases |h|
  {
    hide ListsOk, Greedy, Passed, Asked, Lawful;
    if h != [] {
      var n := |h| - 1;
      GreedyPrefix(lists, h, ready, n);
      GreedyClosed(lists, h[..n], ready, s);
      var i: nat :| TakesNext(lists, h[..n], h[n].tx, i);
      ClosedSnoc(lists, h[..n], h[n], i, s);
      assert h[..n] + [h[n]] == h;
    }
  }

  // ---------- The frontier ----------

  /** Entry k is transaction i of its sender, under its current place. */
  ghost predicate Stands(f: Frontier, lists: map<Sender, TxList>, h: seq<Seen>, k: (Score, nat), i: nat) {
    && k in f && IsNext(lists, h, f[k].body.sender, i)
    && lists[f[k].body.sender].txs[i] == f[k] && PlaceOf(lists[f[k].body.sender], i) == k
  }

  /** The frontier holds exactly what is next. */
  ghost predicate FrontierIs(f: Frontier, lists: map<Sender, TxList>, h: seq<Seen>) {
    && (forall sender, i: nat :: IsNext(lists, h, sender, i) ==>
          PlaceOf(lists[sender], i) in f && f[PlaceOf(lists[sender], i)] == lists[sender].txs[i])
    && (forall k :: k in f ==> exists i: nat :: Stands(f, lists, h, k, i))
  }

  ghost predicate UniqueIds(lists: map<Sender, TxList>) {
    forall t, t' :: Pooled(lists, t) && Pooled(lists, t') && t.id == t'.id ==> t == t'
  }

  /** The first key of an ordered set. */
  predicate IsFirst(keys: set<(Score, nat)>, k: (Score, nat)) {
    k in keys && forall j :: j in keys ==> j == k || Before(k, j)
  }

  /** The frontier after entry k, transaction i of its sender, has been looked at. */
  function Advance(f: Frontier, k: (Score, nat), state: Readiness, next: Option<Scored>): Frontier {
    if state != Future && next.Some? then SetInsert(f - {k}, next.value) else f - {k}
  }

  lemma FindNextIs(l: TxList, sender: Sender, s: Scoring, i: nat)
    requires Lawful(s) && Ordered(l, sender, s) && i < |l.txs|
    ensures |l.txs| == |l.scores|
    ensures FindNext(l, l.txs[i].body, s) == if i + 1 < |l.txs| then Some((l.scores[i + 1], l.txs[i + 1])) else None
  {
    hide Position, Lawful;
    FindsItself(l, sender, s, i);
  }

  lemma FirstIn(f: Frontier, k: (Score, nat))
    requires IsFirst(f.Keys, k)
    ensures k in f
  {}

  lemma FirstOutranks(f: Frontier, k: (Score, nat), j: (Score, nat))
    requires IsFirst(f.Keys, k) && j in f
    ensures k in f && (j == k || Outranks(k.0, k.1, j.0, j.1))
  {}

  lemma AdvanceTakes(f: Frontier, lists: map<Sender, TxList>, h: seq<Seen>, k: (Score, nat), ready: ReadyFn, s: Scoring)
    requires ListsOk(lists, s) && FrontierIs(f, lists, h) && IsFirst(f.Keys, k)
    ensures GreedyStep(lists, h, Seen(f[k], ready(Asked(h), f[k].body)), ready)
  {
    hide Asked, IsNext, Stands, FrontierIs, IsFirst, Outranks;
    FirstIn(f, k);
    var i := HeldIndex(f, lists, h, k);
    StandsNext(f, lists, h, k, i);
    var sender := f[k].body.sender;
    forall other, j: nat | IsNext(lists, h, other, j)
      ensures other in lists && j < |lists[other].txs| == |lists[other].scores|
      ensures other == sender || Outranks(k.0, k.1, lists[other].scores[j], lists[other].txs[j].id)
    {
      NextIsListed(lists, h, other, j);
      Listed(lists, s, other, j);
      NextHeld(f, lists, h, other, j);
      FirstOutranks(f, k, PlaceOf(lists[other], j));
    }
    assert TakesNext(lists, h, f[k], i);
  }

  lemma StandsNext(f: Frontier, lists: map<Sender, TxList>, h: seq<Seen>, k: (Score, nat), i: nat)
    requires Stands(f, lists, h, k, i)
    ensures var sender := f[k].body.sender;
      && IsNext(lists, h, sender, i) && sender in lists && i < |lists[sender].txs| == |lists[sender].scores|
      && lists[sender].txs[i] == f[k] && PlaceOf(lists[sender], i) == k
  {}

  lemma NextIsListed(lists: map<Sender, TxList>, h: seq<Seen>, sender: Sender, j: nat)
    requires IsNext(lists, h, sender, j)
    ensures sender in lists && j < |lists[sender].txs| == |lists[sender].scores|
  {}

  lemma NextHeld(f: Frontier, lists: map<Sender, TxList>, h: seq<Seen>, sender: Sender, j: nat)
    requires FrontierIs(f, lists, h) && IsNext(lists, h, sender, j)
    ensures PlaceOf(lists[sender], j) in f && f[PlaceOf(lists[sender], j)] == lists[sender].txs[j]
  {}

  lemma HeldIndex(f: Frontier, lists: map<Sender, TxList>, h: seq<Seen>, k: (Score, nat)) returns (j: nat)
    requires FrontierIs(f, lists, h) && k in f
    ensures Stands(f, lists, h, k, j)
  {
    j :| Stands(f, lists, h, k, j);
  }

  lemma FrontierFrom(f: Frontier, lists: map<Sender, TxList>, h: seq<Seen>)
    requires forall sender, i: nat :: IsNext(lists, h, sender, i) ==>
      PlaceOf(lists[sender], i) in f && f[PlaceOf(lists[sender], i)] == lists[sender].txs[i]
    requires forall k :: k in f ==> exists i: nat :: Stands(f, lists, h, k, i)
    ensures FrontierIs(f, lists, h)
  {}

  lemma OtherSender(f: Frontier, lists: map<Sender, TxList>, h: seq<Seen>, k: (Score, nat), i: nat, k': (Score, nat), j: nat)
    requires Stands(f, lists, h, k, i) && Stands(f, lists, h, k', j) && k != k'
    ensures f[k].body.sender != f[k'].body.sender
  {
    if f[k].body.sender == f[k'].body.sender { NextUnique(lists, h, f[k].body.sender, i, j); }
  }

  lemma Listed(lists: map<Sender, TxList>, s: Scoring, sender: Sender, i: nat)
    requires ListsOk(lists, s) && sender in lists && i < |lists[sender].txs|
    ensures lists[sender].txs[i].body.sender == sender && Pooled(lists, lists[sender].txs[i])
    ensures |lists[sender].txs| == |lists[sender].scores|
  {}

  /** The transaction behind a next one is not in the frontier yet. */
  lemma NextNotHeld(f: Frontier, lists: map<Sender, TxList>, h: seq<Seen>, k: (Score, nat), i: nat, s: Scoring)
    requires Lawful(s) && ListsOk(lists, s) && UniqueIds(lists) && FrontierIs(f, lists, h) && Stands(f, lists, h, k, i)
    requires i + 1 < |lists[f[k].body.sender].txs|
    ensures PlaceOf(lists[f[k].body.sender], i + 1) !in f
  {
    hide Lawful, IsNext, FrontierIs, Pooled, Ordered;
    StandsNext(f, lists, h, k, i);
    var sender := f[k].body.sender;
    var k' := PlaceOf(lists[sender], i + 1);
    Listed(lists, s, sender, i + 1);
    if k' in f {
      var j := HeldIndex(f, lists, h, k');
      StandsNext(f, lists, h, k', j);
      Listed(lists, s, f[k'].body.sender, j);
      assert f[k'] == lists[sender].txs[i + 1];
      NextUnique(lists, h, sender, i, j);
      NoDuplicates(lists[sender], sender, s, i, i + 1);
    }
  }

  /** Looking at the first entry keeps the frontier exact. */
  lemma AdvanceIs(f: Frontier, lists: map<Sender, TxList>, h: seq<Seen>, k: (Score, nat), i: nat, state: Readiness, s: Scoring)
    requires Lawful(s) && ListsOk(lists, s) && UniqueIds(lists) && Closed(lists, h)
    requires FrontierIs(f, lists, h) && Stands(f, lists, h, k, i)
    ensures |lists[f[k].body.sender].txs| == |lists[f[k].body.sender].scores|
    ensures var f' := Advance(f, k, state, FindNext(lists[f[k].body.sender], f[k].body, s));
      FrontierIs(f', lists, h + [Seen(f[k], state)])
  {
    hide Lawful, Ordered, Closed, FindNext, UniqueIds, IsNext, FrontierIs;
    StandsNext(f, lists, h, k, i);
    var (t, h') := (f[k], h + [Seen(f[k], state)]);
    var l := lists[t.body.sender];
    FindNextIs(l, t.body.sender, s, i);
    var next := FindNext(l, t.body, s);
    var f' := Advance(f, k, state, next);
    if next.Some? { NextNotHeld(f, lists, h, k, i, s); }
    forall sender, j: nat | IsNext(lists, h', sender, j)
      ensures sender in lists && j < |lists[sender].txs| == |lists[sender].scores|
      ensures PlaceOf(lists[sender], j) in f' && f'[PlaceOf(lists[sender], j)] == lists[sender].txs[j]
    {
      NextIsListed(lists, h', sender, j);
      NextSnoc(lists, h, Seen(t, state), i, s, sender, j);
      Listed(lists, s, sender, j);
      if sender != t.body.sender { NextHeld(f, lists, h, sender, j); }
    }
    forall k' | k' in f' ensures exists j: nat :: Stands(f', lists, h', k', j) {
      if k' in f && k' != k {
        var j := HeldIndex(f, lists, h, k');
        OtherSender(f, lists, h, k, i, k', j);
        NextSnoc(lists, h, Seen(t, state), i, s, f[k'].body.sender, j);
        assert Stands(f', lists, h', k', j);
      } else {
        NextSnoc(lists, h, Seen(t, state), i, s, t.body.sender, i + 1);
        Listed(lists, s, t.body.sender, i + 1);
        assert Stands(f', lists, h', k', i + 1);
      }
    }
    FrontierFrom(f', lists, h');
  }

  /** Before anything has been looked at, the first of each list is next. */
  lemma FirstFrontier(f: Frontier, lists: map<Sender, TxList>, s: Scoring)
    requires ListsOk(lists, s) && FrontierOk(f, lists, true)
    ensures FrontierIs(f, lists, []) && Closed(lists, [])
  {
    hide Ordered;
    forall sender, i: nat | IsNext(lists, [], sender, i)
      ensures PlaceOf(lists[sender], i) in f && f[PlaceOf(lists[sender], i)] == lists[sender].txs[i]
    {
      assert i > 0 ==> Passed([], lists[sender].txs[0]);
      FrontierHas(f, lists, true, s, sender);
    }
    forall k | k in f ensures exists i: nat :: Stands(f, lists, [], k, i) {
      FrontierPooled(f, lists, true, s, k);
      assert Stands(f, lists, [], k, 0);
    }
  }

  /** The hashes of the pool that have not been looked at. */
  ghost function Unseen(byHash: map<Hash, Tx>, h: seq<Seen>): set<Hash> {
    set x | x in byHash && !WasSeen(h, byHash[x])
  }

  lemma UnseenShrinks(byHash: map<Hash, Tx>, h: seq<Seen>, e: Seen)
    requires e.tx.body.hash in byHash && byHash[e.tx.body.hash] == e.tx && !WasSeen(h, e.tx)
    ensures Unseen(byHash, h + [e]) < Unseen(byHash, h)
  {
    hide WasSeen, Passed;
    forall x | x in byHash ensures WasSeen(h + [e], byHash[x]) <==> WasSeen(h, byHash[x]) || byHash[x] == e.tx {
      Snoc(h, e, byHash[x]);
    }
    assert e.tx.body.hash in Unseen(byHash, h) && e.tx.body.hash !in Unseen(byHash, h + [e]);
  }

  /** Part of the pool's lists: all of them, or those of one sender. */
  ghost predicate Scope(lists: map<Sender, TxList>, st: PoolState, s: Scoring) {
    && ListsOk(lists, s) && UniqueIds(lists)
    && (forall sender :: sender in lists ==> sender in st.lists && lists[sender] == st.lists[sender])
    && (forall t :: Pooled(lists, t) ==> t.body.hash in st.byHash && st.byHash[t.body.hash] == t)
  }

  lemma ScopeOf(st: PoolState, s: Scoring, lists: map<Sender, TxList>)
    requires Inv(st, s) && forall sender :: sender in lists ==> sender in st.lists && lists[sender] == st.lists[sender]
    ensures Scope(lists, st, s)
  {
    hide FrontierOk, MemSum, Ordered;
    forall t | Pooled(lists, t) ensures Pooled(st.lists, t) {}
  }

  lemma NextPooled(lists: map<Sender, TxList>, st: PoolState, s: Scoring, h: seq<Seen>, sender: Sender, i: nat)
    requires Scope(lists, st, s) && IsNext(lists, h, sender, i)
    ensures var t := lists[sender].txs[i]; t.body.hash in st.byHash && st.byHash[t.body.hash] == t && !WasSeen(h, t)
    ensures sender in st.lists && st.lists[sender] == lists[sender]
  {
    hide WasSeen, Passed, UniqueIds, Ordered;
    Listed(lists, s, sender, i);
  }

  lemma FirstExists(keys: set<(Score, nat)>)
    requires keys != {}
    ensures exists k :: k in keys && IsFirst(keys, k)
    decreases |keys|
  {
    var a :| a in keys;
    var rest := keys - {a};
    assert forall j :: j in keys <==> j == a || j in rest;
    if rest == {} {
      assert IsFirst(keys, a);
    } else {
      FirstExists(rest);
      var k :| k in rest && IsFirst(rest, k);
      if Before(k, a) {
        assert IsFirst(keys, k);
      } else {
        forall j | j in keys ensures j == a || Before(a, j) {
          assert j == a || j == k || Before(k, j);
          assert (j.0, j.1) == j && (a.0, a.1) == a && (k.0, k.1) == k;
        }
        assert IsFirst(keys, a);
      }
    }
  }

  lemma AskedSnoc(h: seq<Seen>, e: Seen)
    ensures Asked(h + [e]) == Asked(h) + [e.tx.body]
  {}

  lemma GreedySnoc(lists: map<Sender, TxList>, h: seq<Seen>, e: Seen, ready: ReadyFn)
    requires Greedy(lists, h, ready) && GreedyStep(lists, h, e, ready)
    ensures Greedy(lists, h + [e], ready)
  {
    hide GreedyStep;
    var h' := h + [e];
    forall n | 0 <= n < |h'| ensures GreedyStep(lists, h'[..n], h'[n], ready) {
      assert h'[..n] == h[..n];
      if n == |h| { assert h[..n] == h; }
    }
  }

  lemma EmptyExhausted(lists: map<Sender, TxList>, h: seq<Seen>)
    requires FrontierIs(map[], lists, h)
    ensures Exhausted(lists, h)
  {}

  // ---------- The iterator ----------

  /** `PendingIterator`; the pool it borrows does not change while it lives. */
  class PendingIterator {
    const pool: PoolState
    const scoring: Scoring
    const ready: ReadyFn
    /** The readiness check's memory: what it has been asked. */
    var asked: seq<Body>
    var frontier: Frontier
    /** The lists it walks over, and what it has looked at. */
    ghost const lists: map<Sender, TxList>
    ghost var seen: seq<Seen>

    ghost predicate Valid()
      reads this
    {
      && Lawful(scoring) && Scope(lists, pool, scoring)
      && Greedy(lists, seen, ready) && Closed(lists, seen) && FrontierIs(frontier, lists, seen)
      && asked == Asked(seen)
    }

    /** `Pool::pending` */
    constructor Pending(st: PoolState, s: Scoring, r: ReadyFn)
      requires Inv(st, s) && Lawful(s)
      ensures Valid() && pool == st && scoring == s && ready == r && lists == st.lists && seen == []
    {
      hide Lawful, FrontierOk, ListsOk, FrontierIs, Closed, Scope;
      pool, scoring, ready, asked, frontier := st, s, r, [], st.best;
      lists, seen := st.lists, [];
      ScopeOf(st, s, st.lists);
      FirstFrontier(st.best, st.lists, s);
    }

    /** `Pool::pending_from_sender` */
    constructor PendingFromSender(st: PoolState, s: Scoring, r: ReadyFn, sender: Sender)
      requires Inv(st, s) && Lawful(s)
      ensures Valid() && pool == st && scoring == s && ready == r && seen == []
      ensures lists == if sender in st.lists then map[sender := st.lists[sender]] else map[]
    {
      hide Lawful, Inv, FrontierIs, Closed, Scope, FirstEntry;
      OneSender(st, s, sender);
      pool, scoring, ready, asked, frontier := st, s, r, [], FirstEntry(st.lists, sender);
      lists, seen := OneList(st.lists, sender), [];
    }

    /**
     * `next`: looks at transactions until one is ready. Every one it looks at is a greedy choice;
     * when it returns nothing, nothing is left.
     */
    method Next() returns (r: Option<Tx>)
      requires Valid()
      modifies this`asked, this`frontier, this`seen
      ensures Valid() && old(seen) <= seen
      ensures forall n :: |old(seen)| <= n < |seen| - 1 ==> seen[n].state != Ready
      ensures r.Some? ==> |old(seen)| < |seen| && seen[|seen| - 1] == Seen(r.value, Ready)
      ensures r.None? ==> Exhausted(lists, seen)
      ensures r.None? && |old(seen)| < |seen| ==> seen[|seen| - 1].state != Ready
    {
      hide Lawful, Scope, Greedy, GreedyStep, Closed, FrontierIs, Stands, Asked, IsNext, WasSeen, ListsOk, IsFirst, Inv,
        UniqueIds, FindNext, Exhausted;
      while frontier != map[]
        invariant Valid() && old(seen) <= seen
        invariant forall n :: |old(seen)| <= n < |seen| ==> seen[n].state != Ready
        decreases Unseen(pool.byHash, seen)
      {
        FirstExists(frontier.Keys);
        var k :| k in frontier.Keys && IsFirst(frontier.Keys, k);
        var best := frontier[k];
        ghost var i := HeldIndex(frontier, lists, seen, k);
        StandsNext(frontier, lists, seen, k, i);
        NextPooled(lists, pool, scoring, seen, best.body.sender, i);
        var state := ready(asked, best.body);
        ghost var e := Seen(best, state);
        StepIs(pool, scoring, ready, lists, frontier, seen, k, i);
        asked := asked + [best.body];
        frontier := frontier - {k};
        if state != Future && best.body.sender in pool.lists {
          var next := FindNext(pool.lists[best.body.sender], best.body, scoring);
          if next.Some? { frontier := SetInsert(frontier, next.value); }
        }
        UnseenShrinks(pool.byHash, seen, e);
        seen := seen + [e];
        if state == Ready { return Some(best); }
      }
      EmptyExhausted(lists, seen);
      return None;
    }
  }

  /** All that one pass of the loop keeps. */
  lemma StepIs(st: PoolState, s: Scoring, ready: ReadyFn, lists: map<Sender, TxList>, f: Frontier, h: seq<Seen>, k: (Score, nat), i: nat)
    requires Lawful(s) && Scope(lists, st, s) && Greedy(lists, h, ready) && Closed(lists, h) && FrontierIs(f, lists, h)
    requires Stands(f, lists, h, k, i) && IsFirst(f.Keys, k)
    ensures f[k].body.sender in lists && |lists[f[k].body.sender].txs| == |lists[f[k].body.sender].scores|
    ensures var e := Seen(f[k], ready(Asked(h), f[k].body));
      && Greedy(lists, h + [e], ready) && Closed(lists, h + [e]) && Asked(h + [e]) == Asked(h) + [f[k].body]
      && FrontierIs(Advance(f, k, e.state, FindNext(lists[f[k].body.sender], f[k].body, s)), lists, h + [e])
  {
    hide Lawful, Greedy, GreedyStep, Closed, FrontierIs, Asked, ListsOk, IsFirst, UniqueIds, FindNext, Advance;
    StandsNext(f, lists, h, k, i);
    var e := Seen(f[k], ready(Asked(h), f[k].body));
    AdvanceTakes(f, lists, h, k, ready, s);
    GreedySnoc(lists, h, e, ready);
    ClosedSnoc(lists, h, e, i, s);
    AskedSnoc(h, e);
    AdvanceIs(f, lists, h, k, i, e.state, s);
  }

  /** The lists of one sender. */
  function OneList(lists: map<Sender, TxList>, sender: Sender): map<Sender, TxList> {
    if sender in lists then map[sender := lists[sender]] else map[]
  }

  /** The first transaction of a sender, if it has any (`worst_and_best`, of which only the best is kept). */
  function FirstEntry(lists: map<Sender, TxList>, sender: Sender): Frontier
    requires |ListOf(lists, sender).txs| == |ListOf(lists, sender).scores|
  {
    var best := End(ListOf(lists, sender), true);
    if best.Some? then map[KeyOf(best.value) := best.value.1] else map[]
  }

  lemma OneSender(st: PoolState, s: Scoring, sender: Sender)
    requires Inv(st, s)
    ensures |ListOf(st.lists, sender).txs| == |ListOf(st.lists, sender).scores|
    ensures Scope(OneList(st.lists, sender), st, s)
    ensures FrontierIs(FirstEntry(st.lists, sender), OneList(st.lists, sender), []) && Closed(OneList(st.lists, sender), [])
  {
    hide Inv, ListsOk, FrontierOk, FrontierIs, Closed, FirstEntry, Scope;
    var lists := OneList(st.lists, sender);
    ScopeOf(st, s, lists);
    ListsOfInv(st, s);
    OneFrontier(st.best, st.lists, s, sender);
    FirstFrontier(FirstEntry(st.lists, sender), lists, s);
  }

  lemma OneFrontier(f: Frontier, lists: map<Sender, TxList>, s: Scoring, sender: Sender)
    requires ListsOk(lists, s) && FrontierOk(f, lists, true)
    ensures ListsOk(OneList(lists, sender), s)
    ensures |ListOf(lists, sender).txs| == |ListOf(lists, sender).scores|
    ensures FrontierOk(FirstEntry(lists, sender), OneList(lists, sender), true)
  {
    hide FrontierOk, Ordered, End;
    if sender in lists {
      FrontierHas(f, lists, true, s, sender);
      OneOk(lists[sender], sender, End(lists[sender], true).value);
    } else {
      EmptyEnd(true);
      NoneOk();
    }
  }

  lemma OneOk(l: TxList, sender: Sender, best: Scored)
    requires |l.txs| == |l.scores| && End(l, true) == Some(best) && best.1.body.sender == sender
    ensures FrontierOk(map[KeyOf(best) := best.1], map[sender := l], true)
  {}

  lemma NoneOk()
    ensures FrontierOk(map[], map[], true)
  {}
}
