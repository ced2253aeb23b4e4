/** What stays in the pool: evictions take the ends of lists, and no more than needed; culling takes stale fronts. */
module PoolStays {
  import opened Wrappers
  import opened PoolList
  import opened PoolModel
  import opened PoolOps

  // ---------- Evictions ----------

  /** Every sender keeps a front of its list. */
  ghost predicate FrontsStay(lists: map<Sender, TxList>, lists': map<Sender, TxList>) {
    forall sender: Sender :: ListOf(lists', sender).txs <= ListOf(lists, sender).txs
  }

  lemma FrontsThrough(a: map<Sender, TxList>, b: map<Sender, TxList>, c: map<Sender, TxList>)
    requires FrontsStay(a, b) && FrontsStay(b, c)
    ensures FrontsStay(a, c)
  {
    hide ListOf;
    forall sender: Sender ensures ListOf(c, sender).txs <= ListOf(a, sender).txs {
      assert ListOf(b, sender).txs <= ListOf(a, sender).txs && ListOf(c, sender).txs <= ListOf(b, sender).txs;
    }
  }

  lemma CommitFront(st: PoolState, sender: Sender, l: TxList)
    requires |l.txs| == |l.scores| && l.txs <= ListOf(st.lists, sender).txs
    requires |ListOf(st.lists, sender).txs| == |ListOf(st.lists, sender).scores|
    ensures FrontsStay(st.lists, Commit(st, sender, l).lists)
  {
    hide UpdateEnd, End;
  }

  /** The worst transaction is the last one of its list, so the rest of the list stays in front of it. */
  lemma WorstIsLast(st: PoolState, t: Tx, s: Scoring)
    requires Inv(st, s) && Lawful(s) && Pooled(st.lists, t) && exists score :: IsWorst(st.lists, t, score)
    ensures |ListOf(st.lists, t.body.sender).txs| == |ListOf(st.lists, t.body.sender).scores|
    ensures FrontsStay(st.lists, Drop(st, t, s).lists)
  {
    hide Inv, Lawful, Ordered, Commit, Remove, FrontsStay, EndsBy;
    var score :| IsWorst(st.lists, t, score);
    ListedAs(st, t, s);
    var l := ListOf(st.lists, t.body.sender);
    DropParts(st, t, s);
    RemoveLast(l, t.body.sender, s);
    Lengths(Remove(l, t.body, s).0, t.body.sender, s);
    CommitFront(st, t.body.sender, Remove(l, t.body, s).0);
  }

  lemma ListedAs(st: PoolState, t: Tx, s: Scoring)
    requires Inv(st, s) && Pooled(st.lists, t)
    ensures st.lists[t.body.sender] == ListOf(st.lists, t.body.sender) && st.lists[t.body.sender].txs != []
    ensures Ordered(st.lists[t.body.sender], t.body.sender, s)
  {
    hide FrontierOk, MemSum, Indexed, IdsOk;
  }

  /** Making room takes transactions off the ends of lists. */
  lemma {:induction false} MakeRoomFronts(st: PoolState, new_: Tx, s: Scoring, replace: Replace, opts: Options, limit: Limit)
    requires Inv(st, s) && Lawful(s)
    ensures FrontsStay(st.lists, MakeRoom(st, new_, s, replace, opts, limit).0.lists)
    decreases |st.byHash|
  {
    hide Inv, Lawful, Drop, Pooled, FrontsStay, IsWorst;
    SameFronts(st.lists);
    if OverLimit(st, new_, opts, limit) && JudgeWorst(st, new_, replace).Evict? {
      var t := JudgeWorst(st, new_, replace).tx;
      EvictsPooled(st, new_, replace, s);
      DropInv(st, t, s);
      WorstIsLast(st, t, s);
      MakeRoomFronts(Drop(st, t, s), new_, s, replace, opts, limit);
      FrontsThrough(st.lists, Drop(st, t, s).lists, MakeRoom(Drop(st, t, s), new_, s, replace, opts, limit).0.lists);
    }
  }

  lemma SameFronts(lists: map<Sender, TxList>)
    ensures FrontsStay(lists, lists)
  {}

  /** It stops as soon as there is room: had it evicted one less, the limit would still be exceeded. */
  lemma {:induction false} NoMoreThanNeeded(st: PoolState, new_: Tx, s: Scoring, replace: Replace, opts: Options, limit: Limit)
    requires Inv(st, s) && Lawful(s)
    ensures var st' := MakeRoom(st, new_, s, replace, opts, limit).0;
      && (!OverLimit(st, new_, opts, limit) ==> st' == st)
      && (st' != st && limit.Count? ==> |st'.byHash| + 1 >= opts.maxCount)
      && (st' != st && limit.Memory? ==> exists t: Tx :: LastEvicted(st, st', t, new_, opts))
    decreases |st.byHash|
  {
    hide Inv, Lawful, Drop, Pooled, IsWorst;
    if OverLimit(st, new_, opts, limit) && JudgeWorst(st, new_, replace).Evict? {
      var t := JudgeWorst(st, new_, replace).tx;
      EvictsPooled(st, new_, replace, s);
      DropInv(st, t, s);
      PooledIndexed(st, t, s);
      var dropped := Drop(st, t, s);
      NoMoreThanNeeded(dropped, new_, s, replace, opts, limit);
      MakeRoomKeeps(dropped, new_, s, replace, opts, limit);
      var st' := MakeRoom(dropped, new_, s, replace, opts, limit).0;
      if limit.Memory? {
        if st' == dropped {
          assert LastEvicted(st, st', t, new_, opts);
        } else {
          var u: Tx :| LastEvicted(dropped, st', u, new_, opts);
          assert LastEvicted(st, st', u, new_, opts);
        }
      }
    }
  }

  /** Transaction t has left the pool, and with it back the memory limit would still be exceeded. */
  ghost predicate LastEvicted(st: PoolState, st': PoolState, t: Tx, new_: Tx, opts: Options) {
    && t.body.hash in st.byHash && st.byHash[t.body.hash] == t && t.body.hash !in st'.byHash
    && st'.mem + t.body.mem + new_.body.mem > opts.maxMem
  }

  lemma PooledIndexed(st: PoolState, t: Tx, s: Scoring)
    requires Inv(st, s) && Pooled(st.lists, t)
    ensures t.body.hash in st.byHash && st.byHash[t.body.hash] == t
  {
    hide FrontierOk, ListsOk, MemSum, Pooled;
  }

  // ---------- Culling ----------

  /** The first n of a sender's list are gone, and nothing else of it. */
  ghost predicate LosesFront(lists: map<Sender, TxList>, lists': map<Sender, TxList>, sender: Sender, n: nat) {
    n <= |ListOf(lists, sender).txs| && ListOf(lists', sender).txs == ListOf(lists, sender).txs[n..]
  }

  /** The sender has lost exactly its stale front, and no other list has changed. */
  ghost predicate StalledAs(st: PoolState, st': PoolState, n: nat, after: seq<Body>, sender: Sender, ready: ReadyFn, asked: seq<Body>) {
    && (n, after) == (if sender in st.lists then StalePrefix(st.lists[sender].txs, ready, asked) else (0, asked))
    && LosesFront(st.lists, st'.lists, sender, n)
    && (forall other: Sender :: other != sender ==> ListOf(st'.lists, other) == ListOf(st.lists, other))
    && |st'.byHash| == |st.byHash| - n
  }

  lemma StalledLeaves(st: PoolState, sender: Sender, ready: ReadyFn, asked: seq<Body>, s: Scoring)
    requires Inv(st, s) && Lawful(s)
    ensures var (st', n, after) := RemoveStalled(st, sender, ready, asked, s); StalledAs(st, st', n, after, sender, ready, asked)
  {
    hide Inv, Lawful, Leaves, FinalizeRemoveAll, MemSum, StalePrefix, Cull, Commit, Pooled;
    if sender in st.lists {
      CullLeaves(st, sender, ready, asked, s);
      var (l, removed, _) := Cull(st.lists[sender], ready, asked, s);
      IndexOfInv(st, s);
      CommitRest(st, sender, l);
      FinalizeRemoveAllIs(Commit(st, sender, l), removed);
      CulledTaken(st, sender, ready, asked, s);
      CullCuts(st.lists[sender], ready, asked, s);
      SetLists(st.lists, sender, l);
    }
  }

  lemma CullCuts(l: TxList, ready: ReadyFn, asked: seq<Body>, s: Scoring)
    requires |l.txs| == |l.scores|
    ensures var (l', removed, after) := Cull(l, ready, asked, s);
      var (n, after') := StalePrefix(l.txs, ready, asked);
      l'.txs == l.txs[n..] && |removed| == n && after == after'
  {
    hide StalePrefix, Reverse;
  }

  lemma SetLists(lists: map<Sender, TxList>, sender: Sender, l: TxList)
    ensures ListOf(SetList(lists, sender, l), sender).txs == l.txs
    ensures forall other: Sender :: other != sender ==> ListOf(SetList(lists, sender, l), other) == ListOf(lists, other)
  {}

  lemma CulledTaken(st: PoolState, sender: Sender, ready: ReadyFn, asked: seq<Body>, s: Scoring)
    requires Inv(st, s) && Lawful(s) && sender in st.lists
    ensures |st.lists[sender].txs| == |st.lists[sender].scores| && |ListOf(st.lists, sender).txs| == |ListOf(st.lists, sender).scores|
    ensures var (l, removed, _) := Cull(st.lists[sender], ready, asked, s);
      && |l.txs| == |l.scores| && |TakeOut(st, sender, l, removed).byHash| == |st.byHash| - |removed|
  {
    hide Inv, Lawful, Leaves, FinalizeRemoveAll, Cull, Commit, Ordered;
    CullLeaves(st, sender, ready, asked, s);
    var (l, removed, _) := Cull(st.lists[sender], ready, asked, s);
    CommitRest(st, sender, l);
    CulledApart(st, sender, ready, asked, s);
    RemovedCount(Commit(st, sender, l), removed);
  }

  /** Indexed transactions with hashes of their own. */
  ghost predicate EachIndexed(byHash: map<Hash, Tx>, removed: seq<Tx>) {
    && (forall k :: 0 <= k < |removed| ==> removed[k].body.hash in byHash)
    && (forall j, k :: 0 <= j < k < |removed| ==> removed[j].body.hash != removed[k].body.hash)
  }

  lemma {:induction false} RemovedCount(st: PoolState, removed: seq<Tx>)
    requires EachIndexed(st.byHash, removed)
    ensures |FinalizeRemoveAll(st, removed).byHash| == |st.byHash| - |removed|
    decreases |removed|
  {
    if removed != [] {
      var h := removed[0].body.hash;
      assert (st.byHash - {h}).Keys == st.byHash.Keys - {h};
      RemovedCount(FinalizeRemove(st, h), removed[1..]);
    }
  }

  lemma CulledApart(st: PoolState, sender: Sender, ready: ReadyFn, asked: seq<Body>, s: Scoring)
    requires Inv(st, s) && Lawful(s) && sender in st.lists && |st.lists[sender].txs| == |st.lists[sender].scores|
    ensures EachIndexed(st.byHash, Cull(st.lists[sender], ready, asked, s).1)
  {
    hide FrontierOk, MemSum, StalePrefix, Reverse, Lawful, Pooled;
    var txs := st.lists[sender].txs;
    var (n, _) := StalePrefix(txs, ready, asked);
    forall k: nat | k < |txs| ensures txs[k].body.hash in st.byHash && st.byHash[txs[k].body.hash] == txs[k] {
      ListedPooled(st.lists, sender, k, s);
    }
    forall j: nat, k: nat | j < k < |txs| ensures txs[j].body.hash != txs[k].body.hash {
      NoDuplicates(st.lists[sender], sender, s, j, k);
    }
  }

  lemma ListedPooled(lists: map<Sender, TxList>, sender: Sender, k: nat, s: Scoring)
    requires ListsOk(lists, s) && sender in lists && k < |lists[sender].txs|
    ensures Pooled(lists, lists[sender].txs[k])
  {}

  /** The i-th question of the log was about b, asked with all before it as history; was the answer Stale? */
  ghost predicate AnsweredAt(ready: ReadyFn, asked: seq<Body>, log: seq<Body>, i: nat, b: Body, stale: bool) {
    i < |log| && log[i] == b && (ready(asked + log[..i], b) == Stale) == stale
  }

  ghost predicate LookedAt(ready: ReadyFn, asked: seq<Body>, log: seq<Body>, b: Body, stale: bool) {
    exists i: nat :: AnsweredAt(ready, asked, log, i, b, stale)
  }

  /**
   * A list has lost its first n transactions: all of them were found stale, the next one, if any,
   * was not, and a list that was not culled lost none.
   */
  ghost predicate CulledBy(txs: seq<Tx>, txs': seq<Tx>, culled: bool, ready: ReadyFn, asked: seq<Body>, log: seq<Body>) {
    var n := |txs| - |txs'|;
    && 0 <= n && txs' == txs[n..]
    && (forall k :: 0 <= k < n ==> LookedAt(ready, asked, log, txs[k].body, true))
    && (culled && n < |txs| ==> LookedAt(ready, asked, log, txs[n].body, false))
    && (!culled ==> n == 0)
  }

  /** What has become of each sender's list. */
  ghost predicate CulledFronts(lists: map<Sender, TxList>, lists': map<Sender, TxList>, senders: seq<Sender>,
                               ready: ReadyFn, asked: seq<Body>, log: seq<Body>) {
    forall sender: Sender ::
      CulledBy(ListOf(lists, sender).txs, ListOf(lists', sender).txs, sender in senders, ready, asked, log)
  }

  /** The senders are asked about in turn, each until an answer is not Stale. */
  ghost predicate InTurn(ready: ReadyFn, asked: seq<Body>, log: seq<Body>, turns: seq<nat>, senders: seq<Sender>) {
    && |turns| == |log|
    && (forall i :: 0 <= i < |log| ==> turns[i] < |senders| && log[i].sender == senders[turns[i]])
    && (forall i, j :: 0 <= i < j < |log| ==> turns[i] <= turns[j])
    && (forall i, j :: 0 <= i < j < |log| && turns[i] == turns[j] ==> ready(asked + log[..i], log[i]) == Stale)
  }

  /** One sender is asked about until an answer is not Stale. */
  ghost predicate OneTurn(ready: ReadyFn, asked: seq<Body>, log: seq<Body>, sender: Sender) {
    && (forall i :: 0 <= i < |log| ==> log[i].sender == sender)
    && (forall i :: 0 <= i < |log| - 1 ==> ready(asked + log[..i], log[i]) == Stale)
  }

  lemma FrontLog(txs: seq<Tx>, ready: ReadyFn, asked: seq<Body>, sender: Sender) returns (log: seq<Body>)
    requires forall t :: t in txs ==> t.body.sender == sender
    ensures var (n, after) := StalePrefix(txs, ready, asked);
      && after == asked + log && CulledBy(txs, txs[n..], true, ready, asked, log)
      && OneTurn(ready, asked, log, sender)
  {
    hide StalePrefix, LookedAt;
    StalePrefixIs(txs, ready, asked);
    var n := StalePrefix(txs, ready, asked).0;
    var m := if n < |txs| then n + 1 else n;
    log := Bodies(txs[..m]);
    forall k: nat | k < m ensures log[k] == txs[k].body && log[..k] == Bodies(txs[..k]) {}
    forall k: nat | k < n ensures LookedAt(ready, asked, log, txs[k].body, true) {
      IsLookedAt(ready, asked, log, k, txs[k].body, true);
    }
    if n < |txs| { IsLookedAt(ready, asked, log, n, txs[n].body, false); }
  }

  lemma IsLookedAt(ready: ReadyFn, asked: seq<Body>, log: seq<Body>, i: nat, b: Body, stale: bool)
    requires AnsweredAt(ready, asked, log, i, b, stale)
    ensures LookedAt(ready, asked, log, b, stale)
  {}

  /** What one sender's turn adds to the log. */
  lemma StalledLog(st: PoolState, sender: Sender, ready: ReadyFn, asked: seq<Body>, s: Scoring) returns (log: seq<Body>)
    requires Inv(st, s) && Lawful(s)
    ensures var (st', _, after) := RemoveStalled(st, sender, ready, asked, s);
      after == asked + log && CulledFronts(st.lists, st'.lists, [sender], ready, asked, log)
    ensures OneTurn(ready, asked, log, sender)
  {
    hide *;
    StalledLeaves(st, sender, ready, asked, s);
    OwnList(st, sender, s);
    var (st', n, after) := RemoveStalled(st, sender, ready, asked, s);
    log := TurnLog(st, st', n, after, sender, ready, asked);
  }

  lemma TurnLog(st: PoolState, st': PoolState, n: nat, after: seq<Body>, sender: Sender, ready: ReadyFn, asked: seq<Body>) returns (log: seq<Body>)
    requires StalledAs(st, st', n, after, sender, ready, asked)
    requires forall t :: t in ListOf(st.lists, sender).txs ==> t.body.sender == sender
    ensures after == asked + log && CulledFronts(st.lists, st'.lists, [sender], ready, asked, log)
    ensures OneTurn(ready, asked, log, sender)
  {
    hide StalePrefix, LookedAt;
    if sender in st.lists {
      log := FrontLog(st.lists[sender].txs, ready, asked, sender);
    } else {
      log := [];
    }
  }

  lemma OwnList(st: PoolState, sender: Sender, s: Scoring)
    requires Inv(st, s)
    ensures forall t :: t in ListOf(st.lists, sender).txs ==> t.body.sender == sender
  {
    hide FrontierOk, MemSum, Indexed, IdsOk;
  }

  /** What was looked at early or late was looked at. */
  lemma LookedEither(ready: ReadyFn, asked: seq<Body>, log: seq<Body>, more: seq<Body>, b: Body, stale: bool)
    ensures LookedAt(ready, asked, log, b, stale) || LookedAt(ready, asked + log, more, b, stale) ==>
              LookedAt(ready, asked, log + more, b, stale)
  {
    if i: nat :| AnsweredAt(ready, asked, log, i, b, stale) {
      assert (log + more)[..i] == log[..i];
      assert AnsweredAt(ready, asked, log + more, i, b, stale);
    }
    if i: nat :| AnsweredAt(ready, asked + log, more, i, b, stale) {
      HistoryOf(asked, log, more, i);
      assert AnsweredAt(ready, asked, log + more, |log| + i, b, stale);
    }
  }

  lemma HistoryOf(asked: seq<Body>, log: seq<Body>, more: seq<Body>, i: nat)
    requires i <= |more|
    ensures asked + (log + more)[..|log| + i] == asked + log + more[..i]
  {
    assert (log + more)[..|log| + i] == log + more[..i];
  }

  /** Losing one front and then another is losing a longer one. */
  lemma CulledTwice(a: seq<Tx>, b: seq<Tx>, c: seq<Tx>, x: bool, y: bool, ready: ReadyFn, asked: seq<Body>, log: seq<Body>, more: seq<Body>)
    requires CulledBy(a, b, x, ready, asked, log) && CulledBy(b, c, y, ready, asked + log, more)
    ensures CulledBy(a, c, x || y, ready, asked, log + more)
  {
    hide LookedAt;
    var (m, n) := (|a| - |b|, |b| - |c|);
    assert a[m..][n..] == a[m + n..];
    forall k | 0 <= k < m + n ensures LookedAt(ready, asked, log + more, a[k].body, true) {
      if k >= m { assert b[k - m] == a[k]; }
      LookedEither(ready, asked, log, more, a[k].body, true);
    }
    if m + n < |a| {
      assert b[n] == a[m + n];
      LookedEither(ready, asked, log, more, a[m + n].body, false);
    }
  }

  /** One turn more in front. */
  lemma TurnBefore(ready: ReadyFn, asked: seq<Body>, log: seq<Body>, more: seq<Body>, turns: seq<nat>, senders: seq<Sender>)
    returns (turns': seq<nat>)
    requires senders != [] && InTurn(ready, asked + log, more, turns, senders[1..])
    requires OneTurn(ready, asked, log, senders[0])
    ensures InTurn(ready, asked, log + more, turns', senders)
  {
    var m := |log|;
    turns' := seq(m + |more|, i requires 0 <= i < m + |more| => if i < m then 0 else turns[i - m] + 1);
    forall i, j | 0 <= i < j < m + |more| && turns'[i] == turns'[j]
      ensures ready(asked + (log + more)[..i], (log + more)[i]) == Stale
    {
      if i < m {
        assert (log + more)[..i] == log[..i];
      } else {
        HistoryOf(asked, log, more, i - m);
      }
    }
  }

  /**
   * Exactly the stale fronts of the given senders leave, and the number handed back counts what has
   * left. One log, in the order of the senders, has all that the readiness check was asked, each time
   * with all before it as history.
   */
  lemma {:induction false} CullLeavesFronts(st: PoolState, senders: seq<Sender>, ready: ReadyFn, asked: seq<Body>, s: Scoring)
    returns (log: seq<Body>, turns: seq<nat>)
    requires Inv(st, s) && Lawful(s)
    ensures var (st', removed) := CullSenders(st, senders, ready, asked, s);
      CulledFronts(st.lists, st'.lists, senders, ready, asked, log) && |st'.byHash| == |st.byHash| - removed
    ensures InTurn(ready, asked, log, turns, senders)
    decreases |senders|
  {
    hide Inv, Lawful, RemoveStalled, CulledBy, ListOf, InTurn;
    if senders == [] {
      log, turns := [], [];
      NothingCulled(st.lists, ready, asked);
    } else {
      RemoveStalledInv(st, senders[0], ready, asked, s);
      StalledLeaves(st, senders[0], ready, asked, s);
      var (st1, _, after) := RemoveStalled(st, senders[0], ready, asked, s);
      var first := StalledLog(st, senders[0], ready, asked, s);
      var more, later := CullLeavesFronts(st1, senders[1..], ready, after, s);
      log := first + more;
      turns := TurnBefore(ready, asked, first, more, later, senders);
      BothCulled(st.lists, st1.lists, CullSenders(st1, senders[1..], ready, after, s).0.lists, senders, ready, asked, first, more);
    }
  }

  lemma BothCulled(a: map<Sender, TxList>, b: map<Sender, TxList>, c: map<Sender, TxList>, senders: seq<Sender>,
                   ready: ReadyFn, asked: seq<Body>, log: seq<Body>, more: seq<Body>)
    requires senders != []
    requires CulledFronts(a, b, [senders[0]], ready, asked, log) && CulledFronts(b, c, senders[1..], ready, asked + log, more)
    ensures CulledFronts(a, c, senders, ready, asked, log + more)
  {
    hide CulledBy, ListOf;
    assert senders == [senders[0]] + senders[1..];
    forall sender: Sender
      ensures CulledBy(ListOf(a, sender).txs, ListOf(c, sender).txs, sender in senders, ready, asked, log + more)
    {
      CulledTwice(ListOf(a, sender).txs, ListOf(b, sender).txs, ListOf(c, sender).txs,
                  sender in [senders[0]], sender in senders[1..], ready, asked, log, more);
    }
  }

  lemma NothingCulled(lists: map<Sender, TxList>, ready: ReadyFn, asked: seq<Body>)
    ensures CulledFronts(lists, lists, [], ready, asked, []) && InTurn(ready, asked, [], [], [])
  {}
}
