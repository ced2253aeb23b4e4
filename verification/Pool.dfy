/** The transaction pool: the fields of `Pool`, changed in place by its operations. */
module PoolImpl {
  import opened Wrappers
  import opened PoolList
  import opened PoolModel
  import opened PoolOps
  import opened PoolTransactions
  import opened PoolDecides

  class Pool {
    const scoring: Scoring
    const options: Options
    var memUsage: int
    var transactions: map<Sender, TxList>
    var byHash: map<Hash, Tx>
    var bestTransactions: Frontier
    var worstTransactions: Frontier
    var insertionId: nat

    /** The pool as a value. */
    function View(): PoolState
      reads this
    { PoolState(transactions, byHash, bestTransactions, worstTransactions, memUsage, insertionId) }

    ghost predicate Valid()
      reads this
    { Lawful(scoring) && options.maxPerSender > 0 && Inv(View(), scoring) }

    constructor (scoring: Scoring, options: Options)
      requires Lawful(scoring) && options.maxPerSender > 0
      ensures Valid() && View() == NEW_POOL && this.scoring == scoring && this.options == options
    {
      this.scoring, this.options := scoring, options;
      memUsage, insertionId := 0, 0;
      transactions, byHash := map[], map[];
      bestTransactions, worstTransactions := map[], map[];
      new;
      NewPoolInv(scoring);
    }

    // ---------- The parts that all operations share ----------

    method FinalizeRemove(hash: Hash) returns (r: Option<Tx>)
      modifies this`byHash, this`memUsage
      ensures View() == PoolModel.FinalizeRemove(old(View()), hash)
      ensures r == if hash in old(byHash) then Some(old(byHash)[hash]) else None
    {
      if hash !in byHash { return None; }
      var removed := byHash[hash];
      byHash := byHash - {hash};
      memUsage := memUsage - removed.body.mem;
      return Some(removed);
    }

    method FinalizeInsert(new_: Tx, displaced: Option<Tx>)
      modifies this`byHash, this`memUsage
      ensures View() == PoolModel.FinalizeInsert(old(View()), new_, displaced)
    {
      memUsage := memUsage + new_.body.mem;
      byHash := byHash[new_.body.hash := new_];
      if displaced.Some? { var _ := FinalizeRemove(displaced.value.body.hash); }
    }

    /** What `worst_and_best` gives of a list. */
    ghost predicate EndsOf(l: TxList, ends: Option<(Scored, Scored)>) {
      && |l.txs| == |l.scores|
      && (ends.Some? <==> l.txs != [])
      && (ends.Some? ==> End(l, false) == Some(ends.value.0) && End(l, true) == Some(ends.value.1))
    }

    /** The sender's list has just been changed from l to l'; both ordered sets and the map follow. */
    method UpdateSendersWorstAndBest(
        previous: Option<(Scored, Scored)>, current: Option<(Scored, Scored)>,
        ghost sender: Sender, ghost l: TxList, ghost l': TxList)
      requires EndsOf(l, previous) && EndsOf(l', current)
      requires previous.Some? ==> previous.value.0.1.body.sender == sender
      requires previous.Some? || current.Some?
      modifies this`transactions, this`bestTransactions, this`worstTransactions
      ensures transactions == if l'.txs == [] then old(transactions) - {sender} else old(transactions)
      ensures bestTransactions == UpdateEnd(old(bestTransactions), End(l, true), End(l', true))
      ensures worstTransactions == UpdateEnd(old(worstTransactions), End(l, false), End(l', false))
    {
      match (previous, current)
      case (None, Some(c)) =>
        worstTransactions := SetInsert(worstTransactions, c.0);
        bestTransactions := SetInsert(bestTransactions, c.1);
      case (Some(p), None) =>
        transactions := transactions - {p.0.1.body.sender};
        worstTransactions := SetRemove(worstTransactions, p.0);
        bestTransactions := SetRemove(bestTransactions, p.1);
      case (Some(p), Some(c)) =>
        if !IsSame(p.0, c.0) {
          worstTransactions := SetRemove(worstTransactions, p.0);
          worstTransactions := SetInsert(worstTransactions, c.0);
        }
        if !IsSame(p.1, c.1) {
          bestTransactions := SetRemove(bestTransactions, p.1);
          bestTransactions := SetInsert(bestTransactions, c.1);
        }
      case (None, None) =>
    }

    /** The end of `remove_from_set`, `import` and `update_scores`: a changed list is put back. */
    method PutBack(sender: Sender, set_: Transactions, previous: Option<(Scored, Scored)>)
      requires EndsOf(ListOf(transactions, sender), previous)
      requires |set_.View().txs| == |set_.View().scores| && (previous.Some? || set_.View().txs != [])
      requires previous.Some? ==> previous.value.0.1.body.sender == sender
      modifies this`transactions, this`bestTransactions, this`worstTransactions
      ensures View() == Commit(old(View()), sender, set_.View())
    {
      ghost var l := ListOf(transactions, sender);
      var current := set_.WorstAndBest();
      transactions := transactions[sender := set_.View()];
      UpdateSendersWorstAndBest(previous, current, sender, l, set_.View());
      assert transactions == SetList(old(transactions), sender, set_.View());
    }

    /** A sender's list as the pool keeps it. */
    ghost predicate Keeps(sender: Sender)
      reads this
    {
      && Lawful(scoring) && sender in transactions && transactions[sender].txs != []
      && Ordered(transactions[sender], sender, scoring)
    }

    /** `remove_from_set` with `Transactions::remove`. */
    method RemoveFromSet(tx: Tx)
      requires Keeps(tx.body.sender)
      modifies this`transactions, this`bestTransactions, this`worstTransactions
      ensures |ListOf(old(transactions), tx.body.sender).txs| == |ListOf(old(transactions), tx.body.sender).scores|
      ensures var l := PoolList.Remove(ListOf(old(transactions), tx.body.sender), tx.body, scoring).0;
        |l.txs| == |l.scores| && View() == Commit(old(View()), tx.body.sender, l)
    {
      hide Lawful, Commit, PoolList.Remove, Ordered;
      var sender := tx.body.sender;
      var l := transactions[sender];
      Lengths(l, sender, scoring);
      EndListed(l, sender, scoring, false);
      RemoveSizes(l, tx.body, scoring);
      var set_ := new Transactions.Of(l);
      var previous := set_.WorstAndBest();
      var _ := set_.Remove(tx.body, scoring, sender);
      PutBack(sender, set_, previous);
    }

    /** `remove_from_set` with `Transactions::cull`. */
    method CullFromSet(sender: Sender, ready: ReadyFn, asked: seq<Body>) returns (removed: seq<Tx>, after: seq<Body>)
      requires Keeps(sender)
      modifies this`transactions, this`bestTransactions, this`worstTransactions
      ensures |ListOf(old(transactions), sender).txs| == |ListOf(old(transactions), sender).scores|
      ensures var (l, q, a) := PoolList.Cull(ListOf(old(transactions), sender), ready, asked, scoring);
        |l.txs| == |l.scores| && View() == Commit(old(View()), sender, l) && removed == q && after == a
    {
      hide Lawful, Commit, PoolList.Cull, Ordered;
      var l := transactions[sender];
      Lengths(l, sender, scoring);
      EndListed(l, sender, scoring, false);
      CullSizes(l, ready, asked, scoring);
      var set_ := new Transactions.Of(l);
      var previous := set_.WorstAndBest();
      removed, after := set_.Cull(ready, asked, scoring);
      PutBack(sender, set_, previous);
    }

    // ---------- Making room ----------

    /** `remove_worst` and what `import` does with its result. */
    method RemoveWorst(new_: Tx, replace: Replace) returns (r: Result<bool, Error>)
      requires Valid()
      modifies this
      ensures Valid()
      ensures match JudgeWorst(old(View()), new_, replace)
              case Failed(e) => View() == old(View()) && r == Err(e)
              case Undecided => View() == old(View()) && r == Ok(false)
              case Evict(t) =>
                && Pooled(old(transactions), t)
                && |ListOf(old(transactions), t.body.sender).txs| == |ListOf(old(transactions), t.body.sender).scores|
                && View() == Drop(old(View()), t, scoring) && r == Ok(true)
                && |byHash| < |old(byHash)|
    {
      hide Inv, Lawful, Commit, PoolList.Remove, IsLast, Ordered;
      if worstTransactions == map[] { return Err(TooCheapEnter(new_.body.hash)); }
      LastExists(worstTransactions.Keys);
      var k :| k in worstTransactions.Keys && IsLast(worstTransactions.Keys, k);
      LastUnique(worstTransactions.Keys, k, LastKey(worstTransactions.Keys));
      var worst := worstTransactions[k];
      var pooledBySender := PooledBySender(View(), new_.body.sender);
      match replace(ReplaceTransaction(worst, pooledBySender), ReplaceTransaction(new_, pooledBySender))
      case InsertNew => return Ok(false);
      case RejectNew => return Err(TooCheapEnter(new_.body.hash));
      case ReplaceOld =>
        EvictsPooled(View(), new_, replace, scoring);
        DropInv(View(), worst, scoring);
        PooledKept(View(), worst, scoring);
        RemoveFromSet(worst);
        var _ := FinalizeRemove(worst.body.hash);
        return Ok(true);
    }

    /** One of the two eviction loops. */
    method MakeRoom(new_: Tx, replace: Replace, limit: Limit) returns (e: Option<Error>)
      requires Valid()
      modifies this
      ensures Valid() && (View(), e) == PoolOps.MakeRoom(old(View()), new_, scoring, replace, options, limit)
    {
      hide Inv, Lawful, Drop, JudgeWorst, Pooled;
      while OverLimit(View(), new_, options, limit)
        invariant Valid()
        invariant PoolOps.MakeRoom(View(), new_, scoring, replace, options, limit) ==
                  PoolOps.MakeRoom(old(View()), new_, scoring, replace, options, limit)
        decreases |byHash|
      {
        var r := RemoveWorst(new_, replace);
        if r.Err? { return Some(r.error); }
        if !r.value { return None; }
      }
      return None;
    }

    // ---------- Operations ----------

    /** `import` */
    method Import(body: Body, replace: Replace) returns (r: Result<Tx, Error>)
      requires Valid()
      modifies this
      ensures Valid() && (View(), r) == PoolOps.Import(old(View()), body, scoring, replace, options)
    {
      hide Inv, Lawful, PoolOps.MakeRoom, Commit, Add, PoolModel.FinalizeInsert, Fresh, EnteredAs, Ordered, EntersList;
      ImportInv(View(), body, scoring, replace, options);
      if body.hash in byHash { return Err(AlreadyImported(body.hash)); }
      NextId(View(), scoring);
      insertionId := insertionId + 1;
      var new_ := Tx(insertionId, body);
      ghost var st1 := View();
      MakeAllRoomKeeps(st1, new_, scoring, replace, options);
      var e := MakeRoom(new_, replace, Count);
      if e.Some? { return Err(e.value); }
      e := MakeRoom(new_, replace, Memory);
      if e.Some? { return Err(e.value); }
      ghost var st2 := View();
      StillFresh(old(View()), st2, new_, scoring);
      EnterInv(st2, new_, scoring, options);
      r := Enter(new_);
    }

    /** The second half of `import`: the transaction enters its sender's list. */
    method Enter(new_: Tx) returns (r: Result<Tx, Error>)
      requires Valid() && Fresh(View(), new_)
      modifies this
      ensures |ListOf(old(transactions), new_.body.sender).txs| == |ListOf(old(transactions), new_.body.sender).scores|
      ensures var l := Add(ListOf(old(transactions), new_.body.sender), new_, scoring, options.maxPerSender).0; |l.txs| == |l.scores|
      ensures (View(), r) == PoolOps.Enter(old(View()), new_, scoring, options)
    {
      hide Inv, Lawful, Commit, Add, PoolModel.FinalizeInsert, Fresh, Ordered, EntersList;
      var sender := new_.body.sender;
      AddEnters(View(), new_, scoring, options);
      FreshUnlisted(View(), new_, scoring);
      AddNonEmpty(ListOf(transactions, sender), new_, scoring, options.maxPerSender);
      ListedEnds(View(), sender, scoring);
      var set_ := new Transactions.Of(ListOf(transactions, sender));
      var previous := set_.WorstAndBest();
      var result := set_.Add(new_, scoring, options.maxPerSender, sender);
      PutBack(sender, set_, previous);
      match result
      case Added(t) =>
        FinalizeInsert(t, None);
        r := Ok(t);
      case Replaced(displaced, t) =>
        FinalizeInsert(t, Some(displaced));
        r := Ok(t);
      case PushedOut(displaced, t) =>
        FinalizeInsert(t, Some(displaced));
        r := Ok(t);
      case TooCheap(existing, t) => r := Err(TooCheapToReplace(existing.body.hash, t.body.hash));
      case TooCheapToEnter(t, _) => r := Err(TooCheapEnter(t.body.hash));
    }

    /** `remove`: out of the index first, then out of the sender's list. */
    method Remove(hash: Hash) returns (r: Option<Tx>)
      requires Valid()
      modifies this
      ensures Valid()
      ensures hash in old(byHash) ==>
                var sender := old(byHash)[hash].body.sender;
                |ListOf(old(transactions), sender).txs| == |ListOf(old(transactions), sender).scores|
      ensures (View(), r) == RemoveByHash(old(View()), hash, scoring)
    {
      hide Inv, Lawful, Commit, PoolList.Remove, Pooled, Ordered, PoolModel.FinalizeRemove;
      RemoveInv(View(), hash, scoring);
      r := FinalizeRemove(hash);
      if r.Some? {
        IndexedPooled(old(View()), hash, scoring);
        PooledKept(old(View()), r.value, scoring);
        RemoveFromSet(r.value);
        RemoveSizes(ListOf(old(transactions), r.value.body.sender), r.value.body, scoring);
        var l := PoolList.Remove(ListOf(old(transactions), r.value.body.sender), r.value.body, scoring).0;
        CommitFinalize(old(View()), r.value.body.sender, l, hash);
      } else {
        NotIndexed(old(View()), hash);
      }
    }

    /** `remove_stalled` */
    method RemoveStalled(sender: Sender, ready: ReadyFn, asked: seq<Body>) returns (n: nat, after: seq<Body>)
      requires Valid()
      modifies this
      ensures Valid() && (View(), n, after) == PoolOps.RemoveStalled(old(View()), sender, ready, asked, scoring)
    {
      hide Inv, Lawful, Commit, PoolList.Cull, Ordered, PoolModel.FinalizeRemove, Leaves, FinalizeRemoveAll;
      RemoveStalledInv(View(), sender, ready, asked, scoring);
      if sender !in transactions { return 0, asked; }
      CullLeaves(View(), sender, ready, asked, scoring);
      ListedEnds(View(), sender, scoring);
      var removed;
      removed, after := CullFromSet(sender, ready, asked);
      ghost var mid := View();
      n := |removed|;
      AllRemoved(mid, removed);
      for i := 0 to n
        invariant FinalizeRemoveAll(View(), removed[i..]) == FinalizeRemoveAll(mid, removed)
      {
        RemoveOne(View(), removed[i..]);
        assert removed[i..][1..] == removed[i + 1..];
        var _ := FinalizeRemove(removed[i].body.hash);
      }
      NoneLeft(View());
      assert removed[n..] == [];
    }

    /** `cull`: the given senders in their order, or all of them in any order. */
    method Cull(senders: Option<seq<Sender>>, ready: ReadyFn) returns (removed: nat, ghost order: seq<Sender>)
      requires Valid()
      modifies this
      ensures senders.Some? ==> order == senders.value
      ensures senders.None? ==> ListsAll(order, old(transactions).Keys)
      ensures Valid() && (View(), removed) == CullSenders(old(View()), order, ready, [], scoring)
    {
      hide Inv, Lawful, PoolOps.RemoveStalled, ListsAll;
      var todo: seq<Sender>;
      if senders.Some? { todo := senders.value; } else { todo := AllOf(transactions.Keys); }
      order := todo;
      removed := 0;
      var asked: seq<Body> := [];
      assert todo[0..] == todo;
      for i := 0 to |todo|
        invariant Valid()
        invariant var (st, n) := CullSenders(View(), todo[i..], ready, asked, scoring);
          CullSenders(old(View()), todo, ready, [], scoring) == (st, removed + n)
      {
        assert todo[i..][0] == todo[i] && todo[i..][1..] == todo[i + 1..];
        RemoveStalledInv(View(), todo[i], ready, asked, scoring);
        var n, after := RemoveStalled(todo[i], ready, asked);
        removed, asked := removed + n, after;
      }
    }

    /** `update_scores` */
    method UpdateScores(sender: Sender, event: nat)
      requires Valid()
      modifies this
      ensures |ListOf(old(transactions), sender).txs| == |ListOf(old(transactions), sender).scores|
      ensures Valid() && View() == PoolOps.UpdateScores(old(View()), sender, event, scoring)
      ensures sender in old(transactions) ==>
                var l := old(transactions)[sender];
                Rescores(old(View()), View(), sender, l.txs, scoring.updateScores(l.txs, l.scores, Event(event)))
      ensures sender !in old(transactions) ==> View() == old(View())
    {
      hide Inv, Lawful, Commit, Ordered, Rescores;
      UpdateScoresInv(View(), sender, event, scoring);
      ghost var was := View();
      if sender in transactions { UpdateScoresMoves(was, sender, event, scoring); } else { UpdateScoresNone(was, sender, event, scoring); }
      ListedEnds(View(), sender, scoring);
      if sender in transactions {
        var l := transactions[sender];
        ScoreCount(scoring, l.txs, l.scores, Event(event));
        var set_ := new Transactions.Of(l);
        var previous := set_.WorstAndBest();
        set_.UpdateScores(scoring, event);
        PutBack(sender, set_, previous);
      }
    }

    /** `clear`; the insertion id goes on from where it was. */
    method Clear()
      requires Valid()
      modifies this
      ensures Valid() && View() == PoolState(map[], map[], map[], map[], 0, old(insertionId))
    {
      memUsage := 0;
      transactions, byHash := map[], map[];
      bestTransactions, worstTransactions := map[], map[];
      ClearInv(old(View()), scoring);
    }

    /** `worst_transaction` */
    method WorstTransaction() returns (r: Option<Tx>)
      requires Valid()
      ensures r.None? <==> byHash == map[]
      ensures r.Some? ==> exists score :: IsWorst(transactions, r.value, score)
    {
      hide Inv, Lawful, IsLast, IsWorst;
      if worstTransactions == map[] {
        EmptyViews(View(), scoring);
        return None;
      }
      LastExists(worstTransactions.Keys);
      var k :| k in worstTransactions.Keys && IsLast(worstTransactions.Keys, k);
      LastIsWorst(View(), k, scoring);
      WorstIndexed(View(), worstTransactions[k], k.0, scoring);
      return Some(worstTransactions[k]);
    }
  }

  /** Every element once, in some order. */
  ghost predicate ListsAll(q: seq<Sender>, keys: set<Sender>) {
    (forall x :: x in q <==> x in keys) && forall i, j :: 0 <= i < j < |q| ==> q[i] != q[j]
  }

  method AllOf(keys: set<Sender>) returns (q: seq<Sender>)
    ensures ListsAll(q, keys)
  {
    q := [];
    var rest := keys;
    while rest != {}
      invariant rest <= keys && ListsAll(q, keys - rest)
      decreases |rest|
    {
      var x :| x in rest;
      rest := rest - {x};
      q := q + [x];
    }
  }

  lemma RemoveSizes(l: TxList, b: Body, s: Scoring)
    requires |l.txs| == |l.scores| && Lawful(s)
    ensures |PoolList.Remove(l, b, s).0.txs| == |PoolList.Remove(l, b, s).0.scores|
  {
    hide Position;
  }

  lemma CullSizes(l: TxList, ready: ReadyFn, asked: seq<Body>, s: Scoring)
    requires |l.txs| == |l.scores| && Lawful(s)
    ensures |PoolList.Cull(l, ready, asked, s).0.txs| == |PoolList.Cull(l, ready, asked, s).0.scores|
  {
    hide StalePrefix, Reverse;
  }

  lemma PooledKept(st: PoolState, t: Tx, s: Scoring)
    requires Inv(st, s) && Pooled(st.lists, t)
    ensures var sender := t.body.sender;
      && sender in st.lists && st.lists[sender].txs != [] && Ordered(st.lists[sender], sender, s)
      && |st.lists[sender].txs| == |st.lists[sender].scores| && st.lists[sender] == ListOf(st.lists, sender)
  {
    hide FrontierOk, Indexed, IdsOk, MemSum;
  }

  /** The index and the lists are changed independently of each other. */
  lemma CommitFinalize(st: PoolState, sender: Sender, l: TxList, hash: Hash)
    requires |l.txs| == |l.scores|
    requires |ListOf(st.lists, sender).txs| == |ListOf(st.lists, sender).scores|
    ensures Commit(PoolModel.FinalizeRemove(st, hash), sender, l) == PoolModel.FinalizeRemove(Commit(st, sender, l), hash)
  {
    hide UpdateEnd, End, SetList;
  }

  lemma NotIndexed(st: PoolState, hash: Hash)
    requires hash !in st.byHash
    ensures PoolModel.FinalizeRemove(st, hash) == st
  {}

  lemma AllRemoved(st: PoolState, removed: seq<Tx>)
    ensures FinalizeRemoveAll(st, removed[0..]) == FinalizeRemoveAll(st, removed)
  {
    assert removed[0..] == removed;
  }

  lemma RemoveOne(st: PoolState, removed: seq<Tx>)
    requires removed != []
    ensures FinalizeRemoveAll(st, removed) == FinalizeRemoveAll(PoolModel.FinalizeRemove(st, removed[0].body.hash), removed[1..])
  {}

  lemma NoneLeft(st: PoolState)
    ensures FinalizeRemoveAll(st, []) == st
  {}

  /** A pool without a worst transaction is empty. */
  lemma EmptyViews(st: PoolState, s: Scoring)
    requires Inv(st, s) && st.worst == map[]
    ensures st.byHash == map[]
  {
    hide MemSum, IdsOk, Ordered;
    if h: Hash :| h in st.byHash { IndexedPooled(st, h, s); }
  }

  lemma WorstIndexed(st: PoolState, t: Tx, score: Score, s: Scoring)
    requires Inv(st, s) && IsWorst(st.lists, t, score)
    ensures st.byHash != map[]
  {
    hide MemSum, IdsOk, Ordered, FrontierOk, EndsBy, End;
  }

  /** What the pool knows of a sender's list before it changes it. */
  lemma ListedEnds(st: PoolState, sender: Sender, s: Scoring)
    requires Inv(st, s)
    ensures Ordered(ListOf(st.lists, sender), sender, s)
    ensures |ListOf(st.lists, sender).txs| == |ListOf(st.lists, sender).scores|
    ensures ListOf(st.lists, sender).txs != [] ==>
              End(ListOf(st.lists, sender), false).Some? && End(ListOf(st.lists, sender), false).value.1.body.sender == sender
    ensures sender in st.lists <==> ListOf(st.lists, sender).txs != []
  {
    hide FrontierOk, Indexed, IdsOk, MemSum;
  }
}
