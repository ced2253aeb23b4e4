/** The limits of the pool: how many transactions, how much memory, how many from one sender. */
module PoolLimits {
  import opened Wrappers
  import opened PoolList
  import opened PoolModel
  import opened PoolOps

  ghost predicate ListsWithin(lists: map<Sender, TxList>, n: nat) {
    forall sender :: sender in lists ==> |lists[sender].txs| <= n
  }

  ghost predicate TotalsWithin(st: PoolState, opts: Options) {
    |st.byHash| <= opts.maxCount && st.mem <= opts.maxMem
  }

  /** A shorter list, or one within the limit, never breaks it. */
  lemma CommitWithin(st: PoolState, sender: Sender, l: TxList, n: nat)
    requires |l.txs| == |l.scores|
    requires |ListOf(st.lists, sender).txs| == |ListOf(st.lists, sender).scores|
    requires ListsWithin(st.lists, n) && |l.txs| <= n
    ensures ListsWithin(Commit(st, sender, l).lists, n)
  {
    hide UpdateEnd, End;
  }

  lemma ListWithin(st: PoolState, sender: Sender, s: Scoring, n: nat)
    requires Inv(st, s) && ListsWithin(st.lists, n)
    ensures |ListOf(st.lists, sender).txs| == |ListOf(st.lists, sender).scores| <= n
    ensures Ordered(ListOf(st.lists, sender), sender, s)
  {
    hide FrontierOk, MemSum, Indexed, IdsOk;
  }

  lemma PerSenderDrop(st: PoolState, t: Tx, s: Scoring, n: nat)
    requires Inv(st, s) && Lawful(s) && Pooled(st.lists, t) && ListsWithin(st.lists, n)
    ensures |ListOf(st.lists, t.body.sender).txs| == |ListOf(st.lists, t.body.sender).scores|
    ensures ListsWithin(Drop(st, t, s).lists, n)
  {
    hide Inv, Lawful, Ordered, Remove, Commit, ListsWithin;
    var sender := t.body.sender;
    ListWithin(st, sender, s, n);
    RemoveListed(ListOf(st.lists, sender), sender, s, t);
    var l := Remove(ListOf(st.lists, sender), t.body, s).0;
    Lengths(l, sender, s);
    CommitWithin(st, sender, l, n);
  }

  lemma {:induction false} PerSenderMakeRoom(st: PoolState, new_: Tx, s: Scoring, replace: Replace, opts: Options, limit: Limit, n: nat)
    requires Inv(st, s) && Lawful(s) && ListsWithin(st.lists, n)
    ensures ListsWithin(MakeRoom(st, new_, s, replace, opts, limit).0.lists, n)
    decreases |st.byHash|
  {
    hide Inv, Lawful, Drop, Pooled, ListsWithin;
    if OverLimit(st, new_, opts, limit) && JudgeWorst(st, new_, replace).Evict? {
      var t := JudgeWorst(st, new_, replace).tx;
      EvictsPooled(st, new_, replace, s);
      DropInv(st, t, s);
      PerSenderDrop(st, t, s, n);
      PerSenderMakeRoom(Drop(st, t, s), new_, s, replace, opts, limit, n);
    }
  }

  lemma PerSenderMakeAllRoom(st: PoolState, new_: Tx, s: Scoring, replace: Replace, opts: Options, n: nat)
    requires Inv(st, s) && Lawful(s) && ListsWithin(st.lists, n)
    ensures ListsWithin(MakeAllRoom(st, new_, s, replace, opts).0.lists, n)
  {
    hide Inv, Lawful, MakeRoom, ListsWithin;
    MakeRoomKeeps(st, new_, s, replace, opts, Count);
    PerSenderMakeRoom(st, new_, s, replace, opts, Count, n);
    var (st1, e) := MakeRoom(st, new_, s, replace, opts, Count);
    if e.None? { PerSenderMakeRoom(st1, new_, s, replace, opts, Memory, n); }
  }

  lemma PerSenderEnter(st: PoolState, new_: Tx, s: Scoring, opts: Options)
    requires Inv(st, s) && Lawful(s) && Fresh(st, new_) && opts.maxPerSender > 0 && new_.id <= st.lastId
    requires ListsWithin(st.lists, opts.maxPerSender) && !s.ignoreSenderLimit(new_.body)
    ensures |ListOf(st.lists, new_.body.sender).txs| == |ListOf(st.lists, new_.body.sender).scores|
    ensures var l := Add(ListOf(st.lists, new_.body.sender), new_, s, opts.maxPerSender).0; |l.txs| == |l.scores|
    ensures ListsWithin(Enter(st, new_, s, opts).0.lists, opts.maxPerSender)
  {
    hide Inv, Lawful, Add, Commit, Pooled, ListsWithin, Fresh, Ordered;
    var sender := new_.body.sender;
    EnterInv(st, new_, s, opts);
    ListWithin(st, sender, s, opts.maxPerSender);
    AddWithinLimit(ListOf(st.lists, sender), s, new_, opts.maxPerSender);
    CommitWithin(st, sender, Add(ListOf(st.lists, sender), new_, s, opts.maxPerSender).0, opts.maxPerSender);
  }

  /** A transaction that respects the sender limit never makes a list outgrow it. */
  lemma ImportPerSender(st: PoolState, body: Body, s: Scoring, replace: Replace, opts: Options)
    requires Inv(st, s) && Lawful(s) && opts.maxPerSender > 0 && ListsWithin(st.lists, opts.maxPerSender)
    requires !s.ignoreSenderLimit(body)
    ensures ListsWithin(Import(st, body, s, replace, opts).0.lists, opts.maxPerSender)
  {
    hide Inv, Lawful, MakeAllRoom, Enter, Pooled, Add, Fresh, ListsWithin;
    if body.hash !in st.byHash {
      var new_ := Tx(st.lastId + 1, body);
      var st1 := st.(lastId := st.lastId + 1);
      NextId(st, s);
      MakeAllRoomKeeps(st1, new_, s, replace, opts);
      PerSenderMakeAllRoom(st1, new_, s, replace, opts, opts.maxPerSender);
      var (st2, e) := MakeAllRoom(st1, new_, s, replace, opts);
      if e.None? {
        StillFresh(st, st2, new_, s);
        PerSenderEnter(st2, new_, s, opts);
      }
    }
  }

  ghost predicate Within(b: map<Hash, Tx>, b': map<Hash, Tx>) {
    forall h :: h in b ==> h in b' && b[h] == b'[h]
  }

  lemma {:induction false} MemSumWithin(b: map<Hash, Tx>, b': map<Hash, Tx>)
    requires Within(b, b')
    ensures 0 <= MemSum(b) <= MemSum(b') && |b| <= |b'|
    decreases |b'|
  {
    if b' == map[] {
      assert b == map[];
    } else {
      hide MemSum, Within;
      var h :| h in b';
      MemSumRemove(b', h);
      if h in b { MemSumRemove(b, h); }
      WithinWithout(b, b', h);
      MemSumWithin(b - {h}, b' - {h});
    }
  }

  lemma WithinWithout(b: map<Hash, Tx>, b': map<Hash, Tx>, h: Hash)
    requires Within(b, b') && h in b'
    ensures Within(b - {h}, b' - {h}) && |b' - {h}| == |b'| - 1
    ensures if h in b then |b - {h}| == |b| - 1 else b - {h} == b
  {
    assert (b - {h}).Keys == b.Keys - {h} && (b' - {h}).Keys == b'.Keys - {h};
  }

  /** When nothing new is indexed, the totals do not grow. */
  lemma TotalsShrink(st: PoolState, st': PoolState, s: Scoring)
    requires Inv(st, s) && Inv(st', s) && Within(st'.byHash, st.byHash)
    ensures |st'.byHash| <= |st.byHash| && st'.mem <= st.mem
  {
    hide ListsOk, FrontierOk, Indexed, IdsOk, MemSum, Within;
    MemSumWithin(st'.byHash, st.byHash);
  }

  /** As long as no replacement rule accepts both, the totals stay within their limits. */
  lemma ImportTotals(st: PoolState, body: Body, s: Scoring, replace: Replace, opts: Options)
    requires Inv(st, s) && Lawful(s) && opts.maxPerSender > 0 && TotalsWithin(st, opts) && NeverBoth(replace)
    ensures TotalsWithin(Import(st, body, s, replace, opts).0, opts)
  {
    hide Inv, Lawful, Import, NeverBoth;
    ImportInv(st, body, s, replace, opts);
    var (st', r) := Import(st, body, s, replace, opts);
    if r.Err? { TotalsShrink(st, st', s); }
  }

  lemma {:induction false} CullWithin(st: PoolState, senders: seq<Sender>, ready: ReadyFn, asked: seq<Body>, s: Scoring, n: nat)
    requires Inv(st, s) && Lawful(s)
    ensures var st' := CullSenders(st, senders, ready, asked, s).0;
      && Within(st'.byHash, st.byHash)
      && (ListsWithin(st.lists, n) ==> ListsWithin(st'.lists, n))
    decreases |senders|
  {
    hide Inv, Lawful, RemoveStalled, ListsWithin;
    if senders != [] {
      RemoveStalledInv(st, senders[0], ready, asked, s);
      StalledWithin(st, senders[0], ready, asked, s, n);
      var (st1, _, after) := RemoveStalled(st, senders[0], ready, asked, s);
      CullWithin(st1, senders[1..], ready, after, s, n);
    }
  }

  lemma StalledWithin(st: PoolState, sender: Sender, ready: ReadyFn, asked: seq<Body>, s: Scoring, n: nat)
    requires Inv(st, s) && Lawful(s)
    ensures var st' := RemoveStalled(st, sender, ready, asked, s).0;
      && Within(st'.byHash, st.byHash)
      && (ListsWithin(st.lists, n) ==> ListsWithin(st'.lists, n))
  {
    hide Inv, Lawful, Cull, Commit, Leaves, ListsWithin, FinalizeRemoveAll, MemSum;
    if sender in st.lists {
      CullLeaves(st, sender, ready, asked, s);
      var (l, removed, _) := Cull(st.lists[sender], ready, asked, s);
      TakeOutInv(st, sender, l, removed, s);
      IndexOfInv(st, s);
      CommitRest(st, sender, l);
      FinalizeRemoveAllIs(Commit(st, sender, l), removed);
      CullShortens(st.lists[sender], ready, asked, s);
      if ListsWithin(st.lists, n) {
        ListWithin(st, sender, s, n);
        CommitWithin(st, sender, l, n);
      }
    }
  }

  lemma CullShortens(l: TxList, ready: ReadyFn, asked: seq<Body>, s: Scoring)
    requires |l.txs| == |l.scores|
    ensures |Cull(l, ready, asked, s).0.txs| <= |l.txs|
  {
    hide StalePrefix, Reverse;
  }

  /** No operation but an import grows a list, and none but an import that ignores the limit exceeds it. */
  lemma StepPerSender(st: PoolState, op: Op, s: Scoring, opts: Options)
    requires Inv(st, s) && Lawful(s) && opts.maxPerSender > 0 && ListsWithin(st.lists, opts.maxPerSender)
    requires op.ImportOp? ==> !s.ignoreSenderLimit(op.body)
    ensures ListsWithin(Step(st, op, s, opts).lists, opts.maxPerSender)
  {
    hide Inv, Lawful, Import, Drop, CullSenders, Commit, ListsWithin, Pooled, Within;
    var n := opts.maxPerSender;
    match op
    case ImportOp(body, replace) => ImportPerSender(st, body, s, replace, opts);
    case RemoveOp(hash) =>
      RemoveInv(st, hash, s);
      if hash in st.byHash {
        IndexedPooled(st, hash, s);
        PerSenderDrop(st, st.byHash[hash], s, n);
      }
    case CullOp(senders, ready) => CullWithin(st, senders, ready, [], s, n);
    case UpdateScoresOp(sender, event) =>
      UpdateScoresInv(st, sender, event, s);
      if sender in st.lists {
        var l := st.lists[sender];
        ListWithin(st, sender, s, n);
        ScoreCount(s, l.txs, l.scores, Event(event));
        CommitWithin(st, sender, Rescored(l.txs, l.scores, s, Event(event)), n);
      }
    case ClearOp => ClearWithin(st, n);
  }

  lemma ClearWithin(st: PoolState, n: nat)
    ensures ListsWithin(Clear(st).lists, n)
  {}

  lemma StepTotals(st: PoolState, op: Op, s: Scoring, opts: Options)
    requires Inv(st, s) && Lawful(s) && opts.maxPerSender > 0 && TotalsWithin(st, opts)
    requires op.ImportOp? ==> NeverBoth(op.replace)
    ensures TotalsWithin(Step(st, op, s, opts), opts)
  {
    hide Inv, Lawful, Import, RemoveByHash, CullSenders, UpdateScores, Pooled, ListsWithin, NeverBoth;
    StepInv(st, op, s, opts);
    match op
    case ImportOp(body, replace) => ImportTotals(st, body, s, replace, opts);
    case RemoveOp(hash) =>
      RemoveInv(st, hash, s);
      TotalsShrink(st, Step(st, op, s, opts), s);
    case CullOp(senders, ready) =>
      CullWithin(st, senders, ready, [], s, 0);
      TotalsShrink(st, Step(st, op, s, opts), s);
    case UpdateScoresOp(sender, event) =>
      UpdateScoresInv(st, sender, event, s);
      TotalsShrink(st, Step(st, op, s, opts), s);
    case ClearOp =>
  }

  /** Every reachable pool keeps its limits, each under the condition that belongs to it. */
  lemma {:induction false} RunLimits(ops: seq<Op>, s: Scoring, opts: Options)
    requires Lawful(s) && opts.maxPerSender > 0
    ensures (forall op :: op in ops && op.ImportOp? ==> NeverBoth(op.replace)) ==> TotalsWithin(Run(ops, s, opts), opts)
    ensures (forall op :: op in ops && op.ImportOp? ==> !s.ignoreSenderLimit(op.body)) ==>
              ListsWithin(Run(ops, s, opts).lists, opts.maxPerSender)
    decreases |ops|
  {
    hide Inv, Lawful, Step, NeverBoth;
    if ops != [] {
      var n := |ops| - 1;
      var (front, op) := (ops[..n], ops[n]);
      assert ops == front + [op];
      RunLimits(front, s, opts);
      var st := Run(front, s, opts);
      if op.ImportOp? ==> NeverBoth(op.replace) {
        if TotalsWithin(st, opts) { StepTotals(st, op, s, opts); }
      }
      if op.ImportOp? ==> !s.ignoreSenderLimit(op.body) {
        if ListsWithin(st.lists, opts.maxPerSender) { StepPerSender(st, op, s, opts); }
      }
    }
  }
}
