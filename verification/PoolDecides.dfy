/** What the pluggable parts decide: `choose` and the sender limit, the replacement rule, and the scores. */
module PoolDecides {
  import opened Wrappers
  import opened PoolList
  import opened PoolModel
  import opened PoolOps

  // ---------- Entering a sender's list ----------

  /** The same transactions as before. */
  ghost predicate Unchanged(st: PoolState, st': PoolState) {
    && (forall t :: Pooled(st'.lists, t) <==> Pooled(st.lists, t))
    && st'.byHash == st.byHash && st'.mem == st.mem
  }

  /** The newcomer is in, `gone` is out, and nothing else has changed. */
  ghost predicate Exchanged(st: PoolState, st': PoolState, new_: Tx, gone: Option<Tx>) {
    && (gone.Some? ==> Pooled(st.lists, gone.value) && gone.value != new_)
    && forall t :: Pooled(st'.lists, t) <==> t == new_ || (Pooled(st.lists, t) && gone != Some(t))
  }

  /**
   * What comes of a newcomer that belongs at index i of its sender's list l: nothing and an error,
   * or the newcomer and at most one transaction less.
   */
  ghost predicate Decided(st: PoolState, st': PoolState, new_: Tx, r: Result<Tx, Error>, l: TxList, s: Scoring, limit: nat, i: nat) {
    var n := |l.txs|;
    && i <= n
    && if i == n then
      if n == limit && !s.ignoreSenderLimit(new_.body)
      then Unchanged(st, st') && r == Err(TooCheapEnter(new_.body.hash))
      else Exchanged(st, st', new_, None) && r == Ok(new_)
    else
      var old_ := l.txs[i];
      match s.choose(old_.body, new_.body)
      case RejectNew => Unchanged(st, st') && r == Err(TooCheapToReplace(old_.body.hash, new_.body.hash))
      case ReplaceOld => Exchanged(st, st', new_, Some(old_)) && r == Ok(new_)
      case InsertNew => Exchanged(st, st', new_, if n < limit then None else Some(l.txs[n - 1])) && r == Ok(new_)
  }

  /** What `Add` answers, and the transaction that it lets go. */
  lemma AddAnswers(l: TxList, new_: Tx, s: Scoring, limit: nat, i: nat)
    requires Lawful(s) && |l.txs| == |l.scores| && limit > 0 && BelongsAt(l.txs, new_.body, s, i)
    ensures var n := |l.txs|;
      Add(l, new_, s, limit).1 ==
        if i == n then
          if n == limit && !s.ignoreSenderLimit(new_.body) then TooCheapToEnter(new_, l.scores[n - 1]) else Added(new_)
        else
          match s.choose(l.txs[i].body, new_.body)
          case RejectNew => TooCheap(l.txs[i], new_)
          case ReplaceOld => Replaced(l.txs[i], new_)
          case InsertNew => if n < limit then Added(new_) else PushedOut(l.txs[n - 1], new_)
  {
    hide Lawful, Add, BelongsAt;
    IndexInside(l.txs, new_.body, s, i);
    if i == |l.txs| {
      AddBehind(l, new_, s, limit);
    } else {
      match s.choose(l.txs[i].body, new_.body)
      case RejectNew => AddRejected(l, new_, s, limit, i);
      case ReplaceOld => AddReplacing(l, new_, s, limit, i);
      case InsertNew => AddInserting(l, new_, s, limit, i);
    }
  }

  lemma IndexInside(txs: seq<Tx>, b: Body, s: Scoring, i: nat)
    requires BelongsAt(txs, b, s, i)
    ensures i <= |txs|
  {}

  lemma EnteredExchanged(st: PoolState, st': PoolState, new_: Tx, r: Result<Tx, Error>, gone: Option<Tx>, s: Scoring)
    requires Inv(st, s) && Fresh(st, new_) && EnteredAs(st, st', new_, r, gone)
    ensures r.Ok? ==> Exchanged(st, st', new_, gone)
    ensures r.Err? ==> Unchanged(st, st')
  {
    hide Inv, Reindexed, Pooled;
    FreshNotPooled(st, new_, s);
  }

  lemma FreshNotPooled(st: PoolState, new_: Tx, s: Scoring)
    requires Inv(st, s) && Fresh(st, new_)
    ensures !Pooled(st.lists, new_)
  {
    hide FrontierOk, ListsOk, MemSum, Pooled;
  }

  lemma EnterAnswers(st: PoolState, new_: Tx, s: Scoring, opts: Options)
    requires opts.maxPerSender > 0 && Lawful(s)
    requires |ListOf(st.lists, new_.body.sender).txs| == |ListOf(st.lists, new_.body.sender).scores|
    requires var l := Add(ListOf(st.lists, new_.body.sender), new_, s, opts.maxPerSender).0; |l.txs| == |l.scores|
    ensures Enter(st, new_, s, opts).1 ==
              match Add(ListOf(st.lists, new_.body.sender), new_, s, opts.maxPerSender).1
              case Added(t) => Ok(t)
              case Replaced(_, t) => Ok(t)
              case PushedOut(_, t) => Ok(t)
              case TooCheap(existing, t) => Err(TooCheapToReplace(existing.body.hash, t.body.hash))
              case TooCheapToEnter(t, _) => Err(TooCheapEnter(t.body.hash))
  {
    hide Lawful, Add, Commit, FinalizeInsert;
  }

  lemma EnterDecides(st: PoolState, new_: Tx, s: Scoring, opts: Options, i: nat)
    requires Inv(st, s) && Lawful(s) && Fresh(st, new_) && opts.maxPerSender > 0 && new_.id <= st.lastId
    requires BelongsAt(ListOf(st.lists, new_.body.sender).txs, new_.body, s, i)
    ensures |ListOf(st.lists, new_.body.sender).txs| == |ListOf(st.lists, new_.body.sender).scores|
    ensures var l := Add(ListOf(st.lists, new_.body.sender), new_, s, opts.maxPerSender).0; |l.txs| == |l.scores|
    ensures var (st', r) := Enter(st, new_, s, opts);
      Decided(st, st', new_, r, ListOf(st.lists, new_.body.sender), s, opts.maxPerSender, i)
  {
    hide Inv, Lawful, Fresh, Enter, Add, EnteredAs, Exchanged, Unchanged, BelongsAt, Pooled, ListOf;
    var l := ListOf(st.lists, new_.body.sender);
    IndexInside(l.txs, new_.body, s, i);
    EnterInv(st, new_, s, opts);
    AddAnswers(l, new_, s, opts.maxPerSender, i);
    EnterAnswers(st, new_, s, opts);
    var (st', r) := Enter(st, new_, s, opts);
    EnteredExchanged(st, st', new_, r, Evicted(Add(l, new_, s, opts.maxPerSender).1), s);
  }

  /** This sender's list has become l, scores and all, and no other list has changed. */
  ghost predicate OnlyList(lists: map<Sender, TxList>, lists': map<Sender, TxList>, sender: Sender, l: TxList) {
    && ListOf(lists', sender) == l
    && forall other: Sender :: other != sender ==> ListOf(lists', other) == ListOf(lists, other)
  }

  lemma CommitLists(st: PoolState, sender: Sender, l: TxList)
    requires |l.txs| == |l.scores| && |ListOf(st.lists, sender).txs| == |ListOf(st.lists, sender).scores|
    ensures OnlyList(st.lists, Commit(st, sender, l).lists, sender, l)
  {
    CommitRest(st, sender, l);
  }

  /** Entering does to the lists what `Add` does to one of them. */
  lemma EnterLists(st: PoolState, new_: Tx, s: Scoring, opts: Options)
    requires opts.maxPerSender > 0 && Lawful(s)
    requires |ListOf(st.lists, new_.body.sender).txs| == |ListOf(st.lists, new_.body.sender).scores|
    requires var l := Add(ListOf(st.lists, new_.body.sender), new_, s, opts.maxPerSender).0; |l.txs| == |l.scores|
    ensures OnlyList(st.lists, Enter(st, new_, s, opts).0.lists, new_.body.sender,
                     Add(ListOf(st.lists, new_.body.sender), new_, s, opts.maxPerSender).0)
  {
    hide Lawful, Add, Commit, OnlyList;
    CommitLists(st, new_.body.sender, Add(ListOf(st.lists, new_.body.sender), new_, s, opts.maxPerSender).0);
  }

  /** Taking a transaction out does to the lists what `Remove` does to one of them. */
  lemma DropLists(st: PoolState, t: Tx, s: Scoring)
    requires Lawful(s) && |ListOf(st.lists, t.body.sender).txs| == |ListOf(st.lists, t.body.sender).scores|
    ensures OnlyList(st.lists, Drop(st, t, s).lists, t.body.sender, Remove(ListOf(st.lists, t.body.sender), t.body, s).0)
  {
    hide Commit, OnlyList;
    CommitLists(st, t.body.sender, Remove(ListOf(st.lists, t.body.sender), t.body, s).0);
  }

  // ---------- Importing with room ----------

  /** The newcomer gets the next id, whatever becomes of it. */
  function Numbered(st: PoolState): PoolState { st.(lastId := st.lastId + 1) }

  /** When nothing is evicted, an import is nothing but entering the sender's list. */
  lemma ImportEnters(st: PoolState, body: Body, s: Scoring, replace: Replace, opts: Options)
    requires Inv(st, s) && Lawful(s) && opts.maxPerSender > 0 && body.hash !in st.byHash && Inv(Numbered(st), s)
    requires MakeAllRoom(Numbered(st), Tx(st.lastId + 1, body), s, replace, opts) == (Numbered(st), None)
    ensures var (st1, new_) := (Numbered(st), Tx(st.lastId + 1, body));
      && Inv(st1, s) && Fresh(st1, new_)
      && |ListOf(st1.lists, body.sender).txs| == |ListOf(st1.lists, body.sender).scores|
      && (var l := Add(ListOf(st1.lists, body.sender), new_, s, opts.maxPerSender).0; |l.txs| == |l.scores|)
      && Import(st, body, s, replace, opts) == Enter(st1, new_, s, opts)
  {
    hide Inv, Lawful, Fresh, Enter, Add, EnteredAs, Pooled, MakeAllRoom;
    var new_ := Tx(st.lastId + 1, body);
    NextId(st, s);
    StillFresh(st, Numbered(st), new_, s);
    EnterInv(Numbered(st), new_, s, opts);
  }

  /** While there is room, `choose` and the sender limit alone decide what an import does. */
  lemma ImportDecides(st: PoolState, body: Body, s: Scoring, replace: Replace, opts: Options, i: nat)
    requires Inv(st, s) && Lawful(s) && opts.maxPerSender > 0 && body.hash !in st.byHash
    requires |st.byHash| + 1 <= opts.maxCount && st.mem + body.mem <= opts.maxMem
    requires BelongsAt(ListOf(st.lists, body.sender).txs, body, s, i)
    ensures var (st', r) := Import(st, body, s, replace, opts);
      Decided(st, st', Tx(st.lastId + 1, body), r, ListOf(st.lists, body.sender), s, opts.maxPerSender, i)
  {
    hide *;
    RoomIs(st, body, opts);
    NumberedInv(st, s);
    NothingEvictedNow(st, body, s, replace, opts);
    ImportEnters(st, body, s, replace, opts);
    NumberedDecides(st, Numbered(st), Tx(st.lastId + 1, body), s, opts, i);
  }

  lemma NumberedInv(st: PoolState, s: Scoring)
    requires Inv(st, s)
    ensures Inv(Numbered(st), s)
  {
    hide Inv;
    NextId(st, s);
  }

  lemma NothingEvictedNow(st: PoolState, body: Body, s: Scoring, replace: Replace, opts: Options)
    requires Inv(Numbered(st), s) && Lawful(s) && HasRoom(st, body, opts)
    ensures MakeAllRoom(Numbered(st), Tx(st.lastId + 1, body), s, replace, opts) == (Numbered(st), None)
  {
    hide Inv, Lawful, MakeAllRoom;
    NothingEvicted(Numbered(st), Tx(st.lastId + 1, body), s, replace, opts);
  }

  /** Without room it is the same when the rule accepts both. */
  lemma ImportBoth(st: PoolState, body: Body, s: Scoring, replace: Replace, opts: Options, t: Tx, score: Score, i: nat)
    requires Inv(st, s) && Lawful(s) && opts.maxPerSender > 0 && body.hash !in st.byHash
    requires (|st.byHash| + 1 > opts.maxCount || st.mem + body.mem > opts.maxMem) && IsWorst(st.lists, t, score)
    requires Answer(st, t, Tx(st.lastId + 1, body), replace) == InsertNew
    requires BelongsAt(ListOf(st.lists, body.sender).txs, body, s, i)
    ensures var (st', r) := Import(st, body, s, replace, opts);
      Decided(st, st', Tx(st.lastId + 1, body), r, ListOf(st.lists, body.sender), s, opts.maxPerSender, i)
  {
    hide *;
    RoomIs(st, body, opts);
    NumberedInv(st, s);
    BothStay(st, body, s, replace, opts, t, score);
    ImportEnters(st, body, s, replace, opts);
    NumberedDecides(st, Numbered(st), Tx(st.lastId + 1, body), s, opts, i);
  }

  lemma BothStay(st: PoolState, body: Body, s: Scoring, replace: Replace, opts: Options, t: Tx, score: Score)
    requires Inv(Numbered(st), s) && Lawful(s) && !HasRoom(st, body, opts) && IsWorst(st.lists, t, score)
    requires Answer(st, t, Tx(st.lastId + 1, body), replace) == InsertNew
    ensures MakeAllRoom(Numbered(st), Tx(st.lastId + 1, body), s, replace, opts) == (Numbered(st), None)
  {
    hide Inv, Lawful, IsWorst, Answer, MakeAllRoom;
    SameWorst(st, t, score, Tx(st.lastId + 1, body), replace);
    AllRoomDecides(Numbered(st), t, score, Tx(st.lastId + 1, body), s, replace, opts);
  }

  /** What entering decides does not depend on the ids given so far. */
  lemma NumberedDecides(st: PoolState, st1: PoolState, new_: Tx, s: Scoring, opts: Options, i: nat)
    requires st1 == Numbered(st) && Inv(st1, s) && Lawful(s) && Fresh(st1, new_) && opts.maxPerSender > 0 && new_.id == st.lastId + 1
    requires BelongsAt(ListOf(st.lists, new_.body.sender).txs, new_.body, s, i)
    ensures |ListOf(st1.lists, new_.body.sender).txs| == |ListOf(st1.lists, new_.body.sender).scores|
    ensures var l := Add(ListOf(st1.lists, new_.body.sender), new_, s, opts.maxPerSender).0; |l.txs| == |l.scores|
    ensures var (st', r) := Enter(st1, new_, s, opts);
      Decided(st, st', new_, r, ListOf(st.lists, new_.body.sender), s, opts.maxPerSender, i)
  {
    hide *;
    NumberedIs(st);
    EnterDecides(st1, new_, s, opts, i);
    var (st', r) := Enter(st1, new_, s, opts);
    SameDecided(st, st1, st', new_, r, ListOf(st.lists, new_.body.sender), s, opts.maxPerSender, i);
  }

  lemma RoomIs(st: PoolState, body: Body, opts: Options)
    ensures HasRoom(st, body, opts) <==> |st.byHash| + 1 <= opts.maxCount && st.mem + body.mem <= opts.maxMem
  {}

  lemma NumberedIs(st: PoolState)
    ensures Numbered(st) == st.(lastId := Numbered(st).lastId) && Numbered(st).lastId == st.lastId + 1
  {}

  lemma SameDecided(st: PoolState, st1: PoolState, st': PoolState, new_: Tx, r: Result<Tx, Error>, l: TxList, s: Scoring, limit: nat, i: nat)
    requires st1 == st.(lastId := st1.lastId) && Decided(st1, st', new_, r, l, s, limit, i)
    ensures Decided(st, st', new_, r, l, s, limit, i)
  {
    hide Pooled;
  }

  /** A hash that is known already is an error, and nothing else happens. */
  lemma ImportKnown(st: PoolState, body: Body, s: Scoring, replace: Replace, opts: Options)
    requires Inv(st, s) && Lawful(s) && opts.maxPerSender > 0 && body.hash in st.byHash
    ensures Import(st, body, s, replace, opts) == (st, Err(AlreadyImported(body.hash)))
  {
    hide Inv, Lawful;
  }

  // ---------- The replacement rule ----------

  /** Two worst transactions are one. */
  lemma WorstOnce(lists: map<Sender, TxList>, t: Tx, score: Score, t': Tx, score': Score)
    requires IsWorst(lists, t, score) && IsWorst(lists, t', score')
    ensures score == score' && t.id == t'.id
  {
    hide Pooled;
    EndOfPooled(lists, t);
    EndOfPooled(lists, t');
    assert EndsBy(lists[t.body.sender], score', t'.id) && EndsBy(lists[t'.body.sender], score, t.id);
  }

  lemma EndOfPooled(lists: map<Sender, TxList>, t: Tx)
    requires Pooled(lists, t)
    ensures t.body.sender in lists
  {}

  lemma SameIdSame(st: PoolState, t: Tx, t': Tx, s: Scoring)
    requires Inv(st, s) && Pooled(st.lists, t) && Pooled(st.lists, t') && t.id == t'.id
    ensures t == t'
  {
    hide FrontierOk, ListsOk, MemSum, Pooled;
  }

  lemma WorstJudged(st: PoolState, t: Tx, score: Score, s: Scoring)
    requires Inv(st, s) && IsWorst(st.lists, t, score)
    ensures st.worst != map[] && st.worst[LastKey(st.worst.Keys)] == t
  {
    hide Inv, IsLast, IsEnd, EndsBy, Pooled, ListsOk, FrontierOk;
    SomeWorst(st, t, s);
    var k := LastKey(st.worst.Keys);
    LastIsWorst(st, k, s);
    WorstOnce(st.lists, t, score, st.worst[k], k.0);
    SameIdSame(st, t, st.worst[k], s);
  }

  lemma SomeWorst(st: PoolState, t: Tx, s: Scoring)
    requires Inv(st, s) && Pooled(st.lists, t)
    ensures st.worst != map[]
  {
    hide *;
    EndOfPooled(st.lists, t);
    WorstThere(st, s, t.body.sender);
  }

  /** What the rule says of t, the worst transaction, and the newcomer. */
  function Answer(st: PoolState, t: Tx, new_: Tx, replace: Replace): Choice {
    var pooled := if new_.body.sender in st.lists then Some(st.lists[new_.body.sender].txs) else None;
    replace(ReplaceTransaction(t, pooled), ReplaceTransaction(new_, pooled))
  }

  lemma JudgedBy(st: PoolState, t: Tx, score: Score, new_: Tx, replace: Replace, s: Scoring)
    requires Inv(st, s) && IsWorst(st.lists, t, score)
    ensures Answer(st, t, new_, replace) == RejectNew ==> JudgeWorst(st, new_, replace) == Failed(TooCheapEnter(new_.body.hash))
    ensures Answer(st, t, new_, replace) == ReplaceOld ==> JudgeWorst(st, new_, replace) == Evict(t)
    ensures Answer(st, t, new_, replace) == InsertNew ==> JudgeWorst(st, new_, replace) == Undecided
  {
    hide Inv, IsWorst, IsLast;
    WorstJudged(st, t, score, s);
  }

  lemma JudgedEmpty(st: PoolState, new_: Tx, replace: Replace, s: Scoring)
    requires Inv(st, s) && st.lists == map[]
    ensures JudgeWorst(st, new_, replace) == Failed(TooCheapEnter(new_.body.hash))
  {
    hide ListsOk, Indexed, IdsOk, MemSum, End, IsLast;
    assert st.worst == map[];
  }

  /** Over the limit, the rule's answer on the worst transaction decides: refuse, evict it, or let it be. */
  lemma MakeRoomDecides(st: PoolState, t: Tx, score: Score, new_: Tx, s: Scoring, replace: Replace, opts: Options, limit: Limit)
    requires Inv(st, s) && Lawful(s) && OverLimit(st, new_, opts, limit) && IsWorst(st.lists, t, score)
    ensures var (st', e) := MakeRoom(st, new_, s, replace, opts, limit);
      match Answer(st, t, new_, replace)
      case RejectNew => st' == st && e == Some(TooCheapEnter(new_.body.hash))
      case ReplaceOld => !Pooled(st'.lists, t) && t.body.hash !in st'.byHash
      case InsertNew => st' == st && e == None
  {
    hide Inv, Lawful, IsWorst, OverLimit, Answer, JudgeWorst, Drop, Pooled;
    JudgedBy(st, t, score, new_, replace, s);
    if Answer(st, t, new_, replace) == ReplaceOld {
      EvictsPooled(st, new_, replace, s);
      DropInv(st, t, s);
      var dropped := Drop(st, t, s);
      MakeRoomKeeps(dropped, new_, s, replace, opts, limit);
      NotIndexedNotPooled(MakeRoom(dropped, new_, s, replace, opts, limit).0, t, s);
    }
  }

  lemma NotIndexedNotPooled(st: PoolState, t: Tx, s: Scoring)
    requires Inv(st, s) && t.body.hash !in st.byHash
    ensures !Pooled(st.lists, t)
  {
    hide FrontierOk, ListsOk, MemSum, Pooled;
  }

  /** An empty pool over its limit refuses. */
  lemma MakeRoomEmpty(st: PoolState, new_: Tx, s: Scoring, replace: Replace, opts: Options, limit: Limit)
    requires Inv(st, s) && Lawful(s) && st.lists == map[] && OverLimit(st, new_, opts, limit)
    ensures MakeRoom(st, new_, s, replace, opts, limit) == (st, Some(TooCheapEnter(new_.body.hash)))
  {
    hide Inv, Lawful, OverLimit, JudgeWorst;
    JudgedEmpty(st, new_, replace, s);
  }

  ghost predicate AlwaysReplaces(replace: Replace) { forall o, n :: replace(o, n) == ReplaceOld }

  /** Room that the newcomer would not find in an empty pool either. */
  predicate NeverFits(new_: Tx, opts: Options, limit: Limit) {
    match limit
    case Count => opts.maxCount == 0
    case Memory => new_.body.mem > opts.maxMem
  }

  /** A rule that always replaces fails exactly when even an empty pool has no room. */
  lemma {:induction false} AlwaysReplacing(st: PoolState, new_: Tx, s: Scoring, replace: Replace, opts: Options, limit: Limit)
    requires Inv(st, s) && Lawful(s) && AlwaysReplaces(replace)
    ensures MakeRoom(st, new_, s, replace, opts, limit).1 ==
              if NeverFits(new_, opts, limit) then Some(TooCheapEnter(new_.body.hash)) else None
    decreases |st.byHash|
  {
    hide Inv, Lawful, Drop, Pooled, JudgeWorst, AlwaysReplaces, NeverFits, OverLimit, IsWorst;
    TotalsPositive(st, new_, s, opts, limit);
    if OverLimit(st, new_, opts, limit) {
      if st.lists == map[] {
        EmptyTotals(st, new_, s, opts, limit);
        JudgedEmpty(st, new_, replace, s);
      } else {
        JudgedReplace(st, new_, replace, s);
        var t := JudgeWorst(st, new_, replace).tx;
        EvictsPooled(st, new_, replace, s);
        DropInv(st, t, s);
        AlwaysReplacing(Drop(st, t, s), new_, s, replace, opts, limit);
      }
    }
  }

  lemma JudgedReplace(st: PoolState, new_: Tx, replace: Replace, s: Scoring)
    requires Inv(st, s) && st.lists != map[] && AlwaysReplaces(replace)
    ensures JudgeWorst(st, new_, replace).Evict?
  {
    hide Inv, IsLast, PooledBySender;
    var sender :| sender in st.lists;
    WorstThere(st, s, sender);
  }

  lemma WorstThere(st: PoolState, s: Scoring, sender: Sender)
    requires Inv(st, s) && sender in st.lists
    ensures st.worst != map[]
  {
    hide *;
    ListsOfInv(st, s);
    FrontierNotEmpty(st.worst, st.lists, s, sender);
  }

  lemma FrontierNotEmpty(f: Frontier, lists: map<Sender, TxList>, s: Scoring, sender: Sender)
    requires ListsOk(lists, s) && FrontierOk(f, lists, false) && sender in lists
    ensures f != map[]
  {
    hide ListsOk, FrontierOk;
    FrontierHas(f, lists, false, s, sender);
  }

  lemma {:induction false} MemNatural(m: map<Hash, Tx>)
    ensures MemSum(m) >= 0
    decreases |m|
  {
    if m != map[] {
      var h :| h in m;
      MemSumRemove(m, h);
      MemNatural(m - {h});
    }
  }

  lemma TotalsPositive(st: PoolState, new_: Tx, s: Scoring, opts: Options, limit: Limit)
    requires Inv(st, s)
    ensures !OverLimit(st, new_, opts, limit) ==> !NeverFits(new_, opts, limit)
  {
    hide FrontierOk, ListsOk, Indexed, IdsOk, MemSum;
    MemNatural(st.byHash);
  }

  lemma EmptyTotals(st: PoolState, new_: Tx, s: Scoring, opts: Options, limit: Limit)
    requires Inv(st, s) && st.lists == map[]
    ensures OverLimit(st, new_, opts, limit) <==> NeverFits(new_, opts, limit)
  {
    hide FrontierOk, ListsOk, IdsOk, Pooled, MemSum;
    if h :| h in st.byHash { IndexedPooled(st, h, s); EndOfPooled(st.lists, st.byHash[h]); }
    assert st.byHash == map[];
    EmptyMem();
  }

  // ---------- Importing without room ----------

  /** Both loops together, over either limit. */
  lemma AllRoomDecides(st: PoolState, t: Tx, score: Score, new_: Tx, s: Scoring, replace: Replace, opts: Options)
    requires Inv(st, s) && Lawful(s) && !HasRoom(st, new_.body, opts) && IsWorst(st.lists, t, score)
    ensures var (st', e) := MakeAllRoom(st, new_, s, replace, opts);
      match Answer(st, t, new_, replace)
      case RejectNew => st' == st && e == Some(TooCheapEnter(new_.body.hash))
      case ReplaceOld => t.body.hash !in st'.byHash
      case InsertNew => st' == st && e == None
  {
    hide Inv, Lawful, IsWorst, Answer, MakeRoom, Pooled, NeverBoth;
    NoLimitNoRoom(st, new_, s, replace, opts);
    MakeRoomKeeps(st, new_, s, replace, opts, Count);
    if OverLimit(st, new_, opts, Count) { MakeRoomDecides(st, t, score, new_, s, replace, opts, Count); }
    if OverLimit(st, new_, opts, Memory) { MakeRoomDecides(st, t, score, new_, s, replace, opts, Memory); }
    var (st1, e) := MakeRoom(st, new_, s, replace, opts, Count);
    if e.None? { MakeRoomKeeps(st1, new_, s, replace, opts, Memory); }
  }

  lemma NoLimitNoRoom(st: PoolState, new_: Tx, s: Scoring, replace: Replace, opts: Options)
    requires Inv(st, s) && Lawful(s)
    ensures HasRoom(st, new_.body, opts) <==> !OverLimit(st, new_, opts, Count) && !OverLimit(st, new_, opts, Memory)
    ensures forall limit :: !OverLimit(st, new_, opts, limit) ==> MakeRoom(st, new_, s, replace, opts, limit) == (st, None)
  {
    hide Inv, Lawful;
  }

  /**
   * Without room the rule's answer on the worst transaction decides: the newcomer is refused and
   * nothing else happens, the worst one leaves, or nothing is evicted and the newcomer enters its
   * sender's list.
   */
  lemma ImportJudged(st: PoolState, body: Body, s: Scoring, replace: Replace, opts: Options, t: Tx, score: Score)
    requires Inv(st, s) && Lawful(s) && opts.maxPerSender > 0 && body.hash !in st.byHash
    requires (|st.byHash| + 1 > opts.maxCount || st.mem + body.mem > opts.maxMem) && IsWorst(st.lists, t, score)
    ensures var (st', r) := Import(st, body, s, replace, opts);
      var new_ := Tx(st.lastId + 1, body);
      match Answer(st, t, new_, replace)
      case RejectNew => st' == Numbered(st) && r == Err(TooCheapEnter(body.hash))
      case ReplaceOld => !Pooled(st'.lists, t)
      case InsertNew => Stays(st, st', body, r)
  {
    hide Inv, Lawful, IsWorst, Fresh, MakeAllRoom, Enter, Add, EnteredAs, Answer, Pooled, Stays;
    var new_ := Tx(st.lastId + 1, body);
    NextId(st, s);
    SameWorst(st, t, score, new_, replace);
    AllRoomDecides(Numbered(st), t, score, new_, s, replace, opts);
    MakeAllRoomKeeps(Numbered(st), new_, s, replace, opts);
    var (st2, e) := MakeAllRoom(Numbered(st), new_, s, replace, opts);
    if e.None? {
      StillFresh(st, st2, new_, s);
      EnterInv(st2, new_, s, opts);
      if Answer(st, t, new_, replace) == InsertNew { RoomStays(st, st2, new_, s, opts); }
    }
    if Answer(st, t, new_, replace) == ReplaceOld {
      IndexedWorst(st, t, score, s);
      ImportInv(st, body, s, replace, opts);
      LeavesForGood(st, st2, t, new_, s, replace, opts);
    }
  }

  lemma SameWorst(st: PoolState, t: Tx, score: Score, new_: Tx, replace: Replace)
    ensures IsWorst(Numbered(st).lists, t, score) <==> IsWorst(st.lists, t, score)
    ensures Answer(Numbered(st), t, new_, replace) == Answer(st, t, new_, replace)
  {
    hide IsWorst;
  }

  lemma IndexedWorst(st: PoolState, t: Tx, score: Score, s: Scoring)
    requires Inv(st, s) && IsWorst(st.lists, t, score)
    ensures t.body.hash in st.byHash
  {
    hide FrontierOk, ListsOk, MemSum, Pooled, IsEnd, EndsBy;
  }

  /** Once out of the index, a transaction does not come back with the newcomer. */
  lemma LeavesForGood(st: PoolState, st2: PoolState, t: Tx, new_: Tx, s: Scoring, replace: Replace, opts: Options)
    requires Inv(st, s) && Lawful(s) && opts.maxPerSender > 0 && new_.body.hash !in st.byHash && new_.id == st.lastId + 1
    requires Inv(Numbered(st), s) && st2 == MakeAllRoom(Numbered(st), new_, s, replace, opts).0
    requires t.body.hash in st.byHash && t.body.hash !in st2.byHash
    ensures !Pooled(Import(st, new_.body, s, replace, opts).0.lists, t)
  {
    hide Inv, Lawful, Fresh, MakeAllRoom, Enter, Add, Pooled, Reindexed;
    MakeAllRoomKeeps(Numbered(st), new_, s, replace, opts);
    var (_, e) := MakeAllRoom(Numbered(st), new_, s, replace, opts);
    NotIndexedNotPooled(st2, t, s);
    if e.None? {
      StillFresh(st, st2, new_, s);
      EnterInv(st2, new_, s, opts);
    }
  }

  // ---------- Scores ----------

  /** The entries of one sender in an ordered set: exactly one, under this score. */
  ghost predicate OnlyEntry(f: Frontier, sender: Sender, score: Score, t: Tx) {
    && (score, t.id) in f && f[(score, t.id)] == t
    && forall k :: k in f && f[k].body.sender == sender ==> k == (score, t.id)
  }

  /** The entries of all other senders are the same. */
  ghost predicate OthersSame(f: Frontier, f': Frontier, sender: Sender) {
    && (forall k :: k in f && f[k].body.sender != sender ==> k in f' && f'[k] == f[k])
    && (forall k :: k in f' && f'[k].body.sender != sender ==> k in f && f[k] == f'[k])
  }

  /** The sender's list has these scores, the ordered sets hold its ends under them, and all other senders have what they had. */
  ghost predicate Rescores(st: PoolState, st': PoolState, sender: Sender, txs: seq<Tx>, scores: seq<Score>) {
    && st'.lists == st.lists[sender := TxList(txs, scores)]
    && |txs| == |scores| > 0
    && OnlyEntry(st'.best, sender, scores[0], txs[0]) && OthersSame(st.best, st'.best, sender)
    && OnlyEntry(st'.worst, sender, scores[|txs| - 1], txs[|txs| - 1]) && OthersSame(st.worst, st'.worst, sender)
  }

  /**
   * Rescoring gives the sender's transactions the scores that the scoring answers, moves its first
   * and last one to their new places in the ordered sets, and touches nothing of any other sender.
   */
  lemma UpdateScoresMoves(st: PoolState, sender: Sender, event: nat, s: Scoring)
    requires Inv(st, s) && Lawful(s) && sender in st.lists
    ensures |ListOf(st.lists, sender).txs| == |ListOf(st.lists, sender).scores|
    ensures var st' := UpdateScores(st, sender, event, s);
      var txs := st.lists[sender].txs;
      Rescores(st, st', sender, txs, s.updateScores(txs, st.lists[sender].scores, Event(event)))
  {
    hide *;
    ListSize(st, sender, s);
    UpdateScoresInv(st, sender, event, s);
    RescoredList(st, sender, event, s);
    EntriesMove(st, UpdateScores(st, sender, event, s), sender, s);
  }

  lemma EntriesMove(st: PoolState, st': PoolState, sender: Sender, s: Scoring)
    requires Inv(st, s) && Inv(st', s) && sender in st'.lists && st'.lists == st.lists[sender := st'.lists[sender]]
    ensures Rescores(st, st', sender, st'.lists[sender].txs, st'.lists[sender].scores)
  {
    hide *;
    ListsOfInv(st, s);
    ListsOfInv(st', s);
    FrontierEntries(st.best, st'.best, st.lists, st'.lists, sender, true, s);
    FrontierEntries(st.worst, st'.worst, st.lists, st'.lists, sender, false, s);
    RescoresFrom(st, st', sender);
  }

  lemma RescoresFrom(st: PoolState, st': PoolState, sender: Sender)
    requires sender in st'.lists && st'.lists == st.lists[sender := st'.lists[sender]]
    requires EntriesAre(st.best, st'.best, st'.lists[sender], sender, true)
    requires EntriesAre(st.worst, st'.worst, st'.lists[sender], sender, false)
    ensures Rescores(st, st', sender, st'.lists[sender].txs, st'.lists[sender].scores)
  {
    hide OnlyEntry, OthersSame;
  }

  /** From f to f' only this sender's entry has changed, and is now the first or the last of its list. */
  ghost predicate EntriesAre(f: Frontier, f': Frontier, l: TxList, sender: Sender, first: bool) {
    && l.txs != [] && |l.txs| == |l.scores|
    && var i := if first then 0 else |l.txs| - 1;
    OnlyEntry(f', sender, l.scores[i], l.txs[i]) && OthersSame(f, f', sender)
  }

  lemma RescoredList(st: PoolState, sender: Sender, event: nat, s: Scoring)
    requires Inv(st, s) && Lawful(s) && sender in st.lists && |ListOf(st.lists, sender).txs| == |ListOf(st.lists, sender).scores|
    ensures var l := st.lists[sender];
      UpdateScores(st, sender, event, s).lists == st.lists[sender := TxList(l.txs, s.updateScores(l.txs, l.scores, Event(event)))]
  {
    hide Inv, Lawful, Commit, ListsOk, FrontierOk, SetList;
    ListsOfInv(st, s);
    var l := st.lists[sender];
    ScoreCount(s, l.txs, l.scores, Event(event));
    var l' := Rescored(l.txs, l.scores, s, Event(event));
    CommitRest(st, sender, l');
    FullList(st.lists, sender, s);
    OneListSet(st.lists, sender, l');
  }

  lemma FullList(lists: map<Sender, TxList>, sender: Sender, s: Scoring)
    requires ListsOk(lists, s) && sender in lists
    ensures lists[sender].txs != []
  {}

  lemma OneListSet(lists: map<Sender, TxList>, sender: Sender, l: TxList)
    requires l.txs != []
    ensures SetList(lists, sender, l) == lists[sender := l]
  {}

  lemma FrontierEntries(f: Frontier, f': Frontier, lists: map<Sender, TxList>, lists': map<Sender, TxList>, sender: Sender, first: bool, s: Scoring)
    requires ListsOk(lists, s) && FrontierOk(f, lists, first) && ListsOk(lists', s) && FrontierOk(f', lists', first)
    requires sender in lists' && lists' == lists[sender := lists'[sender]]
    ensures EntriesAre(f, f', lists'[sender], sender, first)
  {
    hide ListsOk, FrontierOk, Ordered, OnlyEntry;
    FullList(lists', sender, s);
    EntryOf(f', lists', sender, first, s);
    forall k | k in f && f[k].body.sender != sender ensures k in f' && f'[k] == f[k] {
      SameEntry(f, f', lists, lists', f[k].body.sender, first, s, k);
    }
    forall k | k in f' && f'[k].body.sender != sender ensures k in f && f[k] == f'[k] {
      SameEntry(f', f, lists', lists, f'[k].body.sender, first, s, k);
    }
  }

  lemma EntryOf(f: Frontier, lists: map<Sender, TxList>, sender: Sender, first: bool, s: Scoring)
    requires ListsOk(lists, s) && FrontierOk(f, lists, first) && sender in lists && lists[sender].txs != []
    ensures var l := lists[sender];
      && |l.txs| == |l.scores|
      && var i := if first then 0 else |l.txs| - 1;
      OnlyEntry(f, sender, l.scores[i], l.txs[i])
  {
    hide ListsOk, FrontierOk;
    FrontierHas(f, lists, first, s, sender);
    forall k | k in f && f[k].body.sender == sender ensures End(lists[sender], first) == Some((k.0, f[k])) && k.1 == f[k].id {
      FrontierPooled(f, lists, first, s, k);
    }
    forall k | k in f && f[k].body.sender == sender ensures k == KeyOf(End(lists[sender], first).value) {
      assert k == (k.0, k.1);
    }
  }

  lemma SameEntry(f: Frontier, f': Frontier, lists: map<Sender, TxList>, lists': map<Sender, TxList>, other: Sender, first: bool, s: Scoring,
                  k: (Score, nat))
    requires ListsOk(lists, s) && FrontierOk(f, lists, first) && ListsOk(lists', s) && FrontierOk(f', lists', first)
    requires k in f && f[k].body.sender == other
    requires other in lists ==> other in lists' && lists'[other] == lists[other]
    ensures k in f' && f'[k] == f[k]
  {
    hide ListsOk, FrontierOk, End;
    FrontierPooled(f, lists, first, s, k);
    EndOfPooled(lists, f[k]);
    FrontierHas(f', lists', first, s, other);
    assert k == (k.0, k.1);
  }

  /** An event for a sender without transactions changes nothing. */
  lemma UpdateScoresNone(st: PoolState, sender: Sender, event: nat, s: Scoring)
    requires Lawful(s) && sender !in st.lists
    ensures UpdateScores(st, sender, event, s) == st
  {
    hide Lawful;
  }

  // ---------- Ids ----------

  /** Every newcomer with an unknown hash takes an id of its own, accepted or not; nothing gives one back. */
  lemma StepIds(st: PoolState, op: Op, s: Scoring, opts: Options)
    requires Inv(st, s) && Lawful(s) && opts.maxPerSender > 0
    ensures Step(st, op, s, opts).lastId == st.lastId + if op.ImportOp? && op.body.hash !in st.byHash then 1 else 0
  {
    hide Inv, Lawful, Import, RemoveByHash, CullSenders, Commit, Pooled;
    match op
    case ImportOp(body, replace) => ImportIds(st, body, s, replace, opts);
    case RemoveOp(hash) => RemoveInv(st, hash, s);
    case CullOp(senders, ready) => CullIds(st, senders, ready, [], s);
    case UpdateScoresOp(sender, event) =>
      ListSize(st, sender, s);
      if sender in st.lists {
        var l := st.lists[sender];
        ScoreCount(s, l.txs, l.scores, Event(event));
        CommitRest(st, sender, Rescored(l.txs, l.scores, s, Event(event)));
      }
    case ClearOp =>
  }

  lemma ImportIds(st: PoolState, body: Body, s: Scoring, replace: Replace, opts: Options)
    requires Inv(st, s) && Lawful(s) && opts.maxPerSender > 0
    ensures Import(st, body, s, replace, opts).0.lastId == st.lastId + if body.hash in st.byHash then 0 else 1
  {
    hide Inv, Lawful, Fresh, MakeAllRoom, Enter, Add, Pooled, Reindexed;
    if body.hash !in st.byHash {
      var new_ := Tx(st.lastId + 1, body);
      NextId(st, s);
      MakeAllRoomKeeps(Numbered(st), new_, s, replace, opts);
      var (st2, e) := MakeAllRoom(Numbered(st), new_, s, replace, opts);
      if e.None? {
        StillFresh(st, st2, new_, s);
        EnterInv(st2, new_, s, opts);
      }
    }
  }

  lemma {:induction false} CullIds(st: PoolState, senders: seq<Sender>, ready: ReadyFn, asked: seq<Body>, s: Scoring)
    requires Inv(st, s) && Lawful(s)
    ensures CullSenders(st, senders, ready, asked, s).0.lastId == st.lastId
    decreases |senders|
  {
    hide Inv, Lawful, RemoveStalled;
    if senders != [] {
      RemoveStalledInv(st, senders[0], ready, asked, s);
      StalledIds(st, senders[0], ready, asked, s);
      var (st1, _, after) := RemoveStalled(st, senders[0], ready, asked, s);
      CullIds(st1, senders[1..], ready, after, s);
    }
  }

  lemma StalledIds(st: PoolState, sender: Sender, ready: ReadyFn, asked: seq<Body>, s: Scoring)
    requires Inv(st, s) && Lawful(s)
    ensures RemoveStalled(st, sender, ready, asked, s).0.lastId == st.lastId
  {
    hide Inv, Lawful, Cull, TakeOut, Leaves, Pooled;
    if sender in st.lists {
      CullLeaves(st, sender, ready, asked, s);
      var (l, removed, _) := Cull(st.lists[sender], ready, asked, s);
      TakeOutInv(st, sender, l, removed, s);
    }
  }
}
