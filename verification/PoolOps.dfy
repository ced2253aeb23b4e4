/** The operations of the pool, what they keep, and what they do to its contents. */
module PoolOps {
  import opened Wrappers
  import opened PoolList
  import opened PoolModel

  datatype Error =
    | AlreadyImported(hash: Hash)
    | TooCheapToReplace(existing: Hash, hash: Hash)
    | TooCheapEnter(hash: Hash)

  /** A transaction to be compared, and what it is said its sender has in the pool. */
  datatype ReplaceTransaction = ReplaceTransaction(tx: Tx, pooledBySender: Option<seq<Tx>>)

  /** A `ShouldReplace` implementation: shall the second push the first out? */
  type Replace = (ReplaceTransaction, ReplaceTransaction) -> Choice

  // ---------- The worst transaction ----------

  /** The order of the ordered sets: higher scores first, then older transactions. */
  predicate Before(a: (Score, nat), b: (Score, nat)) {
    a.0 > b.0 || (a.0 == b.0 && a.1 < b.1)
  }

  predicate IsLast(keys: set<(Score, nat)>, k: (Score, nat)) {
    k in keys && forall j :: j in keys ==> j == k || Before(j, k)
  }

  lemma {:induction false} LastExists(keys: set<(Score, nat)>)
    requires keys != {}
    ensures exists k :: k in keys && IsLast(keys, k)
    decreases |keys|
  {
    var a :| a in keys;
    var rest := keys - {a};
    assert forall j :: j in keys <==> j == a || j in rest;
    if rest == {} {
      assert IsLast(keys, a);
    } else {
      LastExists(rest);
      var k :| k in rest && IsLast(rest, k);
      if Before(a, k) {
        assert IsLast(keys, k);
      } else {
        forall j | j in keys ensures j == a || Before(j, a) {
          assert j == a || j == k || Before(j, k);
          assert (j.0, j.1) == j && (a.0, a.1) == a && (k.0, k.1) == k;
        }
        assert IsLast(keys, a);
      }
    }
  }

  lemma LastUnique(keys: set<(Score, nat)>, j: (Score, nat), k: (Score, nat))
    requires IsLast(keys, j) && IsLast(keys, k)
    ensures j == k
  {}

  /** The last element of an ordered set. */
  ghost function LastKey(keys: set<(Score, nat)>): (k: (Score, nat))
    requires keys != {}
    ensures IsLast(keys, k)
  {
    LastExists(keys);
    var k :| k in keys && IsLast(keys, k);
    k
  }

  function PooledBySender(st: PoolState, sender: Sender): Option<seq<Tx>> {
    if sender in st.lists then Some(st.lists[sender].txs) else None
  }

  datatype Verdict = Failed(error: Error) | Undecided | Evict(tx: Tx)

  /** `remove_worst`, up to the removal itself: both sides are given what the new one's sender has. */
  ghost function JudgeWorst(st: PoolState, new_: Tx, replace: Replace): Verdict {
    if st.worst == map[] then Failed(TooCheapEnter(new_.body.hash))
    else Judge(st.worst[LastKey(st.worst.Keys)], PooledBySender(st, new_.body.sender), st, new_, replace)
  }

  /** The verdict on a worst transaction, given some list as its own sender's. */
  function Judge(worst: Tx, given: Option<seq<Tx>>, st: PoolState, new_: Tx, replace: Replace): Verdict {
    match replace(ReplaceTransaction(worst, given), ReplaceTransaction(new_, PooledBySender(st, new_.body.sender)))
    case InsertNew => Undecided
    case ReplaceOld => Evict(worst)
    case RejectNew => Failed(TooCheapEnter(new_.body.hash))
  }

  /** The same, if the worst transaction came with what its own sender has, as is documented. */
  ghost function JudgeAsDocumented(st: PoolState, new_: Tx, replace: Replace): Verdict {
    if st.worst == map[] then Failed(TooCheapEnter(new_.body.hash))
    else
      var worst := st.worst[LastKey(st.worst.Keys)];
      Judge(worst, PooledBySender(st, worst.body.sender), st, new_, replace)
  }

  /** Whatever an ordered set holds is in the pool. */
  lemma FrontierPooled(f: Frontier, lists: map<Sender, TxList>, first: bool, s: Scoring, k: (Score, nat))
    requires ListsOk(lists, s) && FrontierOk(f, lists, first) && k in f
    ensures Pooled(lists, f[k]) && k.1 == f[k].id
    ensures |lists[f[k].body.sender].txs| == |lists[f[k].body.sender].scores|
    ensures End(lists[f[k].body.sender], first) == Some((k.0, f[k]))
  {
    hide Ordered, End;
    EndListed(lists[f[k].body.sender], f[k].body.sender, s, first);
  }

  lemma FrontierHas(f: Frontier, lists: map<Sender, TxList>, first: bool, s: Scoring, sender: Sender)
    requires ListsOk(lists, s) && FrontierOk(f, lists, first) && sender in lists
    ensures |lists[sender].txs| == |lists[sender].scores|
    ensures var e := End(lists[sender], first);
      e.Some? && KeyOf(e.value) in f && f[KeyOf(e.value)] == e.value.1 && e.value.1.body.sender == sender
  {
    hide Ordered, End;
    EndListed(lists[sender], sender, s, first);
  }

  /** The last transaction of this list has a higher score, or the same and an id that is not larger. */
  ghost predicate EndsBy(l: TxList, score: Score, id: nat) {
    && |l.txs| == |l.scores| && l.txs != []
    && var n := |l.txs| - 1;
    l.scores[n] > score || (l.scores[n] == score && l.txs[n].id <= id)
  }

  /** t is its sender's last transaction; no sender's last one has a lower score, and of those with its score it is the newest. */
  ghost predicate IsWorst(lists: map<Sender, TxList>, t: Tx, score: Score) {
    && Pooled(lists, t)
    && IsEnd(lists[t.body.sender], t, score)
    && forall sender :: sender in lists ==> EndsBy(lists[sender], score, t.id)
  }

  ghost predicate IsEnd(l: TxList, t: Tx, score: Score) {
    |l.txs| == |l.scores| && l.txs != [] && l.txs[|l.txs| - 1] == t && l.scores[|l.txs| - 1] == score
  }

  lemma LastIsWorst(st: PoolState, k: (Score, nat), s: Scoring)
    requires Inv(st, s) && IsLast(st.worst.Keys, k)
    ensures k in st.worst && IsWorst(st.lists, st.worst[k], k.0)
  {
    hide *;
    ListsOfInv(st, s);
    AllEndBy(st.worst, st.lists, k, s);
    FrontierPooled(st.worst, st.lists, false, s, k);
    PooledListed(st.lists, st.worst[k]);
    WorstFrom(st.lists, st.worst[k], k);
  }

  lemma AllEndBy(f: Frontier, lists: map<Sender, TxList>, k: (Score, nat), s: Scoring)
    requires ListsOk(lists, s) && FrontierOk(f, lists, false) && IsLast(f.Keys, k)
    ensures k in f && forall sender :: sender in lists ==> EndsBy(lists[sender], k.0, k.1)
  {
    hide ListsOk, FrontierOk, Before, End, IsLast, EndsBy;
    LastBound(f.Keys, k, k);
    forall sender | sender in lists ensures EndsBy(lists[sender], k.0, k.1) {
      FrontierHas(f, lists, false, s, sender);
      LastBound(f.Keys, k, KeyOf(End(lists[sender], false).value));
      EndsByKey(lists[sender], k);
    }
  }

  lemma EndsByKey(l: TxList, k: (Score, nat))
    requires |l.txs| == |l.scores| && End(l, false).Some?
    requires KeyOf(End(l, false).value) == k || Before(KeyOf(End(l, false).value), k)
    ensures EndsBy(l, k.0, k.1)
  {}

  lemma WorstFrom(lists: map<Sender, TxList>, t: Tx, k: (Score, nat))
    requires Pooled(lists, t) && |lists[t.body.sender].txs| == |lists[t.body.sender].scores| && k.1 == t.id
    requires End(lists[t.body.sender], false) == Some((k.0, t))
    requires forall sender :: sender in lists ==> EndsBy(lists[sender], k.0, k.1)
    ensures IsWorst(lists, t, k.0)
  {
    hide EndsBy;
  }

  lemma PooledListed(lists: map<Sender, TxList>, t: Tx)
    requires Pooled(lists, t)
    ensures t.body.sender in lists
  {}

  lemma LastBound(keys: set<(Score, nat)>, k: (Score, nat), j: (Score, nat))
    requires IsLast(keys, k)
    ensures k in keys && (j in keys ==> j == k || Before(j, k))
  {}

  /** Only the worst transaction of the whole pool is ever evicted. */
  lemma EvictsPooled(st: PoolState, new_: Tx, replace: Replace, s: Scoring)
    requires Inv(st, s) && JudgeWorst(st, new_, replace).Evict?
    ensures Pooled(st.lists, JudgeWorst(st, new_, replace).tx)
    ensures exists score :: IsWorst(st.lists, JudgeWorst(st, new_, replace).tx, score)
  {
    hide Inv, Pooled, End, IsLast, EndsBy, IsEnd;
    LastIsWorst(st, LastKey(st.worst.Keys), s);
  }

  // ---------- What the replacement rule is told ----------

  /** The worst transaction comes with its own sender's list exactly when both have the same sender. */
  lemma GivenOwnList(st: PoolState, worst: Tx, new_: Tx, s: Scoring)
    requires Pooled(st.lists, worst) && ListsOk(st.lists, s)
    ensures PooledBySender(st, new_.body.sender) == PooledBySender(st, worst.body.sender) <==>
              worst.body.sender == new_.body.sender
  {
    hide ListsOk;
    if PooledBySender(st, new_.body.sender) == PooledBySender(st, worst.body.sender) {
      ListedSender(st.lists, new_.body.sender, worst, s);
    }
  }

  lemma ListedSender(lists: map<Sender, TxList>, sender: Sender, t: Tx, s: Scoring)
    requires ListsOk(lists, s) && sender in lists && t in lists[sender].txs
    ensures t.body.sender == sender
  {}

  lemma WorstGiven(st: PoolState, new_: Tx, s: Scoring, k: (Score, nat))
    requires Inv(st, s) && IsLast(st.worst.Keys, k)
    ensures k in st.worst
    ensures PooledBySender(st, new_.body.sender) == PooledBySender(st, st.worst[k].body.sender) <==>
              st.worst[k].body.sender == new_.body.sender
  {
    hide *;
    ListsOfInv(st, s);
    LastBound(st.worst.Keys, k, k);
    FrontierPooled(st.worst, st.lists, false, s, k);
    GivenOwnList(st, st.worst[k], new_, s);
  }

  /** Every rule judges as documented exactly when the worst transaction is the new one's own sender's. */
  lemma JudgedAsDocumented(st: PoolState, new_: Tx, s: Scoring)
    requires Inv(st, s) && st.worst != map[]
    ensures (forall replace: Replace :: JudgeWorst(st, new_, replace) == JudgeAsDocumented(st, new_, replace)) <==>
              st.worst[LastKey(st.worst.Keys)].body.sender == new_.body.sender
  {
    hide Inv, IsLast, PooledBySender, Judge;
    var k := LastKey(st.worst.Keys);
    WorstGiven(st, new_, s, k);
    var given, own := PooledBySender(st, new_.body.sender), PooledBySender(st, st.worst[k].body.sender);
    if given != own {
      var replace := JudgedApart(st.worst[k], given, own, st, new_);
      assert JudgeWorst(st, new_, replace) != JudgeAsDocumented(st, new_, replace);
    }
  }

  /** Some rule tells any two lists apart. */
  lemma JudgedApart(worst: Tx, given: Option<seq<Tx>>, own: Option<seq<Tx>>, st: PoolState, new_: Tx) returns (replace: Replace)
    requires given != own
    ensures Judge(worst, given, st, new_, replace) != Judge(worst, own, st, new_, replace)
  {
    replace := (o: ReplaceTransaction, n: ReplaceTransaction) => if o.pooledBySender == own then ReplaceOld else RejectNew;
  }

  /** A pool with the one transaction t under the given score. */
  function PoolOfOne(t: Tx, score: Score): PoolState {
    PoolState(map[t.body.sender := TxList([t], [score])], map[t.body.hash := t],
              map[(score, t.id) := t], map[(score, t.id) := t], t.body.mem, t.id)
  }

  lemma PoolOfOneInv(t: Tx, score: Score, s: Scoring)
    ensures Inv(PoolOfOne(t, score), s)
  {
    hide MemSum;
    MemSumAdd(map[], t);
    EmptyMem();
    assert map[][t.body.hash := t] == map[t.body.hash := t];
  }

  lemma EmptyMem()
    ensures MemSum(map[]) == 0
  {}

  /** One transaction of sender 0 and a newcomer of sender 1: the old side is said to have nothing pooled. */
  lemma GivenOtherList(s: Scoring)
    ensures var (t, n) := (Tx(1, Body(10, 0, 1)), Tx(2, Body(11, 1, 1)));
      var st := PoolOfOne(t, 5);
      && Inv(st, s) && st.worst[LastKey(st.worst.Keys)] == t
      && PooledBySender(st, n.body.sender) == None && PooledBySender(st, t.body.sender) == Some([t])
  {
    hide Inv, IsLast;
    var t := Tx(1, Body(10, 0, 1));
    PoolOfOneInv(t, 5, s);
    OnlyKey(PoolOfOne(t, 5).worst, (5, 1), t);
  }

  lemma OnlyKey(f: Frontier, k: (Score, nat), t: Tx)
    requires f == map[k := t]
    ensures f.Keys == {k} && LastKey(f.Keys) == k
  {
    assert f.Keys == {k};
  }

  // ---------- Making room ----------

  datatype Limit = Count | Memory

  predicate OverLimit(st: PoolState, new_: Tx, opts: Options, limit: Limit) {
    match limit
    case Count => |st.byHash| + 1 > opts.maxCount
    case Memory => st.mem + new_.body.mem > opts.maxMem
  }

  /** One of the two eviction loops of `import`. Every pass removes one indexed transaction. */
  ghost function MakeRoom(st: PoolState, new_: Tx, s: Scoring, replace: Replace, opts: Options, limit: Limit)
    : (PoolState, Option<Error>)
    requires Inv(st, s) && Lawful(s)
    decreases |st.byHash|
  {
    hide Inv, Lawful, Drop, Pooled;
    if !OverLimit(st, new_, opts, limit) then (st, None)
    else
      match JudgeWorst(st, new_, replace)
      case Failed(e) => (st, Some(e))
      case Undecided => (st, None)
      case Evict(t) =>
        EvictsPooled(st, new_, replace, s);
        DropInv(st, t, s);
        MakeRoom(Drop(st, t, s), new_, s, replace, opts, limit)
  }

  ghost predicate NeverBoth(replace: Replace) {
    forall o, n :: replace(o, n) != InsertNew
  }

  /** Nothing new comes in while room is made. */
  ghost predicate Shrinks(st: PoolState, st': PoolState) {
    && st'.lastId == st.lastId && |st'.byHash| <= |st.byHash| && st'.mem <= st.mem
    && (forall h :: h in st'.byHash ==> h in st.byHash && st'.byHash[h] == st.byHash[h])
  }

  lemma JudgeAnswers(st: PoolState, new_: Tx, replace: Replace)
    ensures NeverBoth(replace) ==> !JudgeWorst(st, new_, replace).Undecided?
    ensures JudgeWorst(st, new_, replace).Failed? ==> JudgeWorst(st, new_, replace).error == TooCheapEnter(new_.body.hash)
  {
    hide IsLast;
  }

  lemma {:induction false} MakeRoomKeeps(st: PoolState, new_: Tx, s: Scoring, replace: Replace, opts: Options, limit: Limit)
    requires Inv(st, s) && Lawful(s)
    ensures var (st', e) := MakeRoom(st, new_, s, replace, opts, limit);
      && Inv(st', s) && Shrinks(st, st')
      && (e.Some? ==> e.value.TooCheapEnter?)
      && (NeverBoth(replace) && e.None? ==> !OverLimit(st', new_, opts, limit))
    decreases |st.byHash|
  {
    hide Inv, Lawful, Drop, Pooled, JudgeWorst, NeverBoth, OverLimit, IsWorst;
    JudgeAnswers(st, new_, replace);
    if OverLimit(st, new_, opts, limit) && JudgeWorst(st, new_, replace).Evict? {
      var t := JudgeWorst(st, new_, replace).tx;
      EvictsPooled(st, new_, replace, s);
      DropInv(st, t, s);
      MakeRoomKeeps(Drop(st, t, s), new_, s, replace, opts, limit);
    }
  }

  // ---------- Import ----------

  /** Adds a transaction with a fresh hash and id; all limits but the sender's are checked before. */
  function Enter(st: PoolState, new_: Tx, s: Scoring, opts: Options): (PoolState, Result<Tx, Error>)
    requires opts.maxPerSender > 0 && Lawful(s)
    requires |ListOf(st.lists, new_.body.sender).txs| == |ListOf(st.lists, new_.body.sender).scores|
    requires var l := Add(ListOf(st.lists, new_.body.sender), new_, s, opts.maxPerSender).0; |l.txs| == |l.scores|
  {
    var (l, r) := Add(ListOf(st.lists, new_.body.sender), new_, s, opts.maxPerSender);
    var st' := Commit(st, new_.body.sender, l);
    match r
    case Added(t) => (FinalizeInsert(st', t, None), Ok(t))
    case Replaced(displaced, t) => (FinalizeInsert(st', t, Some(displaced)), Ok(t))
    case PushedOut(displaced, t) => (FinalizeInsert(st', t, Some(displaced)), Ok(t))
    case TooCheap(existing, t) => (st', Err(TooCheapToReplace(existing.body.hash, t.body.hash)))
    case TooCheapToEnter(t, _) => (st', Err(TooCheapEnter(t.body.hash)))
  }

  /** The id and hash of the newcomer are new to the pool. */
  ghost predicate Fresh(st: PoolState, new_: Tx) {
    && new_.body.hash !in st.byHash
    && forall h :: h in st.byHash ==> st.byHash[h].id < new_.id
  }

  /** What entering does: the newcomer is in and at most one of its sender's is out, or nothing changes. */
  ghost predicate EnteredAs(st: PoolState, st': PoolState, new_: Tx, r: Result<Tx, Error>, displaced: Option<Tx>) {
    && st'.lastId == st.lastId
    && (r.Ok? ==>
          && r.value == new_
          && (displaced.Some? ==> Pooled(st.lists, displaced.value) && displaced.value.body.sender == new_.body.sender)
          && (forall t :: Pooled(st'.lists, t) <==> (Pooled(st.lists, t) && displaced != Some(t)) || t == new_)
          && st'.byHash == Reindexed(st.byHash, new_, displaced)
          && |st'.byHash| <= |st.byHash| + 1 && st'.mem <= st.mem + new_.body.mem)
    && (r.Err? ==>
          && !r.error.AlreadyImported?
          && (forall t :: Pooled(st'.lists, t) <==> Pooled(st.lists, t))
          && st'.byHash == st.byHash && st'.mem == st.mem)
  }

  lemma FreshUnlisted(st: PoolState, new_: Tx, s: Scoring)
    requires Inv(st, s) && Fresh(st, new_)
    ensures new_ !in ListOf(st.lists, new_.body.sender).txs
    ensures Ordered(ListOf(st.lists, new_.body.sender), new_.body.sender, s)
  {
    hide FrontierOk, MemSum;
    PooledSender(st.lists, s, new_.body.sender, new_);
  }

  /** The newcomer has its own id and hash, so everything in play stays apart. */
  lemma ApartWithNew(st: PoolState, l: TxList, new_: Tx, s: Scoring)
    requires Inv(st, s) && Fresh(st, new_) && forall t :: t in l.txs ==> t == new_ || Pooled(st.lists, t)
    ensures Apart(st.lists, l)
  {
    hide FrontierOk, ListsOk, Pooled, MemSum;
  }

  /** What became of the sender's list, and that everything in it came from the pool or is new. */
  ghost predicate EntersList(st: PoolState, l: TxList, r: AddResult, new_: Tx, s: Scoring) {
    && Ordered(l, new_.body.sender, s) && r.tx == new_
    && (Evicted(r).Some? ==> Pooled(st.lists, Evicted(r).value) && Evicted(r).value.body.sender == new_.body.sender)
    && forall t :: t in l.txs <==>
         (Pooled(st.lists, t) && t.body.sender == new_.body.sender && Evicted(r) != Some(t)) || (t == new_ && Entered(r))
  }

  lemma AddEnters(st: PoolState, new_: Tx, s: Scoring, opts: Options)
    requires Inv(st, s) && Lawful(s) && Fresh(st, new_) && opts.maxPerSender > 0
    ensures |ListOf(st.lists, new_.body.sender).txs| == |ListOf(st.lists, new_.body.sender).scores|
    ensures var (l, r) := Add(ListOf(st.lists, new_.body.sender), new_, s, opts.maxPerSender);
      |l.txs| == |l.scores| && EntersList(st, l, r, new_, s)
  {
    hide *;
    var sender := new_.body.sender;
    var old_ := ListOf(st.lists, sender);
    FreshUnlisted(st, new_, s);
    Lengths(old_, sender, s);
    AddOrdered(old_, sender, s, new_, opts.maxPerSender);
    var (l, r) := Add(old_, new_, s, opts.maxPerSender);
    Lengths(l, sender, s);
    AddReports(old_, new_, s, opts.maxPerSender);
    ListsOfInv(st, s);
    AddMembers(old_, sender, s, new_, opts.maxPerSender, new_);
    if Evicted(r).Some? { PooledSender(st.lists, s, sender, Evicted(r).value); }
    forall t
      ensures t in l.txs <==>
                (Pooled(st.lists, t) && t.body.sender == sender && Evicted(r) != Some(t)) || (t == new_ && Entered(r))
    {
      AddMembers(old_, sender, s, new_, opts.maxPerSender, t);
      PooledSender(st.lists, s, sender, t);
    }
    EntersListIs(st, l, r, new_, s);
  }

  lemma EntersListIs(st: PoolState, l: TxList, r: AddResult, new_: Tx, s: Scoring)
    requires Ordered(l, new_.body.sender, s) && r.tx == new_
    requires Evicted(r).Some? ==> Pooled(st.lists, Evicted(r).value) && Evicted(r).value.body.sender == new_.body.sender
    requires forall t :: t in l.txs <==>
      (Pooled(st.lists, t) && t.body.sender == new_.body.sender && Evicted(r) != Some(t)) || (t == new_ && Entered(r))
    ensures EntersList(st, l, r, new_, s)
  {
    hide Ordered, Pooled, Evicted, Entered;
  }

  /** The hash index after a newcomer came in and another one perhaps left. */
  function Reindexed(byHash: map<Hash, Tx>, new_: Tx, gone: Option<Tx>): map<Hash, Tx> {
    var grown := byHash[new_.body.hash := new_];
    if gone.Some? then grown - {gone.value.body.hash} else grown
  }

  lemma ReindexedOk(lists: map<Sender, TxList>, lists': map<Sender, TxList>, byHash: map<Hash, Tx>, lastId: nat, new_: Tx, gone: Option<Tx>)
    requires Indexed(lists, byHash) && IdsOk(byHash, lastId) && new_.id <= lastId
    requires new_.body.hash !in byHash && forall h :: h in byHash ==> byHash[h].id < new_.id
    requires gone.Some? ==> Pooled(lists, gone.value)
    requires forall t :: Pooled(lists', t) <==> (Pooled(lists, t) && gone != Some(t)) || t == new_
    ensures Indexed(lists', Reindexed(byHash, new_, gone)) && IdsOk(Reindexed(byHash, new_, gone), lastId)
  {
    hide Pooled, Reindexed;
    ReindexedHas(lists, byHash, new_, gone);
    var b := Reindexed(byHash, new_, gone);
    forall t ensures Pooled(lists', t) <==> t.body.hash in b && b[t.body.hash] == t {
      assert Pooled(lists, t) <==> t.body.hash in byHash && byHash[t.body.hash] == t;
    }
  }

  lemma ReindexedHas(lists: map<Sender, TxList>, byHash: map<Hash, Tx>, new_: Tx, gone: Option<Tx>)
    requires Indexed(lists, byHash) && new_.body.hash !in byHash && (gone.Some? ==> Pooled(lists, gone.value))
    ensures var b := Reindexed(byHash, new_, gone);
      && |b| <= |byHash| + 1
      && (gone.Some? ==> |b| == |byHash| && gone.value.body.hash in byHash && byHash[gone.value.body.hash] == gone.value)
      && (forall h :: h in b <==> (h in byHash && gone != Some(byHash[h])) || h == new_.body.hash)
      && (forall h :: h in b ==> b[h] == if h == new_.body.hash then new_ else byHash[h])
  {
    hide Pooled;
    var grown := byHash[new_.body.hash := new_];
    assert grown.Keys == byHash.Keys + {new_.body.hash};
    if gone.Some? {
      var h := gone.value.body.hash;
      assert Pooled(lists, gone.value);
      assert (grown - {h}).Keys == grown.Keys - {h};
      assert |(grown - {h}).Keys| == |grown - {h}|;
    }
  }

  lemma ReindexedFrom(byHash: map<Hash, Tx>, new_: Tx, gone: Option<Tx>)
    ensures forall h :: h in Reindexed(byHash, new_, gone) ==>
              Reindexed(byHash, new_, gone)[h] == new_ || (h in byHash && Reindexed(byHash, new_, gone)[h] == byHash[h])
  {}

  /** The memory counter follows the index. */
  lemma FinalizeInsertIs(st: PoolState, new_: Tx, gone: Option<Tx>)
    requires st.mem == MemSum(st.byHash) && new_.body.hash !in st.byHash
    requires gone.Some? ==> gone.value.body.hash in st.byHash
    ensures var st' := FinalizeInsert(st, new_, gone);
      && st' == st.(byHash := Reindexed(st.byHash, new_, gone), mem := st'.mem)
      && st'.mem == MemSum(st'.byHash) && st'.mem <= st.mem + new_.body.mem
  {
    hide MemSum;
    MemSumAdd(st.byHash, new_);
    var grown := st.(mem := st.mem + new_.body.mem, byHash := st.byHash[new_.body.hash := new_]);
    if gone.Some? { FinalizeRemoveMem(grown, gone.value.body.hash); }
  }

  lemma EnterCases(st: PoolState, new_: Tx, s: Scoring, opts: Options)
    requires opts.maxPerSender > 0 && Lawful(s)
    requires |ListOf(st.lists, new_.body.sender).txs| == |ListOf(st.lists, new_.body.sender).scores|
    requires var (l, r) := Add(ListOf(st.lists, new_.body.sender), new_, s, opts.maxPerSender);
      |l.txs| == |l.scores| && r.tx == new_
    ensures var (l, r) := Add(ListOf(st.lists, new_.body.sender), new_, s, opts.maxPerSender);
      var (st', e) := Enter(st, new_, s, opts);
      var mid := Commit(st, new_.body.sender, l);
      && (Entered(r) ==> st' == FinalizeInsert(mid, new_, Evicted(r)) && e == Ok(new_))
      && (!Entered(r) ==> st' == mid && e.Err? && !e.error.AlreadyImported?)
  {
    hide Add, Commit, FinalizeInsert, Lawful;
  }

  /** Entering keeps all views in agreement. */
  lemma EnterInv(st: PoolState, new_: Tx, s: Scoring, opts: Options)
    requires Inv(st, s) && Lawful(s) && Fresh(st, new_) && opts.maxPerSender > 0 && new_.id <= st.lastId
    ensures |ListOf(st.lists, new_.body.sender).txs| == |ListOf(st.lists, new_.body.sender).scores|
    ensures var (l, r) := Add(ListOf(st.lists, new_.body.sender), new_, s, opts.maxPerSender);
      && |l.txs| == |l.scores|
      && var (st', e) := Enter(st, new_, s, opts);
      && Inv(st', s) && EnteredAs(st, st', new_, e, Evicted(r))
  {
    hide *;
    var sender := new_.body.sender;
    AddEnters(st, new_, s, opts);
    var (l, r) := Add(ListOf(st.lists, sender), new_, s, opts.maxPerSender);
    EnterCommits(st, l, r, new_, s);
    EnterCases(st, new_, s, opts);
    if Entered(r) {
      EnterIndexed(st, Commit(st, sender, l), r, new_, s);
    } else {
      EnterRefused(st, Commit(st, sender, l), r, new_, s, Enter(st, new_, s, opts).1);
    }
  }

  /** The lists and the ordered sets once the sender's list has been put back. */
  ghost predicate Committed(st: PoolState, mid: PoolState, r: AddResult, new_: Tx, s: Scoring) {
    && ListsOk(mid.lists, s) && FrontierOk(mid.best, mid.lists, true) && FrontierOk(mid.worst, mid.lists, false)
    && mid.byHash == st.byHash && mid.mem == st.mem && mid.lastId == st.lastId
    && (Evicted(r).Some? ==> Pooled(st.lists, Evicted(r).value) && Evicted(r).value.body.sender == new_.body.sender)
    && forall t :: Pooled(mid.lists, t) <==> (Pooled(st.lists, t) && Evicted(r) != Some(t)) || (t == new_ && Entered(r))
  }

  lemma EnterCommits(st: PoolState, l: TxList, r: AddResult, new_: Tx, s: Scoring)
    requires Inv(st, s) && Fresh(st, new_) && EntersList(st, l, r, new_, s)
    requires |ListOf(st.lists, new_.body.sender).txs| == |ListOf(st.lists, new_.body.sender).scores| && |l.txs| == |l.scores|
    ensures r.tx == new_ && Committed(st, Commit(st, new_.body.sender, l), r, new_, s)
  {
    hide Inv, Ordered, Commit, Pooled, Apart, ListsOk, FrontierOk, Evicted, Entered, Fresh;
    ListsOfInv(st, s);
    ApartWithNew(st, l, new_, s);
    CommitLists(st, new_.body.sender, l, s);
    CommitRest(st, new_.body.sender, l);
  }

  lemma EnterIndexed(st: PoolState, mid: PoolState, r: AddResult, new_: Tx, s: Scoring)
    requires Inv(st, s) && Fresh(st, new_) && new_.id <= st.lastId && Committed(st, mid, r, new_, s) && Entered(r)
    ensures var st' := FinalizeInsert(mid, new_, Evicted(r)); Inv(st', s) && EnteredAs(st, st', new_, Ok(new_), Evicted(r))
  {
    hide Inv, Pooled, ListsOk, FrontierOk, Reindexed, FinalizeInsert, Indexed, IdsOk, MemSum, Evicted, Entered;
    IndexOfInv(st, s);
    var gone := Evicted(r);
    ReindexedHas(st.lists, st.byHash, new_, gone);
    FinalizeInsertIs(mid, new_, gone);
    ReindexedOk(st.lists, mid.lists, st.byHash, st.lastId, new_, gone);
    InvFromParts(FinalizeInsert(mid, new_, gone), s);
  }

  lemma EnterRefused(st: PoolState, mid: PoolState, r: AddResult, new_: Tx, s: Scoring, e: Result<Tx, Error>)
    requires Inv(st, s) && Committed(st, mid, r, new_, s) && !Entered(r) && e.Err? && !e.error.AlreadyImported?
    ensures Inv(mid, s) && EnteredAs(st, mid, new_, e, Evicted(r))
  {
    hide Inv, Pooled, ListsOk, FrontierOk, Indexed, IdsOk, MemSum;
    IndexOfInv(st, s);
    SameIndex(st.lists, mid.lists, st.byHash);
    InvFromParts(mid, s);
  }

  lemma SameIndex(lists: map<Sender, TxList>, lists': map<Sender, TxList>, byHash: map<Hash, Tx>)
    requires Indexed(lists, byHash) && SamePooled(lists, lists')
    ensures Indexed(lists', byHash)
  {}

  lemma InvFromParts(st: PoolState, s: Scoring)
    requires ListsOk(st.lists, s) && FrontierOk(st.best, st.lists, true) && FrontierOk(st.worst, st.lists, false)
    requires Indexed(st.lists, st.byHash) && IdsOk(st.byHash, st.lastId) && st.mem == MemSum(st.byHash)
    ensures Inv(st, s)
  {}

  lemma IndexOfInv(st: PoolState, s: Scoring)
    requires Inv(st, s)
    ensures Indexed(st.lists, st.byHash) && IdsOk(st.byHash, st.lastId) && st.mem == MemSum(st.byHash)
  {}

  lemma ListsOfInv(st: PoolState, s: Scoring)
    requires Inv(st, s)
    ensures ListsOk(st.lists, s) && FrontierOk(st.best, st.lists, true) && FrontierOk(st.worst, st.lists, false)
  {}

  lemma CommitRest(st: PoolState, sender: Sender, l: TxList)
    requires |l.txs| == |l.scores|
    requires |ListOf(st.lists, sender).txs| == |ListOf(st.lists, sender).scores|
    ensures var st' := Commit(st, sender, l);
      st'.byHash == st.byHash && st'.mem == st.mem && st'.lastId == st.lastId && st'.lists == SetList(st.lists, sender, l)
  {}

  /** The result names the newcomer. */
  lemma AddReports(l: TxList, new_: Tx, s: Scoring, maxCount: nat)
    requires maxCount > 0 && |l.txs| == |l.scores| && Lawful(s)
    ensures Add(l, new_, s, maxCount).1.tx == new_
  {
    hide Position;
  }

  /** Both eviction loops, first for the count and then for the memory. */
  ghost function MakeAllRoom(st: PoolState, new_: Tx, s: Scoring, replace: Replace, opts: Options): (PoolState, Option<Error>)
    requires Inv(st, s) && Lawful(s)
  {
    hide Inv, Lawful, MakeRoom;
    MakeRoomKeeps(st, new_, s, replace, opts, Count);
    var (st1, e) := MakeRoom(st, new_, s, replace, opts, Count);
    if e.Some? then (st1, e) else MakeRoom(st1, new_, s, replace, opts, Memory)
  }

  lemma MakeAllRoomKeeps(st: PoolState, new_: Tx, s: Scoring, replace: Replace, opts: Options)
    requires Inv(st, s) && Lawful(s)
    ensures var (st', e) := MakeAllRoom(st, new_, s, replace, opts);
      && Inv(st', s) && Shrinks(st, st')
      && (e.Some? ==> e.value.TooCheapEnter?)
      && (NeverBoth(replace) && e.None? ==> |st'.byHash| + 1 <= opts.maxCount && st'.mem + new_.body.mem <= opts.maxMem)
  {
    hide Inv, Lawful, MakeRoom;
    MakeRoomKeeps(st, new_, s, replace, opts, Count);
    var (st1, e) := MakeRoom(st, new_, s, replace, opts, Count);
    if e.None? { MakeRoomKeeps(st1, new_, s, replace, opts, Memory); }
  }

  /** `Pool::import` */
  ghost function Import(st: PoolState, body: Body, s: Scoring, replace: Replace, opts: Options): (PoolState, Result<Tx, Error>)
    requires Inv(st, s) && Lawful(s) && opts.maxPerSender > 0
  {
    hide Inv, Lawful, MakeAllRoom, Enter, EnteredAs, Fresh;
    if body.hash in st.byHash then (st, Err(AlreadyImported(body.hash)))
    else
      var new_ := Tx(st.lastId + 1, body);
      var st1 := st.(lastId := st.lastId + 1);
      NextId(st, s);
      MakeAllRoomKeeps(st1, new_, s, replace, opts);
      var (st2, e) := MakeAllRoom(st1, new_, s, replace, opts);
      if e.Some? then (st2, Err(e.value))
      else
        StillFresh(st, st2, new_, s);
        EnterInv(st2, new_, s, opts);
        Enter(st2, new_, s, opts)
  }

  lemma NextId(st: PoolState, s: Scoring)
    requires Inv(st, s)
    ensures Inv(st.(lastId := st.lastId + 1), s)
  {
    hide FrontierOk, ListsOk, MemSum, Pooled;
  }

  lemma StillFresh(st: PoolState, st': PoolState, new_: Tx, s: Scoring)
    requires Inv(st, s) && new_.id == st.lastId + 1 && new_.body.hash !in st.byHash
    requires forall h :: h in st'.byHash ==> h in st.byHash && st'.byHash[h] == st.byHash[h]
    ensures Fresh(st', new_)
  {
    hide FrontierOk, ListsOk, MemSum, Indexed;
  }

  /** Neither limit stands in the way. */
  predicate HasRoom(st: PoolState, body: Body, opts: Options) {
    |st.byHash| + 1 <= opts.maxCount && st.mem + body.mem <= opts.maxMem
  }

  /** Everything stays, but for at most one transaction of the newcomer's sender when the newcomer is accepted. */
  ghost predicate Stays(st: PoolState, st': PoolState, body: Body, r: Result<Tx, Error>) {
    exists displaced: Option<Tx> :: StaysBut(st, st', body, r, displaced)
  }

  ghost predicate StaysBut(st: PoolState, st': PoolState, body: Body, r: Result<Tx, Error>, displaced: Option<Tx>) {
    && (displaced.Some? ==> r.Ok? && Pooled(st.lists, displaced.value) && displaced.value.body.sender == body.sender)
    && forall t :: Pooled(st'.lists, t) <==> (Pooled(st.lists, t) && displaced != Some(t)) || (r.Ok? && t == r.value)
  }

  lemma EnteredStays(st: PoolState, st': PoolState, new_: Tx, r: Result<Tx, Error>, displaced: Option<Tx>)
    requires EnteredAs(st, st', new_, r, displaced)
    ensures Stays(st, st', new_.body, r)
  {
    hide Pooled, Reindexed;
    assert StaysBut(st, st', new_.body, r, if r.Ok? then displaced else None);
  }

  lemma NothingEvicted(st: PoolState, new_: Tx, s: Scoring, replace: Replace, opts: Options)
    requires Inv(st, s) && Lawful(s) && HasRoom(st, new_.body, opts)
    ensures MakeAllRoom(st, new_, s, replace, opts) == (st, None)
  {
    hide Inv, Lawful;
  }

  /**
   * Importing keeps all views in agreement. An accepted transaction is in the pool afterwards, a
   * rejected one is not, and no other transaction comes in. While there is room, all others stay
   * but for the one displaced in the sender's own list.
   */
  lemma ImportInv(st: PoolState, body: Body, s: Scoring, replace: Replace, opts: Options)
    requires Inv(st, s) && Lawful(s) && opts.maxPerSender > 0
    ensures var (st', r) := Import(st, body, s, replace, opts);
      && Inv(st', s)
      && (r.Ok? ==> r.value == Tx(st.lastId + 1, body) && Pooled(st'.lists, r.value))
      && (r.Err? && r.error.AlreadyImported? <==> body.hash in st.byHash)
      && (body.hash in st.byHash ==> st' == st)
      && (forall h :: h in st'.byHash ==>
            (r.Ok? && st'.byHash[h] == r.value) || (h in st.byHash && st'.byHash[h] == st.byHash[h]))
      && (r.Ok? && NeverBoth(replace) ==> |st'.byHash| <= opts.maxCount && st'.mem <= opts.maxMem)
      && (body.hash !in st.byHash && HasRoom(st, body, opts) ==> Stays(st, st', body, r))
  {
    hide Inv, Lawful, MakeAllRoom, Enter, Pooled, Add, Fresh, Reindexed, StaysBut;
    if body.hash !in st.byHash {
      var new_ := Tx(st.lastId + 1, body);
      var st1 := st.(lastId := st.lastId + 1);
      NextId(st, s);
      MakeAllRoomKeeps(st1, new_, s, replace, opts);
      if HasRoom(st, body, opts) { NothingEvicted(st1, new_, s, replace, opts); }
      var (st2, e) := MakeAllRoom(st1, new_, s, replace, opts);
      if e.None? {
        StillFresh(st, st2, new_, s);
        EnterInv(st2, new_, s, opts);
        if HasRoom(st, body, opts) { RoomStays(st, st1, new_, s, opts); }
        var (_, r) := Add(ListOf(st2.lists, body.sender), new_, s, opts.maxPerSender);
        ReindexedFrom(st2.byHash, new_, Evicted(r));
        var (st3, r3) := Enter(st2, new_, s, opts);
        assert forall h :: h in st2.byHash ==> h in st.byHash && st2.byHash[h] == st.byHash[h];
        assert r3.Ok? ==> forall h :: h in st3.byHash ==>
          st3.byHash[h] == new_ || (h in st.byHash && st3.byHash[h] == st.byHash[h]);
      }
    }
  }

  lemma RoomStays(st: PoolState, st1: PoolState, new_: Tx, s: Scoring, opts: Options)
    requires Inv(st1, s) && Lawful(s) && Fresh(st1, new_) && opts.maxPerSender > 0 && new_.id <= st1.lastId
    requires st1 == st.(lastId := st1.lastId)
    ensures |ListOf(st1.lists, new_.body.sender).txs| == |ListOf(st1.lists, new_.body.sender).scores|
    ensures var l := Add(ListOf(st1.lists, new_.body.sender), new_, s, opts.maxPerSender).0; |l.txs| == |l.scores|
    ensures var (st', r) := Enter(st1, new_, s, opts); Stays(st, st', new_.body, r)
  {
    hide Inv, Lawful, Fresh, Enter, Add, EnteredAs, StaysBut;
    EnterInv(st1, new_, s, opts);
    var (st', r) := Enter(st1, new_, s, opts);
    EnteredStays(st1, st', new_, r, Evicted(Add(ListOf(st1.lists, new_.body.sender), new_, s, opts.maxPerSender).1));
    SameStays(st, st1, st', new_.body, r);
  }

  lemma SameStays(st: PoolState, st1: PoolState, st': PoolState, body: Body, r: Result<Tx, Error>)
    requires st1.lists == st.lists && Stays(st1, st', body, r)
    ensures Stays(st, st', body, r)
  {
    hide Pooled;
    var displaced :| StaysBut(st1, st', body, r, displaced);
    assert StaysBut(st, st', body, r, displaced);
  }

  // ---------- Removing, culling, rescoring, clearing ----------

  /** `Pool::remove` */
  function RemoveByHash(st: PoolState, hash: Hash, s: Scoring): (PoolState, Option<Tx>)
    requires Lawful(s)
    requires hash in st.byHash ==>
               var sender := st.byHash[hash].body.sender; |ListOf(st.lists, sender).txs| == |ListOf(st.lists, sender).scores|
  {
    if hash in st.byHash then (Drop(st, st.byHash[hash], s), Some(st.byHash[hash])) else (st, None)
  }

  lemma IndexedPooled(st: PoolState, hash: Hash, s: Scoring)
    requires Inv(st, s) && hash in st.byHash
    ensures Pooled(st.lists, st.byHash[hash]) && st.byHash[hash].body.hash == hash
  {
    hide FrontierOk, ListsOk, MemSum, Pooled;
  }

  /** Removing takes exactly the transaction with that hash out of all views. */
  lemma RemoveInv(st: PoolState, hash: Hash, s: Scoring)
    requires Inv(st, s) && Lawful(s)
    ensures hash in st.byHash ==>
              var sender := st.byHash[hash].body.sender; |ListOf(st.lists, sender).txs| == |ListOf(st.lists, sender).scores|
    ensures var (st', r) := RemoveByHash(st, hash, s);
      && Inv(st', s) && st'.lastId == st.lastId && st'.byHash == st.byHash - {hash}
      && r == (if hash in st.byHash then Some(st.byHash[hash]) else None)
      && (forall t :: Pooled(st'.lists, t) <==> Pooled(st.lists, t) && t.body.hash != hash)
  {
    hide Inv, Drop, Lawful, Pooled;
    if hash in st.byHash {
      IndexedPooled(st, hash, s);
      DropInv(st, st.byHash[hash], s);
      SameHashSame(st, st.byHash[hash], s);
    } else {
      NoneWithHash(st, hash, s);
    }
  }

  lemma SameHashSame(st: PoolState, x: Tx, s: Scoring)
    requires Inv(st, s) && Pooled(st.lists, x)
    ensures forall t :: Pooled(st.lists, t) && t.body.hash == x.body.hash ==> t == x
  {
    hide FrontierOk, ListsOk, MemSum, Pooled;
  }

  lemma NoneWithHash(st: PoolState, hash: Hash, s: Scoring)
    requires Inv(st, s) && hash !in st.byHash
    ensures forall t :: Pooled(st.lists, t) ==> t.body.hash != hash
  {
    hide FrontierOk, ListsOk, MemSum, Pooled;
  }

  /** `remove_stalled`: one sender's stale front leaves the pool. */
  ghost function RemoveStalled(st: PoolState, sender: Sender, ready: ReadyFn, asked: seq<Body>, s: Scoring)
    : (PoolState, nat, seq<Body>)
    requires Inv(st, s) && Lawful(s)
  {
    hide Inv, Lawful, Leaves, TakeOut;
    if sender !in st.lists then (st, 0, asked)
    else
      CullLeaves(st, sender, ready, asked, s);
      var (l, removed, after) := Cull(st.lists[sender], ready, asked, s);
      (TakeOut(st, sender, l, removed), |removed|, after)
  }

  lemma CullLeaves(st: PoolState, sender: Sender, ready: ReadyFn, asked: seq<Body>, s: Scoring)
    requires Inv(st, s) && Lawful(s) && sender in st.lists
    ensures |st.lists[sender].txs| == |st.lists[sender].scores|
    ensures var (l, removed, _) := Cull(st.lists[sender], ready, asked, s);
      |l.txs| == |l.scores| && Leaves(st, sender, l, removed, s)
  {
    hide FrontierOk, MemSum, Lawful, Cull, Ordered;
    Lengths(st.lists[sender], sender, s);
    CullMembers(st.lists[sender], sender, s, ready, asked);
    Lengths(Cull(st.lists[sender], ready, asked, s).0, sender, s);
  }

  lemma RemoveStalledInv(st: PoolState, sender: Sender, ready: ReadyFn, asked: seq<Body>, s: Scoring)
    requires Inv(st, s) && Lawful(s)
    ensures Inv(RemoveStalled(st, sender, ready, asked, s).0, s)
    ensures forall h :: h in RemoveStalled(st, sender, ready, asked, s).0.byHash ==> h in st.byHash
  {
    hide Inv, Lawful, Cull, TakeOut, Leaves;
    if sender in st.lists {
      CullLeaves(st, sender, ready, asked, s);
      var (l, removed, _) := Cull(st.lists[sender], ready, asked, s);
      TakeOutInv(st, sender, l, removed, s);
    }
  }

  /** `Pool::cull` over the given senders; the readiness check goes on from sender to sender. */
  ghost function CullSenders(st: PoolState, senders: seq<Sender>, ready: ReadyFn, asked: seq<Body>, s: Scoring): (PoolState, nat)
    requires Inv(st, s) && Lawful(s)
    decreases |senders|
  {
    if senders == [] then (st, 0)
    else
      RemoveStalledInv(st, senders[0], ready, asked, s);
      var (st1, n, after) := RemoveStalled(st, senders[0], ready, asked, s);
      var (st2, m) := CullSenders(st1, senders[1..], ready, after, s);
      (st2, n + m)
  }

  lemma {:induction false} CullInv(st: PoolState, senders: seq<Sender>, ready: ReadyFn, asked: seq<Body>, s: Scoring)
    requires Inv(st, s) && Lawful(s)
    ensures Inv(CullSenders(st, senders, ready, asked, s).0, s)
    decreases |senders|
  {
    hide Inv, Lawful, RemoveStalled;
    if senders != [] {
      RemoveStalledInv(st, senders[0], ready, asked, s);
      var (st1, _, after) := RemoveStalled(st, senders[0], ready, asked, s);
      CullInv(st1, senders[1..], ready, after, s);
    }
  }

  /** `Pool::update_scores` */
  function UpdateScores(st: PoolState, sender: Sender, event: nat, s: Scoring): PoolState
    requires Lawful(s)
    requires |ListOf(st.lists, sender).txs| == |ListOf(st.lists, sender).scores|
  {
    if sender !in st.lists then st
    else
      var l := st.lists[sender];
      Commit(st, sender, Rescored(l.txs, l.scores, s, Event(event)))
  }

  /** Rescoring leaves the contents alone and moves the sender's ends to their new scores. */
  lemma UpdateScoresInv(st: PoolState, sender: Sender, event: nat, s: Scoring)
    requires Inv(st, s) && Lawful(s)
    ensures |ListOf(st.lists, sender).txs| == |ListOf(st.lists, sender).scores|
    ensures var st' := UpdateScores(st, sender, event, s);
      Inv(st', s) && st'.byHash == st.byHash && SamePooled(st.lists, st'.lists)
  {
    hide Inv, Commit, Lawful, Pooled;
    ListSize(st, sender, s);
    if sender in st.lists {
      var l := st.lists[sender];
      ScoreCount(s, l.txs, l.scores, Event(event));
      RescoreInv(st, sender, Rescored(l.txs, l.scores, s, Event(event)), s);
    }
  }

  lemma ListSize(st: PoolState, sender: Sender, s: Scoring)
    requires Inv(st, s)
    ensures |ListOf(st.lists, sender).txs| == |ListOf(st.lists, sender).scores|
  {
    hide Indexed, IdsOk, MemSum, Ordered, ListsOk;
  }

  /** Both hold the same transactions. */
  ghost predicate SamePooled(lists: map<Sender, TxList>, lists': map<Sender, TxList>) {
    forall t :: Pooled(lists', t) <==> Pooled(lists, t)
  }

  lemma RescoreInv(st: PoolState, sender: Sender, l: TxList, s: Scoring)
    requires Inv(st, s) && sender in st.lists && l.txs == st.lists[sender].txs && |l.scores| == |l.txs|
    ensures |ListOf(st.lists, sender).txs| == |ListOf(st.lists, sender).scores|
    ensures var st' := Commit(st, sender, l); Inv(st', s) && st'.byHash == st.byHash && SamePooled(st.lists, st'.lists)
  {
    hide *;
    RescoreLists(st, sender, l, s);
    var st' := Commit(st, sender, l);
    CommitRest(st, sender, l);
    Replaced(st.lists, sender, l);
    IndexOfInv(st, s);
    SameIndex(st.lists, st'.lists, st.byHash);
    InvFromParts(st', s);
  }

  lemma Replaced(lists: map<Sender, TxList>, sender: Sender, l: TxList)
    requires sender in lists && l.txs == lists[sender].txs && l.txs != []
    ensures SamePooled(lists, SetList(lists, sender, l))
  {}

  lemma RescoreLists(st: PoolState, sender: Sender, l: TxList, s: Scoring)
    requires Inv(st, s) && sender in st.lists && l.txs == st.lists[sender].txs && |l.scores| == |l.txs|
    ensures |ListOf(st.lists, sender).txs| == |ListOf(st.lists, sender).scores| && l.txs != []
    ensures var st' := Commit(st, sender, l);
      ListsOk(st'.lists, s) && FrontierOk(st'.best, st'.lists, true) && FrontierOk(st'.worst, st'.lists, false)
  {
    hide *;
    ListSize(st, sender, s);
    ListsOfInv(st, s);
    RescoreOrdered(st.lists, sender, l, s);
    ApartWithin(st, l, s);
    CommitLists(st, sender, l, s);
  }

  lemma RescoreOrdered(lists: map<Sender, TxList>, sender: Sender, l: TxList, s: Scoring)
    requires ListsOk(lists, s) && sender in lists && l.txs == lists[sender].txs && |l.scores| == |l.txs|
    ensures Ordered(l, sender, s) && l.txs != []
    ensures forall t :: t in l.txs ==> Pooled(lists, t)
  {}

  /** `Pool::clear` */
  function Clear(st: PoolState): PoolState { NEW_POOL.(lastId := st.lastId) }

  // ---------- Runs ----------

  datatype Op =
    | ImportOp(body: Body, replace: Replace)
    | RemoveOp(hash: Hash)
    | CullOp(senders: seq<Sender>, ready: ReadyFn)
    | UpdateScoresOp(sender: Sender, event: nat)
    | ClearOp

  ghost function Step(st: PoolState, op: Op, s: Scoring, opts: Options): PoolState
    requires Inv(st, s) && Lawful(s) && opts.maxPerSender > 0
  {
    match op
    case ImportOp(body, replace) => Import(st, body, s, replace, opts).0
    case RemoveOp(hash) => RemoveInv(st, hash, s); RemoveByHash(st, hash, s).0
    case CullOp(senders, ready) => CullSenders(st, senders, ready, [], s).0
    case UpdateScoresOp(sender, event) => UpdateScoresInv(st, sender, event, s); UpdateScores(st, sender, event, s)
    case ClearOp => Clear(st)
  }

  /** Every operation keeps all views of the pool in agreement. */
  lemma StepInv(st: PoolState, op: Op, s: Scoring, opts: Options)
    requires Inv(st, s) && Lawful(s) && opts.maxPerSender > 0
    ensures Inv(Step(st, op, s, opts), s)
  {
    hide Inv, Lawful, Import, RemoveByHash, CullSenders, UpdateScores;
    match op
    case ImportOp(body, replace) => ImportInv(st, body, s, replace, opts);
    case RemoveOp(hash) => RemoveInv(st, hash, s);
    case CullOp(senders, ready) => CullInv(st, senders, ready, [], s);
    case UpdateScoresOp(sender, event) => UpdateScoresInv(st, sender, event, s);
    case ClearOp => ClearInv(st, s);
  }

  lemma ClearInv(st: PoolState, s: Scoring)
    ensures Inv(Clear(st), s)
  {}

  ghost function Run(ops: seq<Op>, s: Scoring, opts: Options): (st: PoolState)
    requires Lawful(s) && opts.maxPerSender > 0
    ensures Inv(st, s)
  {
    if ops == [] then NewPoolInv(s); NEW_POOL
    else
      var st := Run(ops[..|ops| - 1], s, opts);
      StepInv(st, ops[|ops| - 1], s, opts);
      Step(st, ops[|ops| - 1], s, opts)
  }
}
