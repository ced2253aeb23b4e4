/** The transaction pool as a state machine over its redundant views. */
module PoolModel {
  import opened Wrappers
  import opened PoolList

  datatype Options = Options(maxCount: nat, maxPerSender: nat, maxMem: nat)

  /**
   * An ordered set of scored transactions. Two entries are the same for the set when score and
   * insertion id are, so the set is a map from that pair.
   */
  type Frontier = map<(Score, nat), Tx>

  datatype PoolState = PoolState(
    lists: map<Sender, TxList>,
    byHash: map<Hash, Tx>,
    best: Frontier,
    worst: Frontier,
    mem: int,
    lastId: nat)

  const NEW_POOL: PoolState := PoolState(map[], map[], map[], map[], 0, 0)

  // ---------- Ends of lists ----------

  type Scored = (Score, Tx)

  function KeyOf(e: Scored): (Score, nat) { (e.0, e.1.id) }

  /** The first or the last entry of a list with its score (`worst_and_best`). */
  function End(l: TxList, first: bool): Option<Scored>
    requires |l.txs| == |l.scores|
  {
    var n := |l.txs|;
    if n == 0 then None
    else if first then Some((l.scores[0], l.txs[0]))
    else Some((l.scores[n - 1], l.txs[n - 1]))
  }

  function ListOf(lists: map<Sender, TxList>, sender: Sender): TxList {
    if sender in lists then lists[sender] else EMPTY
  }

  function SetInsert(f: Frontier, e: Scored): Frontier {
    if KeyOf(e) in f then f else f[KeyOf(e) := e.1]
  }

  function SetRemove(f: Frontier, e: Scored): Frontier { f - {KeyOf(e)} }

  function IsSame(a: Scored, b: Scored): bool { a.0 == b.0 && a.1.body.hash == b.1.body.hash }

  /** `update_senders_worst_and_best` for one of the two ordered sets. */
  function UpdateEnd(f: Frontier, previous: Option<Scored>, current: Option<Scored>): Frontier {
    match (previous, current)
    case (None, Some(c)) => SetInsert(f, c)
    case (Some(p), None) => SetRemove(f, p)
    case (Some(p), Some(c)) => if IsSame(p, c) then f else SetInsert(SetRemove(f, p), c)
    case (None, None) => f
  }

  /** A sender's list is replaced; an empty list leaves the map. */
  function SetList(lists: map<Sender, TxList>, sender: Sender, l: TxList): map<Sender, TxList> {
    if l.txs == [] then lists - {sender} else lists[sender := l]
  }

  function Commit(st: PoolState, sender: Sender, l: TxList): PoolState
    requires |l.txs| == |l.scores|
    requires |ListOf(st.lists, sender).txs| == |ListOf(st.lists, sender).scores|
  {
    var old_ := ListOf(st.lists, sender);
    st.(lists := SetList(st.lists, sender, l),
        best := UpdateEnd(st.best, End(old_, true), End(l, true)),
        worst := UpdateEnd(st.worst, End(old_, false), End(l, false)))
  }

  function FinalizeRemove(st: PoolState, hash: Hash): PoolState {
    if hash in st.byHash
    then st.(byHash := st.byHash - {hash}, mem := st.mem - st.byHash[hash].body.mem)
    else st
  }

  function FinalizeInsert(st: PoolState, new_: Tx, displaced: Option<Tx>): PoolState {
    var st' := st.(mem := st.mem + new_.body.mem, byHash := st.byHash[new_.body.hash := new_]);
    if displaced.Some? then FinalizeRemove(st', displaced.value.body.hash) else st'
  }

  // ---------- The invariant ----------

  predicate Pooled(lists: map<Sender, TxList>, t: Tx) {
    t.body.sender in lists && t in lists[t.body.sender].txs
  }

  ghost predicate ListsOk(lists: map<Sender, TxList>, s: Scoring) {
    forall sender :: sender in lists ==> Ordered(lists[sender], sender, s) && lists[sender].txs != []
  }

  /** The hash index holds exactly the listed transactions, each under its hash. */
  ghost predicate Indexed(lists: map<Sender, TxList>, byHash: map<Hash, Tx>) {
    && (forall h :: h in byHash ==> byHash[h].body.hash == h)
    && (forall t :: Pooled(lists, t) <==> t.body.hash in byHash && byHash[t.body.hash] == t)
  }

  ghost predicate IdsOk(byHash: map<Hash, Tx>, lastId: nat) {
    && (forall h :: h in byHash ==> byHash[h].id <= lastId)
    && (forall h, h' :: h in byHash && h' in byHash && byHash[h].id == byHash[h'].id ==> h == h')
  }

  /** An ordered set holds exactly one end of each sender's list, with its current score. */
  ghost predicate FrontierOk(f: Frontier, lists: map<Sender, TxList>, first: bool) {
    && (forall sender :: sender in lists ==> |lists[sender].txs| == |lists[sender].scores|)
    && (forall sender :: sender in lists ==>
          var e := End(lists[sender], first);
          e.Some? && KeyOf(e.value) in f && f[KeyOf(e.value)] == e.value.1)
    && (forall k :: k in f ==>
          var sender := f[k].body.sender;
          sender in lists && End(lists[sender], first) == Some((k.0, f[k])) && k.1 == f[k].id)
  }

  /** The memory of all indexed transactions. */
  ghost function MemSum(byHash: map<Hash, Tx>): int {
    if byHash == map[] then 0
    else
      var h :| h in byHash;
      byHash[h].body.mem + MemSum(byHash - {h})
  }

  /** All views of the pool agree. */
  ghost predicate Inv(st: PoolState, s: Scoring) {
    && ListsOk(st.lists, s)
    && Indexed(st.lists, st.byHash)
    && IdsOk(st.byHash, st.lastId)
    && FrontierOk(st.best, st.lists, true)
    && FrontierOk(st.worst, st.lists, false)
    && st.mem == MemSum(st.byHash)
  }

  lemma NewPoolInv(s: Scoring)
    ensures Inv(NEW_POOL, s)
  {}

  // ---------- Memory ----------

  lemma {:induction false} MemSumRemove(m: map<Hash, Tx>, h: Hash)
    requires h in m
    ensures MemSum(m) == m[h].body.mem + MemSum(m - {h})
    decreases |m|
  {
    var g :| g in m && MemSum(m) == m[g].body.mem + MemSum(m - {g});
    if g != h {
      MemSumRemove(m - {g}, h);
      MemSumRemove(m - {h}, g);
      assert m - {g} - {h} == m - {h} - {g};
    }
  }

  lemma MemSumAdd(m: map<Hash, Tx>, t: Tx)
    requires t.body.hash !in m
    ensures MemSum(m[t.body.hash := t]) == MemSum(m) + t.body.mem
  {
    var m' := m[t.body.hash := t];
    MemSumRemove(m', t.body.hash);
    assert m' - {t.body.hash} == m;
  }

  lemma FinalizeRemoveMem(st: PoolState, h: Hash)
    requires st.mem == MemSum(st.byHash)
    ensures FinalizeRemove(st, h).mem == MemSum(FinalizeRemove(st, h).byHash)
  {
    if h in st.byHash { MemSumRemove(st.byHash, h); }
  }

  // ---------- Replacing one list ----------

  /** Every transaction that was listed before or is listed now. */
  ghost predicate InPlay(lists: map<Sender, TxList>, l: TxList, t: Tx) {
    Pooled(lists, t) || t in l.txs
  }

  /** No two of them share an id or a hash. */
  ghost predicate Apart(lists: map<Sender, TxList>, l: TxList) {
    forall t, t' :: InPlay(lists, l, t) && InPlay(lists, l, t') && (t.id == t'.id || t.body.hash == t'.body.hash) ==> t == t'
  }

  lemma EndListed(l: TxList, sender: Sender, s: Scoring, first: bool)
    requires Ordered(l, sender, s) && l.txs != []
    ensures End(l, first).Some? && End(l, first).value.1 in l.txs && End(l, first).value.1.body.sender == sender
  {}

  /** Updating an ordered set keeps it at one end per sender. */
  lemma FrontierCommit(f: Frontier, lists: map<Sender, TxList>, sender: Sender, l: TxList, first: bool, s: Scoring)
    requires ListsOk(lists, s) && FrontierOk(f, lists, first) && Ordered(l, sender, s) && Apart(lists, l)
    requires |ListOf(lists, sender).txs| == |ListOf(lists, sender).scores|
    ensures FrontierOk(UpdateEnd(f, End(ListOf(lists, sender), first), End(l, first)), SetList(lists, sender, l), first)
  {
    hide Ordered, End, IsSame;
    OrderedLengths(lists, sender, l, s);
    var previous, current := End(ListOf(lists, sender), first), End(l, first);
    var f', lists' := UpdateEnd(f, previous, current), SetList(lists, sender, l);
    EmptyEnd(first);
    if sender in lists { EndListed(lists[sender], sender, s, first); }
    if l.txs != [] { EndListed(l, sender, s, first); } else { NoEnd(l, first); }
    forall other | other in lists'
      ensures var e := End(lists'[other], first);
        e.Some? && KeyOf(e.value) in f' && f'[KeyOf(e.value)] == e.value.1
    {
      if other != sender {
        EndListed(lists[other], other, s, first);
        OthersKept(f, lists, sender, l, first, s, other);
      } else {
        OwnEnd(f, lists, sender, l, first, s);
      }
    }
    forall k | k in f'
      ensures var snd := f'[k].body.sender;
        snd in lists' && End(lists'[snd], first) == Some((k.0, f'[k])) && k.1 == f'[k].id
    {
      Entries(f, lists, sender, l, first, s, k);
    }
  }

  lemma OrderedLengths(lists: map<Sender, TxList>, sender: Sender, l: TxList, s: Scoring)
    requires ListsOk(lists, s) && Ordered(l, sender, s)
    ensures forall other :: other in SetList(lists, sender, l) ==>
              |SetList(lists, sender, l)[other].txs| == |SetList(lists, sender, l)[other].scores|
    ensures |l.txs| == |l.scores|
  {}

  lemma EmptyEnd(first: bool)
    ensures End(EMPTY, first) == None
  {}

  lemma NoEnd(l: TxList, first: bool)
    requires l.txs == [] && |l.scores| == 0
    ensures End(l, first) == None
  {}

  /** Entries of other senders survive the update. */
  lemma OthersKept(f: Frontier, lists: map<Sender, TxList>, sender: Sender, l: TxList, first: bool, s: Scoring, other: Sender)
    requires ListsOk(lists, s) && FrontierOk(f, lists, first) && Ordered(l, sender, s) && Apart(lists, l)
    requires |ListOf(lists, sender).txs| == |ListOf(lists, sender).scores| && |l.txs| == |l.scores|
    requires other in lists && other != sender && |lists[other].txs| == |lists[other].scores| && End(lists[other], first).Some?
    ensures var e := End(lists[other], first).value;
      var f' := UpdateEnd(f, End(ListOf(lists, sender), first), End(l, first));
      KeyOf(e) in f' && f'[KeyOf(e)] == e.1
  {
    hide Ordered, End, Apart, IsSame;
    EndListed(lists[other], other, s, first);
    EmptyEnd(first);
    var e := End(lists[other], first).value;
    if sender in lists {
      EndListed(lists[sender], sender, s, first);
      DifferentIds(lists, l, e.1, End(lists[sender], first).value.1);
    }
  }

  lemma DifferentIds(lists: map<Sender, TxList>, l: TxList, t: Tx, t': Tx)
    requires Apart(lists, l) && InPlay(lists, l, t) && InPlay(lists, l, t') && t.body.sender != t'.body.sender
    ensures t.id != t'.id
  {}

  /** The sender's own new end is entered. */
  lemma OwnEnd(f: Frontier, lists: map<Sender, TxList>, sender: Sender, l: TxList, first: bool, s: Scoring)
    requires ListsOk(lists, s) && FrontierOk(f, lists, first) && Ordered(l, sender, s) && Apart(lists, l)
    requires |ListOf(lists, sender).txs| == |ListOf(lists, sender).scores| && |l.txs| == |l.scores| && l.txs != []
    ensures End(l, first).Some?
    ensures var e := End(l, first).value;
      var f' := UpdateEnd(f, End(ListOf(lists, sender), first), Some(e));
      KeyOf(e) in f' && f'[KeyOf(e)] == e.1
  {
    hide Ordered, End, Apart;
    EmptyEnd(first);
    EndListed(l, sender, s, first);
    var e := End(l, first).value;
    if sender in lists {
      EndListed(lists[sender], sender, s, first);
      SameHash(lists, l, e.1, End(lists[sender], first).value.1);
    }
    if KeyOf(e) in f {
      var t := f[KeyOf(e)];
      EndListed(lists[t.body.sender], t.body.sender, s, first);
      SameId(lists, l, e.1, t);
    }
  }

  lemma SameHash(lists: map<Sender, TxList>, l: TxList, t: Tx, t': Tx)
    requires Apart(lists, l) && InPlay(lists, l, t) && InPlay(lists, l, t')
    ensures t.body.hash == t'.body.hash ==> t == t'
  {}

  lemma SameId(lists: map<Sender, TxList>, l: TxList, t: Tx, t': Tx)
    requires Apart(lists, l) && InPlay(lists, l, t) && InPlay(lists, l, t') && t.id == t'.id
    ensures t == t'
  {}

  /** Whatever the set holds afterwards is an end of a list that is kept. */
  lemma Entries(f: Frontier, lists: map<Sender, TxList>, sender: Sender, l: TxList, first: bool, s: Scoring, k: (Score, nat))
    requires ListsOk(lists, s) && FrontierOk(f, lists, first) && Ordered(l, sender, s) && Apart(lists, l)
    requires |ListOf(lists, sender).txs| == |ListOf(lists, sender).scores| && |l.txs| == |l.scores|
    requires k in UpdateEnd(f, End(ListOf(lists, sender), first), End(l, first))
    ensures var t := UpdateEnd(f, End(ListOf(lists, sender), first), End(l, first))[k];
      var lists' := SetList(lists, sender, l);
      && t.body.sender in lists' && |lists'[t.body.sender].txs| == |lists'[t.body.sender].scores|
      && End(lists'[t.body.sender], first) == Some((k.0, t)) && k.1 == t.id
  {
    hide Ordered, End, Apart;
    EmptyEnd(first);
    if sender in lists { EndListed(lists[sender], sender, s, first); }
    if l.txs != [] { EndListed(l, sender, s, first); } else { NoEnd(l, first); }
    if sender in lists && l.txs != [] {
      SameHash(lists, l, End(lists[sender], first).value.1, End(l, first).value.1);
    }
  }

  /** All parts of the invariant that speak of lists, after one list has been replaced. */
  lemma CommitLists(st: PoolState, sender: Sender, l: TxList, s: Scoring)
    requires ListsOk(st.lists, s) && FrontierOk(st.best, st.lists, true) && FrontierOk(st.worst, st.lists, false)
    requires Ordered(l, sender, s) && Apart(st.lists, l)
    ensures |l.txs| == |l.scores| && |ListOf(st.lists, sender).txs| == |ListOf(st.lists, sender).scores|
    ensures var st' := Commit(st, sender, l);
      && ListsOk(st'.lists, s) && FrontierOk(st'.best, st'.lists, true) && FrontierOk(st'.worst, st'.lists, false)
      && forall t :: Pooled(st'.lists, t) <==> if t.body.sender == sender then t in l.txs else Pooled(st.lists, t)
  {
    hide FrontierOk, Apart, UpdateEnd;
    OrderedLengths(st.lists, sender, l, s);
    FrontierCommit(st.best, st.lists, sender, l, true, s);
    FrontierCommit(st.worst, st.lists, sender, l, false, s);
  }

  // ---------- Leaving the pool ----------

  lemma PooledSender(lists: map<Sender, TxList>, s: Scoring, sender: Sender, t: Tx)
    requires ListsOk(lists, s)
    ensures t in ListOf(lists, sender).txs <==> Pooled(lists, t) && t.body.sender == sender
  {}

  /** A list with nothing but pooled transactions keeps all ids and hashes apart. */
  lemma ApartWithin(st: PoolState, l: TxList, s: Scoring)
    requires Inv(st, s) && forall t :: t in l.txs ==> Pooled(st.lists, t)
    ensures Apart(st.lists, l)
  {
    hide FrontierOk, ListsOk, Pooled, MemSum;
  }

  /** The transactions with these hashes leave the index. */
  function FinalizeRemoveAll(st: PoolState, removed: seq<Tx>): PoolState
    decreases |removed|
  {
    if removed == [] then st else FinalizeRemoveAll(FinalizeRemove(st, removed[0].body.hash), removed[1..])
  }

  lemma {:induction false} FinalizeRemoveAllIs(st: PoolState, removed: seq<Tx>)
    requires st.mem == MemSum(st.byHash)
    ensures var st' := FinalizeRemoveAll(st, removed);
      && st'.mem == MemSum(st'.byHash)
      && st' == st.(byHash := st'.byHash, mem := st'.mem)
      && (forall h :: h in st'.byHash <==> h in st.byHash && forall t :: t in removed ==> t.body.hash != h)
      && (forall h :: h in st'.byHash ==> st'.byHash[h] == st.byHash[h])
    decreases |removed|
  {
    hide MemSum;
    if removed != [] {
      FinalizeRemoveMem(st, removed[0].body.hash);
      FinalizeRemoveAllIs(FinalizeRemove(st, removed[0].body.hash), removed[1..]);
      assert removed == [removed[0]] + removed[1..];
    }
  }

  /** A sender's list loses the given transactions, and so does the index. */
  function TakeOut(st: PoolState, sender: Sender, l: TxList, removed: seq<Tx>): PoolState
    requires |l.txs| == |l.scores|
    requires |ListOf(st.lists, sender).txs| == |ListOf(st.lists, sender).scores|
  {
    FinalizeRemoveAll(Commit(st, sender, l), removed)
  }

  ghost predicate Leaves(st: PoolState, sender: Sender, l: TxList, removed: seq<Tx>, s: Scoring) {
    && Ordered(l, sender, s)
    && (forall t :: t in l.txs <==> t in ListOf(st.lists, sender).txs && t !in removed)
    && (forall t :: t in removed ==> t in ListOf(st.lists, sender).txs)
  }

  /** Taking transactions out of one sender's list keeps all views in agreement. */
  lemma TakeOutInv(st: PoolState, sender: Sender, l: TxList, removed: seq<Tx>, s: Scoring)
    requires Inv(st, s) && Leaves(st, sender, l, removed, s)
    ensures |l.txs| == |l.scores| && |ListOf(st.lists, sender).txs| == |ListOf(st.lists, sender).scores|
    ensures var st' := TakeOut(st, sender, l, removed);
      && Inv(st', s) && st'.lastId == st.lastId
      && (forall t :: Pooled(st'.lists, t) <==> Pooled(st.lists, t) && t !in removed)
      && (forall h :: h in st'.byHash ==> h in st.byHash && st'.byHash[h] == st.byHash[h])
      && (forall h :: h in st.byHash && st.byHash[h] !in removed ==> h in st'.byHash)
  {
    hide FrontierOk, MemSum, Apart, UpdateEnd, Ordered;
    forall t ensures t in ListOf(st.lists, sender).txs <==> Pooled(st.lists, t) && t.body.sender == sender {
      PooledSender(st.lists, s, sender, t);
    }
    assert forall t :: t in l.txs ==> Pooled(st.lists, t);
    ApartWithin(st, l, s);
    CommitLists(st, sender, l, s);
    var mid := Commit(st, sender, l);
    FinalizeRemoveAllIs(mid, removed);
    TakenOut(st, mid, FinalizeRemoveAll(mid, removed), removed);
  }

  lemma TakenOut(st: PoolState, mid: PoolState, st': PoolState, removed: seq<Tx>)
    requires Indexed(st.lists, st.byHash) && IdsOk(st.byHash, st.lastId)
    requires mid.byHash == st.byHash && mid.lastId == st.lastId && st'.lists == mid.lists && st'.lastId == st.lastId
    requires forall t :: Pooled(mid.lists, t) <==> Pooled(st.lists, t) && t !in removed
    requires forall t :: t in removed ==> Pooled(st.lists, t)
    requires forall h :: h in st'.byHash <==> h in st.byHash && forall t :: t in removed ==> t.body.hash != h
    requires forall h :: h in st'.byHash ==> st'.byHash[h] == st.byHash[h]
    ensures Indexed(st'.lists, st'.byHash) && IdsOk(st'.byHash, st'.lastId)
    ensures forall h :: h in st.byHash && st.byHash[h] !in removed ==> h in st'.byHash
  {
    hide Pooled;
    forall h | h in st.byHash && st.byHash[h] !in removed ensures h in st'.byHash {
      forall t | t in removed ensures t.body.hash != h { assert Pooled(st.lists, t); }
    }
  }

  /** Removing one transaction: from its sender's list and from the index. */
  function Drop(st: PoolState, t: Tx, s: Scoring): PoolState
    requires |ListOf(st.lists, t.body.sender).txs| == |ListOf(st.lists, t.body.sender).scores|
    requires Lawful(s)
  {
    var l := Remove(ListOf(st.lists, t.body.sender), t.body, s).0;
    FinalizeRemove(Commit(st, t.body.sender, l), t.body.hash)
  }

  lemma DropInv(st: PoolState, t: Tx, s: Scoring)
    requires Inv(st, s) && Lawful(s) && Pooled(st.lists, t)
    ensures |ListOf(st.lists, t.body.sender).txs| == |ListOf(st.lists, t.body.sender).scores|
    ensures var st' := Drop(st, t, s);
      && Inv(st', s) && st'.lastId == st.lastId && st'.byHash == st.byHash - {t.body.hash}
      && |st'.byHash| == |st.byHash| - 1 && st'.mem == st.mem - t.body.mem
      && (forall u :: Pooled(st'.lists, u) <==> Pooled(st.lists, u) && u != t)
  {
    hide Inv, Commit, Remove, Ordered, Lawful, MemSum;
    DropParts(st, t, s);
    var l := Remove(ListOf(st.lists, t.body.sender), t.body, s).0;
    TakeOutInv(st, t.body.sender, l, [t], s);
    assert [t][1..] == [];
    var mid := Commit(st, t.body.sender, l);
    assert FinalizeRemoveAll(FinalizeRemove(mid, t.body.hash), []) == FinalizeRemove(mid, t.body.hash);
    assert TakeOut(st, t.body.sender, l, [t]) == Drop(st, t, s);
  }

  lemma DropParts(st: PoolState, t: Tx, s: Scoring)
    requires Inv(st, s) && Lawful(s) && Pooled(st.lists, t)
    ensures |ListOf(st.lists, t.body.sender).txs| == |ListOf(st.lists, t.body.sender).scores|
    ensures t.body.hash in st.byHash && st.byHash[t.body.hash] == t
    ensures Leaves(st, t.body.sender, Remove(ListOf(st.lists, t.body.sender), t.body, s).0, [t], s)
    ensures var mid := Commit(st, t.body.sender, Remove(ListOf(st.lists, t.body.sender), t.body, s).0);
      mid.byHash == st.byHash && mid.mem == st.mem
  {
    hide FrontierOk, MemSum, Lawful, Ordered, Remove;
    RemoveListed(ListOf(st.lists, t.body.sender), t.body.sender, s, t);
    Lengths(ListOf(st.lists, t.body.sender), t.body.sender, s);
    var l := Remove(ListOf(st.lists, t.body.sender), t.body, s).0;
    Lengths(l, t.body.sender, s);
  }
}
