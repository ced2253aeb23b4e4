/** One sender's transactions, changed in place. */
module PoolTransactions {
  import opened Wrappers
  import opened PoolList
  import opened PoolModel

  // ---------- Facts about the specification ----------

  /** What has been counted and asked so far, and what the rest of the scan adds. */
  lemma {:induction false} StaleFrom(txs: seq<Tx>, ready: ReadyFn, asked: seq<Body>, k: nat, asked': seq<Body>)
    requires k < |txs|
    requires var rest := StalePrefix(txs[k..], ready, asked'); StalePrefix(txs, ready, asked) == (k + rest.0, rest.1)
    ensures var b := txs[k].body;
      if ready(asked', b) == Stale
      then var rest := StalePrefix(txs[k + 1..], ready, asked' + [b]); StalePrefix(txs, ready, asked) == (k + 1 + rest.0, rest.1)
      else StalePrefix(txs, ready, asked) == (k, asked' + [b])
  {
    assert txs[k..][0] == txs[k] && txs[k..][1..] == txs[k + 1..];
  }

  /** Dropping n elements off the end of the reversal drops them off the front. */
  lemma ReverseDrop<T>(q: seq<T>, n: nat)
    requires n <= |q|
    ensures Reverse(Reverse(q)[..|q| - n]) == q[n..]
  {
    hide Reverse;
  }

  lemma AddNonEmpty(l: TxList, new_: Tx, s: Scoring, maxCount: nat)
    requires maxCount > 0 && |l.txs| == |l.scores| && Lawful(s)
    ensures Add(l, new_, s, maxCount).0.txs != []
  {
    hide Position;
  }

  // ---------- The list ----------

  /** `Transactions` */
  class Transactions {
    var transactions: seq<Tx>
    var scores: seq<Score>

    function View(): TxList
      reads this
    { TxList(transactions, scores) }

    ghost predicate Valid(sender: Sender, s: Scoring)
      reads this
    { Lawful(s) && Ordered(View(), sender, s) }

    /** The list that a pool keeps for a sender, taken out to be changed. */
    constructor Of(l: TxList)
      ensures View() == l
    {
      transactions, scores := l.txs, l.scores;
    }

    /** The last and the first entry with their scores. */
    method WorstAndBest() returns (r: Option<(Scored, Scored)>)
      requires |transactions| == |scores|
      ensures r.Some? <==> transactions != []
      ensures r.Some? ==> End(View(), false) == Some(r.value.0) && End(View(), true) == Some(r.value.1)
    {
      var len := |scores|;
      if len == 0 { return None; }
      return Some(((scores[len - 1], transactions[len - 1]), (scores[0], transactions[0])));
    }

    method FindNext(b: Body, s: Scoring, ghost sender: Sender) returns (r: Option<(Score, Tx)>)
      requires Valid(sender, s) && b.sender == sender
      ensures r == PoolList.FindNext(View(), b, s)
    {
      hide Lawful, Position;
      var i, found := Search(b, s, sender);
      if !found { return None; }
      var index := i + 1;
      if index < |scores| { return Some((scores[index], transactions[index])); }
      return None;
    }

    method Search(b: Body, s: Scoring, ghost sender: Sender) returns (i: nat, found: bool)
      requires Valid(sender, s) && b.sender == sender
      ensures i == Position(transactions, b, s)
      ensures found <==> i < |transactions| && s.compare(transactions[i].body, b) == 0
    {
      i, found := BinarySearch(transactions, b, s, sender);
    }

    method PushCheapest(tx: Tx, s: Scoring, maxCount: nat) returns (r: AddResult)
      requires maxCount > 0 && |transactions| == |scores|
      modifies this
      ensures (View(), r) == PoolList.PushCheapest(old(View()), tx, s, maxCount)
    {
      var index := |transactions|;
      if index == maxCount && !s.ignoreSenderLimit(tx.body) {
        r := TooCheapToEnter(tx, scores[index - 1]);
      } else {
        transactions := transactions + [tx];
        scores := scores + [0];
        scores := s.updateScores(transactions, scores, InsertedAt(index));
        r := Added(tx);
      }
    }

    method UpdateScores(s: Scoring, event: nat)
      modifies this`scores
      ensures View() == Rescored(old(View()).txs, old(View()).scores, s, Event(event))
    {
      scores := s.updateScores(transactions, scores, Event(event));
    }

    method Add(new_: Tx, s: Scoring, maxCount: nat, ghost sender: Sender) returns (r: AddResult)
      requires Valid(sender, s) && new_.body.sender == sender && maxCount > 0
      modifies this
      ensures (View(), r) == PoolList.Add(old(View()), new_, s, maxCount)
    {
      hide Position, Ordered;
      Lengths(View(), sender, s);
      var index, _ := Search(new_.body, s, sender);
      if index == |transactions| {
        r := PushCheapest(new_, s, maxCount);
        return;
      }
      match s.choose(transactions[index].body, new_.body)
      case RejectNew => r := TooCheap(transactions[index], new_);
      case InsertNew =>
        transactions := InsertAt(transactions, index, new_);
        scores := InsertAt(scores, index, 0);
        scores := s.updateScores(transactions, scores, InsertedAt(index));
        if |transactions| > maxCount {
          var n := |transactions| - 1;
          var displaced := transactions[n];
          transactions, scores := transactions[..n], scores[..n];
          scores := s.updateScores(transactions, scores, RemovedAt(n));
          r := PushedOut(displaced, new_);
        } else {
          r := Added(new_);
        }
      case ReplaceOld =>
        var displaced := transactions[index];
        transactions := transactions[index := new_];
        scores := s.updateScores(transactions, scores, ReplacedAt(index));
        r := Replaced(displaced, new_);
    }

    method Remove(b: Body, s: Scoring, ghost sender: Sender) returns (ok: bool)
      requires Valid(sender, s) && b.sender == sender
      modifies this
      ensures (View(), ok) == PoolList.Remove(old(View()), b, s)
    {
      hide Position, Ordered, Lawful;
      Lengths(View(), sender, s);
      var index, found := Search(b, s, sender);
      if !found { return false; }
      transactions := RemoveAt(transactions, index);
      scores := RemoveAt(scores, index);
      scores := s.updateScores(transactions, scores, RemovedAt(index));
      return true;
    }

    /** The first loop of `cull`: how many transactions at the front are stale. */
    method CountStale(ready: ReadyFn, asked: seq<Body>) returns (k: nat, after: seq<Body>)
      ensures (k, after) == StalePrefix(transactions, ready, asked)
    {
      hide StalePrefix;
      k, after := 0, asked;
      assert transactions[0..] == transactions;
      while k < |transactions|
        invariant k <= |transactions|
        invariant var rest := StalePrefix(transactions[k..], ready, after);
          StalePrefix(transactions, ready, asked) == (k + rest.0, rest.1)
      {
        StaleFrom(transactions, ready, asked, k, after);
        var b := transactions[k].body;
        var state := ready(after, b);
        after := after + [b];
        if state != Stale { return; }
        k := k + 1;
      }
      NoStale(ready, after);
    }

    /** The rest of `cull`: the front is popped off the reversed lists and handed back reversed. */
    method CutFront(k: nat) returns (result: seq<Tx>)
      requires k <= |transactions| == |scores|
      modifies this
      ensures transactions == old(transactions)[k..] && scores == old(scores)[k..]
      ensures result == Reverse(old(transactions)[..k])
    {
      hide Reverse;
      ghost var size := |transactions|;
      result := [];
      transactions, scores := Reverse(transactions), Reverse(scores);
      assert transactions == Reverse(old(transactions))[..size] && scores == Reverse(old(scores))[..size];
      for n := 0 to k
        invariant transactions == Reverse(old(transactions))[..size - n]
        invariant scores == Reverse(old(scores))[..size - n]
        invariant result == old(transactions)[..n]
      {
        scores := scores[..|scores| - 1];
        result := result + [transactions[|transactions| - 1]];
        transactions := transactions[..|transactions| - 1];
      }
      ReverseDrop(old(transactions), k);
      ReverseDrop(old(scores), k);
      transactions, scores := Reverse(transactions), Reverse(scores);
      result := Reverse(result);
    }

    method Cull(ready: ReadyFn, asked: seq<Body>, s: Scoring) returns (result: seq<Tx>, after: seq<Body>)
      requires |transactions| == |scores|
      modifies this
      ensures (View(), result, after) == PoolList.Cull(old(View()), ready, asked, s)
    {
      hide StalePrefix, Reverse;
      result, after := [], asked;
      NoStale(ready, asked);
      if transactions == [] { return; }
      var k;
      k, after := CountStale(ready, asked);
      if k == 0 { return; }
      result := CutFront(k);
      scores := s.updateScores(transactions, scores, Culled(|result|));
    }
  }

  lemma NoStale(ready: ReadyFn, asked: seq<Body>)
    ensures StalePrefix([], ready, asked) == (0, asked)
  {}
}
