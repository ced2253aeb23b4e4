/** Prefix ranges of a key-value store, and batches of writes to the in-memory store. */
module KvStore {
  import opened Bytes
  import opened Wrappers
  import opened Lexico

  type Key = seq<byte>

  type Column = map<Key, seq<byte>>

  // ---------- Prefix ranges ----------

  /** The first key behind all keys with the prefix; none when no key lies behind them. */
  function EndOf(prefix: Key): Option<Key> {
    if prefix == [] then None
    else
      match EndOf(prefix[1..])
      case Some(e) => Some([prefix[0]] + e)
      case None => if prefix[0] == 0xff then None else Some([prefix[0] + 1])
  }

  /** `end_prefix`: drops the trailing 0xff bytes and increments the last byte left. */
  method EndPrefix(prefix: Key) returns (end: Option<Key>)
    ensures end == EndOf(prefix)
  {
    var endRange := prefix;
    while endRange != [] && endRange[|endRange| - 1] == 0xff
      invariant EndOf(endRange) == EndOf(prefix)
      decreases |endRange|
    {
      DropLargest(endRange[..|endRange| - 1]);
      assert endRange == endRange[..|endRange| - 1] + [0xff];
      endRange := endRange[..|endRange| - 1];
    }
    if endRange == [] { return None; }
    var n := |endRange| - 1;
    IncrementLast(endRange[..n], endRange[n]);
    assert endRange == endRange[..n] + [endRange[n]];
    endRange := endRange[..n] + [endRange[n] + 1];
    end := Some(endRange);
  }

  lemma {:induction false} DropLargest(p: Key)
    ensures EndOf(p + [0xff]) == EndOf(p)
  {
    if p == [] {
      assert [] + [0xff] == [0xff] && [0xff][1..] == [];
    } else {
      assert (p + [0xff])[1..] == p[1..] + [0xff] && (p + [0xff])[0] == p[0];
      DropLargest(p[1..]);
    }
  }

  lemma {:induction false} IncrementLast(p: Key, b: byte)
    requires b < 0xff
    ensures EndOf(p + [b]) == Some(p + [b + 1])
  {
    if p == [] {
      assert [] + [b] == [b] && [b][1..] == [] && [] + [b + 1] == [b + 1];
    } else {
      assert (p + [b])[1..] == p[1..] + [b] && (p + [b])[0] == p[0];
      IncrementLast(p[1..], b);
      assert [p[0]] + (p[1..] + [b + 1]) == p + [b + 1];
    }
  }

  /** The half-open range from the prefix to its end. */
  ghost predicate InRange(k: Key, prefix: Key) {
    AtMost(prefix, k) && (EndOf(prefix).Some? ==> Less(k, EndOf(prefix).value))
  }

  /** A key starts with the prefix exactly when it lies in the range. */
  lemma {:induction false} RangeIsPrefix(k: Key, prefix: Key)
    ensures StartsWith(k, prefix) <==> InRange(k, prefix)
    decreases |prefix|
  {
    if prefix == [] {
      assert k[..0] == [];
    } else if k == [] {
    } else {
      var p', k' := prefix[1..], k[1..];
      RangeIsPrefix(k', p');
      TailStartsWith(k, prefix);
      match EndOf(p')
      case Some(e) => assert ([prefix[0]] + e)[1..] == e;
      case None =>
        if prefix[0] < 0xff {
          var e: Key := [prefix[0] + 1];
          assert e[1..] == [] && EndOf(prefix) == Some(e);
          assert Less(k, e) <==> k[0] < e[0];
        }
    }
  }

  lemma TailStartsWith(k: Key, prefix: Key)
    requires k != [] && prefix != []
    ensures StartsWith(k, prefix) <==> k[0] == prefix[0] && StartsWith(k[1..], prefix[1..])
  {
    if |prefix| <= |k| {
      assert k[..|prefix|] == [k[0]] + k[1..][..|prefix| - 1];
      assert prefix == [prefix[0]] + prefix[1..];
    }
  }

  // ---------- Transactions ----------

  datatype DBOp =
    | Insert(col: nat, key: Key, value: seq<byte>)
    | Delete(col: nat, key: Key)
    | DeletePrefix(col: nat, prefix: Key)

  class DBTransaction {
    var ops: seq<DBOp>

    constructor ()
      ensures ops == []
    { ops := []; }

    method Put(col: nat, key: Key, value: seq<byte>)
      modifies this
      ensures ops == old(ops) + [Insert(col, key, value)]
    { ops := ops + [Insert(col, key, value)]; }

    method DeleteKey(col: nat, key: Key)
      modifies this
      ensures ops == old(ops) + [Delete(col, key)]
    { ops := ops + [Delete(col, key)]; }

    method DeleteByPrefix(col: nat, prefix: Key)
      modifies this
      ensures ops == old(ops) + [DeletePrefix(col, prefix)]
    { ops := ops + [DeletePrefix(col, prefix)]; }
  }

  // ---------- The in-memory store ----------

  /** One operation on plain maps, deletion by prefix being a filter; unknown columns are ignored. */
  ghost function ApplyOp(columns: map<nat, Column>, op: DBOp): map<nat, Column> {
    if op.col !in columns then columns
    else
      var c := columns[op.col];
      match op
      case Insert(col, key, value) => columns[col := c[key := value]]
      case Delete(col, key) => columns[col := c - {key}]
      case DeletePrefix(col, prefix) => columns[col := map k | k in c && !StartsWith(k, prefix) :: c[k]]
  }

  ghost function ApplyOps(columns: map<nat, Column>, ops: seq<DBOp>): map<nat, Column> {
    if ops == [] then columns else ApplyOp(ApplyOps(columns, ops[..|ops| - 1]), ops[|ops| - 1])
  }

  /** The operation writes or deletes this key. */
  ghost predicate Touches(op: DBOp, col: nat, key: Key) {
    op.col == col &&
    match op
    case Insert(_, k, _) => k == key
    case Delete(_, k) => k == key
    case DeletePrefix(_, prefix) => StartsWith(key, prefix)
  }

  function Stored(c: Column, key: Key): Option<seq<byte>> { if key in c then Some(c[key]) else None }

  /** Operation i touches the key, and none behind it does. */
  ghost predicate Decides(ops: seq<DBOp>, i: nat, col: nat, key: Key) {
    i < |ops| && Touches(ops[i], col, key) && Untouched(ops, i + 1, col, key)
  }

  ghost predicate Untouched(ops: seq<DBOp>, from: nat, col: nat, key: Key) {
    forall j :: from <= j < |ops| ==> !Touches(ops[j], col, key)
  }

  /** Of all operations of a batch that touch a key the last one decides what is stored under it. */
  lemma {:induction false} LastOpWins(columns: map<nat, Column>, ops: seq<DBOp>, col: nat, key: Key, i: nat)
    requires col in columns
    ensures ApplyOps(columns, ops).Keys == columns.Keys
    ensures Untouched(ops, 0, col, key) ==> Stored(ApplyOps(columns, ops)[col], key) == Stored(columns[col], key)
    ensures Decides(ops, i, col, key) ==>
              Stored(ApplyOps(columns, ops)[col], key) == if ops[i].Insert? then Some(ops[i].value) else None
    decreases |ops|
  {
    hide Touches, Stored, ApplyOp;
    if ops != [] {
      var n := |ops| - 1;
      var front := ops[..n];
      assert forall j :: 0 <= j < n ==> front[j] == ops[j];
      LastOpWins(columns, front, col, key, i);
      OneOp(ApplyOps(columns, front), ops[n], col, key);
    }
  }

  lemma OneOp(columns: map<nat, Column>, op: DBOp, col: nat, key: Key)
    requires col in columns
    ensures ApplyOp(columns, op).Keys == columns.Keys
    ensures Stored(ApplyOp(columns, op)[col], key) ==
              if !Touches(op, col, key) then Stored(columns[col], key)
              else if op.Insert? then Some(op.value) else None
  {
    hide StartsWith;
  }

  class InMemory {
    var columns: map<nat, Column>

    /** Columns 0 to numCols, all empty. */
    constructor (numCols: nat)
      ensures forall c: nat :: c in columns <==> c < numCols
      ensures forall c: nat :: c in columns ==> columns[c] == map[]
    {
      var cols: map<nat, Column> := map[];
      for idx := 0 to numCols
        invariant forall c: nat :: c in cols <==> c < idx
        invariant forall c: nat :: c in cols ==> cols[c] == map[]
      {
        cols := cols[idx := map[]];
      }
      columns := cols;
    }

    /** None stands for the error about a missing column. */
    method Get(col: nat, key: Key) returns (r: Option<Option<seq<byte>>>)
      ensures r.None? <==> col !in columns
      ensures col in columns ==> r == Some(Stored(columns[col], key))
    {
      if col !in columns { return None; }
      return Some(if key in columns[col] then Some(columns[col][key]) else None);
    }

    method IterWithPrefix(col: nat, prefix: Key) returns (r: Column)
      ensures col !in columns ==> r == map[]
      ensures col in columns ==> r == map k | k in columns[col] && StartsWith(k, prefix) :: columns[col][k]
    {
      if col !in columns { return map[]; }
      r := map k | k in columns[col] && |prefix| <= |k| && k[..|prefix|] == prefix :: columns[col][k];
    }

    /** Runs all operations of a batch in order. */
    method Write(ops: seq<DBOp>)
      modifies this
      ensures columns == ApplyOps(old(columns), ops)
    {
      for i := 0 to |ops|
        invariant columns == ApplyOps(old(columns), ops[..i])
      {
        assert ops[..i + 1][..i] == ops[..i];
        match ops[i] {
          case Insert(col, key, value) =>
            if col in columns { columns := columns[col := columns[col][key := value]]; }
          case Delete(col, key) =>
            if col in columns { columns := columns[col := columns[col] - {key}]; }
          case DeletePrefix(col, prefix) =>
            if col in columns {
              var left := RemovePrefix(columns[col], prefix);
              columns := columns[col := left];
            }
        }
      }
      assert ops[..|ops|] == ops;
    }
  }

  /** The keys of the range are collected and removed one by one. */
  method RemovePrefix(c: Column, prefix: Key) returns (r: Column)
    ensures r == map k | k in c && !StartsWith(k, prefix) :: c[k]
  {
    if prefix == [] {
      assert forall k :: k in c ==> k[..0] == [];
      return map[];
    }
    var end := EndPrefix(prefix);
    var keys: set<Key> := set k | k in c && AtMost(prefix, k) && (end.None? || Less(k, end.value));
    r := c;
    ghost var range := keys;
    while keys != {}
      invariant keys <= range
      invariant r == map k | k in c && (k !in range || k in keys) :: c[k]
      decreases keys
    {
      var key :| key in keys;
      keys := keys - {key};
      r := r - {key};
    }
    forall k | k in c ensures k in range <==> StartsWith(k, prefix) { RangeIsPrefix(k, prefix); }
  }
}
