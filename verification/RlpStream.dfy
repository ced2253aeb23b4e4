/** The appendable encoder: nested lists written before their length is known. */
module Stream {
  import opened Arith
  import opened Bytes
  import opened Wrappers
  import opened Words
  import opened Encoding

  /** An open list: where its payload starts, how many items it has, how many it expects. */
  datatype ListInfo = ListInfo(position: nat, current: nat, max: Option<nat>)

  datatype State = State(lists: seq<ListInfo>, start: nat, buffer: seq<byte>)

  // ---------- Specification ----------

  /**
   * Open lists start one after the other inside the written part, each behind its reserved byte,
   * and a bounded list still expects an item.
   */
  ghost predicate Valid(st: State) {
    && st.start <= |st.buffer|
    && (forall i :: 0 <= i < |st.lists| ==>
          && 0 < st.lists[i].position <= |st.buffer| - st.start
          && (st.lists[i].max.Some? ==> st.lists[i].current < st.lists[i].max.value))
    && (forall i, j :: 0 <= i < j < |st.lists| ==> st.lists[i].position < st.lists[j].position)
  }

  /** The source panics when a bounded list gets more items than it expects. */
  ghost predicate CanNote(st: State, k: nat) {
    st.lists != [] ==>
      var x := st.lists[|st.lists| - 1];
      x.max.Some? ==> x.current + k <= x.max.value
  }

  function Put(st: State, bytes: seq<byte>): State {
    st.(buffer := st.buffer + bytes)
  }

  /** Closes the innermost list: its prefix goes where its reserved byte is. */
  function Close(st: State): (r: State)
    requires Valid(st) && st.lists != []
    ensures Valid(r)
  {
    var x := st.lists[|st.lists| - 1];
    var p := st.start + x.position;
    State(st.lists[..|st.lists| - 1], st.start,
          st.buffer[..p - 1] + WrittenHeader(0xc0, |st.buffer| - p) + st.buffer[p..])
  }

  /** Does noting k items complete the innermost list? */
  predicate Completes(st: State, k: nat) {
    st.lists != [] && var x := st.lists[|st.lists| - 1]; x.max == Some(x.current + k)
  }

  /** Counts k items in the innermost list and closes every list this completes. */
  function Note(st: State, k: nat): (r: State)
    requires Valid(st) && CanNote(st, k)
    ensures Valid(r)
    decreases |st.lists|
  {
    if st.lists == [] then st
    else if Completes(st, k) then Note(Close(st), 1)
    else
      var n := |st.lists| - 1;
      st.(lists := st.lists[..n] + [st.lists[n].(current := st.lists[n].current + k)])
  }

  /** One complete item with the given bytes is appended and counted. */
  function AppendItem(st: State, bytes: seq<byte>): (r: State)
    requires Valid(st)
    ensures Valid(r)
  {
    Note(Put(st, bytes), 1)
  }

  /** One item after the other. */
  function AppendEach(st: State, items: seq<Item>): (r: State)
    requires Valid(st)
    ensures Valid(r)
  {
    if items == [] then st
    else
      var n := |items| - 1;
      AppendItem(AppendEach(st, items[..n]), Written(items[n]))
  }

  /** Raw bytes that are k items, counted as k items, are the same as appending these items one by one. */
  lemma {:induction false} RawIsItems(st: State, items: seq<Item>)
    requires Valid(st) && CanNote(st, |items|)
    ensures Note(Put(st, WrittenAll(items)), |items|) == AppendEach(st, items)
  {
    hide Written, WrittenAll;
    if items == [] {
      NoItems(st);
    } else {
      var n := |items| - 1;
      RawIsItems(st, items[..n]);
      WrittenAllSnoc(items[..n], items[n]);
      assert items == items[..n] + [items[n]];
      NoteOneMore(st, WrittenAll(items[..n]), n, Written(items[n]));
    }
  }

  lemma NoItems(st: State)
    requires Valid(st)
    ensures Note(Put(st, WrittenAll([])), 0) == st
  {}

  lemma NoteOneMore(st: State, front: seq<byte>, n: nat, bytes: seq<byte>)
    requires Valid(st) && CanNote(st, n + 1)
    ensures AppendItem(Note(Put(st, front), n), bytes) == Note(Put(st, front + bytes), n + 1)
  {
    hide WrittenHeader, Note;
    assert st.buffer + (front + bytes) == st.buffer + front + bytes;
    if st.lists == [] {
      NoteNone(Put(st, front), n);
      NoteNone(Put(st, front + bytes), n + 1);
      NoteNone(Put(st, front + bytes), 1);
    } else {
      CountsNotYet(Put(st, front), n);
      CountsOnly(Put(st, front), n);
      NoteCounted(Put(st, front + bytes), n);
    }
  }

  lemma NoteNone(st: State, k: nat)
    requires Valid(st) && CanNote(st, k) && st.lists == []
    ensures Note(st, k) == st
  {}

  /** The innermost list has n items more. */
  function Counted(st: State, n: nat): State
    requires st.lists != []
  {
    var m := |st.lists| - 1;
    st.(lists := st.lists[..m] + [st.lists[m].(current := st.lists[m].current + n)])
  }

  lemma CountsOnly(st: State, n: nat)
    requires Valid(st) && CanNote(st, n) && st.lists != [] && !Completes(st, n)
    ensures Note(st, n) == Counted(st, n) && Valid(Counted(st, n))
  {}

  lemma NoteCloses(st: State, n: nat)
    requires Valid(st) && CanNote(st, n) && Completes(st, n)
    ensures Note(st, n) == Note(Close(st), 1)
  {
    hide WrittenHeader;
  }

  lemma CloseCounted(st: State, n: nat)
    requires Valid(st) && st.lists != [] && Valid(Counted(st, n))
    ensures Close(Counted(st, n)) == Close(st)
  {
    hide WrittenHeader;
    var m := |st.lists| - 1;
    assert Counted(st, n).lists[..m] == st.lists[..m];
  }

  lemma CountedTwice(st: State, n: nat)
    requires st.lists != []
    ensures Counted(st, n).lists != [] && Counted(Counted(st, n), 1) == Counted(st, n + 1)
    ensures Completes(Counted(st, n), 1) <==> Completes(st, n + 1)
    ensures CanNote(st, n + 1) ==> CanNote(Counted(st, n), 1)
  {
    var m := |st.lists| - 1;
    assert Counted(st, n).lists[..m] == st.lists[..m];
  }

  lemma NoteCounted(st: State, n: nat)
    requires Valid(st) && CanNote(st, n + 1) && st.lists != []
    ensures Valid(Counted(st, n)) && Note(Counted(st, n), 1) == Note(st, n + 1)
  {
    hide Note, Close, Counted, Valid;
    CountsNotYet(st, n);
    CountsOnly(st, n);
    CountedTwice(st, n);
    if Completes(st, n + 1) {
      CloseCounted(st, n);
      NoteCloses(st, n + 1);
      NoteCloses(Counted(st, n), 1);
    } else {
      CountsOnly(st, n + 1);
      CountsOnly(Counted(st, n), 1);
    }
  }

  lemma CountsNotYet(st: State, n: nat)
    requires CanNote(st, n + 1)
    ensures CanNote(st, n) && !Completes(st, n)
  {}

  function Open(st: State, max: Option<nat>): (r: State)
    requires Valid(st) && max != Some(0)
    ensures Valid(r)
  {
    State(st.lists + [ListInfo(|st.buffer| + 1 - st.start, 0, max)], st.start, st.buffer + [0])
  }

  // ---------- The encoder ----------

  /** The four big-endian bytes of a u32. */
  function ToBE4(v: nat): (s: seq<byte>)
    requires v < TWO32
    ensures |s| == 4
  {
    [v / 0x100_0000, (v / 0x1_0000) % 256, (v / 0x100) % 256, v % 256]
  }

  lemma ByteCount(v: nat, k: nat)
    ensures BitLen(v) <= 8 * k <==> v < Pow(2, 8 * k)
  {
    hide BitLen, Pow;
    if v < Pow(2, 8 * k) { BitLenAtMost(v, 8 * k); }
    BitLenBounds(v);
    if BitLen(v) <= 8 * k { PowIncreases(2, BitLen(v), 8 * k); }
  }

  lemma PowersOf256()
    ensures Pow(2, 0) == 1 && Pow(2, 8) == 0x100 && Pow(2, 16) == 0x1_0000 && Pow(2, 24) == 0x100_0000 && Pow(2, 32) == TWO32
  {
    assert Pow(2, 4) == 16;
    PowAdd(2, 4, 4);
    PowAdd(2, 8, 8);
    PowAdd(2, 8, 16);
    PowAdd(2, 16, 16);
  }

  /** Dropping the leading zero bytes leaves the shortest big-endian bytes. */
  lemma DropLeadingZeros(v: nat)
    requires v < TWO32
    ensures BitLen(v) <= 32 && ToBE4(v)[(32 - BitLen(v)) / 8..] == BE(v)
  {
    hide BitLen, Pow;
    PowersOf256();
    ByteCount(v, 0);
    ByteCount(v, 1);
    ByteCount(v, 2);
    ByteCount(v, 3);
    ByteCount(v, 4);
    ShortBytes(v);
  }

  lemma ShortBytes(v: nat)
    requires v < TWO32
    ensures BE(v) ==
              if v == 0 then [] else if v < 0x100 then ToBE4(v)[3..] else if v < 0x1_0000 then ToBE4(v)[2..]
              else if v < 0x100_0000 then ToBE4(v)[1..] else ToBE4(v)
  {
    hide BE;
    var (a, b, c) := (v / 0x100, v / 0x1_0000, v / 0x100_0000);
    assert a / 256 == b && b / 256 == c && c / 256 == 0;
    FourBytes(v, a, b, c);
  }

  lemma FourBytes(v: nat, a: nat, b: nat, c: nat)
    requires a == v / 256 && b == a / 256 && c == b / 256 && c < 256
    ensures BE(v) ==
              if v == 0 then [] else if a == 0 then [v % 256] else if b == 0 then [a % 256, v % 256]
              else if c == 0 then [b % 256, a % 256, v % 256] else [c, b % 256, a % 256, v % 256]
  {
    hide BE;
    BEStep(v);
    BEStep(a);
    BEStep(b);
    BEStep(c);
    BEStep(0);
  }

  lemma BEStep(v: nat)
    ensures BE(v) == if v == 0 then [] else BE(v / 256) + [v % 256]
  {}

  /** `rotate_right` */
  function RotateRight(s: seq<byte>, k: nat): seq<byte>
    requires k <= |s|
  {
    s[|s| - k..] + s[..|s| - k]
  }

  lemma RotateIn(s: seq<byte>, t: seq<byte>)
    ensures RotateRight(s + t, |t|) == t + s
  {
    assert (s + t)[|s|..] == t && (s + t)[..|s|] == s;
  }

  /** The encoded data of one value, with its length narrowed. */
  function WrittenData(b: seq<byte>): seq<byte> {
    Written(Data(b))
  }

  class RlpStream {
    var unfinishedLists: seq<ListInfo>
    var startPos: nat
    var buffer: seq<byte>
    var finishedList: bool

    /** The encoder state the specification speaks of. */
    ghost function View(): State reads this { State(unfinishedLists, startPos, buffer) }

    /** Starts behind whatever the buffer already holds (`new_with_buffer`). */
    constructor (buf: seq<byte>)
      ensures View() == State([], |buf|, buf) && Valid(View()) && !finishedList
    {
      unfinishedLists, startPos, buffer, finishedList := [], |buf|, buf, false;
    }

    function TotalWritten(): nat
      requires startPos <= |buffer|
      reads this
    { |buffer| - startPos }

    /** Appends the length bytes at the end and rotates them to their place. */
    method InsertSize(size: nat, position: nat) returns (sizeBytes: byte)
      requires startPos + position <= |buffer|
      modifies `buffer
      ensures sizeBytes == |NarrowBE(size)|
      ensures buffer == old(buffer)[..startPos + position] + NarrowBE(size) + old(buffer)[startPos + position..]
    {
      hide BE, BitLen, ToBE4, RotateRight;
      var narrow := size % TWO32;
      DropLeadingZeros(narrow);
      var leadingEmptyBytes := (32 - BitLen(narrow)) / 8;
      sizeBytes := 4 - leadingEmptyBytes;
      var bytes := ToBE4(narrow);
      ghost var was, at := buffer, startPos + position;
      buffer := buffer + bytes[leadingEmptyBytes..];
      assert buffer[at..] == was[at..] + NarrowBE(size);
      RotateIn(was[at..], NarrowBE(size));
      buffer := buffer[..startPos + position] + RotateRight(buffer[startPos + position..], sizeBytes);
    }

    /** Inserts the list prefix in front of the payload at `pos`; one byte is already reserved. */
    method InsertListPayload(len: nat, pos: nat)
      requires 0 < pos && startPos + pos <= |buffer|
      modifies `buffer
      ensures buffer == old(buffer)[..startPos + pos - 1] + WrittenHeader(0xc0, len) + old(buffer)[startPos + pos..]
    {
      if len <= 55 {
        buffer := buffer[startPos + pos - 1 := 0xc0 + len];
      } else {
        var insertedBytes := InsertSize(len, pos);
        buffer := buffer[startPos + pos - 1 := 0xf7 + insertedBytes];
      }
    }

    /** Pushes one encoded value to the end of the buffer. */
    method EncodeIter(value: seq<byte>)
      requires startPos <= |buffer|
      modifies `buffer
      ensures buffer == old(buffer) + WrittenData(value)
    {
      var len := |value|;
      if len == 0 {
        buffer := buffer + [0x80];
      } else if len <= 55 {
        var first := value[0];
        if len == 1 && first < 0x80 {
          // A small byte stands for itself.
          buffer := buffer + [first];
        } else {
          // The prefix byte holds the length.
          buffer := buffer + [0x80 + len];
          buffer := buffer + [first];
          buffer := buffer + value[1..];
        }
      } else {
        // A byte is reserved, the length is rotated in behind it, and only then is the byte known.
        buffer := buffer + [0];
        var position := TotalWritten();
        var insertedBytes := InsertSize(len, position);
        buffer := buffer[startPos + position - 1 := 0xb7 + insertedBytes];
        buffer := buffer + value;
      }
    }

    /** Counts appended items and finishes the lists they complete. */
    method NoteAppended(insertedItems: nat)
      requires Valid(View()) && CanNote(View(), insertedItems)
      modifies this
      ensures View() == Note(old(View()), insertedItems)
      ensures finishedList ==
                if old(unfinishedLists) == [] then old(finishedList) else Completes(old(View()), insertedItems)
      decreases |unfinishedLists|
    {
      hide WrittenHeader;
      if unfinishedLists == [] {
        return;
      }
      var back := |unfinishedLists| - 1;
      var x := unfinishedLists[back];
      x := x.(current := x.current + insertedItems);
      var shouldFinish := x.max == Some(x.current);
      if shouldFinish {
        unfinishedLists := unfinishedLists[..back];
        var len := TotalWritten() - x.position;
        InsertListPayload(len, x.position);
        assert View() == Close(old(View()));
        NoteAppended(1);
      } else {
        unfinishedLists := unfinishedLists[back := x];
        assert unfinishedLists == old(unfinishedLists)[..back] + [x];
      }
      finishedList := shouldFinish;
    }

    method AppendEmptyData()
      requires Valid(View())
      modifies this
      ensures View() == AppendItem(old(View()), [0x80])
    {
      buffer := buffer + [0x80];
      assert Valid(View());
      NoteAppended(1);
    }

    /** Appends already encoded items. */
    method AppendRaw(bytes: seq<byte>, itemCount: nat)
      requires Valid(View()) && CanNote(View(), itemCount)
      modifies this
      ensures View() == Note(Put(old(View()), bytes), itemCount)
      ensures forall items :: |items| == itemCount && WrittenAll(items) == bytes ==> View() == AppendEach(old(View()), items)
    {
      hide Written, WrittenAll, AppendEach;
      ghost var was := View();
      forall items | |items| == itemCount && WrittenAll(items) == bytes
        ensures Note(Put(was, bytes), itemCount) == AppendEach(was, items)
      {
        RawIsItems(was, items);
      }
      buffer := buffer + bytes;
      assert View() == Put(old(View()), bytes);
      NoteAppended(itemCount);
    }

    method AppendIter(value: seq<byte>)
      requires Valid(View())
      modifies this
      ensures View() == AppendItem(old(View()), WrittenData(value))
    {
      finishedList := false;
      EncodeIter(value);
      assert View() == Put(old(View()), WrittenData(value));
      if !finishedList {
        NoteAppended(1);
      }
    }

    method BeginList(len: nat)
      requires Valid(View())
      modifies this
      ensures View() == if len == 0 then AppendItem(old(View()), [0xc0]) else Open(old(View()), Some(len))
      ensures finishedList <==> len == 0
    {
      finishedList := false;
      if len == 0 {
        buffer := buffer + [0xc0];
        assert View() == Put(old(View()), [0xc0]);
        NoteAppended(1);
        finishedList := true;
      } else {
        buffer := buffer + [0];
        var position := TotalWritten();
        unfinishedLists := unfinishedLists + [ListInfo(position, 0, Some(len))];
      }
    }

    method BeginUnboundedList()
      requires Valid(View())
      modifies this
      ensures View() == Open(old(View()), None)
      ensures !finishedList
    {
      finishedList := false;
      buffer := buffer + [0];
      var position := TotalWritten();
      unfinishedLists := unfinishedLists + [ListInfo(position, 0, None)];
    }

    /** Panics unless the innermost open list is unbounded. */
    method FinalizeUnboundedList()
      requires Valid(View())
      requires unfinishedLists != [] && unfinishedLists[|unfinishedLists| - 1].max.None?
      modifies this
      ensures View() == Note(Close(old(View())), 1)
      ensures finishedList
    {
      var list := unfinishedLists[|unfinishedLists| - 1];
      unfinishedLists := unfinishedLists[..|unfinishedLists| - 1];
      var len := TotalWritten() - list.position;
      InsertListPayload(len, list.position);
      assert View() == Close(old(View()));
      NoteAppended(1);
      finishedList := true;
    }

    method IsFinished() returns (r: bool)
      ensures r <==> unfinishedLists == []
    {
      r := unfinishedLists == [];
    }

    method Clear()
      requires Valid(View())
      modifies this
      ensures View() == State([], startPos, old(buffer[..startPos]))
      ensures Valid(View())
    {
      buffer := buffer[..startPos];
      unfinishedLists := [];
    }

    // ---------- Encodable values ----------

    /** `Encodable::rlp_append` for byte strings, and for lists written with `begin_list` and `append`. */
    method RlpAppend(t: Tree)
      requires Valid(View())
      modifies this
      ensures t.Leaf? ==> View() == Put(old(View()), Written(t.Item())) && finishedList == old(finishedList)
      ensures t.Node? ==> View() == AppendItem(old(View()), Written(t.Item())) && finishedList
      decreases t, 0
    {
      hide Items, Note;
      ghost var st := View();
      match t
      case Leaf(bytes) =>
        EncodeIter(bytes);
      case Node(children, bounded) =>
        if bounded { BeginList(|children|); } else { BeginUnboundedList(); }
        ghost var items := Items(children);
        ListStart(st, items, bounded);
        for i := 0 to |children|
          invariant Valid(View()) && View() == Progress(st, items, i, bounded)
          invariant bounded && i == |children| ==> finishedList
        {
          ListStep(st, items, i, bounded);
          Append(children[i]);
        }
        if !bounded {
          ListEnd(st, items);
          FinalizeUnboundedList();
        }
    }

    /** Appends a value and counts it once, unless finishing its own list has counted it. */
    method Append(value: Tree)
      requires Valid(View())
      modifies this
      ensures View() == AppendItem(old(View()), Written(value.Item()))
      ensures finishedList == (value.Node? || Completes(old(View()), 1))
      decreases value, 1
    {
      finishedList := false;
      RlpAppend(value);
      if !finishedList {
        NoteAppended(1);
      }
    }
  }

  // ---------- Trees of values ----------

  /** A value to encode: bytes, or a list whose length is announced or not. */
  datatype Tree = Leaf(bytes: seq<byte>) | Node(children: seq<Tree>, bounded: bool) {
    function Item(): Item {
      match this
      case Leaf(b) => Data(b)
      case Node(cs, _) => List(Items(cs))
    }
  }

  function Items(ts: seq<Tree>): (r: seq<Item>)
    ensures |r| == |ts|
    ensures forall k :: 0 <= k < |ts| ==> r[k] == ts[k].Item()
  {
    if ts == [] then [] else [ts[0].Item()] + Items(ts[1..])
  }

  /** The state while i of the items of a list have been appended. */
  ghost function Progress(st: State, items: seq<Item>, i: nat, bounded: bool): State
    requires Valid(st) && i <= |items|
  {
    if bounded && i == |items| then AppendItem(st, Written(List(items)))
    else State(st.lists + [ListInfo(|st.buffer| + 1 - st.start, i, if bounded then Some(|items|) else None)],
               st.start, st.buffer + [0] + WrittenAll(items[..i]))
  }

  lemma ListStart(st: State, items: seq<Item>, bounded: bool)
    requires Valid(st)
    ensures var first := if bounded && items == [] then AppendItem(st, [0xc0]) else Open(st, if bounded then Some(|items|) else None);
      Valid(first) && first == Progress(st, items, 0, bounded)
  {
    hide Note;
    assert items[..0] == [];
    NothingWritten();
    assert st.buffer + [0] + [] == st.buffer + [0];
  }

  lemma NothingWritten()
    ensures WrittenAll([]) == []
    ensures Written(List([])) == [0xc0]
  {
    assert WrittenAll([]) == [];
    assert WrittenHeader(0xc0, 0) + [] == [0xc0];
  }

  /** Closing a list whose payload follows its reserved byte yields the list's encoding. */
  lemma CloseWhole(st: State, items: seq<Item>, current: nat, max: Option<nat>)
    requires Valid(st)
    requires max.Some? ==> current < max.value
    ensures var inner := State(st.lists + [ListInfo(|st.buffer| + 1 - st.start, current, max)], st.start,
                               st.buffer + [0] + WrittenAll(items));
      Valid(inner) && Close(inner) == Put(st, Written(List(items)))
  {
    hide WrittenHeader, WrittenAll;
    var inner := State(st.lists + [ListInfo(|st.buffer| + 1 - st.start, current, max)], st.start,
                       st.buffer + [0] + WrittenAll(items));
    var p := |st.buffer| + 1;
    assert inner.buffer[p..] == WrittenAll(items);
    assert inner.buffer[..p - 1] == st.buffer;
    assert inner.lists[..|inner.lists| - 1] == st.lists;
    assert |inner.buffer| - p == |WrittenAll(items)|;
    assert Written(List(items)) == WrittenHeader(0xc0, |WrittenAll(items)|) + WrittenAll(items);
    assert Close(inner).buffer == st.buffer + WrittenHeader(0xc0, |WrittenAll(items)|) + WrittenAll(items);
    assert st.buffer + WrittenHeader(0xc0, |WrittenAll(items)|) + WrittenAll(items)
        == st.buffer + (WrittenHeader(0xc0, |WrittenAll(items)|) + WrittenAll(items));
  }

  /** Appending one more item of a list. */
  lemma ListStep(st: State, items: seq<Item>, i: nat, bounded: bool)
    requires Valid(st) && i < |items|
    ensures var before := Progress(st, items, i, bounded);
      Valid(before) && AppendItem(before, Written(items[i])) == Progress(st, items, i + 1, bounded)
  {
    hide Written, WrittenHeader, WrittenAll, Close;
    var before := Progress(st, items, i, bounded);
    assert items[..i + 1] == items[..i] + [items[i]];
    WrittenAllSnoc(items[..i], items[i]);
    var put := Put(before, Written(items[i]));
    assert put.buffer == st.buffer + [0] + WrittenAll(items[..i + 1]);
    if bounded && i + 1 == |items| {
      assert items[..i + 1] == items;
      CloseWhole(st, items, i, Some(|items|));
      assert Note(put, 1) == Note(Close(put), 1);
    }
  }

  lemma ListEnd(st: State, items: seq<Item>)
    requires Valid(st)
    ensures var last := Progress(st, items, |items|, false);
      && Valid(last) && last.lists != [] && last.lists[|last.lists| - 1].max.None?
      && Close(last) == Put(st, Written(List(items)))
  {
    hide Written, WrittenAll, Close;
    assert items[..|items|] == items;
    CloseWhole(st, items, |items|, None);
  }

  /**
   * Appending any value to a stream without open lists leaves the old bytes followed by the
   * value's Yellow Paper encoding, provided its payloads fit 32 bits, and only then.
   */
  lemma AppendAtTop(st: State, t: Tree)
    requires Valid(st) && st.lists == []
    ensures var r := AppendItem(st, Written(t.Item()));
      && r.lists == []
      && (r.buffer == st.buffer + Enc(t.Item()) <==> Fits(t.Item()))
  {
    hide Written, Enc;
    WrittenIsEncoding(t.Item());
    var w, e := Written(t.Item()), Enc(t.Item());
    assert (st.buffer + w)[|st.buffer|..] == w && (st.buffer + e)[|st.buffer|..] == e;
  }

  // ---------- Flat use of the interface ----------

  /** A call on the stream. */
  datatype Op = AppendOp(bytes: seq<byte>) | BeginListOp(len: nat) | BeginUnboundedOp | FinalizeOp

  /** The calls that do not panic. */
  ghost predicate CanStep(st: State, op: Op) {
    op.FinalizeOp? ==> st.lists != [] && st.lists[|st.lists| - 1].max.None?
  }

  function Step(st: State, op: Op): (r: State)
    requires Valid(st) && CanStep(st, op)
    ensures Valid(r)
  {
    match op
    case AppendOp(b) => AppendItem(st, WrittenData(b))
    case BeginListOp(n) => if n == 0 then AppendItem(st, [0xc0]) else Open(st, Some(n))
    case BeginUnboundedOp => Open(st, None)
    case FinalizeOp => Note(Close(st), 1)
  }

  ghost predicate CanRun(st: State, ops: seq<Op>)
    requires Valid(st)
    decreases |ops|
  {
    ops == [] || (CanStep(st, ops[0]) && CanRun(Step(st, ops[0]), ops[1..]))
  }

  function Run(st: State, ops: seq<Op>): (r: State)
    requires Valid(st) && CanRun(st, ops)
    ensures Valid(r)
    decreases |ops|
  {
    if ops == [] then st else Run(Step(st, ops[0]), ops[1..])
  }

  /** The calls that write a tree in pre-order, without nesting any of them. */
  function Preorder(t: Tree): seq<Op>
    decreases t, 0
  {
    match t
    case Leaf(b) => [AppendOp(b)]
    case Node(cs, true) => [BeginListOp(|cs|)] + PreorderAll(cs)
    case Node(cs, false) => [BeginUnboundedOp] + (PreorderAll(cs) + [FinalizeOp])
  }

  function PreorderAll(ts: seq<Tree>): seq<Op>
    decreases ts, 1
  {
    if ts == [] then [] else Preorder(ts[0]) + PreorderAll(ts[1..])
  }

  lemma {:induction false} RunConcat(st: State, s: seq<Op>, t: seq<Op>)
    requires Valid(st) && CanRun(st, s) && CanRun(Run(st, s), t)
    ensures CanRun(st, s + t) && Run(st, s + t) == Run(Run(st, s), t)
    decreases |s|
  {
    hide Step;
    if s == [] {
      assert s + t == t;
    } else {
      assert (s + t)[0] == s[0] && (s + t)[1..] == s[1..] + t;
      RunConcat(Step(st, s[0]), s[1..], t);
    }
  }

  lemma RunOne(st: State, op: Op)
    requires Valid(st) && CanStep(st, op)
    ensures CanRun(st, [op]) && Run(st, [op]) == Step(st, op)
  {
    hide Step;
    assert [op][1..] == [];
    assert CanRun(Step(st, op), []);
  }

  /** Calls made in pre-order append the tree as one item, wherever the stream stands. */
  lemma {:induction false} RunPreorder(st: State, t: Tree)
    requires Valid(st)
    ensures CanRun(st, Preorder(t))
    ensures Run(st, Preorder(t)) == AppendItem(st, Written(t.Item()))
    decreases t, 1
  {
    hide Written, Progress, Run, CanRun;
    match t
    case Leaf(b) =>
      RunOne(st, AppendOp(b));
    case Node(cs, bounded) =>
      var items := Items(cs);
      ListStart(st, items, bounded);
      var opening := if bounded then BeginListOp(|cs|) else BeginUnboundedOp;
      RunOne(st, opening);
      var first := Progress(st, items, 0, bounded);
      RunChildren(st, t, cs, 0, bounded);
      assert cs[0..] == cs;
      var last := Progress(st, items, |cs|, bounded);
      ProgressEnd(st, items);
      if bounded {
        RunConcat(st, [opening], PreorderAll(cs));
      } else {
        ListEnd(st, items);
        RunOne(last, FinalizeOp);
        RunConcat(first, PreorderAll(cs), [FinalizeOp]);
        RunConcat(st, [opening], PreorderAll(cs) + [FinalizeOp]);
      }
  }

  lemma ProgressEnd(st: State, items: seq<Item>)
    requires Valid(st)
    ensures Progress(st, items, |items|, true) == AppendItem(st, Written(List(items)))
  {}

  lemma {:induction false} RunChildren(st: State, t: Tree, cs: seq<Tree>, i: nat, bounded: bool)
    requires Valid(st) && i <= |cs| && t.Node? && t.children == cs
    requires Valid(Progress(st, Items(cs), i, bounded))
    ensures Valid(Progress(st, Items(cs), |cs|, bounded))
    ensures CanRun(Progress(st, Items(cs), i, bounded), PreorderAll(cs[i..]))
    ensures Run(Progress(st, Items(cs), i, bounded), PreorderAll(cs[i..])) == Progress(st, Items(cs), |cs|, bounded)
    decreases t, 0, |cs| - i
  {
    hide Written, Progress, Preorder, Items;
    var before := Progress(st, Items(cs), i, bounded);
    if i < |cs| {
      ListStep(st, Items(cs), i, bounded);
      RunPreorder(before, cs[i]);
      RunChildren(st, t, cs, i + 1, bounded);
      assert cs[i..][0] == cs[i] && cs[i..][1..] == cs[i + 1..];
      RunConcat(before, Preorder(cs[i]), PreorderAll(cs[i + 1..]));
    }
  }
}
