/**
 Filling the table and the string pool (`write_out`) and probing them
 (`catgets`): the table is an exact index of the messages.
 */
module TableLookup {
  import opened MessageIndex

  /** The three words of a table cell; set number 0 marks a free cell. */
  datatype Cell = Cell(setNo: Word, msgNo: Word, offset: Word)

  const FREE: Cell := Cell(0, 0, 0)

  /** What `__open_catalog` makes of a catalog file. */
  datatype CatalogInfo = CatalogInfo(planeSize: Word, planeDepth: Word, names: seq<Word>, strings: seq<Byte>)

  /** All texts, each with its terminator. */
  function Pool(es: seq<Entry>): seq<Byte>
  {
    if es == [] then [] else Pool(es[..|es| - 1]) + es[|es| - 1].text + [0]
  }

  ghost predicate Used(cs: seq<Cell>)
  {
    forall i :: 0 <= i < |cs| ==> cs[i].setNo > 0
  }

  /** The cell of each message; the offset is stored in 32 bits. */
  function Cells(es: seq<Entry>): (cs: seq<Cell>)
    ensures |cs| == |es|
    ensures forall i :: 0 <= i < |es| ==> cs[i].setNo == es[i].setNo && cs[i].msgNo == es[i].msgNo
    ensures Used(cs)
  {
    if es == [] then []
    else
      var init, e := es[..|es| - 1], es[|es| - 1];
      Cells(init) + [Cell(e.setNo, e.msgNo, |Pool(init)| % 0x1_0000_0000)]
  }

  /** The NUL-terminated string that starts at `offset`. */
  function StringAt(strings: seq<Byte>, offset: nat): CString
    decreases |strings| - offset
  {
    if offset >= |strings| || strings[offset] == 0 then []
    else [strings[offset]] + StringAt(strings, offset + 1)
  }

  /** The cells of column `b`, from the top. */
  ghost function Column(cs: seq<Cell>, size: nat, b: nat): seq<Cell>
    requires size > 0
  {
    if cs == [] then []
    else
      var c := cs[|cs| - 1];
      Column(cs[..|cs| - 1], size, b) + if Bucket(size, c.setNo, c.msgNo) == b then [c] else []
  }

  function Pos(size: nat, b: nat, level: nat): nat
  {
    3 * (b + level * size)
  }

  function At(table: seq<Word>, p: nat): Cell
  {
    if p + 2 < |table| then Cell(table[p], table[p + 1], table[p + 2]) else FREE
  }

  /** The number of words in a table. */
  function TableWords(size: nat, depth: nat): nat
  {
    3 * size * depth
  }

  /** The table holds exactly the cells `cs`: every column is filled from the top,
      in order, and free below. */
  ghost predicate Holds(table: seq<Word>, size: nat, depth: nat, cs: seq<Cell>)
    requires size > 0
  {
    && |table| == TableWords(size, depth)
    && (forall b :: 0 <= b < size ==> |Column(cs, size, b)| <= depth)
    && forall b, l :: 0 <= b < size && 0 <= l < depth ==>
                        At(table, Pos(size, b, l))
                        == if l < |Column(cs, size, b)| then Column(cs, size, b)[l] else FREE
  }

  // ----- Arithmetic of positions -----

  lemma PosInTable(size: nat, depth: nat, b: nat, l: nat)
    requires b < size && l < depth
    ensures Pos(size, b, l) + 2 < TableWords(size, depth)
  {
    assert l * size <= (depth - 1) * size;
    assert (depth - 1) * size + size == depth * size;
  }

  lemma PosNext(size: nat, b: nat, l: nat)
    ensures Pos(size, b, l + 1) == Pos(size, b, l) + size * 3
  {
  }

  lemma PosInjective(size: nat, b: nat, l: nat, c: nat, m: nat)
    requires b < size && c < size && Pos(size, b, l) == Pos(size, c, m)
    ensures b == c && l == m
  {
    LevelsApart(size, l, m);
    LevelsApart(size, m, l);
  }

  lemma LevelsApart(size: nat, l: nat, m: nat)
    ensures l < m ==> l * size + size <= m * size
  {
    if l < m {
      assert (l + 1) * size <= m * size;
    }
  }

  // ----- Columns -----

  lemma {:induction false} ColumnLength(es: seq<Entry>, size: nat, b: nat)
    requires size > 0
    ensures |Column(Cells(es), size, b)| == Count(es, size, b)
  {
    if es != [] {
      assert Cells(es)[..|es| - 1] == Cells(es[..|es| - 1]);
      ColumnLength(es[..|es| - 1], size, b);
    }
  }

  lemma {:induction false} ColumnMembers(cs: seq<Cell>, size: nat, b: nat)
    requires size > 0
    ensures forall c :: c in Column(cs, size, b) <==> c in cs && Bucket(size, c.setNo, c.msgNo) == b
  {
    if cs != [] {
      ColumnMembers(cs[..|cs| - 1], size, b);
      assert cs == cs[..|cs| - 1] + [cs[|cs| - 1]];
    }
  }

  // ----- Filling -----

  lemma ColumnAppend(cs: seq<Cell>, c: Cell, size: nat, b: nat)
    requires size > 0
    ensures Column(cs + [c], size, b)
            == Column(cs, size, b) + if Bucket(size, c.setNo, c.msgNo) == b then [c] else []
  {
  }

  /** Writing one cell at the end of its column. */
  lemma HoldsAppend(table: seq<Word>, next: seq<Word>, size: nat, depth: nat, cs: seq<Cell>, c: Cell)
    requires size > 0 && Holds(table, size, depth, cs)
    requires |Column(cs, size, Bucket(size, c.setNo, c.msgNo))| < depth
    requires |next| == |table|
    requires var b := Bucket(size, c.setNo, c.msgNo);
             var p := Pos(size, b, |Column(cs, size, b)|);
             At(next, p) == c && forall i :: 0 <= i < |table| && !(p <= i < p + 3) ==> next[i] == table[i]
    ensures Holds(next, size, depth, cs + [c])
  {
    var b0 := Bucket(size, c.setNo, c.msgNo);
    var l0 := |Column(cs, size, b0)|;
    forall b | 0 <= b < size
      ensures |Column(cs + [c], size, b)| <= depth
    {
      ColumnAppend(cs, c, size, b);
    }
    forall b, l | 0 <= b < size && 0 <= l < depth
      ensures At(next, Pos(size, b, l))
              == if l < |Column(cs + [c], size, b)| then Column(cs + [c], size, b)[l] else FREE
    {
      ColumnAppend(cs, c, size, b);
      PosInTable(size, depth, b, l);
      if b != b0 || l != l0 {
        if Pos(size, b, l) == Pos(size, b0, l0) {
          PosInjective(size, b, l, b0, l0);
        }
        assert At(next, Pos(size, b, l)) == At(table, Pos(size, b, l));
      }
    }
  }

  ghost function PutCell(table: seq<Word>, p: nat, c: Cell): (r: seq<Word>)
    ensures |r| == |table|
  {
    if p + 2 < |table| then table[p := c.setNo][p + 1 := c.msgNo][p + 2 := c.offset] else table
  }

  /** The table after storing `cs` one after the other. */
  ghost function TableOf(size: nat, depth: nat, cs: seq<Cell>): (table: seq<Word>)
    requires size > 0
    ensures |table| == TableWords(size, depth)
  {
    if cs == [] then seq(TableWords(size, depth), _ => 0)
    else
      var init, c := cs[..|cs| - 1], cs[|cs| - 1];
      var b := Bucket(size, c.setNo, c.msgNo);
      PutCell(TableOf(size, depth, init), Pos(size, b, |Column(init, size, b)|), c)
  }

  /** No column overflows. */
  ghost predicate Shallow(size: nat, depth: nat, cs: seq<Cell>)
    requires size > 0
  {
    forall b :: 0 <= b < size ==> |Column(cs, size, b)| <= depth
  }

  /** As long as no column overflows, nothing is lost or overwritten. */
  lemma {:induction false} TableOfHolds(size: nat, depth: nat, cs: seq<Cell>)
    requires size > 0 && Shallow(size, depth, cs)
    ensures Holds(TableOf(size, depth, cs), size, depth, cs)
  {
    if cs != [] {
      var init, c := cs[..|cs| - 1], cs[|cs| - 1];
      assert cs == init + [c];
      var b := Bucket(size, c.setNo, c.msgNo);
      forall b | 0 <= b < size
        ensures |Column(init, size, b)| <= |Column(cs, size, b)| <= depth
      {
        ColumnAppend(init, c, size, b);
      }
      ColumnAppend(init, c, size, b);
      TableOfHolds(size, depth, init);
      PosInTable(size, depth, b, |Column(init, size, b)|);
      HoldsAppend(TableOf(size, depth, init), TableOf(size, depth, cs), size, depth, init, c);
    }
  }

  /** Walk down the column of `c` to its first free cell. */
  method FreeCell(table: array<Word>, size: nat, depth: nat, c: Cell, ghost cs: seq<Cell>) returns (idx: nat)
    requires size > 0 && table[..] == TableOf(size, depth, cs) && Shallow(size, depth, cs + [c])
    requires Used(cs)
    ensures var b := Bucket(size, c.setNo, c.msgNo);
            idx == Pos(size, b, |Column(cs, size, b)|) && idx + 2 < table.Length
  {
    hide TableOf, Shallow, Column, Bucket, Pos, Used;
    ghost var b, level := Bucket(size, c.setNo, c.msgNo), 0;
    idx := Bucket(size, c.setNo, c.msgNo) * 3;
    PosTop(size, b);
    NextInColumn(size, depth, c, cs, level);
    while table[idx] != 0
      invariant level <= |Column(cs, size, b)| && idx == Pos(size, b, level) && idx + 2 < table.Length
      invariant table[idx] == 0 <==> level == |Column(cs, size, b)|
      decreases |Column(cs, size, b)| - level
    {
      PosNext(size, b, level);
      NextInColumn(size, depth, c, cs, level + 1);
      idx := idx + size * 3;
      level := level + 1;
    }
  }

  lemma PosTop(size: nat, b: nat)
    ensures Pos(size, b, 0) == b * 3
  {
  }

  /** In the column of `c` the first free cell is the one below the cells that are there. */
  lemma NextInColumn(size: nat, depth: nat, c: Cell, cs: seq<Cell>, level: nat)
    requires size > 0 && Shallow(size, depth, cs + [c]) && Used(cs)
    requires level <= |Column(cs, size, Bucket(size, c.setNo, c.msgNo))|
    ensures var b, table := Bucket(size, c.setNo, c.msgNo), TableOf(size, depth, cs);
            && Pos(size, b, level) + 2 < |table|
            && (table[Pos(size, b, level)] == 0 <==> level == |Column(cs, size, b)|)
  {
    hide TableOf, Shallow, Column, Bucket, Pos;
    var b := Bucket(size, c.setNo, c.msgNo);
    var col := Column(cs, size, b);
    StoreHasRoom(size, depth, c, cs);
    PosInTable(size, depth, b, level);
    ColumnMembers(cs, size, b);
    assert forall l :: 0 <= l < |col| ==> col[l] in col;
    assert At(TableOf(size, depth, cs), Pos(size, b, level)) == if level < |col| then col[level] else FREE;
  }

  /** Put one message into its column, below the occupied cells. */
  method Store(table: array<Word>, size: nat, depth: nat, c: Cell, ghost cs: seq<Cell>)
    requires size > 0 && table[..] == TableOf(size, depth, cs) && Shallow(size, depth, cs + [c])
    requires Used(cs)
    modifies table
    ensures table[..] == TableOf(size, depth, cs + [c])
  {
    var idx := FreeCell(table, size, depth, c, cs);
    assert (cs + [c])[..|cs|] == cs;
    table[idx], table[idx + 1], table[idx + 2] := c.setNo, c.msgNo, c.offset;
  }

  lemma StoreHasRoom(size: nat, depth: nat, c: Cell, cs: seq<Cell>)
    requires size > 0 && Shallow(size, depth, cs + [c])
    ensures Holds(TableOf(size, depth, cs), size, depth, cs)
    ensures |Column(cs, size, Bucket(size, c.setNo, c.msgNo))| < depth
  {
    forall b | 0 <= b < size
      ensures |Column(cs, size, b)| <= |Column(cs + [c], size, b)| <= depth
    {
      ColumnAppend(cs, c, size, b);
    }
    ColumnAppend(cs, c, size, Bucket(size, c.setNo, c.msgNo));
    TableOfHolds(size, depth, cs);
  }

  /** The chosen depth has room for every prefix of the messages. */
  lemma PrefixShallow(es: seq<Entry>, n: nat, size: nat, depth: nat)
    requires size > 0 && n <= |es| && depth >= Depth(es, size)
    ensures Shallow(size, depth, Cells(es[..n]))
  {
    DepthUpToBounds(es, size, size);
    forall b | 0 <= b < size ensures |Column(Cells(es[..n]), size, b)| <= depth {
      ColumnLength(es[..n], size, b);
      CountPrefix(es, n, size, b);
    }
  }

  lemma CellsStep(es: seq<Entry>, n: nat)
    requires n < |es|
    ensures Cells(es[..n + 1]) == Cells(es[..n]) + [Cell(es[n].setNo, es[n].msgNo, |Pool(es[..n])| % 0x1_0000_0000)]
    ensures Pool(es[..n + 1]) == Pool(es[..n]) + es[n].text + [0]
  {
    assert es[..n + 1][..n] == es[..n];
  }

  /** Build the index and the string pool of a catalog. That no store leaves the
      size x depth array is part of what is verified here. */
  method Fill(sets: seq<MessageSet>, size: nat, depth: nat) returns (table: array<Word>, strings: seq<Byte>)
    requires size > 0 && depth >= Depth(Entries(sets), size)
    ensures fresh(table)
    ensures table[..] == TableOf(size, depth, Cells(Entries(sets))) && strings == Pool(Entries(sets))
  {
    hide *;
    ghost var es := Entries(sets);
    ghost var n := 0;
    EmptyTable(sets, size, depth);
    table := new Word[TableWords(size, depth)](_ => 0);
    strings := [];
    for i := 0 to |sets|
      invariant fresh(table)
      invariant n == |Entries(sets[..i])| <= |es|
      invariant table[..] == TableOf(size, depth, Cells(es[..n])) && strings == Pool(es[..n])
    {
      SetWithin(sets, i);
      strings := FillSet(table, strings, sets[i], size, depth, es, n);
      n := n + |sets[i].messages|;
    }
    assert sets[..|sets|] == sets && es[..n] == es;
  }

  lemma EmptyTable(sets: seq<MessageSet>, size: nat, depth: nat)
    requires size > 0
    ensures Entries(sets[..0]) == [] && Pool(Entries(sets)[..0]) == []
    ensures TableOf(size, depth, Cells(Entries(sets)[..0])) == seq(TableWords(size, depth), _ => 0)
  {
  }

  lemma {:induction false} EntriesPrefix(sets: seq<MessageSet>, n: nat)
    requires n <= |sets|
    ensures Entries(sets[..n]) <= Entries(sets)
    decreases |sets|
  {
    if n == |sets| {
      assert sets[..n] == sets;
    } else {
      var init := sets[..|sets| - 1];
      assert init[..n] == sets[..n];
      EntriesPrefix(init, n);
    }
  }

  /** Where the messages of one set stand among all of them. */
  lemma SetWithin(sets: seq<MessageSet>, i: nat)
    requires i < |sets|
    ensures var n, ms, es := |Entries(sets[..i])|, sets[i].messages, Entries(sets);
            && |Entries(sets[..i + 1])| == n + |ms| <= |es|
            && forall j :: 0 <= j < |ms| ==> es[n + j] == Entry(sets[i].number, ms[j].number, ms[j].text)
  {
    EntriesStep(sets, i);
    EntriesPrefix(sets, i + 1);
    var upTo := Entries(sets[..i + 1]);
    assert Entries(sets)[..|upTo|] == upTo;
  }

  /** The inner loop of the writer: the messages of one set. */
  method FillSet(table: array<Word>, pool: seq<Byte>, group: MessageSet, size: nat, depth: nat,
                 ghost es: seq<Entry>, ghost n: nat)
    returns (strings: seq<Byte>)
    requires size > 0 && depth >= Depth(es, size)
    requires n + |group.messages| <= |es|
    requires var ms := group.messages;
             forall j :: 0 <= j < |ms| ==> es[n + j] == Entry(group.number, ms[j].number, ms[j].text)
    requires table[..] == TableOf(size, depth, Cells(es[..n])) && pool == Pool(es[..n])
    modifies table
    ensures table[..] == TableOf(size, depth, Cells(es[..n + |group.messages|]))
    ensures strings == Pool(es[..n + |group.messages|])
  {
    hide *;
    strings := pool;
    for j := 0 to |group.messages|
      invariant table[..] == TableOf(size, depth, Cells(es[..n + j])) && strings == Pool(es[..n + j])
    {
      var m := group.messages[j];
      NextFits(es, n + j, size, depth);
      Store(table, size, depth, Cell(group.number, m.number, |strings| % 0x1_0000_0000), Cells(es[..n + j]));
      strings := strings + m.text + [0];
    }
  }

  /** The next message fits its column, and extends the cells and the pool. */
  lemma NextFits(es: seq<Entry>, n: nat, size: nat, depth: nat)
    requires size > 0 && depth >= Depth(es, size) && n < |es|
    ensures var cs := Cells(es[..n]) + [Cell(es[n].setNo, es[n].msgNo, |Pool(es[..n])| % 0x1_0000_0000)];
            cs == Cells(es[..n + 1]) && Shallow(size, depth, cs)
    ensures Pool(es[..n + 1]) == Pool(es[..n]) + es[n].text + [0]
  {
    PrefixShallow(es, n + 1, size, depth);
    CellsStep(es, n);
  }

  // ----- Looking up -----

  lemma {:induction false} StringAtText(strings: seq<Byte>, offset: nat, text: CString)
    requires offset + |text| < |strings|
    requires strings[offset..offset + |text|] == text && strings[offset + |text|] == 0
    ensures StringAt(strings, offset) == text
    decreases |text|
  {
    if text != [] {
      assert strings[offset] == text[0];
      assert strings[offset + 1..offset + |text|] == text[1..];
      StringAtText(strings, offset + 1, text[1..]);
    }
  }

  lemma {:induction false} PoolPrefix(es: seq<Entry>, n: nat)
    requires n <= |es|
    ensures Pool(es[..n]) <= Pool(es)
    decreases |es|
  {
    if n == |es| {
      assert es[..n] == es;
    } else {
      assert es[..|es| - 1][..n] == es[..n];
      PoolPrefix(es[..|es| - 1], n);
    }
  }

  lemma {:induction false} CellOffset(es: seq<Entry>, i: nat)
    requires i < |es|
    ensures Cells(es)[i].offset == |Pool(es[..i])| % 0x1_0000_0000
    decreases |es|
  {
    if i < |es| - 1 {
      assert es[..|es| - 1][..i] == es[..i];
      CellOffset(es[..|es| - 1], i);
    }
  }

  /** Each text stands in the pool behind the texts before it. */
  lemma PoolText(es: seq<Entry>, i: nat)
    requires i < |es|
    ensures var o, text := |Pool(es[..i])|, es[i].text;
            o + |text| < |Pool(es)| && Pool(es)[o..o + |text|] == text && Pool(es)[o + |text|] == 0
  {
    CellsStep(es, i);
    PoolPrefix(es, i + 1);
    var o, text := |Pool(es[..i])|, es[i].text;
    var head := Pool(es[..i + 1]);
    assert head[o..o + |text|] == text && head[o + |text|] == 0;
    assert Pool(es)[..|head|] == head;
  }

  lemma SmallOffset(x: nat)
    requires x < WORD
    ensures x % 0x1_0000_0000 == x
  {
  }

  /** The offset in a cell leads back to the text of its message. */
  lemma CellLeadsToText(es: seq<Entry>, i: nat)
    requires i < |es| && |Pool(es)| <= WORD
    ensures Cells(es)[i].offset < |Pool(es)|
    ensures StringAt(Pool(es), Cells(es)[i].offset) == es[i].text
  {
    CellOffset(es, i);
    PoolText(es, i);
    SmallOffset(|Pool(es[..i])|);
    StringAtText(Pool(es), |Pool(es[..i])|, es[i].text);
  }

  /** The open catalog indexes exactly the messages `es`. */
  ghost predicate Represents(info: CatalogInfo, es: seq<Entry>)
  {
    && info.planeSize > 0 && info.planeDepth > 0
    && Holds(info.names, info.planeSize, info.planeDepth, Cells(es))
    && info.strings == Pool(es) && |Pool(es)| <= WORD
    && DistinctKeys(es)
  }

  /** What `catgets` promises: the stored text, or the caller's default. */
  ghost function Message(es: seq<Entry>, userSet: int, message: int, default: CString): CString
  {
    if userSet >= 0 && message >= 0 && (userSet + 1, message) in MessageMap(es)
    then MessageMap(es)[(userSet + 1, message)]
    else default
  }

  /** An `int` incremented with 32-bit wrap-around. */
  function Increment(x: int): int
  {
    if x == INT_MAX then -INT_MAX - 1 else x + 1
  }

  method Catgets(info: CatalogInfo, userSet: int, message: int, default: CString, ghost es: seq<Entry>)
    returns (text: CString)
    requires -INT_MAX - 1 <= userSet <= INT_MAX && -INT_MAX - 1 <= message <= INT_MAX
    requires Represents(info, es)
    ensures text == Message(es, userSet, message, default)
  {
    var number := Increment(userSet);
    if number <= 0 || message < 0 {
      MessageMapContents(es);
      return default;
    }
    var idx, level := Probe(info, number, message, Cells(es));
    ghost var col := Column(Cells(es), info.planeSize, Bucket(info.planeSize, number, message));
    if idx < 0 {
      AbsentFromColumn(es, info.planeSize, number, message, col);
      return default;
    }
    FoundInColumn(es, info.planeSize, number, message, col, level);
    return StringAt(info.strings, info.names[idx + 2]);
  }

  /** The probing loop: the position of the cell with this key, or -1. */
  method Probe(info: CatalogInfo, number: nat, message: nat, ghost cs: seq<Cell>)
    returns (idx: int, ghost level: nat)
    requires info.planeSize > 0 && info.planeDepth > 0 && number > 0
    requires Holds(info.names, info.planeSize, info.planeDepth, cs)
    ensures var col := Column(cs, info.planeSize, Bucket(info.planeSize, number, message));
            if idx < 0 then
              forall l :: 0 <= l < |col| ==> col[l].setNo != number || col[l].msgNo != message
            else
              && idx + 2 < |info.names| && info.names[idx] == number && info.names[idx + 1] == message
              && level < |col| && At(info.names, idx) == col[level]
  {
    var size: nat, depth: nat := info.planeSize, info.planeDepth;
    ghost var b := Bucket(size, number, message);
    ghost var col := Column(cs, size, b);
    idx, level := Bucket(size, number, message) * 3, 0;
    var cnt := 0;
    while true
      invariant 0 <= cnt < depth && idx == Pos(size, b, cnt)
      invariant forall l :: 0 <= l < cnt && l < |col| ==> col[l].setNo != number || col[l].msgNo != message
      decreases depth - cnt
    {
      PosInTable(size, depth, b, cnt);
      ghost var cell := At(info.names, Pos(size, b, cnt));
      assert cell == if cnt < |col| then col[cnt] else FREE;
      if info.names[idx] == number && info.names[idx + 1] == message {
        level := cnt;
        return;
      }
      PosNext(size, b, cnt);
      idx := idx + size * 3;
      cnt := cnt + 1;
      if cnt >= depth {
        idx := -1;
        return;
      }
    }
  }

  /** A cell with the key looked for leads to the text of that key. */
  lemma FoundInColumn(es: seq<Entry>, size: nat, number: nat, message: nat, col: seq<Cell>, l: nat)
    requires size > 0 && DistinctKeys(es) && |Pool(es)| <= WORD
    requires col == Column(Cells(es), size, Bucket(size, number, message))
    requires l < |col| && col[l].setNo == number && col[l].msgNo == message
    ensures (number, message) in MessageMap(es)
    ensures MessageMap(es)[(number, message)] == StringAt(Pool(es), col[l].offset)
  {
    MessageMapContents(es);
    ColumnMembers(Cells(es), size, Bucket(size, number, message));
    assert col[l] in Cells(es);
    var i :| 0 <= i < |es| && Cells(es)[i] == col[l];
    CellLeadsToText(es, i);
  }

  /** A key that its column does not hold is not in the catalog. */
  lemma AbsentFromColumn(es: seq<Entry>, size: nat, number: nat, message: nat, col: seq<Cell>)
    requires size > 0 && DistinctKeys(es)
    requires col == Column(Cells(es), size, Bucket(size, number, message))
    requires forall l :: 0 <= l < |col| ==> col[l].setNo != number || col[l].msgNo != message
    ensures (number, message) !in MessageMap(es)
  {
    MessageMapContents(es);
    ColumnMembers(Cells(es), size, Bucket(size, number, message));
    forall i | 0 <= i < |es|
      ensures (number, message) != (es[i].setNo, es[i].msgNo)
    {
      var c := Cells(es)[i];
      assert c in Cells(es);
      assert (number, message) == (es[i].setNo, es[i].msgNo) ==> c in col;
    }
  }
}
