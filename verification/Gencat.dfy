/**
 The whole of `write_out`: merge the old catalog, choose the table, fill it and
 write the file; and its counterpart, opening the file and looking up a message.
 */
module Gencat {
  import opened MessageIndex
  import opened MessageList
  import opened Wrappers
  import opened CatalogSource
  import opened CatalogFile
  import T = TableLookup
  import S = TableSearch

  // ----- From the lists to the messages -----

  /** All numbers are `int`s. */
  ghost predicate Fits(v: seq<SetView>)
  {
    forall i :: 0 <= i < |v| ==>
      && 1 <= v[i].number <= INT_MAX
      && forall j :: 0 <= j < |v[i].messages| ==> v[i].messages[j].number <= INT_MAX
  }

  ghost predicate Ordered(v: seq<SetView>)
  {
    && DistinctSets(v)
    && forall i :: 0 <= i < |v| ==> Sorted(v[i].messages)
  }

  function ToMessages(ms: seq<Item>): (r: seq<Message>)
    requires forall j :: 0 <= j < |ms| ==> ms[j].number <= INT_MAX
    ensures |r| == |ms| && forall j :: 0 <= j < |ms| ==> r[j] == Message(ms[j].number, ms[j].text)
  {
    seq(|ms|, j requires 0 <= j < |ms| => Message(ms[j].number, ms[j].text))
  }

  ghost function ToSets(v: seq<SetView>): (r: seq<MessageSet>)
    requires Fits(v)
    ensures |r| == |v| && forall i :: 0 <= i < |v| ==> r[i] == MessageSet(v[i].number, ToMessages(v[i].messages))
  {
    seq(|v|, i requires 0 <= i < |v| => MessageSet(v[i].number, ToMessages(v[i].messages)))
  }

  lemma {:induction false} EntryMembers(sets: seq<MessageSet>, e: Entry)
    ensures e in Entries(sets) <==>
            exists i, j :: 0 <= i < |sets| && 0 <= j < |sets[i].messages|
                           && e == Entry(sets[i].number, sets[i].messages[j].number, sets[i].messages[j].text)
  {
    if sets != [] {
      var init, last := sets[..|sets| - 1], sets[|sets| - 1];
      EntryMembers(init, e);
      var own := SetEntries(last.number, last.messages);
      if e in own {
        var j :| 0 <= j < |own| && own[j] == e;
        assert e == Entry(sets[|sets| - 1].number, sets[|sets| - 1].messages[j].number,
               sets[|sets| - 1].messages[j].text);
      }
      if e in Entries(init) {
        var i, j :| 0 <= i < |init| && 0 <= j < |init[i].messages|
                    && e == Entry(init[i].number, init[i].messages[j].number, init[i].messages[j].text);
        assert e == Entry(sets[i].number, sets[i].messages[j].number, sets[i].messages[j].text);
      }
      forall i, j | 0 <= i < |sets| && 0 <= j < |sets[i].messages|
                    && e == Entry(sets[i].number, sets[i].messages[j].number, sets[i].messages[j].text)
        ensures e in Entries(sets)
      {
        if i < |init| {
          assert init[i] == sets[i];
        } else {
          assert own[j] == e;
        }
      }
    }
  }

  lemma {:induction false} EntriesDistinct(v: seq<SetView>)
    requires Fits(v) && Ordered(v)
    ensures DistinctKeys(Entries(ToSets(v)))
  {
    if v != [] {
      var init, last := v[..|v| - 1], v[|v| - 1];
      var sets := ToSets(v);
      assert sets[..|v| - 1] == ToSets(init);
      EntriesDistinct(init);
      var a, b := Entries(ToSets(init)), SetEntries(last.number, ToMessages(last.messages));
      forall i, j | 0 <= i < |a| && 0 <= j < |b| ensures a[i].setNo != b[j].setNo {
        EntryMembers(ToSets(init), a[i]);
        assert a[i] in a;
      }
    }
  }

  /** The map that the table indexes is the contents of the lists. */
  lemma MapIsLookup(v: seq<SetView>, s: nat, n: nat)
    requires Fits(v) && Ordered(v)
    ensures var m := MessageMap(Entries(ToSets(v)));
            if (s, n) in m then Lookup(v, s, n).Some? && Lookup(v, s, n).value.text == m[(s, n)]
            else Lookup(v, s, n) == None
  {
    var sets := ToSets(v);
    var es := Entries(sets);
    EntriesDistinct(v);
    MessageMapContents(es);
    if (s, n) in MessageMap(es) {
      var k :| 0 <= k < |es| && (s, n) == (es[k].setNo, es[k].msgNo);
      EntryMembers(sets, es[k]);
      assert es[k] in es;
      var i, j :| 0 <= i < |sets| && 0 <= j < |sets[i].messages|
                  && es[k] == Entry(sets[i].number, sets[i].messages[j].number, sets[i].messages[j].text);
      LookupIndex(v, i, n);
      ItemAtIndex(v[i].messages, j);
    } else if Lookup(v, s, n).Some? {
      PresentEntry(v, s, n);
    }
  }

  lemma PresentEntry(v: seq<SetView>, s: nat, n: nat)
    requires Fits(v) && Ordered(v) && Lookup(v, s, n).Some?
    ensures 1 <= s <= INT_MAX && n <= INT_MAX && Entry(s, n, Lookup(v, s, n).value.text) in Entries(ToSets(v))
  {
    var i := FoundIn(v, s, n);
    var m := Lookup(v, s, n).value;
    ItemAtMember(v[i].messages, n);
    var j :| 0 <= j < |v[i].messages| && v[i].messages[j] == m;
    var sets := ToSets(v);
    EntryMembers(sets, Entry(s, n, m.text));
    assert sets[i].messages[j] == Message(n, m.text);
  }

  lemma {:induction false} FoundIn(v: seq<SetView>, s: nat, n: nat) returns (i: nat)
    requires Lookup(v, s, n).Some?
    ensures i < |v| && v[i].number == s && ItemAt(v[i].messages, n) == Lookup(v, s, n)
  {
    if v[0].number == s {
      i := 0;
    } else {
      i := FoundIn(v[1..], s, n);
      i := i + 1;
    }
  }

  // ----- Merging the old catalog -----

  /** The keys of the occupied cells among the first `n`. */
  ghost function KeysUpTo(names: seq<Word>, n: nat): set<(nat, nat)>
  {
    if n == 0 then {}
    else
      var c := T.At(names, 3 * (n - 1));
      KeysUpTo(names, n - 1) + if c.setNo == 0 then {} else {(c.setNo, c.msgNo)}
  }

  lemma {:induction false} KeysUpToMembers(names: seq<Word>, n: nat, k: (nat, nat))
    ensures k in KeysUpTo(names, n) <==>
            exists c :: 0 <= c < n && T.At(names, 3 * c).setNo != 0 &&
              k == (T.At(names, 3 * c).setNo, T.At(names, 3 * c).msgNo)
  {
    if n > 0 {
      KeysUpToMembers(names, n - 1, k);
    }
  }

  lemma Quotient(size: nat, depth: nat, c: nat) returns (b: nat, l: nat)
    requires size > 0 && c < size * depth
    ensures b < size && l < depth && T.Pos(size, b, l) == 3 * c
  {
    b, l := c % size, c / size;
  }

  /** Cell number `c` of a table is cell `l` of column `b`. */
  lemma CellNumber(info: T.CatalogInfo, es: seq<Entry>, c: nat) returns (b: nat, l: nat)
    requires 3 * c + 2 < |info.names| && T.Represents(info, es)
    ensures b < info.planeSize && T.Pos(info.planeSize, b, l) == 3 * c
    ensures var col := T.Column(T.Cells(es), info.planeSize, b);
            T.At(info.names, 3 * c) == if l < |col| then col[l] else T.FREE
  {
    hide T.Column, T.Cells, T.At, T.Pool, DistinctKeys;
    var size: nat, depth: nat := info.planeSize, info.planeDepth;
    assert c < size * depth;
    b, l := Quotient(size, depth, c);
    hide T.Pos;
    assert T.Pos(size, b, l) == 3 * c;
  }

  ghost predicate DistinctCells(cs: seq<T.Cell>)
  {
    forall l, m :: 0 <= l < m < |cs| ==> cs[l].setNo != cs[m].setNo || cs[l].msgNo != cs[m].msgNo
  }

  lemma {:induction false} ColumnDistinct(cs: seq<T.Cell>, size: nat, b: nat)
    requires size > 0 && DistinctCells(cs)
    ensures DistinctCells(T.Column(cs, size, b))
  {
    hide Bucket;
    if cs != [] {
      var init, last := cs[..|cs| - 1], cs[|cs| - 1];
      var col := T.Column(init, size, b);
      ColumnDistinct(init, size, b);
      T.ColumnMembers(init, size, b);
      forall l | 0 <= l < |col| ensures col[l].setNo != last.setNo || col[l].msgNo != last.msgNo {
        assert col[l] in init;
      }
    }
  }

  lemma DistinctKeysCells(es: seq<Entry>)
    requires DistinctKeys(es)
    ensures DistinctCells(T.Cells(es))
  {
  }

  /** No two cells hold the same key. */
  lemma OccupiedCells(info: T.CatalogInfo, es: seq<Entry>, c: nat, d: nat)
    requires c < d && 3 * d + 2 < |info.names| && T.Represents(info, es)
    requires T.At(info.names, 3 * c).setNo != 0 && T.At(info.names, 3 * d).setNo != 0
    ensures var x, y := T.At(info.names, 3 * c), T.At(info.names, 3 * d);
            x.setNo != y.setNo || x.msgNo != y.msgNo
  {
    hide T.Column, T.Cells, T.At, T.Pool, T.Holds, T.Pos, Bucket, DistinctKeys;
    var size: nat := info.planeSize;
    var b1, l1 := CellNumber(info, es, c);
    var b2, l2 := CellNumber(info, es, d);
    var col1, col2 := T.Column(T.Cells(es), size, b1), T.Column(T.Cells(es), size, b2);
    var x, y := col1[l1], col2[l2];
    assert x in col1 && y in col2;
    T.ColumnMembers(T.Cells(es), size, b1);
    T.ColumnMembers(T.Cells(es), size, b2);
    DistinctKeysCells(es);
    ColumnDistinct(T.Cells(es), size, b1);
  }

  /** Where the words of the table stand: the cell of a message is in the column that the
      product of its set and message number, as a `size_t`, selects. */
  lemma WrittenColumn(info: T.CatalogInfo, es: seq<Entry>, c: nat)
    requires 3 * c + 2 < |info.names| && T.Represents(info, es) && info.names[3 * c] != 0
    ensures var s: nat, n: nat := info.names[3 * c], info.names[3 * c + 1];
            var x := s * n;
            && (exists p: nat :: IsHash(p, x) && c % info.planeSize == p % info.planeSize)
            && (x <= INT_MAX ==> c % info.planeSize == x % info.planeSize)
  {
    hide T.Column, T.Cells, T.Pool, T.Holds, IsHash, Product, DistinctKeys;
    var size: nat, s: nat, n: nat := info.planeSize, info.names[3 * c], info.names[3 * c + 1];
    var b, l := CellNumber(info, es, c);
    var col := T.Column(T.Cells(es), size, b);
    T.ColumnMembers(T.Cells(es), size, b);
    assert l < |col| && col[l] in col;
    assert Bucket(size, s, n) == b;
    RestOfPosition(size, b, l, c);
    HashIsProduct(s, n);
    assert IsHash(Product(s, n), s * n);
  }

  lemma RestOfPosition(size: nat, b: nat, l: nat, c: nat)
    requires b < size && T.Pos(size, b, l) == 3 * c
    ensures c % size == b
  {
    RestUnique(size, b, l, c % size, c / size);
  }

  lemma RestUnique(size: nat, b: nat, l: nat, b': nat, l': nat)
    requires b < size && b' < size && b + l * size == b' + l' * size
    ensures b == b'
  {
    if l < l' {
      assert l' * size == l * size + (l' - l) * size;
      S.GrowsWith(1, l' - l, size);
    } else if l' < l {
      assert l * size == l' * size + (l - l') * size;
      S.GrowsWith(1, l - l', size);
    }
  }

  /** An occupied cell holds a message of the catalog. */
  lemma OccupiedCellMessage(info: T.CatalogInfo, es: seq<Entry>, c: nat) returns (i: nat)
    requires 3 * c + 2 < |info.names| && T.Represents(info, es)
    requires T.At(info.names, 3 * c).setNo != 0
    ensures i < |es| && T.At(info.names, 3 * c) == T.Cells(es)[i]
    ensures T.StringAt(info.strings, T.Cells(es)[i].offset) == es[i].text
  {
    hide T.Column, T.Cells, T.At, T.Pool, T.Holds, T.Pos, T.StringAt, Bucket, DistinctKeys;
    var b, l := CellNumber(info, es, c);
    var col := T.Column(T.Cells(es), info.planeSize, b);
    T.ColumnMembers(T.Cells(es), info.planeSize, b);
    assert col[l] in col;
    i :| 0 <= i < |es| && T.Cells(es)[i] == col[l];
    T.CellLeadsToText(es, i);
  }

  /** Every message has a cell. */
  lemma MessageHasCell(info: T.CatalogInfo, es: seq<Entry>, i: nat) returns (c: nat)
    requires T.Represents(info, es) && i < |es|
    ensures 3 * c + 2 < |info.names| && T.At(info.names, 3 * c) == T.Cells(es)[i]
  {
    hide T.Column, T.Cells, T.At, T.Pool, Bucket, DistinctKeys;
    var size: nat, depth: nat := info.planeSize, info.planeDepth;
    var b := Bucket(size, es[i].setNo, es[i].msgNo);
    var col := T.Column(T.Cells(es), size, b);
    T.ColumnMembers(T.Cells(es), size, b);
    assert T.Cells(es)[i] in col;
    var l :| 0 <= l < |col| && col[l] == T.Cells(es)[i];
    c := b + l * size;
    T.PosInTable(size, depth, b, l);
    assert T.At(info.names, T.Pos(size, b, l)) == col[l];
  }

  lemma AllKeysReached(info: T.CatalogInfo, es: seq<Entry>)
    requires T.Represents(info, es)
    ensures KeysUpTo(info.names, |info.names| / 3) == MessageMap(es).Keys
  {
    var n := |info.names| / 3;
    MessageMapContents(es);
    forall k ensures k in KeysUpTo(info.names, n) <==> k in MessageMap(es) {
      KeysUpToMembers(info.names, n, k);
      if k in KeysUpTo(info.names, n) {
        var c :| 0 <= c < n && T.At(info.names, 3 * c).setNo != 0 &&
            k == (T.At(info.names, 3 * c).setNo, T.At(info.names, 3 * c).msgNo);
        var i := OccupiedCellMessage(info, es, c);
        assert k == (es[i].setNo, es[i].msgNo);
      }
      if k in MessageMap(es) {
        var i :| 0 <= i < |es| && k == (es[i].setNo, es[i].msgNo);
        var c := MessageHasCell(info, es, i);
        assert T.Cells(es)[i].setNo != 0;
      }
    }
  }

  /** The old message with this key, in the form of a list item. */
  ghost function OldItem(es: seq<Entry>, s: nat, n: nat): Item
  {
    Item(n, None, if (s, n) in MessageMap(es) then MessageMap(es)[(s, n)] else [])
  }

  /** `v'` is `v` with the messages of `es` whose keys are in `done` merged in:
      a new text wins over the old one, an empty new text deletes both, and an old
      message without a new one is kept. */
  ghost predicate Merged(v: seq<SetView>, es: seq<Entry>, done: set<(nat, nat)>, v': seq<SetView>)
  {
    forall s: nat, n: nat :: Lookup(v', s, n) ==
                               if (s, n) in done then MergeText(Lookup(v, s, n), OldItem(es, s, n)) else Lookup(v, s, n)
  }

  /** What one cell contributes: nothing, or a new key whose string is the old text. */
  lemma NextCell(info: T.CatalogInfo, es: seq<Entry>, c: nat)
    requires 3 * c + 2 < |info.names| && T.Represents(info, es)
    ensures var s: nat, n: nat := info.names[3 * c], info.names[3 * c + 1];
            if s == 0 then KeysUpTo(info.names, c + 1) == KeysUpTo(info.names, c)
            else
              && (s, n) !in KeysUpTo(info.names, c)
              && KeysUpTo(info.names, c + 1) == KeysUpTo(info.names, c) + {(s, n)}
              && OldItem(es, s, n) == Item(n, None, T.StringAt(info.strings, info.names[3 * c + 2]))
              && s <= INT_MAX
  {
    hide T.Represents, T.StringAt, T.Cells, T.Pool;
    var s: nat, n: nat := info.names[3 * c], info.names[3 * c + 1];
    assert T.At(info.names, 3 * c) == T.Cell(s, n, info.names[3 * c + 2]);
    if s == 0 {
      return;
    }
    KeysUpToMembers(info.names, c, (s, n));
    forall b | 0 <= b < c && T.At(info.names, 3 * b).setNo != 0
      ensures (s, n) != (T.At(info.names, 3 * b).setNo, T.At(info.names, 3 * b).msgNo)
    {
      OccupiedCells(info, es, b, c);
    }
    var i := OccupiedCellMessage(info, es, c);
    RepresentsDistinct(info, es);
    MessageMapContents(es);
  }

  lemma RepresentsDistinct(info: T.CatalogInfo, es: seq<Entry>)
    requires T.Represents(info, es)
    ensures DistinctKeys(es) && |info.names| == T.TableWords(info.planeSize, info.planeDepth)
  {
  }

  lemma MergedStep(v: seq<SetView>, es: seq<Entry>, done: set<(nat, nat)>, u: seq<SetView>, s: nat, n: nat,
                   w: seq<SetView>)
    requires Merged(v, es, done, u) && (s, n) !in done
    requires MergedOne(u, w, s, OldItem(es, s, n))
    ensures Merged(v, es, done + {(s, n)}, w)
  {
  }

  /** All set numbers are `int`s. */
  ghost predicate SmallSets(v: seq<SetView>)
  {
    forall i :: 0 <= i < |v| ==> 1 <= v[i].number <= INT_MAX
  }

  lemma SmallWithSet(v: seq<SetView>, number: nat)
    requires 1 <= number <= INT_MAX
    ensures SmallSets(v) ==> SmallSets(WithSet(v, number))
  {
  }

  lemma SmallSame(v: seq<SetView>, w: seq<SetView>)
    requires SameNumbers(v, w)
    ensures SmallSets(v) ==> SmallSets(w)
  {
  }

  /** Merging an old catalog, all of whose numbers are `int`s, leaves all numbers `int`s. */
  lemma MergeKeepsFits(v: seq<SetView>, es: seq<Entry>, v': seq<SetView>)
    requires Fits(v) && Ordered(v) && Ordered(v') && SmallSets(v') && DistinctKeys(es)
    requires Merged(v, es, MessageMap(es).Keys, v')
    ensures Fits(v')
  {
    hide DistinctKeys, Lookup;
    MessageMapContents(es);
    forall i, j | 0 <= i < |v'| && 0 <= j < |v'[i].messages| ensures v'[i].messages[j].number <= INT_MAX {
      var s, n := v'[i].number, v'[i].messages[j].number;
      LookupIndex(v', i, n);
      ItemAtIndex(v'[i].messages, j);
      if Lookup(v, s, n).Some? {
        PresentEntry(v, s, n);
      }
    }
  }

  /** The keys among `keys` that `v` has no message for. */
  ghost function NewKeys(v: seq<SetView>, keys: set<(nat, nat)>): set<(nat, nat)>
  {
    set k | k in keys && Lookup(v, k.0, k.1) == None
  }

  lemma NewKeysStep(v: seq<SetView>, es: seq<Entry>, done: set<(nat, nat)>, u: seq<SetView>, s: nat, n: nat)
    requires Merged(v, es, done, u) && (s, n) !in done
    ensures |NewKeys(v, done + {(s, n)})| == |NewKeys(v, done)| + if Lookup(u, s, n) == None then 1 else 0
  {
    assert NewKeys(v, done + {(s, n)}) == NewKeys(v, done) + if Lookup(v, s, n) == None then {(s, n)} else {};
  }

  /** `read_old`, given the opened old catalog. Only messages that are new are counted. */
  method ReadOld(catalog: Catalog, info: T.CatalogInfo, ghost es: seq<Entry>)
    requires catalog.Valid() && T.Represents(info, es)
    modifies catalog, catalog.allSets
    ensures catalog.Valid()
    ensures Merged(old(catalog.view), es, MessageMap(es).Keys, catalog.view)
    ensures catalog.totalMessages == old(catalog.totalMessages) + |NewKeys(old(catalog.view), MessageMap(es).Keys)|
    ensures old(SmallSets(catalog.view)) ==> SmallSets(catalog.view)
  {
    hide *;
    NothingMerged(catalog.view, es, info.names);
    CellCount(info, es);
    var names, cells := info.names, info.planeSize * info.planeDepth;
    var found: SetList? := null;
    var lastSet: int := -1;
    var cnt := 0;
    while cnt < cells
      invariant 0 <= cnt <= cells
      invariant catalog.Valid()
      invariant forall k :: 0 <= k < |catalog.allSets| ==>
                catalog.allSets[k] in old(catalog.allSets) || fresh(catalog.allSets[k])
      invariant lastSet != -1 ==> found != null && found in catalog.allSets && found.number == lastSet + 1
      invariant Merged(old(catalog.view), es, KeysUpTo(names, cnt), catalog.view)
      invariant catalog.totalMessages == old(catalog.totalMessages) + |NewKeys(old(catalog.view), KeysUpTo(names, cnt))|
      invariant old(SmallSets(catalog.view)) ==> SmallSets(catalog.view)
    {
      NextCell(info, es, cnt);
      var s: nat, n: nat := names[3 * cnt], names[3 * cnt + 1];
      if s != 0 {
        if s - 1 != lastSet {
          ghost var before := catalog.view;
          lastSet := s - 1;
          catalog.ViewDistinct();
          WithSetKeeps(before, lastSet + 1);
          SmallWithSet(before, lastSet + 1);
          found := catalog.FindSet(lastSet);
          SameLookups(old(catalog.view), es, KeysUpTo(names, cnt), before, catalog.view);
        }
        ghost var before := catalog.view;
        NewKeysStep(old(catalog.view), es, KeysUpTo(names, cnt), before, s, n);
        catalog.MergeMessage(found, Item(n, None, T.StringAt(info.strings, names[3 * cnt + 2])));
        MergedStep(old(catalog.view), es, KeysUpTo(names, cnt), before, s, n, catalog.view);
        SmallSame(before, catalog.view);
      }
      cnt := cnt + 1;
    }
    AllKeysReached(info, es);
  }

  lemma CellCount(info: T.CatalogInfo, es: seq<Entry>)
    requires T.Represents(info, es)
    ensures |info.names| == 3 * (info.planeSize * info.planeDepth)
  {
  }

  lemma NothingMerged(v: seq<SetView>, es: seq<Entry>, names: seq<Word>)
    ensures Merged(v, es, KeysUpTo(names, 0), v) && |NewKeys(v, KeysUpTo(names, 0))| == 0
  {
    assert NewKeys(v, {}) == {};
  }

  lemma SameLookups(v: seq<SetView>, es: seq<Entry>, done: set<(nat, nat)>, u: seq<SetView>, w: seq<SetView>)
    requires Merged(v, es, done, u) && SameTexts(u, w)
    ensures Merged(v, es, done, w)
  {
  }

  // ----- Writing the new one -----

  /** Some table that the search may choose has a size in bytes that 32 bits can hold. */
  ghost predicate SmallTable(total: nat, es: seq<Entry>)
  {
    exists s :: s >= 1 + total / 5 && 12 * Total(es, s) < WORD
  }

  /** The catalog is small enough for the 32-bit fields of the file. */
  ghost predicate Realistic(total: nat, es: seq<Entry>)
  {
    SmallTable(total, es) && |T.Pool(es)| <= WORD
  }

  /** What the search settles on is the optimum, with a size in bytes that 32 bits can hold,
      exactly if there is such a table at all. */
  lemma TableFits(total: nat, es: seq<Entry>, size: nat, depth: nat)
    requires size > 0
    requires var start := 1 + total / 5;
             if S.Infeasible(es, start) || S.Optimal(es, start, UINT_MAX) then size == depth == 1
             else S.Optimal(es, start, size) && depth == Depth(es, size)
    ensures SmallTable(total, es) <==>
            S.Optimal(es, 1 + total / 5, size) && depth == Depth(es, size) && 4 * T.TableWords(size, depth) < WORD
    ensures SmallTable(total, es) ==> size < WORD && depth < WORD
  {
    hide Depth;
    var start := 1 + total / 5;
    if S.Optimal(es, start, size) && depth == Depth(es, size) {
      ProductBounds(size, depth);
    }
    if s :| s >= start && 12 * Total(es, s) < WORD {
      S.TotalAtLeastSize(es, UINT_MAX);
      assert Total(es, size) <= Total(es, s);
    }
  }

  /** It is enough that the start size, with all messages in one column, is small. */
  lemma StartSuffices(total: nat, es: seq<Entry>)
    requires 12 * ((1 + total / 5) * (|es| + 1)) < WORD
    ensures SmallTable(total, es)
  {
    StartTotal(es, 1 + total / 5);
  }

  lemma StartTotal(es: seq<Entry>, start: nat)
    requires start > 0
    ensures Total(es, start) <= start * (|es| + 1)
  {
    DepthAtMostLength(es, start);
    S.GrowsWith(Depth(es, start), |es| + 1, start);
  }

  lemma ProductBounds(size: nat, depth: nat)
    requires size > 0 && depth > 0
    ensures size <= size * depth && depth <= size * depth
    ensures 4 * T.TableWords(size, depth) == 12 * (size * depth)
  {
  }

  /** The sets and messages as the writer's loops see them. */
  method Snapshot(catalog: Catalog) returns (sets: seq<MessageSet>)
    requires catalog.Valid() && Fits(catalog.view)
    ensures sets == ToSets(catalog.view)
  {
    sets := [];
    for i := 0 to |catalog.allSets|
      invariant sets == ToSets(catalog.view)[..i]
    {
      var s := catalog.allSets[i];
      assert catalog.view[i] == ViewOf(s);
      sets := sets + [MessageSet(s.number, ToMessages(s.messages))];
    }
  }

  /** `write_out` behind the merge. The file is the image of an optimal table that
      indexes exactly the messages in the lists. */
  method WriteOut(catalog: Catalog, machine: Order) returns (file: seq<Byte>, info: T.CatalogInfo)
    requires catalog.Valid() && Fits(catalog.view)
    requires Realistic(catalog.totalMessages, Entries(ToSets(catalog.view)))
    ensures T.Represents(info, Entries(ToSets(catalog.view))) && Storable(info) && file == Image(machine, info)
    ensures S.Optimal(Entries(ToSets(catalog.view)), 1 + catalog.totalMessages / 5, info.planeSize)
    ensures info.planeDepth == Depth(Entries(ToSets(catalog.view)), info.planeSize)
  {
    hide T.Holds, T.TableOf, T.Cells, T.Pool, Entries, Depth, Image, S.Optimal, T.TableWords;
    ghost var es := Entries(ToSets(catalog.view));
    var sets := Snapshot(catalog);
    var size, depth := S.ChooseSize(sets, catalog.totalMessages);
    TableFits(catalog.totalMessages, es, size, depth);
    var table, strings := T.Fill(sets, size, depth);
    FilledTable(catalog.view, size, depth);
    info := T.CatalogInfo(size, depth, table[..], strings);
    file := Write(machine, info);
  }

  lemma FilledTable(v: seq<SetView>, size: nat, depth: nat)
    requires Fits(v) && Ordered(v) && size > 0 && depth >= Depth(Entries(ToSets(v)), size)
    ensures var es := Entries(ToSets(v));
            DistinctKeys(es) && T.Holds(T.TableOf(size, depth, T.Cells(es)), size, depth, T.Cells(es))
  {
    var es := Entries(ToSets(v));
    EntriesDistinct(v);
    T.PrefixShallow(es, |es|, size, depth);
    assert es[..|es|] == es;
    T.TableOfHolds(size, depth, T.Cells(es));
  }

  // ----- Reading it back -----

  lemma RepresentedIsTerminated(info: T.CatalogInfo, es: seq<Entry>)
    requires T.Represents(info, es) && es != []
    ensures Terminated(info)
  {
    hide T.Cells, T.Holds, T.Column, DistinctKeys;
    RepresentsDistinct(info, es);
    T.CellsStep(es, |es| - 1);
    assert es[..|es|] == es;
    forall k | 0 <= k < |info.names| && k % 3 == 2 ensures info.names[k] < |info.strings| {
      var c := k / 3;
      var cell := T.At(info.names, 3 * c);
      assert cell.offset == info.names[k];
      if cell.setNo != 0 {
        var i := OccupiedCellMessage(info, es, c);
        T.CellLeadsToText(es, i);
      } else {
        FreeCellOffset(info, es, c);
      }
    }
  }

  lemma FreeCellOffset(info: T.CatalogInfo, es: seq<Entry>, c: nat)
    requires 3 * c + 2 < |info.names| && T.Represents(info, es)
    requires T.At(info.names, 3 * c).setNo == 0
    ensures T.At(info.names, 3 * c).offset == 0
  {
    hide T.Column, T.Cells, T.At, T.Pool, T.Holds, T.Pos, Bucket, DistinctKeys;
    var b, l := CellNumber(info, es, c);
    var col := T.Column(T.Cells(es), info.planeSize, b);
    T.ColumnMembers(T.Cells(es), info.planeSize, b);
    assert forall k :: 0 <= k < |col| ==> col[k] in col;
  }

  /** A table without messages is all zeros. */
  lemma EmptyCatalog(info: T.CatalogInfo)
    requires T.Represents(info, [])
    ensures info.strings == [] && |info.names| > 0 && forall i :: 0 <= i < |info.names| ==> info.names[i] == 0
  {
    var size: nat, depth: nat := info.planeSize, info.planeDepth;
    NoPool();
    ProductBounds(size, depth);
    CellCount(info, []);
    hide *;
    forall i | 0 <= i < |info.names| ensures info.names[i] == 0 {
      var c := CellOf(i, size * depth);
      EmptyCell(info, c);
    }
  }

  lemma CellOf(i: nat, cells: nat) returns (c: nat)
    requires i < 3 * cells
    ensures 3 * c + 2 < 3 * cells && (i == 3 * c || i == 3 * c + 1 || i == 3 * c + 2)
  {
    c := i / 3;
  }

  lemma EmptyCell(info: T.CatalogInfo, c: nat)
    requires T.Represents(info, []) && 3 * c + 2 < |info.names|
    ensures info.names[3 * c] == info.names[3 * c + 1] == info.names[3 * c + 2] == 0
  {
    hide T.Holds, T.Column, T.Cells, T.At, DistinctKeys;
    var b, l := CellNumber(info, [], c);
    NoCells(info.planeSize, b);
    FreeWords(info.names, c);
  }

  lemma FreeWords(names: seq<Word>, c: nat)
    requires 3 * c + 2 < |names| && T.At(names, 3 * c) == T.FREE
    ensures names[3 * c] == names[3 * c + 1] == names[3 * c + 2] == 0
  {
  }

  lemma NoPool()
    ensures T.Pool([]) == []
  {
  }

  lemma NoCells(size: nat, b: nat)
    requires size > 0
    ensures T.Column(T.Cells([]), size, b) == []
  {
  }

  /** A written catalog is opened as what was written, on any machine, exactly if it holds a
      message or the memory behind the file can be read. */
  method OpenWritten(reader: Order, file: seq<Byte>, zeros: nat, ghost writer: Order, ghost info: T.CatalogInfo,
                     ghost es: seq<Entry>)
    returns (r: Opening)
    requires T.Represents(info, es) && Storable(info) && file == Image(writer, info)
    ensures r == if es != [] || zeros > 0 then Opened(info) else Overrun
  {
    hide T.Represents, Storable, Image, Terminated;
    if es != [] {
      RepresentedIsTerminated(info, es);
    } else {
      EmptyCatalog(info);
    }
    r := Open(reader, file, zeros, writer, info);
  }

  /** A lookup in a catalog file: whatever the byte orders of the machines that wrote and
      read it, the answer is that of the map written. None stands for the overrun. */
  method LookUp(reader: Order, file: seq<Byte>, zeros: nat, userSet: int, message: int, default: CString,
                ghost writer: Order, ghost info: T.CatalogInfo, ghost es: seq<Entry>)
    returns (text: Option<CString>)
    requires -INT_MAX - 1 <= userSet <= INT_MAX && -INT_MAX - 1 <= message <= INT_MAX
    requires T.Represents(info, es) && Storable(info) && file == Image(writer, info)
    ensures text == if es != [] || zeros > 0 then Some(T.Message(es, userSet, message, default)) else None
  {
    hide T.Represents, Storable, Image, T.Message;
    var r := OpenWritten(reader, file, zeros, writer, info, es);
    match r {
      case Opened(catalog) =>
        var found := T.Catgets(catalog, userSet, message, default, es);
        text := Some(found);
      case _ =>
        text := None;
    }
  }

  /** The text for a key: the new one, or the old one if there is no new one; an empty new
      text that meets an old one removes both. */
  ghost function NewOrOld(v: seq<SetView>, older: seq<Entry>, s: nat, n: nat, default: CString): CString
  {
    match Lookup(v, s, n)
    case Some(m) => if m.text == [] && (s, n) in MessageMap(older) then default else m.text
    case None => if (s, n) in MessageMap(older) then MessageMap(older)[(s, n)] else default
  }

  /** The whole way: messages read from the input as `v`, merged with an old catalog
      of the messages `older` to `v'`, compiled, and looked up. The text found is the
      new one, or the old one if the input has none; an empty new text that meets
      an old one removes the message. */
  lemma RecompiledMessage(v: seq<SetView>, older: seq<Entry>, v': seq<SetView>, userSet: nat, message: nat,
                          default: CString)
    requires Fits(v') && Ordered(v') && Merged(v, older, MessageMap(older).Keys, v')
    ensures T.Message(Entries(ToSets(v')), userSet, message, default) ==
            NewOrOld(v, older, userSet + 1, message, default)
  {
    MapIsLookup(v', userSet + 1, message);
  }

  /** Merging into a catalog without messages reproduces the old one. */
  lemma MergeIntoNothing(v: seq<SetView>, older: seq<Entry>, v': seq<SetView>, s: nat, n: nat)
    requires forall t: nat, k: nat :: Lookup(v, t, k) == None
    requires Fits(v') && Ordered(v') && Merged(v, older, MessageMap(older).Keys, v')
    ensures (s, n) in MessageMap(Entries(ToSets(v'))) <==> (s, n) in MessageMap(older)
    ensures (s, n) in MessageMap(older) ==> MessageMap(Entries(ToSets(v')))[(s, n)] == MessageMap(older)[(s, n)]
  {
    MapIsLookup(v', s, n);
  }

  // ----- All of it -----

  /** Whatever the merge of `older` into `v` looks like, it fits the file. */
  ghost predicate MergeFits(v: seq<SetView>, total: nat, older: seq<Entry>)
  {
    && Fits(v)
    && forall v' :: Fits(v') && Ordered(v') && Merged(v, older, MessageMap(older).Keys, v') ==>
         Realistic(total + |NewKeys(v, MessageMap(older).Keys)|, Entries(ToSets(v')))
  }

  lemma FitsSmall(v: seq<SetView>)
    requires Fits(v)
    ensures SmallSets(v)
  {
  }

  /** The output file as an earlier run has left it, on any machine, with the messages
      `older`; or none. */
  ghost predicate LeftBy(previous: Option<seq<Byte>>, writer: Order, info: T.CatalogInfo, older: seq<Entry>)
  {
    match previous
    case None => older == []
    case Some(file) => T.Represents(info, older) && Storable(info) && file == Image(writer, info)
  }

  lemma LeftDistinct(previous: Option<seq<Byte>>, writer: Order, info: T.CatalogInfo, older: seq<Entry>)
    requires LeftBy(previous, writer, info, older)
    ensures DistinctKeys(older)
  {
    if previous.Some? {
      RepresentsDistinct(info, older);
    }
  }

  /** Reading the old file stays within the memory, of which `zeros` bytes follow the file. */
  predicate Readable(previous: Option<seq<Byte>>, zeros: nat, older: seq<Entry>)
  {
    previous == None || older != [] || zeros > 0
  }

  /** `read_old` from the opening of the file on. */
  method MergeFile(catalog: Catalog, previous: Option<seq<Byte>>, zeros: nat, machine: Order,
                   ghost writer: Order, ghost info: T.CatalogInfo, ghost older: seq<Entry>)
    returns (ok: bool)
    requires catalog.Valid() && LeftBy(previous, writer, info, older)
    modifies catalog, catalog.allSets
    ensures catalog.Valid() && ok == Readable(previous, zeros, older)
    ensures ok ==> Merged(old(catalog.view), older, MessageMap(older).Keys, catalog.view)
    ensures ok ==>
            catalog.totalMessages == old(catalog.totalMessages) + |NewKeys(old(catalog.view), MessageMap(older).Keys)|
    ensures old(SmallSets(catalog.view)) ==> SmallSets(catalog.view)
  {
    hide T.Represents, Storable, Image, Merged, NewKeys, SmallSets, Catalog.Valid;
    ok := true;
    if previous.Some? {
      var r := OpenWritten(machine, previous.value, zeros, writer, info, older);
      match r {
        case Opened(found) => ReadOld(catalog, found, older);
        case _ => ok := false;
      }
    } else {
      NothingMerged(catalog.view, [], []);
      assert MessageMap(older).Keys == {};
    }
  }

  /** All of `write_out`: the new file is the image of an optimal table of the messages in the
      lists, merged with those of the old file. None if reading the old file leaves the memory. */
  method Recompile(catalog: Catalog, previous: Option<seq<Byte>>, zeros: nat, machine: Order,
                   ghost writer: Order, ghost oldInfo: T.CatalogInfo, ghost older: seq<Entry>)
    returns (file: Option<seq<Byte>>, ghost info: T.CatalogInfo)
    requires catalog.Valid() && LeftBy(previous, writer, oldInfo, older)
    requires MergeFits(catalog.view, catalog.totalMessages, older)
    modifies catalog, catalog.allSets
    ensures catalog.Valid() && (file.Some? <==> Readable(previous, zeros, older))
    ensures file.Some? ==>
            && Merged(old(catalog.view), older, MessageMap(older).Keys, catalog.view) && Fits(catalog.view)
                           && LeftBy(file, machine, info, Entries(ToSets(catalog.view)))
  {
    hide T.Represents, Merged, Realistic, Fits, Ordered, SmallSets, Entries, NewKeys, Image, Storable, S.Optimal, Depth,
         DistinctKeys;
    FitsSmall(catalog.view);
    ValidOrdered(catalog);
    file, info := None, oldInfo;
    LeftDistinct(previous, writer, oldInfo, older);
    var ok := MergeFile(catalog, previous, zeros, machine, writer, oldInfo, older);
    if ok {
      ValidOrdered(catalog);
      MergeKeepsFits(old(catalog.view), older, catalog.view);
      var bytes, written := WriteOut(catalog, machine);
      file, info := Some(bytes), written;
    }
  }

  /** What the lines lead to fits the file, whatever there is to merge. */
  ghost predicate LinesFit(lines: seq<Line>, older: seq<Entry>)
  {
    forall t: seq<Source> :: InputRun(t, lines) && t[0] == NoInput() ==>
           MergeFits(t[|lines|].sets, t[|lines|].total, older)
  }

  /** `gencat` from the input lines on: `view` is what the lines say, one after the other,
      merged with the old file. */
  method Compile(lines: seq<Line>, previous: Option<seq<Byte>>, zeros: nat, machine: Order,
                 ghost writer: Order, ghost oldInfo: T.CatalogInfo, ghost older: seq<Entry>)
    returns (file: Option<seq<Byte>>, ghost info: T.CatalogInfo, ghost trace: seq<Source>, ghost view: seq<SetView>)
    requires LeftBy(previous, writer, oldInfo, older) && LinesFit(lines, older)
    ensures InputRun(trace, lines) && trace[0] == NoInput() && (file.Some? <==> Readable(previous, zeros, older))
    ensures file.Some? ==>
            && Merged(trace[|lines|].sets, older, MessageMap(older).Keys, view) && Fits(view) && Ordered(view)
                           && LeftBy(file, machine, info, Entries(ToSets(view)))
  {
    hide LeftBy, MergeFits, Fits, Ordered, Entries, Merged, LineStep, Sane, DistinctKeys;
    var catalog := new Catalog();
    ghost var first := catalog.allSets;
    trace := catalog.ReadInput(lines);
    assert fresh(catalog);
    forall k | 0 <= k < |catalog.allSets| ensures fresh(catalog.allSets[k]) {
      assert catalog.allSets[k] in catalog.allSets;
      if catalog.allSets[k] in first {
        assert fresh(first);
      }
    }
    file, info := Recompile(catalog, previous, zeros, machine, writer, oldInfo, older);
    ValidOrdered(catalog);
    view := catalog.view;
  }

  /** `gencat`, and then `catgets` on another machine: the text found is what the lines say,
      or else what the old file says. */
  method CompileAndLookUp(lines: seq<Line>, previous: Option<seq<Byte>>, zeros: nat, machine: Order, reader: Order,
                          userSet: nat, message: nat, default: CString,
                          ghost writer: Order, ghost oldInfo: T.CatalogInfo, ghost older: seq<Entry>)
    returns (text: Option<CString>, ghost trace: seq<Source>, ghost view: seq<SetView>)
    requires userSet <= INT_MAX && message <= INT_MAX
    requires LeftBy(previous, writer, oldInfo, older) && LinesFit(lines, older)
    ensures InputRun(trace, lines) && trace[0] == NoInput()
    ensures Readable(previous, zeros, older) ==>
              Fits(view) && Merged(trace[|lines|].sets, older, MessageMap(older).Keys, view)
    ensures text == if Readable(previous, zeros, older) && (zeros > 0 || Entries(ToSets(view)) != [])
                    then Some(NewOrOld(trace[|lines|].sets, older, userSet + 1, message, default)) else None
  {
    hide T.Represents, Storable, Image, Fits, Ordered, Merged, LineStep, Sane, NewOrOld, DistinctKeys, LinesFit,
         T.Message, Entries;
    var file;
    ghost var info;
    file, info, trace, view := Compile(lines, previous, zeros, machine, writer, oldInfo, older);
    text := None;
    if file.Some? {
      ghost var es := Entries(ToSets(view));
      text := LookUp(reader, file.value, zeros, userSet, message, default, machine, info, es);
      RecompiledMessage(trace[|lines|].sets, older, view, userSet, message, default);
    }
  }

  lemma ValidOrdered(catalog: Catalog)
    requires catalog.Valid()
    ensures Ordered(catalog.view)
  {
  }
}
