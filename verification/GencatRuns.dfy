/**
 Runs of `gencat` in a row, and how large an input may be: that the catalog fits
 the file follows from the numbers and the lengths in the input lines alone.
 */
module GencatRuns {
  import opened MessageIndex
  import opened MessageList
  import opened Wrappers
  import opened Sequences
  import opened CatalogSource
  import opened CatalogFile
  import opened Gencat
  import T = TableLookup

  // ----- What the entries weigh -----

  function EntryCost(e: Entry): nat
  {
    |e.text| + 1
  }

  function ItemCost(m: Item): nat
  {
    |m.text| + 1
  }

  ghost function SetCost(v: SetView): nat
  {
    Weight(v.messages, ItemCost)
  }

  function SetSize(v: SetView): nat
  {
    |v.messages|
  }

  lemma {:induction false} PoolWeight(es: seq<Entry>)
    ensures |T.Pool(es)| == Weight(es, EntryCost)
  {
    if es != [] {
      PoolWeight(es[..|es| - 1]);
    }
  }

  /** The entries that the writer meets weigh what the lists weigh. */
  lemma {:induction false} EntriesWeight(v: seq<SetView>)
    requires Fits(v)
    ensures |Entries(ToSets(v))| == Weight(v, SetSize) && Weight(Entries(ToSets(v)), EntryCost) == Weight(v, SetCost)
  {
    if v != [] {
      var front, last := v[..|v| - 1], v[|v| - 1];
      EntriesWeight(front);
      assert ToSets(v)[..|v| - 1] == ToSets(front);
      var more := SetEntries(last.number, ToMessages(last.messages));
      SetEntriesWeight(last.number, last.messages);
      WeightConcat(Entries(ToSets(front)), more, EntryCost);
    }
  }

  lemma {:induction false} SetEntriesWeight(number: SetNumber, ms: seq<Item>)
    requires forall j :: 0 <= j < |ms| ==> ms[j].number <= INT_MAX
    ensures Weight(SetEntries(number, ToMessages(ms)), EntryCost) == Weight(ms, ItemCost)
  {
    if ms != [] {
      var front := ms[..|ms| - 1];
      SetEntriesWeight(number, front);
      assert SetEntries(number, ToMessages(ms))[..|front|] == SetEntries(number, ToMessages(front));
    }
  }

  // ----- Merging -----

  /** Merging adds no more messages and bytes than the old catalog has. */
  lemma MergedIsSmall(v: seq<SetView>, older: seq<Entry>, v': seq<SetView>)
    requires Fits(v) && Ordered(v) && Fits(v') && Ordered(v') && DistinctKeys(older)
    requires Merged(v, older, MessageMap(older).Keys, v')
    ensures |Entries(ToSets(v'))| <= |Entries(ToSets(v))| + |older|
    ensures |T.Pool(Entries(ToSets(v')))| <= |T.Pool(Entries(ToSets(v)))| + |T.Pool(older)|
  {
    hide Fits, Ordered, Entries, Merged;
    var es, es' := Entries(ToSets(v)), Entries(ToSets(v'));
    EntriesDistinct(v');
    forall i | 0 <= i < |es'| ensures es'[i] in es + older {
      MergedEntry(v, older, v', i);
    }
    WeightPart(es', es + older, EntryCost);
    WeightConcat(es, older, EntryCost);
    PoolWeight(es);
    PoolWeight(es');
    PoolWeight(older);
  }

  lemma MergedEntry(v: seq<SetView>, older: seq<Entry>, v': seq<SetView>, i: nat)
    requires Fits(v) && Ordered(v) && Fits(v') && Ordered(v') && DistinctKeys(older)
    requires Merged(v, older, MessageMap(older).Keys, v') && i < |Entries(ToSets(v'))|
    ensures Entries(ToSets(v'))[i] in Entries(ToSets(v)) + older
  {
    hide Fits, Ordered, Entries, DistinctKeys;
    var e := Entries(ToSets(v'))[i];
    var s: nat, n: nat := e.setNo, e.msgNo;
    EntriesDistinct(v');
    MessageMapContents(Entries(ToSets(v')));
    MapIsLookup(v', s, n);
    MessageMapContents(older);
    if Lookup(v, s, n).Some? {
      PresentEntry(v, s, n);
      assert e in Entries(ToSets(v));
    } else {
      var k :| 0 <= k < |older| && (s, n) == (older[k].setNo, older[k].msgNo);
      assert older[k] == e;
    }
  }

  lemma {:induction false} MapIsSmall(es: seq<Entry>)
    ensures |MessageMap(es)| <= |es|
  {
    if es != [] {
      MapIsSmall(es[..|es| - 1]);
    }
  }

  /** The size in bytes of a table of the start size, with all of `n` messages in one column. */
  function StartBytes(n: nat): nat
  {
    12 * ((1 + n / 5) * (n + 1))
  }

  lemma StartBytesGrow(m: nat, n: nat)
    requires m <= n
    ensures StartBytes(m) <= StartBytes(n)
  {
    Monotone(1 + m / 5, 1 + n / 5, m + 1, n + 1);
  }

  /** Numbers that suffice for `n` messages of the lists with `bytes` bytes, and the old ones. */
  ghost predicate Moderate(n: nat, bytes: nat, older: seq<Entry>)
  {
    StartBytes(n + |older|) < WORD && bytes + |T.Pool(older)| <= WORD
  }

  lemma ModerateFits(v: seq<SetView>, total: nat, older: seq<Entry>, n: nat, bytes: nat)
    requires Fits(v) && Ordered(v) && DistinctKeys(older) && Moderate(n, bytes, older)
    requires total <= n && |Entries(ToSets(v))| <= n && |T.Pool(Entries(ToSets(v)))| <= bytes
    ensures MergeFits(v, total, older)
  {
    hide Fits, Ordered, Entries, Merged, DistinctKeys;
    var keys := MessageMap(older).Keys;
    var total' := total + |NewKeys(v, keys)|;
    MapIsSmall(older);
    Subset(NewKeys(v, keys), keys);
    forall v' | Fits(v') && Ordered(v') && Merged(v, older, keys, v') ensures Realistic(total', Entries(ToSets(v'))) {
      var es' := Entries(ToSets(v'));
      MergedIsSmall(v, older, v');
      Monotone(1 + total' / 5, 1 + (n + |older|) / 5, |es'| + 1, n + |older| + 1);
      StartSuffices(total', es');
    }
  }

  lemma {:induction false} Subset<X>(a: set<X>, b: set<X>)
    requires a <= b
    ensures |a| <= |b|
  {
    if a != {} {
      var x :| x in a;
      Subset(a - {x}, b - {x});
    }
  }

  lemma Monotone(a: nat, b: nat, c: nat, d: nat)
    requires a <= b && c <= d
    ensures a * c <= b * d
  {
    assert b * d == a * c + (b - a) * d + a * (d - c);
  }

  // ----- Input lines -----

  function LineCost(line: Line): nat
  {
    if (line.NumberedMessage? || line.SymbolicMessage?) && line.text.Some? then |line.text.value| + 1 else 0
  }

  function LineNumber(line: Line): nat
  {
    match line
    case SetNumber(n) => n
    case DeleteSet(n) => n
    case NumberedMessage(n, _) => n
    case _ => 0
  }

  /** A message line adds at most one message and its text, and raises the last number by one
      or to its own. */
  lemma ListGrows(line: Line, ms: seq<Item>, last: int, ms': seq<Item>, last': nat, counted: bool)
    requires LineEffect(line, ms, last, ms', last', counted) && Sorted(ms) && Sorted(ms')
    ensures |ms'| <= |ms| + 1 && Weight(ms', ItemCost) <= Weight(ms, ItemCost) + LineCost(line)
    ensures last' <= last + 1 || last' <= LineNumber(line)
  {
    if ms' != ms {
      var added := AddedItem(line, last');
      var moved := MovedItems(line, ms, last');
      hide Weight;
      forall i | 0 <= i < |ms'| ensures ms'[i] in moved + added {
        NewItem(line, ms, last, ms', last', counted, i);
      }
      WeightPart(ms', moved + added, ItemCost);
      WeightConcat(moved, added, ItemCost);
      AddedWeight(line, last');
      MovedWeight(line, ms, last');
    }
  }

  function AddedItem(line: Line, last': nat): seq<Item>
    requires line.NumberedMessage? || line.SymbolicMessage?
  {
    if line.text == None then []
    else if line.NumberedMessage? then [Item(line.msgNo, None, line.text.value)]
    else [Item(last', Some(line.ident), line.text.value)]
  }

  lemma AddedWeight(line: Line, last': nat)
    requires line.NumberedMessage? || line.SymbolicMessage?
    ensures |AddedItem(line, last')| <= 1 && Weight(AddedItem(line, last'), ItemCost) == LineCost(line)
  {
    if line.text.Some? {
      WeightOne(AddedItem(line, last')[0], ItemCost);
    }
  }

  /** The list with the message that a numbered line evicts already under its new number. */
  function MovedItems(line: Line, ms: seq<Item>, last': nat): (r: seq<Item>)
    ensures |r| == |ms|
  {
    seq(|ms|, i requires 0 <= i < |ms| =>
      if line.NumberedMessage? && ms[i].number == line.msgNo then ms[i].(number := last') else ms[i])
  }

  lemma {:induction false} MovedWeight(line: Line, ms: seq<Item>, last': nat)
    ensures Weight(MovedItems(line, ms, last'), ItemCost) == Weight(ms, ItemCost)
  {
    if ms != [] {
      var front := ms[..|ms| - 1];
      MovedWeight(line, front, last');
      assert MovedItems(line, ms, last')[..|front|] == MovedItems(line, front, last');
    }
  }

  lemma NewItem(line: Line, ms: seq<Item>, last: int, ms': seq<Item>, last': nat, counted: bool, i: nat)
    requires LineEffect(line, ms, last, ms', last', counted) && Sorted(ms) && Sorted(ms') && ms' != ms && i < |ms'|
    ensures ms'[i] in MovedItems(line, ms, last') + AddedItem(line, last')
  {
    var m := ms'[i];
    ItemAtIndex(ms', i);
    assert ItemAt(ms', m.number) == Some(m);
    if m !in AddedItem(line, last') {
      var evicted := line.NumberedMessage? && ItemAt(ms, line.msgNo).Some? && m.number == last';
      var k := if evicted then line.msgNo else m.number;
      ItemAtMember(ms, k);
      var j :| 0 <= j < |ms| && ms[j] == ItemAt(ms, k).value;
      assert MovedItems(line, ms, last')[j] == m;
    }
  }

  /** Bounds on the state between two lines. */
  ghost predicate Bounded(s: Source, top: nat, size: nat, bytes: nat)
  {
    && s.total <= size && s.lastSet <= top && Weight(s.sets, SetSize) <= size && Weight(s.sets, SetCost) <= bytes
    && forall i :: 0 <= i < |s.sets| ==> s.sets[i].number <= top + 2 && s.sets[i].lastMessage <= top
  }

  lemma LineGrows(s: Source, line: Line, s': Source, top: nat, size: nat, bytes: nat)
    requires Sane(s) && Sane(s') && LineStep(s, line, s') && Bounded(s, top, size, bytes) && LineNumber(line) <= top
    ensures Bounded(s', top + 1, size + 1, bytes + LineCost(line))
  {
    hide Weight, Sane, LineEffect, Selected, Deleted, WithSet, IndexOf;
    match line
    case SetNumber(n) =>
      var s1 := s.(lastSet := if n > s.lastSet then n else s.lastSet);
      SelectedGrows(s1, n, None, top, size, bytes);
    case SetSymbol(symbol) =>
      SelectedGrows(s.(lastSet := s.lastSet + 1), s.lastSet + 1, Some(symbol), top + 1, size, bytes);
    case DeleteSet(n) => DeletedGrows(s, n, top, size, bytes);
    case Ignored =>
    case _ =>
      MessageGrows(s, line, s', top, size, bytes);
  }

  lemma MessageGrows(s: Source, line: Line, s': Source, top: nat, size: nat, bytes: nat)
    requires Sane(s) && Sane(s') && LineStep(s, line, s') && Bounded(s, top, size, bytes) && LineNumber(line) <= top
    requires line.NumberedMessage? || line.SymbolicMessage?
    ensures Bounded(s', top + 1, size + 1, bytes + LineCost(line))
  {
    hide Weight, Sane, LineEffect, IndexOf;
    var i := IndexOf(s.sets, s.current);
    SaneLists(s, s', i);
    ListGrows(line, s.sets[i].messages, s.sets[i].lastMessage, s'.sets[i].messages, s'.sets[i].lastMessage,
              s'.total == s.total + 1);
    WeightUpdate(s.sets, i, s'.sets[i], SetSize);
    WeightUpdate(s.sets, i, s'.sets[i], SetCost);
  }

  lemma SaneLists(s: Source, s': Source, i: nat)
    requires Sane(s) && Sane(s') && i < |s.sets| == |s'.sets|
    ensures Sorted(s.sets[i].messages) && Sorted(s'.sets[i].messages)
  {
  }

  lemma SelectedGrows(s: Source, n: nat, symbol: Option<string>, top: nat, size: nat, bytes: nat)
    requires Bounded(s, top, size, bytes) && n <= top
    ensures Bounded(Selected(s, n, symbol), top, size, bytes)
  {
    hide Weight, WithSet, IndexOf;
    var w := WithSet(s.sets, n + 1);
    SetGrows(s.sets, top, n + 1, w[IndexOf(w, n + 1)].(symbol := symbol));
  }

  lemma DeletedGrows(s: Source, n: nat, top: nat, size: nat, bytes: nat)
    requires Bounded(s, top, size, bytes) && n <= top
    ensures Bounded(Deleted(s, n), top, size, bytes)
  {
    hide Weight, WithSet, IndexOf;
    var w := WithSet(s.sets, n + 1);
    SetGrows(s.sets, top, n + 1, w[IndexOf(w, n + 1)].(deleted := true));
  }

  /** Finding a set, and changing its symbol or mark, adds no message. */
  lemma SetGrows(v: seq<SetView>, top: nat, number: nat, x: SetView)
    requires number <= top + 2 && forall i :: 0 <= i < |v| ==> v[i].number <= top + 2 && v[i].lastMessage <= top
    requires var w := WithSet(v, number); x == w[IndexOf(w, number)].(symbol := x.symbol, deleted := x.deleted)
    ensures var w := WithSet(v, number);
            var w' := w[IndexOf(w, number) := x];
            && Weight(w', SetSize) == Weight(v, SetSize) && Weight(w', SetCost) == Weight(v, SetCost)
            && forall j :: 0 <= j < |w'| ==> w'[j].number <= top + 2 && w'[j].lastMessage <= top
  {
    var w := WithSet(v, number);
    var i, empty := IndexOf(w, number), EmptySet(number);
    WeightConcat([empty], v, SetSize);
    WeightConcat([empty], v, SetCost);
    WeightOne(empty, SetSize);
    WeightOne(empty, SetCost);
    assert SetCost(empty) == 0;
    hide Weight;
    WeightUpdate(w, i, x, SetSize);
    WeightUpdate(w, i, x, SetCost);
    hide IndexOf;
  }

  /** The state after some lines is bounded by their number, numbers and texts. */
  lemma {:induction false} InputGrows(t: seq<Source>, lines: seq<Line>, i: nat, top: nat)
    requires InputRun(t, lines) && t[0] == NoInput() && i <= |lines|
    requires forall k :: 0 <= k < |lines| ==> LineNumber(lines[k]) <= top
    ensures Bounded(t[i], top + i, i, Weight(lines[..i], LineCost))
  {
    hide Sane, LineStep, NoInput;
    if i == 0 {
      NoInputBounded(top);
    } else {
      InputGrows(t, lines, i - 1, top);
      InputStep(t, lines, i - 1);
      LineGrows(t[i - 1], lines[i - 1], t[i], top + (i - 1), i - 1, Weight(lines[..i - 1], LineCost));
      assert lines[..i][..i - 1] == lines[..i - 1];
      hide InputRun, Bounded, LineCost;
    }
  }

  lemma InputStep(t: seq<Source>, lines: seq<Line>, i: nat)
    requires InputRun(t, lines) && i < |lines|
    ensures Sane(t[i]) && Sane(t[i + 1]) && LineStep(t[i], lines[i], t[i + 1])
  {
  }

  lemma NoInputBounded(top: nat)
    ensures Bounded(NoInput(), top, 0, 0)
  {
    WeightOne(EmptySet(DEFAULT_SET + 1), SetSize);
    WeightOne(EmptySet(DEFAULT_SET + 1), SetCost);
    assert SetCost(EmptySet(DEFAULT_SET + 1)) == 0;
  }

  /** A bound on the numbers in the lines, on their number, and on the length of the texts is
      enough for everything to fit the file. */
  lemma ModerateLinesFit(lines: seq<Line>, older: seq<Entry>, top: nat)
    requires forall k :: 0 <= k < |lines| ==> LineNumber(lines[k]) <= top
    requires top + |lines| + 2 <= INT_MAX && DistinctKeys(older) && Moderate(|lines|, Weight(lines, LineCost), older)
    ensures LinesFit(lines, older)
  {
    hide Moderate, DistinctKeys, MergeFits, Sane, LineStep;
    forall t: seq<Source> | InputRun(t, lines) && t[0] == NoInput()
      ensures MergeFits(t[|lines|].sets, t[|lines|].total, older)
    {
      var n := |lines|;
      InputGrows(t, lines, n, top);
      assert lines[..n] == lines;
      BoundedFits(t[n], top + n, n, Weight(lines, LineCost));
      ModerateFits(t[n].sets, t[n].total, older, n, Weight(lines, LineCost));
    }
  }

  lemma BoundedFits(s: Source, top: nat, size: nat, bytes: nat)
    requires Sane(s) && Bounded(s, top, size, bytes) && top + 2 <= INT_MAX
    ensures Fits(s.sets) && Ordered(s.sets)
    ensures |Entries(ToSets(s.sets))| <= size && |T.Pool(Entries(ToSets(s.sets)))| <= bytes
  {
    hide Weight;
    forall i | 0 <= i < |s.sets| ensures SaneSet(s.sets[i]) {
    }
    EntriesWeight(s.sets);
    PoolWeight(Entries(ToSets(s.sets)));
  }

  // ----- Runs in a row -----

  /** The text for a key after a run with the messages `first` and one with `second`. */
  ghost function TextAfterBoth(first: seq<SetView>, second: seq<SetView>, s: nat, n: nat, default: CString): CString
  {
    match (Lookup(first, s, n), Lookup(second, s, n))
    case (_, None) => if Lookup(first, s, n).Some? then Lookup(first, s, n).value.text else default
    case (None, Some(m)) => m.text
    case (Some(_), Some(m)) => if m.text == [] then default else m.text
  }

  /** A text of the second run wins, unless it is empty and the first run has the message, which
      removes it; a message only of the first run is kept. */
  lemma TextsOfBoth(first: seq<SetView>, second: seq<SetView>, s: nat, n: nat, default: CString)
    ensures var old', now := Lookup(first, s, n), Lookup(second, s, n);
            var text := TextAfterBoth(first, second, s, n, default);
            && (now.Some? && now.value.text != [] ==> text == now.value.text)
            && (now.Some? && now.value.text == [] ==> text == if old'.Some? then default else [])
            && (now == None && old'.Some? ==> text == old'.value.text)
            && (now == None && old' == None ==> text == default)
  {
  }

  /** Two runs of `gencat` for one output file and then a lookup, on machines of any byte
      orders: the text found is that of the second run's lines, else that of the first run's;
      an empty text in the second run removes that of the first. None stands for an overrun,
      which needs a file without messages and with nothing readable behind it. */
  method CompileTwice(first: seq<Line>, second: seq<Line>, zeros: nat, machine1: Order, machine2: Order, reader: Order,
                      userSet: nat, message: nat, default: CString, ghost top: nat)
    returns (text: Option<CString>, ghost t1: seq<Source>, ghost t2: seq<Source>, ghost v1: seq<SetView>,
            ghost v2: seq<SetView>)
    requires userSet <= INT_MAX && message <= INT_MAX
    requires forall k :: 0 <= k < |first| ==> LineNumber(first[k]) <= top
    requires forall k :: 0 <= k < |second| ==> LineNumber(second[k]) <= top
    requires top + |first| + |second| + 2 <= INT_MAX
    requires Moderate(|first| + |second|, Weight(first, LineCost) + Weight(second, LineCost), [])
    ensures InputRun(t1, first) && t1[0] == NoInput() && InputRun(t2, second) && t2[0] == NoInput()
    ensures Fits(v1) && (zeros > 0 || Entries(ToSets(v1)) != [] ==> Fits(v2))
    ensures text == if zeros > 0 || (Entries(ToSets(v1)) != [] && Entries(ToSets(v2)) != [])
                    then Some(TextAfterBoth(t1[|first|].sets, t2[|second|].sets, userSet + 1, message, default))
                         else None
  {
    hide LeftBy, Moderate, Fits, Ordered, Entries, Merged, LineStep, Sane, LinesFit, DistinctKeys, NewOrOld,
         TextAfterBoth, Weight;
    ghost var any := T.CatalogInfo(1, 1, [], []);
    NothingLeft(machine1, any);
    FirstRun(first, second, top);
    var file;
    ghost var info;
    file, info, t1, v1 := Compile(first, None, zeros, machine1, machine1, any, []);
    ghost var es := Entries(ToSets(v1));
    SecondRun(first, second, top, t1, v1);
    text, t2, v2 := CompileAndLookUp(second, file, zeros, machine2, reader, userSet, message, default, machine1, info,
                    es);
    BothTexts(t1[|first|].sets, v1, t2[|second|].sets, userSet + 1, message, default);
  }

  lemma NothingLeft(writer: Order, info: T.CatalogInfo)
    ensures LeftBy(None, writer, info, [])
  {
  }

  lemma FirstRun(first: seq<Line>, second: seq<Line>, top: nat)
    requires forall k :: 0 <= k < |first| ==> LineNumber(first[k]) <= top
    requires top + |first| + |second| + 2 <= INT_MAX
    requires Moderate(|first| + |second|, Weight(first, LineCost) + Weight(second, LineCost), [])
    ensures LinesFit(first, [])
  {
    hide LinesFit, Weight;
    ModerateLess(|first| + |second|, |first|, Weight(first, LineCost) + Weight(second, LineCost),
                 Weight(first, LineCost), []);
    ModerateLinesFit(first, [], top);
  }

  lemma ModerateLess(n: nat, n': nat, bytes: nat, bytes': nat, older: seq<Entry>)
    requires Moderate(n, bytes, []) && n' + |older| <= n && bytes' + |T.Pool(older)| <= bytes
    ensures Moderate(n', bytes', older)
  {
    hide StartBytes, T.Pool;
    StartBytesGrow(n' + |older|, n);
  }

  lemma SecondRun(first: seq<Line>, second: seq<Line>, top: nat, t: seq<Source>, v: seq<SetView>)
    requires forall k :: 0 <= k < |first| ==> LineNumber(first[k]) <= top
    requires forall k :: 0 <= k < |second| ==> LineNumber(second[k]) <= top
    requires top + |first| + |second| + 2 <= INT_MAX
    requires Moderate(|first| + |second|, Weight(first, LineCost) + Weight(second, LineCost), [])
    requires InputRun(t, first) && t[0] == NoInput() && Merged(t[|first|].sets, [], MessageMap([]).Keys, v) && Fits(v)
    requires Ordered(v)
    ensures LinesFit(second, Entries(ToSets(v)))
  {
    hide LinesFit, Moderate, Fits, Ordered, Entries, Merged, LineStep, Sane, DistinctKeys, Weight, T.Pool;
    var es := Entries(ToSets(v));
    CompiledIsSmall(t, first, top, v);
    ModerateLess(|first| + |second|, |second|, Weight(first, LineCost) + Weight(second, LineCost),
                 Weight(second, LineCost), es);
    ModerateLinesFit(second, es, top);
  }

  lemma CompiledIsSmall(t: seq<Source>, lines: seq<Line>, top: nat, v: seq<SetView>)
    requires InputRun(t, lines) && t[0] == NoInput() && Merged(t[|lines|].sets, [], MessageMap([]).Keys, v) && Fits(v)
    requires Ordered(v)
    requires top + |lines| + 2 <= INT_MAX && forall k :: 0 <= k < |lines| ==> LineNumber(lines[k]) <= top
    ensures var es := Entries(ToSets(v));
            DistinctKeys(es) && |es| <= |lines| && |T.Pool(es)| <= Weight(lines, LineCost)
  {
    hide Fits, Ordered, Entries, Merged, Bounded, LineStep, Sane, DistinctKeys, Weight;
    var n := |lines|;
    InputGrows(t, lines, n, top);
    assert lines[..n] == lines;
    BoundedFits(t[n], top + n, n, Weight(lines, LineCost));
    NoKeys();
    MergedIsSmall(t[n].sets, [], v);
    NoPool();
    EntriesDistinct(v);
  }

  lemma NoKeys()
    ensures DistinctKeys([])
  {
  }

  lemma BothTexts(first: seq<SetView>, v: seq<SetView>, second: seq<SetView>, s: nat, n: nat, default: CString)
    requires Fits(v) && Ordered(v) && Merged(first, [], MessageMap([]).Keys, v)
    ensures NewOrOld(second, Entries(ToSets(v)), s, n, default) == TextAfterBoth(first, second, s, n, default)
  {
    MapIsLookup(v, s, n);
  }
}
