/**
 The catalog under construction: message sets created by `find_set`, filled line
 by line from the input files (`read_input_file`) and then merged with the
 messages of an existing catalog (`read_old`).
 */
module CatalogSource {
  import opened MessageIndex
  import opened MessageList
  import opened Wrappers

  const DEFAULT_SET: nat := 1

  /** The value of a `struct set_list`. */
  datatype SetView = SetView(number: nat, messages: seq<Item>, lastMessage: nat, symbol: Option<string>, deleted: bool)

  function EmptySet(number: nat): SetView
  {
    SetView(number, [], 0, None, false)
  }

  /** What a line of an input file asks for. A text is None if iconv rejects it. */
  datatype Line =
    | SetNumber(number: nat)
    | SetSymbol(symbol: string)
    | DeleteSet(number: nat)
    | NumberedMessage(msgNo: nat, text: Option<CString>)
    | SymbolicMessage(ident: string, text: Option<CString>)
    | Ignored

  ghost predicate DistinctSets(v: seq<SetView>)
  {
    forall i, j :: 0 <= i < j < |v| ==> v[i].number != v[j].number
  }

  /** The message `n` of the set with internal number `s`. */
  ghost function Lookup(v: seq<SetView>, s: nat, n: nat): Option<Item>
  {
    if v == [] then None
    else if v[0].number == s then ItemAt(v[0].messages, n)
    else Lookup(v[1..], s, n)
  }

  lemma {:induction false} LookupIndex(v: seq<SetView>, i: nat, n: nat)
    requires DistinctSets(v) && i < |v|
    ensures Lookup(v, v[i].number, n) == ItemAt(v[i].messages, n)
  {
    if i > 0 {
      LookupIndex(v[1..], i - 1, n);
    }
  }

  lemma {:induction false} LookupMissing(v: seq<SetView>, s: nat, n: nat)
    requires forall i :: 0 <= i < |v| ==> v[i].number != s
    ensures Lookup(v, s, n) == None
  {
    if v != [] {
      LookupMissing(v[1..], s, n);
    }
  }

  /** Changing one set leaves the messages of all others as they are. */
  lemma {:induction false} LookupUpdate(v: seq<SetView>, i: nat, x: SetView, s: nat, n: nat)
    requires DistinctSets(v) && i < |v| && x.number == v[i].number
    ensures DistinctSets(v[i := x])
    ensures Lookup(v[i := x], s, n) == if s == x.number then ItemAt(x.messages, n) else Lookup(v, s, n)
  {
    var v' := v[i := x];
    if i == 0 {
      assert v'[1..] == v[1..];
    } else {
      assert v'[1..] == v[1..][i - 1 := x];
      LookupUpdate(v[1..], i - 1, x, s, n);
    }
  }

  /** A new, empty set in front changes no lookup. */
  lemma NewSet(v: seq<SetView>, number: nat)
    requires DistinctSets(v) && forall i :: 0 <= i < |v| ==> v[i].number != number
    ensures DistinctSets([EmptySet(number)] + v)
    ensures forall s: nat, n: nat :: Lookup([EmptySet(number)] + v, s, n) == Lookup(v, s, n)
  {
  }

  // ----- What later lines do to earlier messages -----

  /** Message `m` is still there: unchanged if its number was the user's choice,
      otherwise with its symbol and text, perhaps under a higher number. */
  ghost predicate KeptIn(v: seq<SetView>, s: nat, m: Item)
  {
    if m.symbol == None then Lookup(v, s, m.number) == Some(m)
    else exists k: nat :: k >= m.number && Lookup(v, s, k) == Some(m.(number := k))
  }

  ghost predicate Keeps(v: seq<SetView>, v': seq<SetView>)
  {
    forall s: nat, k: nat :: Lookup(v, s, k).Some? ==> KeptIn(v', s, Lookup(v, s, k).value)
  }

  lemma {:induction false} LookupNumber(v: seq<SetView>, s: nat, n: nat)
    ensures Lookup(v, s, n).Some? ==> Lookup(v, s, n).value.number == n
  {
    if v != [] {
      ItemAtMember(v[0].messages, n);
      LookupNumber(v[1..], s, n);
    }
  }

  lemma KeepsSame(v: seq<SetView>, v': seq<SetView>)
    requires SameTexts(v, v')
    ensures Keeps(v, v')
  {
    forall s: nat, k: nat | Lookup(v, s, k).Some? ensures KeptIn(v', s, Lookup(v, s, k).value) {
      LookupNumber(v, s, k);
      var m := Lookup(v, s, k).value;
      assert m.(number := m.number) == m;
    }
  }

  lemma KeepsTransitive(u: seq<SetView>, v: seq<SetView>, w: seq<SetView>)
    requires Keeps(u, v) && Keeps(v, w)
    ensures Keeps(u, w)
  {
  }

  /** The lines that add a message keep all earlier ones. */
  lemma LineKeeps(v: seq<SetView>, i: nat, v': seq<SetView>, last: int, line: Line, last': nat, counted: bool)
    requires DistinctSets(v) && i < |v| && Sorted(v[i].messages) && Within(v[i].messages, last)
    requires |v'| == |v| && v' == v[i := v'[i]] && v'[i].number == v[i].number
    requires LineEffect(line, v[i].messages, last, v'[i].messages, last', counted)
    ensures Keeps(v, v')
  {
    var ms, ms' := v[i].messages, v'[i].messages;
    forall s: nat, k: nat | Lookup(v, s, k).Some? ensures KeptIn(v', s, Lookup(v, s, k).value) {
      var m := Lookup(v, s, k).value;
      LookupNumber(v, s, k);
      LookupUpdate(v, i, v'[i], s, k);
      assert m.(number := m.number) == m;
      if s == v[i].number {
        LookupIndex(v, i, k);
        ItemAtMember(ms, k);
        assert m in ms;
        LookupUpdate(v, i, v'[i], s, last');
        assert ItemAt(ms', k) == Some(m) || ItemAt(ms', last') == Some(m.(number := last'));
      }
    }
  }

  // ----- Input lines -----

  /** The state while input is read: the sets, the number of the current one, the last
      set number and the count of messages. */
  datatype Source = Source(sets: seq<SetView>, current: nat, lastSet: nat, total: nat)

  /** What every line keeps: distinct set numbers of at least 1, lists strictly increasing and
      bounded by the last number, and no symbol twice in a set. */
  ghost predicate Sane(s: Source)
  {
    && DistinctSets(s.sets) && IndexOf(s.sets, s.current) < |s.sets|
    && forall i :: 0 <= i < |s.sets| ==> SaneSet(s.sets[i])
  }

  ghost predicate SaneSet(v: SetView)
  {
    v.number >= 1 && Sorted(v.messages) && Within(v.messages, v.lastMessage) && DistinctSymbols(v.messages)
  }

  /** Where the set with this number is, or the length. */
  function IndexOf(v: seq<SetView>, number: nat): (i: nat)
    ensures i <= |v| && (i < |v| ==> v[i].number == number) && forall j :: 0 <= j < i ==> v[j].number != number
  {
    if v == [] || v[0].number == number then 0 else 1 + IndexOf(v[1..], number)
  }

  /** The sets with one of this number, in front if it is new. */
  function WithSet(v: seq<SetView>, number: nat): (w: seq<SetView>)
    ensures IndexOf(w, number) < |w|
  {
    if IndexOf(v, number) < |v| then v else [EmptySet(number)] + v
  }

  function Selected(s: Source, n: nat, symbol: Option<string>): Source
  {
    var v := WithSet(s.sets, n + 1);
    var i := IndexOf(v, n + 1);
    s.(sets := v[i := v[i].(symbol := symbol)], current := n + 1)
  }

  function Deleted(s: Source, n: nat): Source
  {
    var v := WithSet(s.sets, n + 1);
    var i := IndexOf(v, n + 1);
    s.(sets := v[i := v[i].(deleted := true)])
  }

  /** The state before the first line of input. */
  ghost function NoInput(): Source
  {
    Source([EmptySet(DEFAULT_SET + 1)], DEFAULT_SET + 1, 0, 0)
  }

  /** What one line of input does. */
  ghost predicate LineStep(s: Source, line: Line, s': Source)
  {
    match line
    case SetNumber(n) =>
      var s1 := s.(lastSet := if n > s.lastSet then n else s.lastSet);
      s' == if n == 0 then s1 else Selected(s1, n, None)
    case SetSymbol(symbol) =>
      s' == if exists i :: 0 <= i < |s.sets| && s.sets[i].symbol == Some(symbol) then s
            else Selected(s.(lastSet := s.lastSet + 1), s.lastSet + 1, Some(symbol))
    case DeleteSet(n) => s' == Deleted(s, n)
    case Ignored => s' == s
    case _ =>
      var i := IndexOf(s.sets, s.current);
      && i < |s.sets| == |s'.sets|
      && var v, v' := s.sets[i], s'.sets[i];
         && MessageEffect(line, v.messages, v.lastMessage, s.total, v'.messages, v'.lastMessage, s'.total)
         && s' == s.(sets := s.sets[i := v.(messages := v'.messages, lastMessage := v'.lastMessage)], total := s'.total)
  }

  /** The states before, between and after the lines of an input. */
  ghost predicate InputRun(trace: seq<Source>, lines: seq<Line>)
  {
    && |trace| == |lines| + 1 && (forall i :: 0 <= i < |trace| ==> Sane(trace[i]))
    && forall i :: 0 <= i < |lines| ==> LineStep(trace[i], lines[i], trace[i + 1])
  }

  lemma MessageStep(s: Source, line: Line, ms: seq<Item>, last: nat, total: nat)
    requires (line.NumberedMessage? || line.SymbolicMessage?) && IndexOf(s.sets, s.current) < |s.sets|
    requires var v := s.sets[IndexOf(s.sets, s.current)]; MessageEffect(line, v.messages, v.lastMessage, s.total, ms,
             last, total)
    ensures var i := IndexOf(s.sets, s.current);
            LineStep(s, line, s.(sets := s.sets[i := s.sets[i].(messages := ms, lastMessage := last)], total := total))
  {
  }

  /** A line has only one effect. */
  lemma LineStepDetermined(s: Source, line: Line, a: Source, b: Source)
    requires Sane(s) && Sane(a) && Sane(b) && LineStep(s, line, a) && LineStep(s, line, b)
    ensures a == b
  {
    hide DistinctSets, Within, DistinctSymbols, Selected, Deleted;
    if line.NumberedMessage? || line.SymbolicMessage? {
      var i := IndexOf(s.sets, s.current);
      assert SaneSet(a.sets[i]) && SaneSet(b.sets[i]);
      SortedUnique(a.sets[i].messages, b.sets[i].messages);
    }
  }

  lemma InputRunStart(s: Source, lines: seq<Line>)
    requires Sane(s)
    ensures InputRun([s], lines[..0])
  {
  }

  lemma InputRunStep(trace: seq<Source>, lines: seq<Line>, i: nat, s: Source)
    requires i < |lines| && |trace| == i + 1 && InputRun(trace, lines[..i]) && Sane(s)
    requires LineStep(trace[i], lines[i], s)
    ensures InputRun(trace + [s], lines[..i + 1])
  {
    hide Sane, LineStep;
  }

  lemma WithSetKeeps(v: seq<SetView>, number: nat)
    requires DistinctSets(v)
    ensures DistinctSets(WithSet(v, number)) && SameTexts(v, WithSet(v, number))
  {
    hide Lookup;
    if IndexOf(v, number) == |v| {
      NewSet(v, number);
    }
  }

  /** No line loses an earlier message. */
  lemma LineStepKeeps(s: Source, line: Line, s': Source)
    requires Sane(s) && LineStep(s, line, s')
    ensures Keeps(s.sets, s'.sets)
    ensures !line.NumberedMessage? && !line.SymbolicMessage? ==> SameTexts(s.sets, s'.sets) && s'.total == s.total
  {
    hide Lookup, SaneSet, Keeps, LineEffect, DistinctSets, Selected, Deleted, SameTexts, IndexOf;
    SameAsBefore(s.sets);
    KeepsSame(s.sets, s.sets);
    match line
    case SetNumber(n) =>
      SelectedKeeps(s.(lastSet := if n > s.lastSet then n else s.lastSet), n, None);
    case SetSymbol(symbol) =>
      SelectedKeeps(s.(lastSet := s.lastSet + 1), s.lastSet + 1, Some(symbol));
    case DeleteSet(n) =>
      DeletedKeeps(s, n);
    case Ignored =>
    case _ =>
      MessageKeeps(s, line, s');
  }

  lemma SelectedKeeps(s: Source, n: nat, symbol: Option<string>)
    requires DistinctSets(s.sets)
    ensures var s' := Selected(s, n, symbol);
            Keeps(s.sets, s'.sets) && SameTexts(s.sets, s'.sets) && s'.total == s.total
  {
    hide Lookup, Keeps, DistinctSets, WithSet, IndexOf, SameTexts;
    OneSetKeeps(s.sets, n + 1, Selected(s, n, symbol).sets);
  }

  lemma DeletedKeeps(s: Source, n: nat)
    requires DistinctSets(s.sets)
    ensures var s' := Deleted(s, n); Keeps(s.sets, s'.sets) && SameTexts(s.sets, s'.sets) && s'.total == s.total
  {
    hide Lookup, Keeps, DistinctSets, WithSet, IndexOf, SameTexts;
    OneSetKeeps(s.sets, n + 1, Deleted(s, n).sets);
  }

  lemma MessageKeeps(s: Source, line: Line, s': Source)
    requires Sane(s) && LineStep(s, line, s') && (line.NumberedMessage? || line.SymbolicMessage?)
    ensures Keeps(s.sets, s'.sets)
  {
    hide Keeps, LineEffect, DistinctSets;
    var i := IndexOf(s.sets, s.current);
    assert SaneSet(s.sets[i]);
    LineKeeps(s.sets, i, s'.sets, s.sets[i].lastMessage, line, s'.sets[i].lastMessage, s'.total == s.total + 1);
  }

  /** Creating a set, and changing anything but messages of it, keeps all messages. */
  lemma OneSetKeeps(v: seq<SetView>, number: nat, v': seq<SetView>)
    requires DistinctSets(v)
    ensures var w := WithSet(v, number);
            var i := IndexOf(w, number);
            v' == v || (|v'| == |w| && v' == w[i := v'[i]] && v'[i].number == number &&
              v'[i].messages == w[i].messages) ==>
              Keeps(v, v') && SameTexts(v, v')
  {
    hide Lookup, Keeps, DistinctSets;
    var w := WithSet(v, number);
    var i := IndexOf(w, number);
    WithSetKeeps(v, number);
    if v' == v {
      SameAsBefore(v);
      KeepsSame(v, v');
    } else if |v'| == |w| && v' == w[i := v'[i]] && v'[i].number == number && v'[i].messages == w[i].messages {
      forall t: nat, n: nat ensures Lookup(v', t, n) == Lookup(v, t, n) {
        LookupUpdate(w, i, v'[i], t, n);
        LookupIndex(w, i, n);
      }
      KeepsSame(v, v');
    }
  }

  /** No input loses an earlier message. */
  lemma {:induction false} InputKeeps(trace: seq<Source>, lines: seq<Line>, i: nat)
    requires InputRun(trace, lines) && i < |trace|
    ensures Keeps(trace[i].sets, trace[|lines|].sets)
    decreases |trace| - i
  {
    hide Keeps, LineStep, Sane, Lookup;
    if i == |lines| {
      SameAsBefore(trace[i].sets);
      KeepsSame(trace[i].sets, trace[i].sets);
    } else {
      InputKeeps(trace, lines, i + 1);
      LineStepKeeps(trace[i], lines[i], trace[i + 1]);
      KeepsTransitive(trace[i].sets, trace[i + 1].sets, trace[|lines|].sets);
    }
  }

  /** A numbered line whose number the user has not given before in its set decides the text
      of that message for good. */
  lemma NumberedLineDecides(trace: seq<Source>, lines: seq<Line>, i: nat)
    requires InputRun(trace, lines) && i < |lines| && lines[i].NumberedMessage? && lines[i].msgNo != 0
    requires lines[i].text.Some?
    requires var m := Lookup(trace[i].sets, trace[i].current, lines[i].msgNo); m == None || m.value.symbol.Some?
    ensures Lookup(trace[|lines|].sets, trace[i].current, lines[i].msgNo) ==
            Some(Item(lines[i].msgNo, None, lines[i].text.value))
  {
    hide DistinctSymbols, Within, Sorted, Keeps;
    var s, s', n := trace[i], trace[i + 1], lines[i].msgNo;
    var k := IndexOf(s.sets, s.current);
    LineStepIndex(s, lines[i], s');
    LookupIndex(s.sets, k, n);
    LookupIndex(s'.sets, k, n);
    InputKeeps(trace, lines, i + 1);
    KeptMessage(s'.sets, trace[|lines|].sets, s.current, n);
  }

  lemma LineStepIndex(s: Source, line: Line, s': Source)
    requires Sane(s) && Sane(s') && LineStep(s, line, s') && (line.NumberedMessage? || line.SymbolicMessage?)
    ensures var i := IndexOf(s.sets, s.current);
            && i < |s.sets| == |s'.sets| && s.sets[i].number == s'.sets[i].number == s.current
            && DistinctSets(s.sets) && DistinctSets(s'.sets)
            && LineEffect(line, s.sets[i].messages, s.sets[i].lastMessage, s'.sets[i].messages, s'.sets[i].lastMessage,
                          s'.total == s.total + 1)
  {
  }

  lemma KeptMessage(v: seq<SetView>, v': seq<SetView>, s: nat, n: nat)
    requires Keeps(v, v') && Lookup(v, s, n).Some?
    ensures KeptIn(v', s, Lookup(v, s, n).value)
  {
  }

  // ----- The catalog -----

  ghost predicate SameTexts(v: seq<SetView>, w: seq<SetView>)
  {
    forall t: nat, n: nat :: Lookup(w, t, n) == Lookup(v, t, n)
  }

  lemma SameAsBefore(v: seq<SetView>)
    ensures SameTexts(v, v)
  {
  }

  ghost predicate SameNumbers(v: seq<SetView>, w: seq<SetView>)
  {
    |w| == |v| && forall i :: 0 <= i < |v| ==> w[i].number == v[i].number
  }

  /** `w` is `v` with the old message `m` merged into set `s`. */
  ghost predicate MergedOne(v: seq<SetView>, w: seq<SetView>, s: nat, m: Item)
  {
    forall t: nat, n: nat :: Lookup(w, t, n) == if t == s && n == m.number then MergeText(Lookup(v, t, n), m)
           else Lookup(v, t, n)
  }

  ghost function ViewOf(s: SetList): SetView
    reads s
  {
    SetView(s.number, s.messages, s.lastMessage, s.symbol, s.deleted)
  }

  class Catalog {
    var allSets: seq<SetList>
    var currentSet: SetList
    var totalMessages: nat
    var lastSet: nat

    /** The numbers and messages of all sets. */
    ghost var view: seq<SetView>

    /** What holds at all times. */
    ghost predicate Valid()
      reads this`allSets, this`currentSet, this`view, allSets
    {
      && |view| == |allSets| && DistinctSets(view)
      && (forall i :: 0 <= i < |allSets| ==> allSets[i].Valid() && view[i] == ViewOf(allSets[i]))
      && currentSet in allSets
    }

    /** What holds after every line of input. */
    ghost predicate Numbering()
      reads this`allSets, this`currentSet, this`view, allSets
    {
      Valid() && forall i :: 0 <= i < |allSets| ==> allSets[i].Numbering()
    }

    ghost function State(): Source
      reads this
    {
      Source(view, currentSet.number, lastSet, totalMessages)
    }

    constructor ()
      ensures Numbering() && fresh(allSets) && State() == Source([EmptySet(DEFAULT_SET + 1)], DEFAULT_SET + 1, 0, 0)
    {
      var first := new SetList(DEFAULT_SET + 1);
      allSets, currentSet := [first], first;
      totalMessages, lastSet := 0, 0;
      view := [EmptySet(DEFAULT_SET + 1)];
    }

    /** The set with the user's number `number`, created if need be. The internal
        number is one higher, so that 0 can mark free cells of the table. */
    method FindSet(number: nat) returns (s: SetList)
      requires Valid()
      modifies this`allSets, this`view
      ensures Valid() && s in allSets && s.number == number + 1 && (old(Numbering()) ==> Numbering())
      ensures (allSets == old(allSets) && s in old(allSets)) || (allSets == [s] + old(allSets) && fresh(s))
      ensures view == WithSet(old(view), number + 1)
    {
      hide Lookup, IndexOf;
      var run := 0;
      while run < |allSets| && allSets[run].number != number + 1
        invariant run <= |allSets|
        invariant forall i :: 0 <= i < run ==> allSets[i].number != number + 1
      {
        run := run + 1;
      }
      if run < |allSets| {
        return allSets[run];
      }
      NewSet(view, number + 1);
      ghost var before := allSets;
      s := new SetList(number + 1);
      allSets, view := [s] + allSets, [EmptySet(number + 1)] + view;
      assert forall i :: 0 < i < |allSets| ==> allSets[i] == before[i - 1];
    }

    /** Where a set of the catalog stands in the view. */
    lemma SetIndex(s: SetList) returns (i: nat)
      requires Valid() && s in allSets
      ensures i < |allSets| && allSets[i] == s && i == IndexOf(view, s.number)
      ensures forall j :: 0 <= j < |allSets| && j != i ==> allSets[j] != s
    {
      hide IndexOf;
      i :| 0 <= i < |allSets| && allSets[i] == s;
      assert forall j :: 0 <= j < |allSets| && j != i ==> view[j].number != view[i].number;
      assert view[i].number == s.number;
    }

    /** Make set number `n` the current one, and give it this symbol or none. */
    method Select(n: nat, symbol: Option<string>)
      requires Numbering()
      modifies this`allSets, this`currentSet, this`view, allSets`symbol, allSets`deleted
      ensures Numbering() && State() == Selected(old(State()), n, symbol)
      ensures forall s :: s in allSets ==> s in old(allSets) || fresh(s)
    {
      hide Lookup, IndexOf, WithSet, SetList.Valid, SetList.Numbering;
      currentSet := FindSet(n);
      ghost var i := SetIndex(currentSet);
      Mark(currentSet, symbol, currentSet.deleted);
    }

    /** Change the symbol or the mark of a set, which its number and messages do not depend on. */
    method Mark(s: SetList, symbol: Option<string>, deleted: bool)
      requires Numbering() && s in allSets
      modifies this`view, s`symbol, s`deleted
      ensures Numbering()
      ensures var i := IndexOf(old(view), s.number);
              i < |old(view)| && view == old(view)[i := old(view)[i].(symbol := symbol, deleted := deleted)]
    {
      hide Lookup, IndexOf, SetList.Valid, SetList.Numbering;
      ghost var i := SetIndex(s);
      s.symbol, s.deleted := symbol, deleted;
      view := view[i := view[i].(symbol := symbol, deleted := deleted)];
    }

    /** `$set` with a number. */
    method SelectNumber(n: nat)
      requires Numbering()
      modifies this, allSets`symbol, allSets`deleted
      ensures Numbering() && LineStep(old(State()), SetNumber(n), State())
      ensures forall s :: s in allSets ==> s in old(allSets) || fresh(s)
    {
      hide Selected;
      if n > lastSet {
        lastSet := n;
      }
      if n != 0 {
        Select(n, None);
      }
    }

    /** `$set` with an identifier, which gets the next set number. */
    method SelectSymbol(symbol: string)
      requires Numbering()
      modifies this, allSets`symbol, allSets`deleted
      ensures Numbering() && LineStep(old(State()), SetSymbol(symbol), State())
      ensures forall s :: s in allSets ==> s in old(allSets) || fresh(s)
    {
      hide Selected;
      var run := 0;
      while run < |allSets| && allSets[run].symbol != Some(symbol)
        invariant run <= |allSets|
        invariant forall i :: 0 <= i < run ==> allSets[i].symbol != Some(symbol)
      {
        run := run + 1;
      }
      if run < |allSets| {
        assert view[run].symbol == Some(symbol);
        return;
      }
      assert forall i :: 0 <= i < |view| ==> view[i].symbol == allSets[i].symbol;
      lastSet := lastSet + 1;
      Select(lastSet, Some(symbol));
    }

    /** `$delset` with a number. */
    method DeleteNumber(n: nat)
      requires Numbering()
      modifies this`allSets, this`view, allSets`symbol, allSets`deleted
      ensures Numbering() && LineStep(old(State()), DeleteSet(n), State())
      ensures forall s :: s in allSets ==> s in old(allSets) || fresh(s)
    {
      hide Lookup, IndexOf, WithSet, SetList.Valid, SetList.Numbering;
      var s := FindSet(n);
      ghost var i := SetIndex(s);
      Mark(s, s.symbol, true);
    }

    /** A line that defines a message. */
    method AddMessage(line: Line)
      requires Numbering()
      requires line.NumberedMessage? || line.SymbolicMessage?
      modifies this`totalMessages, this`view, currentSet`messages, currentSet`lastMessage
      ensures Numbering() && LineStep(old(State()), line, State())
    {
      hide Lookup, IndexOf, LineEffect, LineStep, SetList.Valid, SetList.Numbering;
      ghost var before := State();
      ghost var i := SetIndex(currentSet);
      var counted := AddToSet(currentSet, line);
      if counted {
        totalMessages := totalMessages + 1;
      }
      MessageStep(before, line, currentSet.messages, currentSet.lastMessage, totalMessages);
      view := view[i := view[i].(messages := currentSet.messages, lastMessage := currentSet.lastMessage)];
    }

    /** One line of input. */
    method ReadLine(line: Line)
      requires Numbering()
      modifies this, allSets
      ensures Numbering() && LineStep(old(State()), line, State())
      ensures forall s :: s in allSets ==> s in old(allSets) || fresh(s)
    {
      hide Selected, Deleted, LineEffect;
      match line {
        case SetNumber(n) =>
          SelectNumber(n);
        case SetSymbol(symbol) =>
          SelectSymbol(symbol);
        case DeleteSet(n) =>
          DeleteNumber(n);
        case Ignored =>
        case _ =>
          AddMessage(line);
      }
    }

    /** All lines of an input file: one step each, and every state on the way is sane. */
    method ReadInput(lines: seq<Line>) returns (ghost trace: seq<Source>)
      requires Numbering()
      modifies this, allSets
      ensures Numbering() && InputRun(trace, lines) && trace[0] == old(State()) && trace[|lines|] == State()
      ensures forall s :: s in allSets ==> s in old(allSets) || fresh(s)
    {
      hide Valid, Numbering, InputRun, LineStep, Sane, State;
      trace := [State()];
      NumberingSane();
      InputRunStart(State(), lines);
      for i := 0 to |lines|
        invariant Numbering() && |trace| == i + 1 && InputRun(trace, lines[..i]) && trace[0] == old(State())
        invariant trace[i] == State()
        invariant forall k :: 0 <= k < |allSets| ==> allSets[k] in old(allSets) || fresh(allSets[k])
      {
        ghost var sets := allSets;
        assert forall s :: s in sets ==> s in old(allSets) || fresh(s);
        ReadLine(lines[i]);
        assert forall k :: 0 <= k < |allSets| ==> allSets[k] in allSets;
        NumberingSane();
        InputRunStep(trace, lines, i, State());
        trace := trace + [State()];
      }
      assert lines[..|lines|] == lines;
    }

    lemma ViewDistinct()
      requires Valid()
      ensures DistinctSets(view)
    {
    }

    lemma NumberingSane()
      requires Numbering()
      ensures Sane(State())
    {
      hide Sorted, Within, DistinctSymbols, IndexOf;
      var i := SetIndex(currentSet);
    }

    /** Merge one message of an old catalog into set `s`. */
    method MergeMessage(s: SetList, m: Item)
      requires Valid() && s in allSets
      modifies this`view, this`totalMessages, s`messages
      ensures Valid() && MergedOne(old(view), view, s.number, m)
      ensures totalMessages == old(totalMessages) + if Lookup(old(view), s.number, m.number) == None then 1 else 0
      ensures SameNumbers(old(view), view)
    {
      ghost var before := view;
      ghost var i := SetIndex(s);
      var inserted := s.MergeOld(m);
      if inserted {
        totalMessages := totalMessages + 1;
      }
      view := view[i := view[i].(messages := s.messages)];
      LookupIndex(before, i, m.number);
      forall t: nat, n: nat
        ensures Lookup(view, t, n) ==
                  if t == s.number && n == m.number then MergeText(Lookup(before, t, n), m) else Lookup(before, t, n)
      {
        LookupIndex(before, i, n);
        LookupUpdate(before, i, view[i], t, n);
      }
    }
  }

  ghost predicate LineEffect(line: Line, ms: seq<Item>, last: int, ms': seq<Item>, last': nat, counted: bool)
  {
    match line
    case NumberedMessage(n, text) => NumberedLine(ms, last, n, text, ms', last', counted)
    case SymbolicMessage(ident, text) => SymbolicLine(ms, last, ident, text, ms', last', counted)
    case _ => false
  }

  method AddToSet(s: SetList, line: Line) returns (counted: bool)
    requires s.Numbering()
    requires line.NumberedMessage? || line.SymbolicMessage?
    modifies s`messages, s`lastMessage
    ensures s.Valid() && s.Numbering()
    ensures LineEffect(line, old(s.messages), old(s.lastMessage), s.messages, s.lastMessage, counted)
  {
    match line {
      case NumberedMessage(n, text) =>
        counted := s.AddNumbered(n, text);
      case SymbolicMessage(ident, text) =>
        counted := s.AddSymbolic(ident, text);
    }
  }

  /** How a message line changes the current set and the message count. */
  ghost predicate MessageEffect(line: Line, ms: seq<Item>, last: int, total: nat, ms': seq<Item>, last': nat,
                                total': nat)
  {
    total <= total' <= total + 1 && LineEffect(line, ms, last, ms', last', total' == total + 1)
  }
}
