/**
 What the lines of an input file mean: which set a message goes to, and which
 numbers symbolic sets and messages get.
 */
module CatalogLaws {
  import opened Wrappers
  import opened MessageIndex
  import opened MessageList
  import opened CatalogSource

  // ----- Sets -----

  /** No set has this identifier. */
  ghost predicate NewIdentifier(s: Source, symbol: string)
  {
    forall i :: 0 <= i < |s.sets| ==> s.sets[i].symbol != Some(symbol)
  }

  /** The number that line `k` gives: the one in a `$set` line, or the one that an identifier
      got; 0 for all other lines. */
  ghost function Given(trace: seq<Source>, lines: seq<Line>, k: nat): int
    requires k < |lines| && |trace| == |lines| + 1
  {
    match lines[k]
    case SetNumber(n) => n
    case SetSymbol(symbol) => if NewIdentifier(trace[k], symbol) then trace[k + 1].current - 1 else 0
    case _ => 0
  }

  lemma StepAt(trace: seq<Source>, lines: seq<Line>, i: nat)
    requires InputRun(trace, lines) && i < |lines|
    ensures Sane(trace[i]) && Sane(trace[i + 1]) && LineStep(trace[i], lines[i], trace[i + 1])
  {
  }

  /** What a `$set` line selects: the set of its number, or the one behind the last number. */
  lemma SetLineSelects(s: Source, line: Line, s': Source)
    requires LineStep(s, line, s')
    ensures line.SetNumber? ==> s'.lastSet == if line.number > s.lastSet then line.number else s.lastSet
    ensures line.SetNumber? && line.number > 0 ==> s'.current == line.number + 1
    ensures line.SetSymbol? && NewIdentifier(s, line.symbol) ==>
            s'.lastSet == s.lastSet + 1 && s'.current == s.lastSet + 2
    ensures line.SetSymbol? && !NewIdentifier(s, line.symbol) ==> s' == s
    ensures !line.SetNumber? && !line.SetSymbol? ==> s'.lastSet == s.lastSet && s'.current == s.current
  {
    hide WithSet, IndexOf, MessageEffect;
  }

  /** The last set number is the largest that a line has given. */
  lemma {:induction false} LastSetIsLargest(trace: seq<Source>, lines: seq<Line>, i: nat)
    requires InputRun(trace, lines) && trace[0] == NoInput() && i <= |lines|
    ensures forall k :: 0 <= k < i ==> Given(trace, lines, k) <= trace[i].lastSet
    ensures trace[i].lastSet == 0 || exists k :: 0 <= k < i && Given(trace, lines, k) == trace[i].lastSet
  {
    hide Sane, LineStep, NewIdentifier;
    if i > 0 {
      LastSetIsLargest(trace, lines, i - 1);
      StepAt(trace, lines, i - 1);
      SetLineSelects(trace[i - 1], lines[i - 1], trace[i]);
      var last := Given(trace, lines, i - 1);
      assert trace[i].lastSet == if last > trace[i - 1].lastSet then last else trace[i - 1].lastSet;
    }
  }

  /** A set named by a new identifier gets the number behind all that lines have given before. */
  lemma SymbolicSetNumber(trace: seq<Source>, lines: seq<Line>, i: nat)
    requires InputRun(trace, lines) && trace[0] == NoInput() && i < |lines|
    requires lines[i].SetSymbol? && NewIdentifier(trace[i], lines[i].symbol)
    ensures var u := trace[i + 1].current - 1;
            && (forall k :: 0 <= k < i ==> Given(trace, lines, k) < u)
            && (u == 1 || exists k :: 0 <= k < i && Given(trace, lines, k) == u - 1)
  {
    hide Sane, LineStep, NewIdentifier, Given;
    LastSetIsLargest(trace, lines, i);
    StepAt(trace, lines, i);
    SetLineSelects(trace[i], lines[i], trace[i + 1]);
  }

  /** Hence it is not a set that an earlier `$set` line selected. */
  lemma SymbolicSetIsApart(trace: seq<Source>, lines: seq<Line>, i: nat, k: nat)
    requires InputRun(trace, lines) && trace[0] == NoInput() && k < i < |lines|
    requires lines[i].SetSymbol? && NewIdentifier(trace[i], lines[i].symbol)
    requires || (lines[k].SetNumber? && lines[k].number > 0)
             || (lines[k].SetSymbol? && NewIdentifier(trace[k], lines[k].symbol))
    ensures trace[k + 1].current != trace[i + 1].current
  {
    hide Sane, LineStep, NewIdentifier;
    SymbolicSetNumber(trace, lines, i);
    StepAt(trace, lines, k);
    SetLineSelects(trace[k], lines[k], trace[k + 1]);
    assert Given(trace, lines, k) < trace[i + 1].current - 1;
  }

  /** After a `$set` line with an identifier a set has it, so that a second one is refused. */
  lemma IdentifierIsUsed(s: Source, line: Line, s': Source)
    requires LineStep(s, line, s') && line.SetSymbol?
    ensures !NewIdentifier(s', line.symbol)
  {
    hide WithSet, MessageEffect;
    if NewIdentifier(s, line.symbol) {
      var i := IndexOf(WithSet(s.sets, s.lastSet + 2), s.lastSet + 2);
      assert s'.sets[i].symbol == Some(line.symbol);
    }
  }

  lemma SelectedIdentifiers(s: Source, n: nat, symbol: Option<string>, i: nat)
    requires DistinctSets(s.sets) && i < |Selected(s, n, symbol).sets|
    ensures var v := Selected(s, n, symbol).sets[i];
            if v.number == n + 1 then v.symbol == symbol else v in s.sets
  {
    WithSetKeeps(s.sets, n + 1);
    hide SameTexts;
  }

  /** The set that a `$set` line selects has the identifier of that line, or none; all other sets
      are as before. */
  lemma SetIdentifiers(s: Source, line: Line, s': Source, i: nat)
    requires Sane(s) && Sane(s') && LineStep(s, line, s') && i < |s'.sets|
    requires (line.SetNumber? && line.number > 0) || (line.SetSymbol? && NewIdentifier(s, line.symbol))
    ensures s'.sets[i].number == s'.current ==>
              s'.sets[i].symbol == if line.SetSymbol? then Some(line.symbol) else None
    ensures s'.sets[i].number != s'.current ==> s'.sets[i] in s.sets
  {
    hide MessageEffect, SaneSet, DistinctSets, IndexOf, WithSet;
    if line.SetNumber? {
      SelectedIdentifiers(s.(lastSet := s'.lastSet), line.number, None, i);
    } else {
      SelectedIdentifiers(s.(lastSet := s.lastSet + 1), s.lastSet + 1, Some(line.symbol), i);
    }
  }

  // ----- Messages -----

  predicate IsSetLine(line: Line)
  {
    line.SetNumber? || line.SetSymbol?
  }

  /** Lines between two `$set` lines concern the set that the first one selected. */
  lemma {:induction false} SetStaysCurrent(trace: seq<Source>, lines: seq<Line>, i: nat, j: nat)
    requires InputRun(trace, lines) && i <= j <= |lines| && forall k :: i <= k < j ==> !IsSetLine(lines[k])
    ensures trace[j].current == trace[i].current
    decreases j
  {
    hide Sane, LineStep;
    if i < j {
      SetStaysCurrent(trace, lines, i, j - 1);
      StepAt(trace, lines, j - 1);
      SetLineSelects(trace[j - 1], lines[j - 1], trace[j]);
    }
  }

  /** A numbered message behind `$set` with a number is found in that set, under its number, with
      its text, unless the user has given the number before. */
  lemma MessageOfSet(trace: seq<Source>, lines: seq<Line>, i: nat, j: nat)
    requires InputRun(trace, lines) && i < j < |lines| && lines[i].SetNumber? && lines[i].number > 0
    requires forall k :: i < k < j ==> !IsSetLine(lines[k])
    requires lines[j].NumberedMessage? && lines[j].msgNo != 0 && lines[j].text.Some?
    requires var m := Lookup(trace[j].sets, lines[i].number + 1, lines[j].msgNo); m == None || m.value.symbol.Some?
    ensures Lookup(trace[|lines|].sets, lines[i].number + 1, lines[j].msgNo)
         == Some(Item(lines[j].msgNo, None, lines[j].text.value))
  {
    hide Sane, LineStep, Lookup;
    StepAt(trace, lines, i);
    SetLineSelects(trace[i], lines[i], trace[i + 1]);
    SetStaysCurrent(trace, lines, i + 1, j);
    NumberedLineDecides(trace, lines, j);
  }

  /** Before the first `$set` line, messages are in set 1, the default of the system. */
  lemma MessageOfDefaultSet(trace: seq<Source>, lines: seq<Line>, j: nat)
    requires InputRun(trace, lines) && trace[0] == NoInput() && j < |lines|
    requires forall k :: 0 <= k < j ==> !IsSetLine(lines[k])
    requires lines[j].NumberedMessage? && lines[j].msgNo != 0 && lines[j].text.Some?
    requires var m := Lookup(trace[j].sets, 2, lines[j].msgNo); m == None || m.value.symbol.Some?
    ensures Lookup(trace[|lines|].sets, 2, lines[j].msgNo) == Some(Item(lines[j].msgNo, None, lines[j].text.value))
  {
    hide Sane, LineStep, Lookup;
    SetStaysCurrent(trace, lines, 0, j);
    NumberedLineDecides(trace, lines, j);
  }

  /** The current set has a message with this identifier. */
  ghost predicate HasIdentifier(s: Source, ident: string)
  {
    exists n: nat :: Lookup(s.sets, s.current, n).Some? && Lookup(s.sets, s.current, n).value.symbol == Some(ident)
  }

  /** A new symbolic message gets a number above all in its set, and from then on is found with
      its identifier and text, under this number or, if evicted, a higher one. */
  lemma SymbolicMessageDefines(trace: seq<Source>, lines: seq<Line>, i: nat) returns (p: nat)
    requires InputRun(trace, lines) && i < |lines| && lines[i].SymbolicMessage? && lines[i].text.Some?
    requires !HasIdentifier(trace[i], lines[i].ident)
    ensures forall n: nat :: Lookup(trace[i].sets, trace[i].current, n).Some? ==> n < p
    ensures Lookup(trace[i + 1].sets, trace[i].current, p) == Some(Item(p, Some(lines[i].ident), lines[i].text.value))
    ensures exists q: nat :: q >= p && Lookup(trace[|lines|].sets, trace[i].current, q)
                                       == Some(Item(q, Some(lines[i].ident), lines[i].text.value))
  {
    hide Sane, LineStep, Lookup, HasIdentifier, Keeps;
    StepAt(trace, lines, i);
    p := NewSymbolic(trace[i], lines[i], trace[i + 1]);
    InputKeeps(trace, lines, i + 1);
    KeptSymbolic(trace[i + 1].sets, trace[|lines|].sets, trace[i].current, p);
  }

  lemma KeptSymbolic(v: seq<SetView>, v': seq<SetView>, s: nat, p: nat)
    requires Keeps(v, v') && Lookup(v, s, p).Some? && Lookup(v, s, p).value.symbol.Some?
    requires Lookup(v, s, p).value.number == p
    ensures exists q: nat :: q >= p && Lookup(v', s, q) == Some(Lookup(v, s, p).value.(number := q))
  {
    hide Lookup;
    assert KeptIn(v', s, Lookup(v, s, p).value);
  }

  lemma NewSymbolic(s: Source, line: Line, s': Source) returns (p: nat)
    requires Sane(s) && Sane(s') && LineStep(s, line, s') && line.SymbolicMessage? && line.text.Some?
    requires !HasIdentifier(s, line.ident)
    ensures forall n: nat :: Lookup(s.sets, s.current, n).Some? ==> n < p
    ensures Lookup(s'.sets, s.current, p) == Some(Item(p, Some(line.ident), line.text.value))
  {
    LineStepIndex(s, line, s');
    var i := IndexOf(s.sets, s.current);
    var ms, ms' := s.sets[i].messages, s'.sets[i].messages;
    p := s.sets[i].lastMessage + 1;
    assert Sorted(ms) && Within(ms, p - 1) by { assert SaneSet(s.sets[i]); }
    hide LineStep, Sane, SaneSet;
    forall n: nat ensures Lookup(s.sets, s.current, n) == ItemAt(ms, n) {
      LookupIndex(s.sets, i, n);
    }
    LookupIndex(s'.sets, i, p);
    forall n: nat | ItemAt(ms, n).Some? ensures n < p {
      ItemAtMember(ms, n);
    }
    forall k | 0 <= k < |ms| ensures ms[k].symbol != Some(line.ident) {
      ItemAtIndex(ms, k);
      assert Lookup(s.sets, s.current, ms[k].number) == Some(ms[k]);
    }
  }

  /** A line with a number that the user has given before, or with 0, and one with a known
      identifier, are refused: no message changes. */
  lemma RefusedLine(s: Source, line: Line, s': Source)
    requires Sane(s) && Sane(s') && LineStep(s, line, s')
    requires match line
             case NumberedMessage(n, _) =>
               n == 0 || (Lookup(s.sets, s.current, n).Some? && Lookup(s.sets, s.current, n).value.symbol == None)
             case SymbolicMessage(ident, _) => HasIdentifier(s, ident)
             case _ => false
    ensures s'.sets == s.sets
  {
    LineStepIndex(s, line, s');
    var i := IndexOf(s.sets, s.current);
    var ms := s.sets[i].messages;
    if line.NumberedMessage? {
      LookupIndex(s.sets, i, line.msgNo);
    } else {
      var n: nat :| Lookup(s.sets, s.current, n).Some? && Lookup(s.sets, s.current, n).value.symbol == Some(line.ident);
      LookupIndex(s.sets, i, n);
      ItemAtMember(ms, n);
      var k :| 0 <= k < |ms| && ms[k] == ItemAt(ms, n).value;
      assert ms[k].symbol == Some(line.ident);
    }
    assert s'.sets[i] == s.sets[i];
  }

  /** The last number of the current set: the next one for a new identifier; raised by a larger
      number; one more if a symbolic message makes way for a number, and then it is found there. */
  lemma LastMessageNumber(s: Source, line: Line, s': Source)
    requires Sane(s) && Sane(s') && LineStep(s, line, s') && (line.NumberedMessage? || line.SymbolicMessage?)
    ensures var i := IndexOf(s.sets, s.current);
            && i < |s.sets| == |s'.sets|
            && var last, last' := s.sets[i].lastMessage, s'.sets[i].lastMessage;
               match line
               case SymbolicMessage(ident, _) => last' == if HasIdentifier(s, ident) then last else last + 1
               case NumberedMessage(n, _) =>
                 var held := Lookup(s.sets, s.current, n);
                 if n == 0 || (held.Some? && held.value.symbol == None) then last' == last
                 else if held == None then last' == if n > last then n else last
                 else last' == last + 1 && Lookup(s'.sets, s.current, last') == Some(held.value.(number := last'))
               case _ => false
  {
    LineStepIndex(s, line, s');
    var i := IndexOf(s.sets, s.current);
    var ms := s.sets[i].messages;
    assert SaneSet(s.sets[i]);
    hide LineStep, Sane;
    match line
    case SymbolicMessage(ident, _) => IdentifierInList(s, i, ident);
    case NumberedMessage(n, _) =>
      LookupIndex(s.sets, i, n);
      LookupIndex(s'.sets, i, s'.sets[i].lastMessage);
      ItemAtMember(ms, n);
  }

  lemma IdentifierInList(s: Source, i: nat, ident: string)
    requires DistinctSets(s.sets) && i < |s.sets| && s.sets[i].number == s.current && Sorted(s.sets[i].messages)
    ensures HasIdentifier(s, ident) <==>
            exists k :: 0 <= k < |s.sets[i].messages| && s.sets[i].messages[k].symbol == Some(ident)
  {
    var ms := s.sets[i].messages;
    if HasIdentifier(s, ident) {
      var n: nat :| Lookup(s.sets, s.current, n).Some? && Lookup(s.sets, s.current, n).value.symbol == Some(ident);
      LookupIndex(s.sets, i, n);
      ItemAtMember(ms, n);
      var k :| 0 <= k < |ms| && ms[k] == ItemAt(ms, n).value;
      assert ms[k].symbol == Some(ident);
    }
    if k :| 0 <= k < |ms| && ms[k].symbol == Some(ident) {
      ItemAtIndex(ms, k);
      LookupIndex(s.sets, i, ms[k].number);
      assert Lookup(s.sets, s.current, ms[k].number) == Some(ms[k]);
    }
  }

  /** The message count: every message line counts, also one that is refused, but not one that is
      accepted and then cannot be converted. */
  lemma MessageCount(s: Source, line: Line, s': Source)
    requires Sane(s) && Sane(s') && LineStep(s, line, s')
    ensures !line.NumberedMessage? && !line.SymbolicMessage? ==> s'.total == s.total
    ensures (line.NumberedMessage? || line.SymbolicMessage?) && line.text.Some? ==> s'.total == s.total + 1
    ensures line.SymbolicMessage? && line.text == None ==>
              s'.total == s.total + if HasIdentifier(s, line.ident) then 1 else 0
    ensures line.NumberedMessage? && line.text == None ==>
              var held := Lookup(s.sets, s.current, line.msgNo);
              s'.total == s.total + if line.msgNo == 0 || (held.Some? && held.value.symbol == None) then 1 else 0
  {
    if line.NumberedMessage? || line.SymbolicMessage? {
      LineStepIndex(s, line, s');
      var i := IndexOf(s.sets, s.current);
      assert SaneSet(s.sets[i]);
      if line.SymbolicMessage? {
        IdentifierInList(s, i, line.ident);
      } else {
        LookupIndex(s.sets, i, line.msgNo);
      }
    }
  }
}
