/**
 The sorted message list of one set, and how numbered, symbolic and old
 messages enter it.
 */
module MessageList {
  import opened MessageIndex
  import opened Wrappers

  /** One message of the list; `symbol` is None if the user gave the number. */
  datatype Item = Item(number: nat, symbol: Option<string>, text: CString)

  ghost predicate Sorted(ms: seq<Item>)
  {
    forall i, j :: 0 <= i < j < |ms| ==> ms[i].number < ms[j].number
  }

  ghost predicate Within(ms: seq<Item>, last: int)
  {
    forall i :: 0 <= i < |ms| ==> 1 <= ms[i].number <= last
  }

  ghost predicate DistinctSymbols(ms: seq<Item>)
  {
    forall i, j :: 0 <= i < j < |ms| && ms[i].symbol.Some? ==> ms[i].symbol != ms[j].symbol
  }

  /** The message with number `n`. */
  ghost function ItemAt(ms: seq<Item>, n: nat): Option<Item>
  {
    if ms == [] then None
    else if ms[0].number == n then Some(ms[0])
    else ItemAt(ms[1..], n)
  }

  lemma {:induction false} ItemAtConcat(a: seq<Item>, b: seq<Item>, n: nat)
    ensures ItemAt(a + b, n) == if ItemAt(a, n).Some? then ItemAt(a, n) else ItemAt(b, n)
  {
    if a == [] {
      assert a + b == b;
    } else {
      assert (a + b)[1..] == a[1..] + b;
      ItemAtConcat(a[1..], b, n);
    }
  }

  lemma {:induction false} ItemAtMember(ms: seq<Item>, n: nat)
    ensures ItemAt(ms, n).Some? <==> exists i :: 0 <= i < |ms| && ms[i].number == n
    ensures ItemAt(ms, n).Some? ==> ItemAt(ms, n).value in ms && ItemAt(ms, n).value.number == n
  {
    if ms != [] {
      ItemAtMember(ms[1..], n);
      if ms[0].number == n {
        assert ms[0].number == n;
      } else {
        forall i | 0 <= i < |ms| && ms[i].number == n ensures ItemAt(ms, n).Some? {
          assert ms[1..][i - 1].number == n;
        }
      }
    }
  }

  /** In a sorted list each index is found by its own number. */
  lemma ItemAtIndex(ms: seq<Item>, i: nat)
    requires Sorted(ms) && i < |ms|
    ensures ItemAt(ms, ms[i].number) == Some(ms[i])
  {
    ItemAtMember(ms, ms[i].number);
  }

  /** A sorted list is determined by what is found in it. */
  lemma {:induction false} SortedUnique(a: seq<Item>, b: seq<Item>)
    requires Sorted(a) && Sorted(b)
    ensures (forall n: nat :: ItemAt(a, n) == ItemAt(b, n)) ==> a == b
  {
    if forall n: nat :: ItemAt(a, n) == ItemAt(b, n) {
      if a == [] || b == [] {
        assert a != [] ==> ItemAt(a, a[0].number) == ItemAt(b, a[0].number);
        assert b != [] ==> ItemAt(a, b[0].number) == ItemAt(b, b[0].number);
      } else {
        ItemAtMember(a, b[0].number);
        ItemAtMember(b, a[0].number);
        assert ItemAt(a, a[0].number) == ItemAt(b, a[0].number) && ItemAt(a, b[0].number) == ItemAt(b, b[0].number);
        assert a[0] == b[0];
        forall n: nat ensures ItemAt(a[1..], n) == ItemAt(b[1..], n) {
          ItemAtMember(a[1..], n);
          ItemAtMember(b[1..], n);
          assert ItemAt(a, n) == ItemAt(b, n);
        }
        SortedUnique(a[1..], b[1..]);
        assert a == [a[0]] + a[1..] && b == [b[0]] + b[1..];
      }
    }
  }

  lemma InsertedItem(ms: seq<Item>, i: nat, m: Item, n: nat)
    requires i <= |ms| && ItemAt(ms, m.number) == None
    ensures ItemAt(ms[..i] + [m] + ms[i..], n) == if n == m.number then Some(m) else ItemAt(ms, n)
  {
    assert ms == ms[..i] + ms[i..];
    ItemAtConcat(ms[..i], ms[i..], n);
    ItemAtConcat(ms[..i] + [m], ms[i..], n);
    ItemAtConcat(ms[..i], [m], n);
  }

  lemma RemovedItem(ms: seq<Item>, i: nat, n: nat)
    requires i < |ms| && Sorted(ms)
    ensures ItemAt(ms[..i] + ms[i + 1..], n) == if n == ms[i].number then None else ItemAt(ms, n)
  {
    assert ms == ms[..i] + [ms[i]] + ms[i + 1..];
    ItemAtConcat(ms[..i] + [ms[i]], ms[i + 1..], n);
    ItemAtConcat(ms[..i], [ms[i]], n);
    ItemAtConcat(ms[..i], ms[i + 1..], n);
    ItemAtMember(ms[..i], n);
    ItemAtMember(ms[i + 1..], n);
  }

  /** What merging an old text into a slot gives: a new text wins, unless it is
      empty, which deletes the message. */
  function MergeText(current: Option<Item>, older: Item): Option<Item>
  {
    match current
    case None => Some(older)
    case Some(m) => if m.text == [] then None else Some(m)
  }

  /** The effect of a line that defines message `n` on a set: refused for number 0
      and for a number that the user has given before; otherwise `n` gets the new
      text, and a symbolic message that held this number gets the next free one.
      `text` is None if the characters of the line cannot be converted. */
  ghost predicate NumberedLine(ms: seq<Item>, last: int, n: nat, text: Option<CString>,
                               ms': seq<Item>, last': nat, counted: bool)
  {
    var clash := ItemAt(ms, n);
    if n == 0 || (clash.Some? && clash.value.symbol == None) then
      ms' == ms && last' == last && counted
    else
      && last' == (if clash.Some? then last + 1 else if n > last then n else last)
      && counted == text.Some?
      && forall k :: ItemAt(ms', k) ==
                       if k == n then (if text.Some? then Some(Item(n, None, text.value)) else None)
                       else if clash.Some? && k == last' then Some(clash.value.(number := last'))
                       else ItemAt(ms, k)
  }

  /** The effect of a line that defines a message by an identifier: refused if the
      set has this identifier, otherwise the message gets the next free number. */
  ghost predicate SymbolicLine(ms: seq<Item>, last: int, ident: string, text: Option<CString>,
                               ms': seq<Item>, last': nat, counted: bool)
  {
    if exists i :: 0 <= i < |ms| && ms[i].symbol == Some(ident) then
      ms' == ms && last' == last && counted
    else
      && last' == last + 1
      && counted == text.Some?
      && forall k :: ItemAt(ms', k) ==
                       if k == last' && text.Some? then Some(Item(k, Some(ident), text.value)) else ItemAt(ms, k)
  }

  /** `struct set_list`. */
  class SetList {
    const number: nat
    var messages: seq<Item>
    var lastMessage: nat
    var deleted: bool
    var symbol: Option<string>

    /** What holds at all times, also after merging an old catalog. */
    ghost predicate Valid()
      reads this`messages
    {
      number >= 1 && Sorted(messages)
    }

    /** What holds while input files are read. */
    ghost predicate Numbering()
      reads this`messages, this`lastMessage
    {
      Valid() && Within(messages, lastMessage) && DistinctSymbols(messages)
    }

    constructor (number: nat)
      requires number >= 1
      ensures Numbering() && this.number == number && messages == [] && lastMessage == 0 && !deleted && symbol == None
    {
      this.number := number;
      messages, lastMessage, deleted, symbol := [], 0, false, None;
    }

    /** Where `n` is, or |messages|. */
    method FindNumber(n: nat) returns (run: nat)
      ensures run <= |messages|
      ensures run < |messages| ==> messages[run].number == n
      ensures run == |messages| <==> ItemAt(messages, n) == None
    {
      run := 0;
      while run < |messages| && messages[run].number != n
        invariant run <= |messages|
        invariant forall i :: 0 <= i < run ==> messages[i].number != n
      {
        run := run + 1;
      }
      ItemAtMember(messages, n);
    }

    /** Sorted insertion: behind the last message with a number at most as large. */
    method Insert(m: Item)
      requires Valid() && ItemAt(messages, m.number) == None
      modifies this`messages
      ensures Valid()
      ensures exists i :: 0 <= i <= |old(messages)| && messages == old(messages)[..i] + [m] + old(messages)[i..]
      ensures forall n :: ItemAt(messages, n) == if n == m.number then Some(m) else ItemAt(old(messages), n)
    {
      var run := 0;
      ItemAtMember(messages, m.number);
      if messages == [] || messages[0].number > m.number {
      } else {
        run := 1;
        while run < |messages| && messages[run].number <= m.number
          invariant 1 <= run <= |messages|
          invariant forall i :: 0 <= i < run ==> messages[i].number < m.number
        {
          run := run + 1;
        }
      }
      SortedInsert(messages, run, m);
      forall n ensures ItemAt(messages[..run] + [m] + messages[run..], n) == if n == m.number then Some(m)
             else ItemAt(messages, n) {
        InsertedItem(messages, run, m, n);
      }
      messages := messages[..run] + [m] + messages[run..];
    }

    /** Give the symbolic message at `run` the next free number; it moves to the end. */
    method Evict(run: nat)
      requires Numbering() && run < |messages|
      modifies this`messages, this`lastMessage
      ensures Numbering() && lastMessage == old(lastMessage) + 1
      ensures var m := old(messages)[run];
              forall n :: ItemAt(messages, n) ==
                            if n == lastMessage then Some(m.(number := lastMessage))
                            else if n == m.number then None
                            else ItemAt(old(messages), n)
    {
      lastMessage := lastMessage + 1;
      var m := messages[run].(number := lastMessage);
      var rest := messages[..run] + messages[run + 1..];
      EvictedItem(messages, run, m);
      messages := if run + 1 < |messages| then rest + [m] else messages[run := m];
      assert messages == rest + [m];
    }

    /** A line that starts with a number. */
    method AddNumbered(n: nat, text: Option<CString>) returns (counted: bool)
      requires Numbering()
      modifies this`messages, this`lastMessage
      ensures Numbering()
      ensures NumberedLine(old(messages), old(lastMessage), n, text, messages, lastMessage, counted)
    {
      var run := FindNumber(n);
      var messageNumber := n;
      if run < |messages| {
        ItemAtIndex(messages, run);
        if messages[run].symbol == None {
          messageNumber := 0;
        } else {
          Evict(run);
        }
      }
      if messageNumber != 0 && messageNumber > lastMessage {
        lastMessage := messageNumber;
      }
      if messageNumber != 0 {
        if text == None {
          return false;
        }
        ghost var before := messages;
        Insert(Item(messageNumber, None, text.value));
        NumberingAfterInsert(before, messages, Item(messageNumber, None, text.value), lastMessage);
      }
      return true;
    }

    /** A line that starts with an identifier. */
    method AddSymbolic(ident: string, text: Option<CString>) returns (counted: bool)
      requires Numbering()
      modifies this`messages, this`lastMessage
      ensures Numbering()
      ensures SymbolicLine(old(messages), old(lastMessage), ident, text, messages, lastMessage, counted)
    {
      var run := 0;
      while run < |messages| && messages[run].symbol != Some(ident)
        invariant run <= |messages|
        invariant forall i :: 0 <= i < run ==> messages[i].symbol != Some(ident)
      {
        run := run + 1;
      }
      if run < |messages| {
        return true;
      }
      ItemAtMember(messages, lastMessage + 1);
      lastMessage := lastMessage + 1;
      if text == None {
        return false;
      }
      ghost var before := messages;
      Insert(Item(lastMessage, Some(ident), text.value));
      NumberingAfterInsert(before, messages, Item(lastMessage, Some(ident), text.value), lastMessage);
      return true;
    }

    /** The body of the merging loop, for one message of the old catalog. */
    method MergeOld(older: Item) returns (inserted: bool)
      requires Valid()
      modifies this`messages
      ensures Valid()
      ensures inserted == (ItemAt(old(messages), older.number) == None)
      ensures forall n :: ItemAt(messages, n) ==
                            if n == older.number then MergeText(ItemAt(old(messages), n), older)
                               else ItemAt(old(messages), n)
    {
      var run := 0;
      while run < |messages| && messages[run].number < older.number
        invariant run <= |messages|
        invariant forall i :: 0 <= i < run ==> messages[i].number < older.number
      {
        run := run + 1;
      }
      ItemAtMember(messages, older.number);
      if run == |messages| || messages[run].number > older.number {
        SortedInsert(messages, run, older);
        forall n
          ensures ItemAt(messages[..run] + [older] + messages[run..], n) == if n == older.number then Some(older)
                  else ItemAt(messages, n)
        {
          InsertedItem(messages, run, older, n);
        }
        messages := messages[..run] + [older] + messages[run..];
        return true;
      }
      ItemAtIndex(messages, run);
      if messages[run].text == [] {
        forall n ensures ItemAt(messages[..run] + messages[run + 1..], n) == if n == older.number then None
               else ItemAt(messages, n) {
          RemovedItem(messages, run, n);
        }
        messages := messages[..run] + messages[run + 1..];
      }
      return false;
    }
  }

  lemma EvictedItem(ms: seq<Item>, run: nat, m: Item)
    requires Sorted(ms) && run < |ms| && Within(ms, m.number - 1) && DistinctSymbols(ms)
    requires m == ms[run].(number := m.number)
    ensures var ms' := ms[..run] + ms[run + 1..] + [m];
            && Sorted(ms') && Within(ms', m.number) && DistinctSymbols(ms')
            && forall n :: ItemAt(ms', n) ==
                             if n == m.number then Some(m) else if n == ms[run].number then None else ItemAt(ms, n)
  {
    var rest := ms[..run] + ms[run + 1..];
    RestOrdered(ms, run, m.number - 1);
    ItemAtMember(rest, m.number);
    forall n ensures ItemAt(rest + [m], n) ==
                       if n == m.number then Some(m) else if n == ms[run].number then None else ItemAt(ms, n)
    {
      ItemAtConcat(rest, [m], n);
      RemovedItem(ms, run, n);
    }
  }

  lemma RestOrdered(ms: seq<Item>, run: nat, last: int)
    requires Sorted(ms) && run < |ms| && Within(ms, last) && DistinctSymbols(ms)
    ensures var rest := ms[..run] + ms[run + 1..];
            && Sorted(rest) && Within(rest, last) && DistinctSymbols(rest)
            && forall i :: 0 <= i < |rest| && ms[run].symbol.Some? ==> rest[i].symbol != ms[run].symbol
  {
  }

  lemma SortedInsert(ms: seq<Item>, run: nat, m: Item)
    requires Sorted(ms) && run <= |ms|
    requires forall i :: 0 <= i < run ==> ms[i].number < m.number
    requires run < |ms| ==> m.number < ms[run].number
    ensures Sorted(ms[..run] + [m] + ms[run..])
  {
  }

  lemma NumberingAfterInsert(ms: seq<Item>, ms': seq<Item>, m: Item, last: int)
    requires Within(ms, last) && DistinctSymbols(ms) && 1 <= m.number <= last
    requires m.symbol.Some? ==> forall i :: 0 <= i < |ms| ==> ms[i].symbol != m.symbol
    requires exists i :: 0 <= i <= |ms| && ms' == ms[..i] + [m] + ms[i..]
    ensures Within(ms', last) && DistinctSymbols(ms')
  {
  }
}
