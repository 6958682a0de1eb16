/**
 Usage patterns: each argp may document alternative patterns of its arguments, one
 a line, and `_help` prints every combination over the tree. The byte vector of
 levels is an odometer, advanced by `argp_args_usage`.
 */
module ArgpUsage {
  import opened Wrappers
  import opened Sequences
  import opened ArgpTree

  // ----- Alternatives -----

  /** The position of the first newline, or the length: `strchrnul`. */
  function LineEnd(s: string): (n: nat)
    ensures n <= |s| && '\n' !in s[..n] && (n < |s| ==> s[n] == '\n')
  {
    if s == [] || s[0] == '\n' then 0 else 1 + LineEnd(s[1..])
  }

  /** The lines of a string; there is at least one. */
  function Lines(s: string): (r: seq<string>)
    ensures |r| >= 1
    decreases |s|
  {
    var n := LineEnd(s);
    if n == |s| then [s] else [s[..n]] + Lines(s[n + 1..])
  }

  function Alternatives(a: Argp): seq<string>
  {
    if a.argsDoc.Some? then Lines(a.argsDoc.value) else []
  }

  /** Whether an argp has a level of its own. */
  predicate Multiple(a: Argp)
  {
    |Alternatives(a)| > 1
  }

  function Own(a: Argp): (n: nat)
    ensures n <= 1
  {
    if Multiple(a) then 1 else 0
  }

  // ----- The odometer -----

  /** A level is a `char`, here taken to be signed. */
  type Level = x: int | -128 <= x <= 127

  /** The line that a level selects: the loop that looks for it does not run for a
      negative one. */
  function Line(level: Level): nat
  {
    if level < 0 then 0 else level
  }

  function NextLevel(level: Level): Level
  {
    if level == 127 then -128 else level + 1
  }

  /** `argp_args_levels`. */
  function Levels(a: Argp): nat
  {
    Own(a) + ChildLevels(a.children)
  }

  function ChildLevels(cs: Children): nat
  {
    match cs
    case End => 0
    case Child(a, _, _, next) => Levels(a) + ChildLevels(next)
  }

  /** The number of combinations. */
  function Radix(a: Argp): (n: nat)
    ensures n >= 1
  {
    if Multiple(a) then
      MulPositive(|Alternatives(a)|, ChildRadix(a.children));
      |Alternatives(a)| * ChildRadix(a.children)
    else ChildRadix(a.children)
  }

  function ChildRadix(cs: Children): (n: nat)
    ensures n >= 1
  {
    match cs
    case End => 1
    case Child(a, _, _, next) => MulPositive(ChildRadix(next), Radix(a)); ChildRadix(next) * Radix(a)
  }

  lemma MulPositive(x: nat, y: nat)
    requires x >= 1 && y >= 1
    ensures x * y >= 1
  {
  }

  /** Every level selects an existing alternative. */
  ghost predicate InRange(a: Argp, v: seq<Level>)
  {
    && |v| == Levels(a)
    && (Multiple(a) ==> Line(v[0]) < |Alternatives(a)|)
    && ChildrenInRange(a.children, v[Own(a)..])
  }

  ghost predicate ChildrenInRange(cs: Children, v: seq<Level>)
  {
    match cs
    case End => v == []
    case Child(a, _, _, next) =>
      && |v| == Levels(a) + ChildLevels(next)
      && InRange(a, v[..Levels(a)])
      && ChildrenInRange(next, v[Levels(a)..])
  }

  ghost function Digits(low: nat, high: nat, r: nat): nat
  {
    low + high * r
  }

  /** The number that a level vector stands for: the first child is the least
      significant, an argp's own level more significant than its children. */
  ghost function Value(a: Argp, v: seq<Level>): nat
    requires |v| == Levels(a)
  {
    Digits(ChildValue(a.children, v[Own(a)..]), if Multiple(a) then Line(v[0]) else 0, ChildRadix(a.children))
  }

  ghost function ChildValue(cs: Children, v: seq<Level>): nat
    requires |v| == ChildLevels(cs)
  {
    match cs
    case End => 0
    case Child(a, _, _, next) => Digits(Value(a, v[..Levels(a)]), ChildValue(next, v[Levels(a)..]), Radix(a))
  }

  /** What is printed for a level vector. */
  ghost function Output(a: Argp, v: seq<Level>): seq<string>
    requires InRange(a, v)
  {
    (if a.argsDoc == None then [] else [Alternatives(a)[if Multiple(a) then Line(v[0]) else 0]])
    + ChildOutput(a.children, v[Own(a)..])
  }

  ghost function ChildOutput(cs: Children, v: seq<Level>): seq<string>
    requires ChildrenInRange(cs, v)
  {
    match cs
    case End => []
    case Child(a, _, _, next) => Output(a, v[..Levels(a)]) + ChildOutput(next, v[Levels(a)..])
  }

  lemma {:induction false} ValueInRange(a: Argp, v: seq<Level>)
    requires InRange(a, v)
    ensures Value(a, v) < Radix(a)
  {
    var r := ChildRadix(a.children);
    ChildValueInRange(a.children, v[Own(a)..]);
    if Multiple(a) {
      DigitBound(ChildValue(a.children, v[1..]), Line(v[0]), r, |Alternatives(a)|);
    }
  }

  lemma {:induction false} ChildValueInRange(cs: Children, v: seq<Level>)
    requires ChildrenInRange(cs, v) && |v| == ChildLevels(cs)
    ensures ChildValue(cs, v) < ChildRadix(cs)
  {
    match cs
    case End =>
    case Child(a, _, _, next) =>
      ValueInRange(a, v[..Levels(a)]);
      ChildValueInRange(next, v[Levels(a)..]);
      DigitBound(Value(a, v[..Levels(a)]), ChildValue(next, v[Levels(a)..]), Radix(a), ChildRadix(next));
  }

  /** Two-digit numbers: `low` below `r`, `high` below `n`. */
  lemma DigitBound(low: nat, high: nat, r: nat, n: nat)
    requires low < r && high < n
    ensures low + high * r < n * r
  {
    LessDigit(high, n, r);
  }

  lemma DigitsUnique(low: nat, high: nat, low': nat, high': nat, r: nat)
    requires low < r && low' < r && low + high * r == low' + high' * r
    ensures low == low' && high == high'
  {
    LessDigit(high, high', r);
    LessDigit(high', high, r);
  }

  lemma LessDigit(x: nat, y: nat, r: nat)
    ensures x < y ==> x * r + r <= y * r
  {
    if x < y {
      assert (x + 1) * r <= y * r;
    }
  }

  /** The levels after a call, and whether the caller's own level should advance. */
  ghost function Next(a: Argp, v: seq<Level>, advance: bool): (r: (seq<Level>, bool))
    requires |v| == Levels(a)
    ensures |r.0| == |v|
  {
    var (w, carry) := ChildNext(a.children, v[Own(a)..], advance);
    if carry && Multiple(a) then
      if Line(v[0]) + 1 < |Alternatives(a)| then ([NextLevel(v[0])] + w, false) else ([0] + w, true)
    else (v[..Own(a)] + w, carry)
  }

  ghost function ChildNext(cs: Children, v: seq<Level>, advance: bool): (r: (seq<Level>, bool))
    requires |v| == ChildLevels(cs)
    ensures |r.0| == |v|
  {
    match cs
    case End => ([], advance)
    case Child(a, _, _, next) =>
      var (x, carry) := Next(a, v[..Levels(a)], advance);
      var (y, carry') := ChildNext(next, v[Levels(a)..], carry);
      (x + y, carry')
  }

  /** No level has overflowed. */
  ghost predicate Plain(v: seq<Level>)
  {
    forall i :: 0 <= i < |v| ==> v[i] >= 0
  }

  ghost predicate AllZero(v: seq<Level>)
  {
    forall i :: 0 <= i < |v| ==> v[i] == 0
  }

  /** A call without carry changes nothing; with carry it counts one up, and passes
      the carry on exactly when it wraps around to zero. */
  ghost predicate Counts(value: nat, radix: nat, v: seq<Level>, advance: bool, value': nat, v': seq<Level>, carry: bool)
  {
    if !advance then v' == v && !carry
    else if value + 1 < radix then value' == value + 1 && !carry
    else value' == 0 && AllZero(v') && carry
  }

  lemma {:induction false} NextCounts(a: Argp, v: seq<Level>, advance: bool)
    requires InRange(a, v) && Plain(v) && Countable(a)
    ensures var (w, carry) := Next(a, v, advance);
            InRange(a, w) && Plain(w) && Counts(Value(a, v), Radix(a), v, advance, Value(a, w), w, carry)
    decreases a, 1
  {
    hide ChildNext, ChildValue, ChildrenInRange, ChildLevels, Alternatives, ChildrenCountable;
    var own, r := Own(a), ChildRadix(a.children);
    var (w, carry) := ChildNext(a.children, v[own..], advance);
    var (v', carry') := Next(a, v, advance);
    ChildNextCounts(a.children, v[own..], advance);
    ChildValueInRange(a.children, v[own..]);
    assert v'[own..] == w;
    if Multiple(a) {
      NextDigit(ChildValue(a.children, v[1..]), Line(v[0]), r, |Alternatives(a)|);
      assert !advance ==> v' == v;
    } else {
      assert v' == w && v[own..] == v;
    }
  }

  lemma {:induction false} ChildNextCounts(cs: Children, v: seq<Level>, advance: bool)
    requires ChildrenInRange(cs, v) && |v| == ChildLevels(cs) && Plain(v) && ChildrenCountable(cs)
    ensures var (w, carry) := ChildNext(cs, v, advance);
            && ChildrenInRange(cs, w) && Plain(w)
            && Counts(ChildValue(cs, v), ChildRadix(cs), v, advance, ChildValue(cs, w), w, carry)
    decreases cs, 1
  {
    match cs
    case End =>
    case Child(a, _, _, next) =>
      hide *;
      var p, q := SplitLevels(cs, v);
      ChildPartsCount(cs, p, q, advance);
  }

  lemma SplitLevels(cs: Children, v: seq<Level>) returns (p: seq<Level>, q: seq<Level>)
    requires cs.Child? && |v| == ChildLevels(cs)
    ensures v == p + q && |p| == Levels(cs.argp) && |q| == ChildLevels(cs.next)
  {
    p, q := v[..Levels(cs.argp)], v[Levels(cs.argp)..];
  }

  lemma ChildPartsCount(cs: Children, p: seq<Level>, q: seq<Level>, advance: bool)
    requires cs.Child? && |p| == Levels(cs.argp) && |q| == ChildLevels(cs.next) && |p + q| == ChildLevels(cs)
    requires ChildrenInRange(cs, p + q) && Plain(p + q) && ChildrenCountable(cs)
    ensures var (w, carry) := ChildNext(cs, p + q, advance);
            && ChildrenInRange(cs, w) && Plain(w)
            && Counts(ChildValue(cs, p + q), ChildRadix(cs), p + q, advance, ChildValue(cs, w), w, carry)
    decreases cs, 0
  {
    hide *;
    var a, next := cs.argp, cs.next;
    var (x, carry) := Next(a, p, advance);
    var (y, carry') := ChildNext(next, q, carry);
    ChildParts(cs, p, q, advance);
    NextCounts(a, p, advance);
    ChildNextCounts(next, q, carry);
    ChildParts(cs, x, y, advance);
    ValueInRange(a, p);
    ChildValueInRange(next, q);
    Unmoved(ChildValue(next, q), ChildRadix(next), q, carry, ChildValue(next, y), y, carry');
    CountsBoth(Value(a, p), Radix(a), p, advance, Value(a, x), x, carry,
               ChildValue(next, q), ChildRadix(next), q, ChildValue(next, y), y, carry');
  }

  /** A level vector of the first child followed by one of the others. */
  lemma ChildParts(cs: Children, p: seq<Level>, q: seq<Level>, advance: bool)
    requires cs.Child? && |p| == Levels(cs.argp) && |q| == ChildLevels(cs.next)
    ensures |p + q| == ChildLevels(cs) && (Plain(p + q) <==> Plain(p) && Plain(q))
    ensures ChildrenInRange(cs, p + q) <==> InRange(cs.argp, p) && ChildrenInRange(cs.next, q)
    ensures ChildValue(cs, p + q) == Value(cs.argp, p) + ChildValue(cs.next, q) * Radix(cs.argp)
    ensures ChildRadix(cs) == ChildRadix(cs.next) * Radix(cs.argp)
    ensures ChildrenCountable(cs) <==> Countable(cs.argp) && ChildrenCountable(cs.next)
    ensures var (x, carry) := Next(cs.argp, p, advance);
            var (y, carry') := ChildNext(cs.next, q, carry);
            ChildNext(cs, p + q, advance) == (x + y, carry')
  {
    hide InRange, Value, Next, Countable, Plain;
    assert (p + q)[..|p|] == p && (p + q)[|p|..] == q;
    PlainParts(p, q);
  }

  lemma PlainParts(p: seq<Level>, q: seq<Level>)
    ensures Plain(p + q) <==> Plain(p) && Plain(q)
  {
    assert forall i :: 0 <= i < |p| ==> p[i] == (p + q)[i];
    assert forall i :: 0 <= i < |q| ==> q[i] == (p + q)[|p| + i];
  }

  lemma Unmoved(value: nat, radix: nat, v: seq<Level>, advance: bool, value': nat, v': seq<Level>, carry: bool)
    requires Counts(value, radix, v, advance, value', v', carry)
    ensures !advance ==> v' == v
  {
  }

  /** Two counters, the second moved by the carry of the first, count as one. */
  lemma CountsBoth(low: nat, r: nat, x: seq<Level>, advance: bool, low': nat, x': seq<Level>, carry: bool,
                   high: nat, n: nat, y: seq<Level>, high': nat, y': seq<Level>, carry': bool)
    requires low < r && high < n && |x| == |x'| && |y| == |y'|
    requires Counts(low, r, x, advance, low', x', carry) && Counts(high, n, y, carry, high', y', carry')
    requires !carry ==> high' == high
    ensures Counts(low + high * r, n * r, x + y, advance, low' + high' * r, x' + y', carry')
  {
    NextDigit(low, high, r, n);
  }

  /** Counting up a two-digit number. */
  lemma NextDigit(low: nat, high: nat, r: nat, n: nat)
    requires low < r && high < n
    ensures (high + 1) * r == high * r + r
    ensures low + high * r + 1 <= n * r
    ensures low + high * r + 1 == n * r <==> low + 1 == r && high + 1 == n
  {
    LessDigit(high, n, r);
    LessDigit(high + 1, n, r);
  }

  /** Different combinations have different numbers. */
  lemma {:induction false} ValueInjective(a: Argp, v: seq<Level>, w: seq<Level>)
    requires InRange(a, v) && InRange(a, w) && Plain(v) && Plain(w) && Value(a, v) == Value(a, w)
    ensures v == w
  {
    var own, r := Own(a), ChildRadix(a.children);
    ChildValueInRange(a.children, v[own..]);
    ChildValueInRange(a.children, w[own..]);
    if Multiple(a) {
      DigitsUnique(ChildValue(a.children, v[1..]), Line(v[0]), ChildValue(a.children, w[1..]), Line(w[0]), r);
    }
    ChildValueInjective(a.children, v[own..], w[own..]);
    assert v == v[..own] + v[own..] && w == w[..own] + w[own..];
  }

  lemma {:induction false} ChildValueInjective(cs: Children, v: seq<Level>, w: seq<Level>)
    requires ChildrenInRange(cs, v) && ChildrenInRange(cs, w) && |v| == |w| == ChildLevels(cs) && Plain(v) && Plain(w)
    requires ChildValue(cs, v) == ChildValue(cs, w)
    ensures v == w
  {
    hide Value, Radix, InRange, Levels;
    match cs
    case End =>
    case Child(a, _, _, next) =>
      var n := Levels(a);
      ValueInRange(a, v[..n]);
      ValueInRange(a, w[..n]);
      var hv, hw := ChildValue(next, v[n..]), ChildValue(next, w[n..]);
      DigitsUnique(Value(a, v[..n]), hv, Value(a, w[..n]), hw, Radix(a));
      ValueInjective(a, v[..n], w[..n]);
      ChildValueInjective(next, v[n..], w[n..]);
      assert v == v[..n] + v[n..] && w == w[..n] + w[n..];
  }

  lemma {:induction false} ZeroInRange(a: Argp, v: seq<Level>)
    requires |v| == Levels(a) && AllZero(v)
    ensures InRange(a, v) && Value(a, v) == 0
  {
    ZeroChildrenInRange(a.children, v[Own(a)..]);
  }

  lemma {:induction false} ZeroChildrenInRange(cs: Children, v: seq<Level>)
    requires |v| == ChildLevels(cs) && AllZero(v)
    ensures ChildrenInRange(cs, v) && ChildValue(cs, v) == 0
  {
    match cs
    case End =>
    case Child(a, _, _, next) =>
      ZeroInRange(a, v[..Levels(a)]);
      ZeroChildrenInRange(next, v[Levels(a)..]);
  }

  // ----- argp_args_usage -----

  /** No argp has more alternatives than a `char` can count. */
  predicate Countable(a: Argp)
  {
    |Alternatives(a)| <= 128 && ChildrenCountable(a.children)
  }

  predicate ChildrenCountable(cs: Children)
  {
    match cs
    case End => true
    case Child(a, _, _, next) => Countable(a) && ChildrenCountable(next)
  }

  /** Find the line with number `level`, and whether another one follows. */
  method FindLine(doc: string, level: Level) returns (cp: nat, nl: nat)
    requires Line(level) < |Lines(doc)|
    ensures cp <= nl <= |doc| && doc[cp..nl] == Lines(doc)[Line(level)]
    ensures nl < |doc| <==> Line(level) + 1 < |Lines(doc)|
  {
    hide Lines, LineEnd;
    cp, nl := 0, LineEnd(doc);
    assert doc[0..] == doc;
    var i := 0;
    while i < level
      invariant 0 <= i <= Line(level) && cp <= |doc| && nl == cp + LineEnd(doc[cp..])
      invariant Lines(doc)[i..] == Lines(doc[cp..])
    {
      LinesStep(doc, cp);
      assert Lines(doc)[i..][1..] == Lines(doc)[i + 1..];
      cp := nl + 1;
      nl := cp + LineEnd(doc[cp..]);
      i := i + 1;
    }
    LinesStep(doc, cp);
    assert Lines(doc)[Line(level)] == Lines(doc)[Line(level)..][0];
  }

  lemma LinesStep(doc: string, cp: nat)
    requires cp <= |doc|
    ensures var nl, ls := cp + LineEnd(doc[cp..]), Lines(doc[cp..]);
            && nl <= |doc| && ls[0] == doc[cp..nl]
            && (if nl == |doc| then |ls| == 1 else |ls| > 1 && ls[1..] == Lines(doc[nl + 1..]))
  {
  }

  /** The part of `argp_args_usage` that prints an argp's own pattern, and looks whether
      there is more than one, and one more to come. */
  method OwnPattern(a: Argp, levels: array<Level>, ourLevel: nat) returns (multiple: bool, more: bool, out: seq<string>)
    requires Multiple(a) ==> ourLevel < levels.Length && Line(levels[ourLevel]) < |Alternatives(a)|
    ensures multiple == Multiple(a) && (multiple ==> more == (Line(levels[ourLevel]) + 1 < |Alternatives(a)|))
    ensures out == if a.argsDoc == None then []
            else [Alternatives(a)[if Multiple(a) then Line(levels[ourLevel]) else 0]]
  {
    hide Lines, LineEnd;
    multiple, more, out := false, false, [];
    if a.argsDoc.Some? {
      var doc := a.argsDoc.value;
      var cp, nl := FindLine(doc, if Multiple(a) then levels[ourLevel] else 0);
      multiple, more, out := Multiple(a), nl < |doc|, [doc[cp..nl]];
    }
  }

  /** `argp_args_usage`: print the combination that the levels select, and count up. */
  method ArgsUsage(a: Argp, levels: array<Level>, pos: nat, advance: bool)
    returns (pos': nat, advance': bool, out: seq<string>)
    requires pos + Levels(a) <= levels.Length && InRange(a, levels[pos..pos + Levels(a)])
    modifies levels
    ensures pos' == pos + Levels(a)
    ensures var v := old(levels[pos..pos + Levels(a)]);
            out == Output(a, v) && (levels[pos..pos'], advance') == Next(a, v, advance)
    ensures levels[..pos] == old(levels[..pos]) && levels[pos'..] == old(levels[pos'..])
    decreases a, 2
  {
    ghost var own, u := LevelParts(a, levels, pos);
    UsageParts(a, own, u, advance);
    hide *;
    pos', advance', out := UsageSteps(a, levels, pos, advance, own, u);
  }

  /** The steps of `argp_args_usage`: the own pattern, those of the children, and counting up. */
  method UsageSteps(a: Argp, levels: array<Level>, pos: nat, advance: bool, ghost own: seq<Level>, ghost u: seq<Level>)
    returns (pos': nat, advance': bool, out: seq<string>)
    requires pos + |own| + |u| <= levels.Length && levels[pos..pos + |own| + |u|] == own + u
    requires if Multiple(a) then |own| == 1 && own[0] == levels[pos] else own == []
    requires Multiple(a) ==> Line(own[0]) < |Alternatives(a)| && (own[0] < 0 ==> Line(own[0]) + 1 < |Alternatives(a)|)
    requires |u| == ChildLevels(a.children) && ChildrenInRange(a.children, u)
    modifies levels
    ensures pos' == pos + |own| + |u|
    ensures out == (if a.argsDoc == None then [] else [Alternatives(a)[if Multiple(a) then Line(own[0]) else 0]])
                   + ChildOutput(a.children, u)
    ensures var (w, carry) := ChildNext(a.children, u, advance);
            (levels[pos..pos'], advance') ==
            if carry && Multiple(a) then
              if Line(own[0]) + 1 < |Alternatives(a)| then ([NextLevel(own[0])] + w, false) else ([0] + w, true)
            else (own + w, carry)
    ensures levels[..pos] == old(levels[..pos]) && levels[pos'..] == old(levels[pos'..])
    decreases a, 1
  {
    hide *;
    var ourLevel := pos;
    var multiple, more, carry, rest;
    multiple, more, out := OwnPattern(a, levels, pos);
    pos' := if multiple then pos + 1 else pos;
    pos', carry, rest := BelowUsage(a, levels, pos, pos', advance, own, u);
    out := out + rest;
    advance' := AdvanceLevel(levels, ourLevel, pos', multiple, more, carry, own,
                             ChildNext(a.children, u, advance).0);
  }

  /** The argp's own level, if it has one, and those of its children. */
  lemma LevelParts(a: Argp, levels: array<Level>, pos: nat) returns (own: seq<Level>, u: seq<Level>)
    requires pos + Levels(a) <= levels.Length
    ensures levels[pos..pos + Levels(a)] == own + u && |u| == ChildLevels(a.children)
    ensures if Multiple(a) then |own| == 1 && own[0] == levels[pos] else own == []
    ensures |own| == Own(a) && Levels(a) == |own| + |u|
  {
    own, u := if Multiple(a) then [levels[pos]] else [], levels[pos + Own(a)..pos + Levels(a)];
  }

  /** The children's part of a call, which leaves the argp's own level at `pos` alone. */
  method BelowUsage(a: Argp, levels: array<Level>, ghost pos: nat, below: nat, advance: bool, ghost own: seq<Level>,
                    ghost u: seq<Level>)
    returns (pos': nat, carry: bool, rest: seq<string>)
    requires below == pos + |own| && |u| == ChildLevels(a.children) && below + |u| <= levels.Length
    requires levels[pos..below + |u|] == own + u && ChildrenInRange(a.children, u)
    modifies levels
    ensures pos' == below + |u| && rest == ChildOutput(a.children, u)
    ensures var (w, c) := ChildNext(a.children, u, advance); carry == c && levels[pos..pos'] == own + w
    ensures levels[..pos] == old(levels[..pos]) && levels[pos'..] == old(levels[pos'..])
    decreases a, 0
  {
    hide *;
    ghost var end, before := below + |u|, levels[..];
    AppendParts(levels, pos, end, own, u);
    assert before[..below] == levels[..below] && before[end..] == levels[end..];
    pos', carry, rest := ChildrenUsage(a.children, levels, below, advance);
    CallFrame(levels, before, pos, below, end, end);
  }

  lemma AppendParts(levels: array<Level>, pos: nat, end: nat, own: seq<Level>, u: seq<Level>)
    requires pos <= end <= levels.Length && levels[pos..end] == own + u
    ensures levels[pos..pos + |own|] == own && levels[pos + |own|..end] == u
  {
    var v := levels[pos..end];
    assert v[..|own|] == own && v[|own|..] == u;
    assert v[..|own|] == levels[pos..pos + |own|] && v[|own|..] == levels[pos + |own|..end];
  }

  /** The last part of `argp_args_usage`: count up the own level, if the children carry. */
  method AdvanceLevel(levels: array<Level>, ourLevel: nat, end: nat, multiple: bool, more: bool, carry: bool,
                      ghost own: seq<Level>, ghost w: seq<Level>)
    returns (advance: bool)
    requires ourLevel <= end <= levels.Length && levels[ourLevel..end] == own + w
    requires if multiple then |own| == 1 && (!more ==> own[0] >= 0) else own == []
    modifies levels
    ensures levels[..ourLevel] == old(levels[..ourLevel]) && levels[end..] == old(levels[end..])
    ensures if carry && multiple then
              advance == !more && levels[ourLevel..end] == [if more then NextLevel(own[0]) else 0] + w
            else advance == carry && levels[ourLevel..end] == own + w
  {
    advance := carry;
    if advance && multiple {
      ghost var was, x := levels[..], if more then NextLevel(own[0]) else 0;
      AppendParts(levels, ourLevel, end, own, w);
      WriteLevel(was, ourLevel, end, x);
      assert levels[ourLevel] == levels[ourLevel..ourLevel + 1][0];
      if more {
        levels[ourLevel] := NextLevel(levels[ourLevel]);
        advance := false;
      } else if levels[ourLevel] > 0 {
        levels[ourLevel] := 0;
      }
      assert levels[..] == was[ourLevel := x];
    }
  }

  /** What a call does, from what it does for the argp itself and for its children. */
  lemma UsageParts(a: Argp, own: seq<Level>, u: seq<Level>, advance: bool)
    requires |own| == Own(a) && InRange(a, own + u)
    ensures |u| == ChildLevels(a.children) && ChildrenInRange(a.children, u)
    ensures Multiple(a) ==> && Line(own[0]) < |Alternatives(a)|
                            && (own[0] < 0 ==> Line(own[0]) + 1 < |Alternatives(a)|)
    ensures Output(a, own + u) == (if a.argsDoc == None then []
                                   else [Alternatives(a)[if Multiple(a) then Line(own[0]) else 0]])
                                  + ChildOutput(a.children, u)
    ensures var (w, carry) := ChildNext(a.children, u, advance);
            Next(a, own + u, advance) ==
            if carry && Multiple(a) then
              if Line(own[0]) + 1 < |Alternatives(a)| then ([NextLevel(own[0])] + w, false) else ([0] + w, true)
            else (own + w, carry)
  {
    assert (own + u)[|own|..] == u && (own + u)[..|own|] == own;
  }

  lemma WriteLevel(s: seq<Level>, pos: nat, end: nat, x: Level)
    requires pos < end <= |s|
    ensures var t := s[pos := x];
            t[..pos] == s[..pos] && t[end..] == s[end..] && t[pos..end] == [x] + s[pos + 1..end] &&
              (s[pos] == x ==> t == s)
  {
  }

  /** The loop over the children. */
  method ChildrenUsage(children: Children, levels: array<Level>, start: nat, first: bool)
    returns (pos: nat, advance: bool, out: seq<string>)
    requires start + ChildLevels(children) <= levels.Length
    requires ChildrenInRange(children, levels[start..start + ChildLevels(children)])
    modifies levels
    ensures pos == start + ChildLevels(children)
    ensures var v := old(levels[start..start + ChildLevels(children)]);
            out == ChildOutput(children, v) && (levels[start..pos], advance) == ChildNext(children, v, first)
    ensures levels[..start] == old(levels[..start]) && levels[pos..] == old(levels[pos..])
    decreases children, 0
  {
    hide *;
    ghost var end := start + ChildLevels(children);
    ghost var v := levels[start..end];
    pos, advance, out := start, first, [];
    var cs := children;
    ProgressStart(children, v, first);
    assert levels[start..pos] == [];
    while cs.Child?
      invariant cs == children || cs < children
      invariant start <= pos <= end
      invariant levels[..start] == old(levels[..start]) && levels[end..] == old(levels[end..])
      invariant Progress(children, v, first, cs, levels[pos..end], advance, out, levels[start..pos])
      decreases cs
    {
      ghost var rest, done := levels[pos..end], levels[start..pos];
      ghost var p, q := ProgressStep(children, v, first, cs, rest, advance, out, done);
      var line;
      pos, advance, line := OneChild(cs.argp, levels, start, pos, end, advance, done, p, q);
      out := out + line;
      cs := cs.next;
    }
    ProgressEnd(children, v, first, cs, levels[pos..end], advance, out, levels[start..pos]);
  }

  /** The call for one child: `done` is what was written before, `q` the levels still to come. */
  method OneChild(a: Argp, levels: array<Level>, ghost start: nat, pos: nat, ghost end: nat, advance: bool,
                  ghost done: seq<Level>, ghost p: seq<Level>, ghost q: seq<Level>)
    returns (pos': nat, advance': bool, line: seq<string>)
    requires start <= pos && |p| == Levels(a) && pos + |p| + |q| == end <= levels.Length && InRange(a, p)
    requires levels[start..pos] == done && levels[pos..end] == p + q
    modifies levels
    ensures pos' == pos + |p| && line == Output(a, p)
    ensures var (x, carry) := Next(a, p, advance); advance' == carry && levels[start..pos'] == done + x
    ensures levels[pos'..end] == q && levels[..start] == old(levels[..start]) && levels[end..] == old(levels[end..])
    decreases a, 3
  {
    hide *;
    ghost var was := levels[..];
    AppendParts(levels, pos, end, p, q);
    assert levels[..pos] == was[..pos] && levels[pos + |p|..] == was[pos + |p|..];
    assert was[start..pos] == done && was[pos + |p|..end] == q;
    assert was[..start] == levels[..start] && was[end..] == levels[end..];
    pos', advance', line := ArgsUsage(a, levels, pos, advance);
    CallFrame(levels, was, start, pos, pos', end);
  }

  /** A call that writes only `pos..pos'` keeps what is before, after, and next to it. */
  lemma CallFrame(levels: array<Level>, was: seq<Level>, start: nat, pos: nat, pos': nat, end: nat)
    requires start <= pos <= pos' <= end <= levels.Length == |was|
    requires levels[..pos] == was[..pos] && levels[pos'..] == was[pos'..]
    ensures levels[..start] == was[..start] && levels[end..] == was[end..] && levels[pos'..end] == was[pos'..end]
    ensures levels[start..pos'] == was[start..pos] + levels[pos..pos']
  {
    assert levels[start..pos] == levels[..pos][start..];
    assert was[start..pos] == was[..pos][start..];
    assert levels[pos'..end] == levels[pos'..][..end - pos'];
    assert was[pos'..end] == was[pos'..][..end - pos'];
    assert levels[..start] == levels[..pos][..start];
    assert was[..start] == was[..pos][..start];
    assert levels[end..] == levels[pos'..][end - pos'..];
    assert was[end..] == was[pos'..][end - pos'..];
  }

  /** Part of the loop over the children is done: `out` and `done` are what it has
      printed and written, `rest` the levels of the children `cs` still to come. */
  ghost predicate Progress(children: Children, v: seq<Level>, first: bool, cs: Children, rest: seq<Level>,
                           advance: bool, out: seq<string>,
                           done: seq<Level>)
  {
    && |v| == ChildLevels(children) && ChildrenInRange(children, v)
    && |rest| == ChildLevels(cs) && ChildrenInRange(cs, rest)
    && out + ChildOutput(cs, rest) == ChildOutput(children, v)
    && var (w, carry) := ChildNext(cs, rest, advance); (done + w, carry) == ChildNext(children, v, first)
  }

  lemma ProgressStart(children: Children, v: seq<Level>, first: bool)
    requires |v| == ChildLevels(children) && ChildrenInRange(children, v)
    ensures Progress(children, v, first, children, v, first, [], [])
  {
    var w := ChildNext(children, v, first).0;
    assert [] + w == w;
  }

  lemma ProgressStep(children: Children, v: seq<Level>, first: bool, cs: Children, rest: seq<Level>, advance: bool,
                     out: seq<string>, done: seq<Level>) returns (p: seq<Level>, q: seq<Level>)
    requires cs.Child? && Progress(children, v, first, cs, rest, advance, out, done)
    ensures rest == p + q && |p| == Levels(cs.argp) && InRange(cs.argp, p)
    ensures var (x, carry) := Next(cs.argp, p, advance);
            Progress(children, v, first, cs.next, q, carry, out + Output(cs.argp, p), done + x)
  {
    hide Next, Output, Levels, InRange, ChildNext, ChildOutput, ChildLevels, ChildrenInRange;
    ChildStep(cs, rest, advance);
    var n := Levels(cs.argp);
    p, q := rest[..n], rest[n..];
    var (x, carry) := Next(cs.argp, p, advance);
    var (y, carry') := ChildNext(cs.next, q, carry);
    Regroup(done, x, y);
    Regroup(out, Output(cs.argp, p), ChildOutput(cs.next, q));
  }

  lemma ChildStep(cs: Children, rest: seq<Level>, advance: bool)
    requires cs.Child? && |rest| == ChildLevels(cs) && ChildrenInRange(cs, rest)
    ensures var n := Levels(cs.argp);
            && n <= |rest| && |rest[n..]| == ChildLevels(cs.next)
            && InRange(cs.argp, rest[..n]) && ChildrenInRange(cs.next, rest[n..])
            && ChildOutput(cs, rest) == Output(cs.argp, rest[..n]) + ChildOutput(cs.next, rest[n..])
            && var (x, carry) := Next(cs.argp, rest[..n], advance);
               var (y, carry') := ChildNext(cs.next, rest[n..], carry);
               ChildNext(cs, rest, advance) == (x + y, carry')
  {
    hide Next, Output, Levels, InRange;
  }

  lemma ProgressEnd(children: Children, v: seq<Level>, first: bool, cs: Children, rest: seq<Level>, advance: bool,
                    out: seq<string>,
                    done: seq<Level>)
    requires cs.End? && Progress(children, v, first, cs, rest, advance, out, done)
    ensures rest == [] && out == ChildOutput(children, v) && (done, advance) == ChildNext(children, v, first)
  {
    assert done + [] == done && out + [] == out;
  }

  // ----- The loop of _help -----

  /** Pattern `k` is the combination with number `k`. */
  ghost predicate Printed(a: Argp, vs: seq<seq<Level>>, patterns: seq<seq<string>>)
  {
    && |vs| == |patterns|
    && forall k :: 0 <= k < |vs| ==>
       InRange(a, vs[k]) && Plain(vs[k]) && Value(a, vs[k]) == k && patterns[k] == Output(a, vs[k])
  }

  /** A list of as many patterns as there are combinations, numbered consecutively,
      has every combination exactly once. */
  lemma EveryPatternOnce(a: Argp, vs: seq<seq<Level>>, patterns: seq<seq<string>>, v: seq<Level>)
    requires Printed(a, vs, patterns) && |vs| == Radix(a) && InRange(a, v) && Plain(v)
    ensures exists k :: 0 <= k < |vs| && vs[k] == v && patterns[k] == Output(a, v)
    ensures forall i, j :: 0 <= i < |vs| && 0 <= j < |vs| && vs[i] == v && vs[j] == v ==> i == j
  {
    hide Value, Radix, Output;
    ValueInRange(a, v);
    ValueInjective(a, v, vs[Value(a, v)]);
  }

  /** The levels after some calls, and whether the next one says that there are no more. */
  ghost function LevelsAfter(a: Argp, n: nat): (v: seq<Level>)
    ensures |v| == Levels(a)
  {
    if n == 0 then seq(Levels(a), _ => 0) else Next(a, LevelsAfter(a, n - 1), true).0
  }

  ghost predicate EndsAt(a: Argp, n: nat)
  {
    Next(a, LevelsAfter(a, n), true).1
  }

  lemma {:induction false} StaysInRange(a: Argp, v: seq<Level>, advance: bool)
    requires InRange(a, v)
    ensures InRange(a, Next(a, v, advance).0) && (Next(a, v, advance).1 ==> advance)
    ensures !Countable(a) ==> !Next(a, v, advance).1
  {
    hide ChildNext, ChildrenInRange, ChildLevels, Alternatives, ChildrenCountable;
    ChildrenStayInRange(a.children, v[Own(a)..], advance);
    var v' := Next(a, v, advance).0;
    assert v'[Own(a)..] == ChildNext(a.children, v[Own(a)..], advance).0;
  }

  lemma {:induction false} ChildrenStayInRange(cs: Children, v: seq<Level>, advance: bool)
    requires ChildrenInRange(cs, v) && |v| == ChildLevels(cs)
    ensures var (w, carry) := ChildNext(cs, v, advance);
            ChildrenInRange(cs, w) && (carry ==> advance) && (!ChildrenCountable(cs) ==> !carry)
  {
    hide Next, InRange, Levels, Countable;
    match cs
    case End =>
    case Child(a, _, _, next) =>
      var n := Levels(a);
      var (x, carry) := Next(a, v[..n], advance);
      var (y, carry') := ChildNext(next, v[n..], carry);
      StaysInRange(a, v[..n], advance);
      ChildrenStayInRange(next, v[n..], carry);
      assert (x + y)[..n] == x && (x + y)[n..] == y;
  }

  /** After `n` calls the levels stand for `n`, as long as there are combinations left. */
  lemma {:induction false} LevelsCount(a: Argp, n: nat)
    ensures InRange(a, LevelsAfter(a, n))
    ensures Countable(a) && n < Radix(a) ==> Plain(LevelsAfter(a, n)) && Value(a, LevelsAfter(a, n)) == n
  {
    hide InRange, Next, Value, Radix, Countable, Levels;
    if n == 0 {
      ZeroInRange(a, LevelsAfter(a, 0));
    } else {
      LevelsCount(a, n - 1);
      StaysInRange(a, LevelsAfter(a, n - 1), true);
      if Countable(a) && n < Radix(a) {
        NextCounts(a, LevelsAfter(a, n - 1), true);
      }
    }
  }

  /** The loop of `_help` ends exactly if no argp has more than 128 alternatives: otherwise a
      level overflows before its last line, and no call ever says that it is the last. */
  lemma EndsExactly(a: Argp)
    ensures (exists n: nat :: EndsAt(a, n)) <==> Countable(a)
  {
    hide InRange, Next, Value, Radix, Countable, Levels, LevelsAfter;
    forall n: nat ensures EndsAt(a, n) ==> Countable(a) {
      LevelsCount(a, n);
      StaysInRange(a, LevelsAfter(a, n), true);
    }
    if Countable(a) {
      var n := Radix(a) - 1;
      LevelsCount(a, n);
      NextCounts(a, LevelsAfter(a, n), true);
      assert EndsAt(a, n);
    }
  }

  /** The usage part of `_help`: print patterns until `argp_args_usage` says there are no more. */
  method HelpPatterns(a: Argp) returns (patterns: seq<seq<string>>, final: seq<Level>, ghost vs: seq<seq<Level>>)
    requires Countable(a)
    ensures Printed(a, vs, patterns) && |patterns| == Radix(a)
    ensures |final| == Levels(a) && AllZero(final)
  {
    hide InRange, Value, Radix, Output, Next, Levels, Countable;
    var levels := new Level[Levels(a)](_ => 0);
    var more := true;
    patterns, vs := [], [];
    ZeroInRange(a, levels[..]);
    while more
      invariant Printed(a, vs, patterns)
      invariant more ==> InRange(a, levels[..]) && Plain(levels[..]) && Value(a, levels[..]) == |vs| < Radix(a)
      invariant !more ==> |vs| == Radix(a) && AllZero(levels[..])
      decreases Radix(a) - |vs|, more
    {
      ghost var v := levels[..];
      NextCounts(a, v, true);
      assert levels[0..Levels(a)] == v;
      var _, advance, pattern := ArgsUsage(a, levels, 0, true);
      assert levels[0..Levels(a)] == levels[..];
      patterns, vs := patterns + [pattern], vs + [v];
      more := !advance;
      if more {
        ValueInRange(a, levels[..]);
      }
    }
    final := levels[..];
  }
}
