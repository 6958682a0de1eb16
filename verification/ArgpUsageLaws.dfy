/**
 Usage patterns in terms of the tree of argps: what a pattern prints, in which
 order, and which level selects it.
 */
module ArgpUsageLaws {
  import opened Wrappers
  import opened Sequences
  import opened ArgpTree
  import opened ArgpTreeLaws
  import opened ArgpUsage

  // ----- Lines -----

  function Newlines(s: string): nat
  {
    if s == [] then 0 else Newlines(s[..|s| - 1]) + if s[|s| - 1] == '\n' then 1 else 0
  }

  /** `text` is line number `k` of `doc`. */
  ghost predicate IsLine(doc: string, k: nat, text: string)
  {
    exists start: nat :: LineAt(doc, k, text, start)
  }

  ghost predicate LineAt(doc: string, k: nat, text: string, start: nat)
  {
    && start + |text| <= |doc| && doc[start..start + |text|] == text && '\n' !in text
    && (start == 0 || doc[start - 1] == '\n') && Newlines(doc[..start]) == k
    && (start + |text| == |doc| || doc[start + |text|] == '\n')
  }

  lemma {:induction false} NewlinesConcat(a: string, b: string)
    ensures Newlines(a + b) == Newlines(a) + Newlines(b)
  {
    if b == [] {
      assert a + b == a;
    } else {
      assert (a + b)[..|a + b| - 1] == a + b[..|b| - 1];
      NewlinesConcat(a, b[..|b| - 1]);
    }
  }

  lemma {:induction false} NoNewlines(s: string)
    requires '\n' !in s
    ensures Newlines(s) == 0
  {
    if s != [] {
      NoNewlines(s[..|s| - 1]);
    }
  }

  lemma FirstLine(doc: string)
    ensures var n := LineEnd(doc); n < |doc| ==> Newlines(doc[..n + 1]) == 1
    ensures LineEnd(doc) == |doc| ==> Newlines(doc) == 0
  {
    var n := LineEnd(doc);
    NoNewlines(doc[..n]);
    if n < |doc| {
      assert doc[..n + 1][..n] == doc[..n];
    } else {
      assert doc[..n] == doc;
    }
  }

  /** The lines of a text are its pieces between newlines, one more than there are newlines. */
  lemma {:induction false} LinesAre(doc: string, k: nat)
    ensures |Lines(doc)| == Newlines(doc) + 1
    ensures k < |Lines(doc)| ==> IsLine(doc, k, Lines(doc)[k])
    decreases |doc|
  {
    hide Newlines, IsLine, Lines, LineEnd;
    var n := LineEnd(doc);
    FirstLine(doc);
    UnfoldLines(doc);
    if n == |doc| {
      TopLine(doc, n);
      assert doc[..n] == doc;
    } else {
      var first, rest := doc[..n + 1], doc[n + 1..];
      assert doc == first + rest;
      NewlinesConcat(first, rest);
      LinesAre(rest, if k > 0 then k - 1 else 0);
      if k == 0 {
        TopLine(doc, n);
      } else if k < |Lines(rest)| + 1 {
        assert Lines(doc)[k] == Lines(rest)[k - 1];
        BehindLine(first, rest, k - 1, Lines(rest)[k - 1]);
      }
    }
  }

  lemma UnfoldLines(doc: string)
    ensures var n := LineEnd(doc); Lines(doc) == if n == |doc| then [doc] else [doc[..n]] + Lines(doc[n + 1..])
  {
    hide LineEnd;
  }

  lemma TopLine(doc: string, n: nat)
    requires n <= |doc| && '\n' !in doc[..n] && (n == |doc| || doc[n] == '\n')
    ensures IsLine(doc, 0, doc[..n])
  {
    assert doc[..0] == [] && doc[0..n] == doc[..n];
    assert LineAt(doc, 0, doc[..n], 0);
  }

  lemma BehindLine(first: string, rest: string, k: nat, text: string)
    requires first != [] && first[|first| - 1] == '\n' && Newlines(first) == 1 && IsLine(rest, k, text)
    ensures IsLine(first + rest, k + 1, text)
  {
    hide Newlines;
    var start: nat :| LineAt(rest, k, text, start);
    NewlinesConcat(first, rest[..start]);
    SameSlices(first, rest, start, |text|);
    assert LineAt(first + rest, k + 1, text, |first| + start);
  }

  lemma SameSlices(first: string, rest: string, start: nat, n: nat)
    requires first != [] && start + n <= |rest|
    ensures var doc, at := first + rest, |first| + start;
            && doc[..at] == first + rest[..start] && doc[at..at + n] == rest[start..start + n]
            && doc[at - 1] == (if start == 0 then first[|first| - 1] else rest[start - 1])
            && (start + n < |rest| ==> doc[at + n] == rest[start + n])
  {
  }

  // ----- Patterns -----

  predicate HasDoc(a: Argp)
  {
    a.argsDoc.Some?
  }

  predicate HasAlternatives(a: Argp)
  {
    a.argsDoc.Some? && '\n' in a.argsDoc.value
  }

  lemma {:induction false} NewlineIn(s: string)
    ensures '\n' in s <==> Newlines(s) > 0
  {
    if s != [] {
      NewlineIn(s[..|s| - 1]);
      assert s == s[..|s| - 1] + [s[|s| - 1]];
    }
  }

  lemma MultipleIs(a: Argp)
    ensures Multiple(a) <==> HasAlternatives(a)
  {
    if a.argsDoc.Some? {
      LinesAre(a.argsDoc.value, 0);
      NewlineIn(a.argsDoc.value);
    }
  }

  // ----- What a pattern prints -----

  /** The documentation of the arguments of all argps, in preorder. */
  ghost function Docs(a: Argp): seq<string>
  {
    (if a.argsDoc.Some? then [a.argsDoc.value] else []) + ChildDocs(a.children)
  }

  ghost function ChildDocs(cs: Children): seq<string>
  {
    match cs
    case End => []
    case Child(a, _, _, next) => Docs(a) + ChildDocs(next)
  }

  /** Document `n` is that of argp `n` in preorder. */
  lemma {:induction false} DocsInPreorder(a: Argp, path: Path, n: nat) returns (rel: Path)
    requires n < |Docs(a)|
    ensures n < |Paths(a, path, HasDoc)| && Paths(a, path, HasDoc)[n] == path + rel
    ensures ArgpAt(a, rel).Some? && ArgpAt(a, rel).value.argsDoc == Some(Docs(a)[n])
  {
    hide ChildDocs, ChildPaths;
    if HasDoc(a) && n == 0 {
      rel := [];
      assert path + rel == path;
    } else {
      var c, r := ChildDocsInPreorder(a.children, path, 0, if HasDoc(a) then n - 1 else n);
      rel := [c] + r;
      AtNth(a, c, r);
    }
  }

  lemma AtNth(a: Argp, c: nat, rel: Path)
    requires NthChild(a.children, c).Some?
    ensures ArgpAt(a, [c] + rel) == ArgpAt(NthChild(a.children, c).value, rel)
  {
    assert ([c] + rel)[1..] == rel;
  }

  lemma {:induction false} ChildDocsInPreorder(cs: Children, path: Path, k: nat, n: nat) returns (c: nat, rel: Path)
    requires n < |ChildDocs(cs)|
    ensures n < |ChildPaths(cs, path, k, HasDoc)| && ChildPaths(cs, path, k, HasDoc)[n] == path + ([k + c] + rel)
    ensures NthChild(cs, c).Some? && ArgpAt(NthChild(cs, c).value, rel).Some?
    ensures ArgpAt(NthChild(cs, c).value, rel).value.argsDoc == Some(ChildDocs(cs)[n])
  {
    hide Docs, Paths, ArgpAt;
    DocCount(cs.argp, path + [k]);
    if n < |Docs(cs.argp)| {
      rel := DocsInPreorder(cs.argp, path + [k], n);
      c := 0;
      Regroup(path, [k], rel);
    } else {
      c, rel := ChildDocsInPreorder(cs.next, path, k + 1, n - |Docs(cs.argp)|);
      c := c + 1;
    }
  }

  lemma {:induction false} DocCount(a: Argp, path: Path)
    ensures |Docs(a)| == |Paths(a, path, HasDoc)|
  {
    ChildDocCount(a.children, path, 0);
  }

  lemma {:induction false} ChildDocCount(cs: Children, path: Path, k: nat)
    ensures |ChildDocs(cs)| == |ChildPaths(cs, path, k, HasDoc)|
  {
    match cs
    case End =>
    case Child(a, _, _, next) =>
      DocCount(a, path + [k]);
      ChildDocCount(next, path, k + 1);
  }

  /** How many of the documents have alternatives. */
  function Alternating(docs: seq<string>): nat
  {
    if docs == [] then 0 else Alternating(docs[..|docs| - 1]) + if '\n' in docs[|docs| - 1] then 1 else 0
  }

  /** Line `k` of a text. */
  function LineOf(doc: string, k: nat): string
  {
    if k < |Lines(doc)| then Lines(doc)[k] else []
  }

  /** Each document in turn: the line that the next level selects, or all of one without alternatives. */
  function Select(docs: seq<string>, v: seq<Level>): seq<string>
  {
    if docs == [] then []
    else
      var front, doc := docs[..|docs| - 1], docs[|docs| - 1];
      if '\n' !in doc then Select(front, v) + [doc]
      else if v == [] then []
      else Select(front, v[..|v| - 1]) + [LineOf(doc, Line(v[|v| - 1]))]
  }

  lemma {:induction false} SelectConcat(d: seq<string>, e: seq<string>, v: seq<Level>, w: seq<Level>)
    requires |w| == Alternating(e)
    ensures Select(d + e, v + w) == Select(d, v) + Select(e, w) && Alternating(d + e) == Alternating(d) + Alternating(e)
  {
    hide LineOf;
    if e == [] {
      assert d + e == d && v + w == v;
    } else {
      var front := e[..|e| - 1];
      assert (d + e)[..|d + e| - 1] == d + front;
      if '\n' in e[|e| - 1] {
        assert (v + w)[..|v + w| - 1] == v + w[..|w| - 1];
        SelectConcat(d, front, v, w[..|w| - 1]);
      } else {
        SelectConcat(d, front, v, w);
      }
    }
  }

  /** A pattern is the documents in preorder, each with the line that its own level selects; there
      are as many levels as documents with alternatives. */
  lemma {:induction false} PatternIs(a: Argp, v: seq<Level>)
    requires InRange(a, v)
    ensures |v| == Alternating(Docs(a)) && Output(a, v) == Select(Docs(a), v)
  {
    hide ChildOutput, ChildrenInRange, ChildDocs, Select, Alternating, Alternatives;
    var own, below := v[..Own(a)], v[Own(a)..];
    var docs := if a.argsDoc.Some? then [a.argsDoc.value] else [];
    assert v == own + below;
    ChildPatternIs(a.children, below);
    OwnPart(a, v);
    SelectConcat(docs, ChildDocs(a.children), own, below);
  }

  lemma OwnPart(a: Argp, v: seq<Level>)
    requires InRange(a, v)
    ensures var docs := if a.argsDoc.Some? then [a.argsDoc.value] else [];
            && Own(a) <= |v| && Alternating(docs) == Own(a)
            && Output(a, v) == Select(docs, v[..Own(a)]) + ChildOutput(a.children, v[Own(a)..])
  {
    hide ChildOutput, ChildrenInRange, ChildLevels;
    MultipleIs(a);
    if a.argsDoc.Some? {
      var docs := [a.argsDoc.value];
      assert docs[..0] == [];
      if !Multiple(a) {
        LinesAre(a.argsDoc.value, 0);
        OneLine(a.argsDoc.value);
      }
    }
  }

  lemma OneLine(doc: string)
    requires |Lines(doc)| == 1
    ensures Lines(doc)[0] == doc
  {
  }

  lemma {:induction false} ChildPatternIs(cs: Children, v: seq<Level>)
    requires ChildrenInRange(cs, v)
    ensures |v| == Alternating(ChildDocs(cs)) && ChildOutput(cs, v) == Select(ChildDocs(cs), v)
  {
    hide Output, InRange, Docs, Levels;
    match cs
    case End =>
    case Child(a, _, _, next) =>
      var x, y := v[..Levels(a)], v[Levels(a)..];
      assert v == x + y;
      PatternIs(a, x);
      ChildPatternIs(next, y);
      SelectConcat(Docs(a), ChildDocs(next), x, y);
  }

  // ----- Which level moves -----

  /** The level of an argp moves only when all levels below it have come round to their first
      alternatives. */
  lemma OwnLevelMovesLast(a: Argp, v: seq<Level>)
    requires InRange(a, v) && Plain(v) && Countable(a) && Multiple(a)
    ensures var w := Next(a, v, true).0; w[0] != v[0] ==> AllZero(w[1..])
  {
    hide ChildNext, ChildrenInRange, ChildrenCountable, Alternatives, ChildLevels;
    ChildNextCounts(a.children, v[1..], true);
    var w := ChildNext(a.children, v[1..], true).0;
    assert Next(a, v, true).0[1..] == w;
  }

  /** The levels of a child move only when all those of the children before it have come round. */
  lemma LaterChildMovesLast(cs: Children, v: seq<Level>)
    requires cs.Child? && ChildrenInRange(cs, v) && |v| == ChildLevels(cs) && Plain(v) && ChildrenCountable(cs)
    ensures var n, w := Levels(cs.argp), ChildNext(cs, v, true).0;
            n <= |v| == |w| && (w[n..] != v[n..] ==> AllZero(w[..n]))
  {
    hide Next, InRange, Levels, Countable;
    var n := Levels(cs.argp);
    var (x, carry) := Next(cs.argp, v[..n], true);
    var y := ChildNext(cs.next, v[n..], carry).0;
    NextCounts(cs.argp, v[..n], true);
    ChildNextCounts(cs.next, v[n..], carry);
    assert (x + y)[..n] == x && (x + y)[n..] == y;
  }
}
