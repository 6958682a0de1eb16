/**
 The tables of the parser and the list of help, option by option, in terms of the
 tree of argps.
 */
module ArgpTreeLaws {
  import opened Wrappers
  import opened Sequences
  import opened ArgpTree
  import opened ArgpConvert

  // ----- Argps by their paths -----

  function NthChild(cs: Children, i: nat): Option<Argp>
  {
    match cs
    case End => None
    case Child(a, _, _, next) => if i == 0 then Some(a) else NthChild(next, i - 1)
  }

  /** The argp that child indices lead to. */
  function ArgpAt(a: Argp, path: Path): Option<Argp>
    decreases path
  {
    if path == [] then Some(a)
    else
      match NthChild(a.children, path[0])
      case None => None
      case Some(b) => ArgpAt(b, path[1..])
  }

  /** The argp at `p` comes before the one at `q`: it is above it, or to the left. */
  ghost predicate PathBefore(p: Path, q: Path)
  {
    exists k :: 0 <= k <= |p| && k < |q| && p[..k] == q[..k] && (k == |p| || p[k] < q[k])
  }

  /** `base` provides the argument and flags of option `j`: it is the option itself or, for an
      alias, the last before it that is none. */
  ghost predicate StandsBehind(opts: seq<ArgpOption>, j: nat, base: ArgpOption)
    requires j < |opts|
  {
    exists k: nat :: k <= j && BaseIs(opts, j, base, k)
  }

  ghost predicate BaseIs(opts: seq<ArgpOption>, j: nat, base: ArgpOption, k: nat)
    requires k <= j < |opts|
  {
    && opts[k] == base && (k == 0 || !opts[k].isAlias)
    && forall i :: k < i <= j ==> opts[i].isAlias
  }

  /** `o` is option `j` of the argp at `rel` below `a`. */
  ghost predicate IsOption(a: Argp, rel: Path, o: Occurrence, j: nat)
  {
    match ArgpAt(a, rel)
    case None => false
    case Some(b) => j < |OptionsOf(b)| && o.opt == OptionsOf(b)[j] && StandsBehind(OptionsOf(b), j, o.base)
  }

  lemma {:induction false} BaseStandsBehind(opts: seq<ArgpOption>, j: nat)
    requires j < |opts|
    ensures StandsBehind(opts, j, Base(opts, j))
  {
    if j > 0 && opts[j].isAlias {
      BaseStandsBehind(opts, j - 1);
      var k: nat :| k <= j - 1 && BaseIs(opts, j - 1, Base(opts, j - 1), k);
      assert BaseIs(opts, j, Base(opts, j), k);
    } else {
      assert BaseIs(opts, j, opts[j], j);
    }
  }

  // ----- Options in preorder -----

  /** Every option of the tables is one of the tree, found at its path. */
  lemma {:induction false} OptionOfTree(a: Argp, path: Path, g: nat, n: nat) returns (rel: Path, j: nat)
    requires n < |Occurrences(a, path, g)|
    ensures Occurrences(a, path, g)[n].path == path + rel && IsOption(a, rel, Occurrences(a, path, g)[n], j)
    ensures rel == [] <==> n < |OptionsOf(a)|
  {
    hide IsOption;
    var opts, os := OptionsOf(a), Occurrences(a, path, g);
    if n < |opts| {
      rel, j := [], n;
      BaseStandsBehind(opts, n);
      assert IsOption(a, [], os[n], n) by { OwnIsOption(a, os[n], n); }
    } else {
      var c;
      c, rel, j := OptionOfChild(a.children, path, 0, if HasGroup(a) then g + 1 else g, n - |opts|);
      BelowChild(a, c, rel, os[n], j);
      rel := [c] + rel;
    }
  }

  lemma OwnIsOption(a: Argp, o: Occurrence, j: nat)
    requires j < |OptionsOf(a)| && o.opt == OptionsOf(a)[j] && StandsBehind(OptionsOf(a), j, o.base)
    ensures IsOption(a, [], o, j)
  {
  }

  lemma BelowChild(a: Argp, c: nat, rel: Path, o: Occurrence, j: nat)
    requires NthChild(a.children, c).Some? && IsOption(NthChild(a.children, c).value, rel, o, j)
    ensures IsOption(a, [c] + rel, o, j)
  {
    assert ([c] + rel)[1..] == rel;
  }

  lemma {:induction false} OptionOfChild(cs: Children, path: Path, i: nat, g: nat, n: nat)
    returns (c: nat, rel: Path, j: nat)
    requires n < |ChildOccurrences(cs, path, i, g)|
    ensures ChildOccurrences(cs, path, i, g)[n].path == path + ([i + c] + rel) && NthChild(cs, c).Some?
    ensures IsOption(NthChild(cs, c).value, rel, ChildOccurrences(cs, path, i, g)[n], j)
    ensures c == 0 <==> n < |Occurrences(cs.argp, path + [i], g)|
  {
    hide IsOption, Occurrences, GroupCount;
    var a, next := cs.argp, cs.next;
    var first := Occurrences(a, path + [i], g);
    if n < |first| {
      rel, j := OptionOfTree(a, path + [i], g, n);
      c := 0;
      Regroup(path, [i], rel);
    } else {
      c, rel, j := OptionOfChild(next, path, i + 1, g + GroupCount(a), n - |first|);
      c := c + 1;
    }
  }

  /** The options are in preorder: those of an argp before those below it, and those of a child
      before those of the next. */
  lemma {:induction false} InPreorder(a: Argp, path: Path, g: nat, m: nat, n: nat)
    requires m < n < |Occurrences(a, path, g)|
    ensures var p, q := Occurrences(a, path, g)[m].path, Occurrences(a, path, g)[n].path;
            p == q || PathBefore(p, q)
  {
    hide PathBefore, IsOption, ChildOccurrences;
    var own := |OptionsOf(a)|;
    var g' := if HasGroup(a) then g + 1 else g;
    if m >= own {
      ChildrenInPreorder(a.children, path, 0, g', m - own, n - own);
    } else if n >= own {
      var rel, j := OptionOfTree(a, path, g, n);
      ParentBefore(path, rel);
    }
  }

  lemma ParentBefore(path: Path, rel: Path)
    requires rel != []
    ensures PathBefore(path, path + rel)
  {
    assert path[..|path|] == (path + rel)[..|path|];
  }

  lemma LeftBefore(path: Path, x: nat, a: Path, y: nat, b: Path)
    requires x < y
    ensures PathBefore(path + ([x] + a), path + ([y] + b))
  {
    var p, q := path + ([x] + a), path + ([y] + b);
    assert p[..|path|] == path == q[..|path|] && p[|path|] == x && q[|path|] == y;
  }

  lemma {:induction false} ChildrenInPreorder(cs: Children, path: Path, i: nat, g: nat, m: nat, n: nat)
    requires m < n < |ChildOccurrences(cs, path, i, g)|
    ensures var p, q := ChildOccurrences(cs, path, i, g)[m].path, ChildOccurrences(cs, path, i, g)[n].path;
            p == q || PathBefore(p, q)
  {
    hide PathBefore, IsOption, Occurrences, GroupCount;
    var a, next := cs.argp, cs.next;
    var first := |Occurrences(a, path + [i], g)|;
    if n < first {
      InPreorder(a, path + [i], g, m, n);
    } else if m >= first {
      ChildrenInPreorder(next, path, i + 1, g + GroupCount(a), m - first, n - first);
    } else {
      var c, rel, j := OptionOfChild(cs, path, i, g, m);
      var c', rel', j' := OptionOfChild(cs, path, i, g, n);
      LeftBefore(path, i + c, rel, i + c', rel');
    }
  }

  /** The option vector of an argp stands at `start`, in one piece and in its order. */
  ghost predicate VectorAt(os: seq<Occurrence>, start: nat, path: Path, opts: seq<ArgpOption>)
  {
    forall j :: 0 <= j < |opts| ==> StandsAt(os, start + j, path, opts[j])
  }

  ghost predicate StandsAt(os: seq<Occurrence>, n: nat, path: Path, opt: ArgpOption)
  {
    n < |os| && os[n].path == path && os[n].opt == opt
  }

  lemma VectorBehind(front: seq<Occurrence>, os: seq<Occurrence>, start: nat, path: Path, opts: seq<ArgpOption>)
    requires VectorAt(os, start, path, opts)
    ensures VectorAt(front + os, |front| + start, path, opts)
  {
    forall j | 0 <= j < |opts| ensures StandsAt(front + os, |front| + start + j, path, opts[j]) {
      assert StandsAt(os, start + j, path, opts[j]);
    }
  }

  lemma VectorBefore(os: seq<Occurrence>, more: seq<Occurrence>, start: nat, path: Path, opts: seq<ArgpOption>)
    requires VectorAt(os, start, path, opts)
    ensures VectorAt(os + more, start, path, opts)
  {
    forall j | 0 <= j < |opts| ensures StandsAt(os + more, start + j, path, opts[j]) {
      assert StandsAt(os, start + j, path, opts[j]);
    }
  }

  lemma TreeParts(a: Argp, path: Path, g: nat)
    ensures Occurrences(a, path, g) == OwnOccurrences(OptionsOf(a), |OptionsOf(a)|, path, g)
                                       + ChildOccurrences(a.children, path, 0, if HasGroup(a) then g + 1 else g)
  {
  }

  lemma AtRoot(a: Argp)
    ensures ArgpAt(a, []) == Some(a)
  {
  }

  lemma AtChild(a: Argp, rel: Path)
    requires rel != [] && ArgpAt(a, rel).Some?
    ensures NthChild(a.children, rel[0]).Some?
    ensures ArgpAt(a, rel) == ArgpAt(NthChild(a.children, rel[0]).value, rel[1..])
  {
  }

  lemma OwnVector(opts: seq<ArgpOption>, path: Path, g: nat)
    ensures VectorAt(OwnOccurrences(opts, |opts|, path, g), 0, path, opts)
  {
    hide OwnOccurrences;
  }

  /** Every option vector of the tree is in the tables. */
  lemma {:induction false} WholeVector(a: Argp, path: Path, g: nat, rel: Path) returns (start: nat)
    requires ArgpAt(a, rel).Some?
    ensures VectorAt(Occurrences(a, path, g), start, path + rel, OptionsOf(ArgpAt(a, rel).value))
    decreases |rel|, 0
  {
    hide Occurrences, OwnOccurrences, ChildOccurrences, ArgpAt, VectorAt;
    if rel == [] {
      start := 0;
      VectorOfRoot(a, path, g);
      AtRoot(a);
      assert path + rel == path;
    } else {
      AtChild(a, rel);
      HeadAndTail(rel);
      var k := WholeVectorOfChild(a.children, path, 0, if HasGroup(a) then g + 1 else g, rel[0], rel[1..]);
      start := |OptionsOf(a)| + k;
      VectorBelow(a, path, g, k, path + rel, OptionsOf(ArgpAt(a, rel).value));
    }
  }

  lemma HeadAndTail(rel: Path)
    requires rel != []
    ensures [0 + rel[0]] + rel[1..] == rel
  {
  }

  lemma VectorOfRoot(a: Argp, path: Path, g: nat)
    ensures VectorAt(Occurrences(a, path, g), 0, path, OptionsOf(a))
  {
    TreeParts(a, path, g);
    hide *;
    var opts := OptionsOf(a);
    OwnVector(opts, path, g);
    VectorBefore(OwnOccurrences(opts, |opts|, path, g),
                 ChildOccurrences(a.children, path, 0, if HasGroup(a) then g + 1 else g), 0, path, opts);
  }

  lemma VectorBelow(a: Argp, path: Path, g: nat, start: nat, p: Path, opts: seq<ArgpOption>)
    requires VectorAt(ChildOccurrences(a.children, path, 0, if HasGroup(a) then g + 1 else g), start, p, opts)
    ensures VectorAt(Occurrences(a, path, g), |OptionsOf(a)| + start, p, opts)
  {
    TreeParts(a, path, g);
    hide *;
    VectorBehind(OwnOccurrences(OptionsOf(a), |OptionsOf(a)|, path, g),
                 ChildOccurrences(a.children, path, 0, if HasGroup(a) then g + 1 else g), start, p, opts);
  }

  lemma {:induction false} WholeVectorOfChild(cs: Children, path: Path, i: nat, g: nat, c: nat, rel: Path)
    returns (start: nat)
    requires NthChild(cs, c).Some? && ArgpAt(NthChild(cs, c).value, rel).Some?
    ensures VectorAt(ChildOccurrences(cs, path, i, g), start, path + ([i + c] + rel),
                     OptionsOf(ArgpAt(NthChild(cs, c).value, rel).value))
    decreases |rel|, c + 1
  {
    hide ArgpAt, Occurrences, GroupCount, VectorAt;
    var a, next := cs.argp, cs.next;
    var first, rest := Occurrences(a, path + [i], g), ChildOccurrences(next, path, i + 1, g + GroupCount(a));
    var opts := OptionsOf(ArgpAt(NthChild(cs, c).value, rel).value);
    if c == 0 {
      start := WholeVector(a, path + [i], g, rel);
      Regroup(path, [i], rel);
      VectorBefore(first, rest, start, path + ([i + c] + rel), opts);
    } else {
      start := WholeVectorOfChild(next, path, i + 1, g + GroupCount(a), c - 1, rel);
      VectorBehind(first, rest, start, path + ([i + c] + rel), opts);
      start := |first| + start;
    }
  }

  // ----- What getopt is told -----

  /** Every entry of the long-option table tells getopt of an argument as the first option of its
      name does. */
  lemma LongArguments(os: seq<Occurrence>, i: nat)
    requires i < |AddAllLong([], os)|
    ensures var l := AddAllLong([], os)[i];
            exists n: nat :: && FirstNamed(os, l.name, n) && os[n].opt.name == Some(l.name) && !os[n].base.doc
                             && (l.hasArg == NoArgument <==> !os[n].base.arg)
                             && (l.hasArg == OptionalArgument <==> os[n].base.arg && os[n].base.argOptional)
                             && (l.hasArg == RequiredArgument <==> os[n].base.arg && !os[n].base.argOptional)
  {
    hide Encode, AddAllLong;
    LongTable(os);
    var l := AddAllLong([], os)[i];
    assert FromFirst(os, l);
    var n: nat :| FirstNamed(os, l.name, n) && l == LongEntry(os[n]);
  }

  /** The number of characters of an option in the short-option string. */
  function ShortLength(o: Occurrence): nat
  {
    if o.base.doc || o.opt.doc || o.opt.key < 32 || o.opt.key > 126 then 0
    else if !o.base.arg then 1 else if o.base.argOptional then 3 else 2
  }

  /** The short-option string holds, option after option, the key and one colon for an argument,
      two for an optional one. */
  lemma ShortCharacters(os: seq<Occurrence>, n: nat)
    requires n < |os|
    ensures var s, at, k := ShortString(os), ShortAt(os, n), ShortLength(os[n]);
            && ShortAt(os, n + 1) == at + k <= |s|
            && (k > 0 ==> s[at] == os[n].opt.key)
            && (k > 1 ==> s[at + 1] == ':' as int) && (k > 2 ==> s[at + 2] == ':' as int)
    ensures ShortAt(os, 0) == 0 && ShortAt(os, |os|) == |ShortString(os)|
  {
    hide ShortString, ShortPiece, ShortLength;
    var front, o, rest := os[..n], os[n], os[n + 1..];
    assert os == front + [o] + rest && os[..n + 1] == front + [o] && os[..|os|] == os && os[..0] == [];
    ShortStringConcat(front + [o], rest);
    ShortStringLast(front, o);
    ShortStringNone();
    PieceIs(o);
    var s, at, piece := ShortString(os), ShortAt(os, n), ShortPiece(o);
    Middle(ShortString(front), piece, ShortString(rest));
  }

  lemma Middle<T>(a: seq<T>, b: seq<T>, c: seq<T>)
    ensures forall i :: 0 <= i < |b| ==> (a + b + c)[|a| + i] == b[i]
  {
  }

  lemma PieceIs(o: Occurrence)
    ensures var piece, k := ShortPiece(o), ShortLength(o);
            && |piece| == k && (k > 0 ==> piece[0] == o.opt.key)
            && (k > 1 ==> piece[1] == ':' as int) && (k > 2 ==> piece[2] == ':' as int)
  {
  }

  // ----- Groups -----

  lemma {:induction false} ChildNumbers(cs: Children, i: nat)
    ensures NthChild(cs, i).Some? <==> i < NumChildren(cs)
  {
    match cs
    case End =>
    case Child(_, _, _, next) =>
      if i > 0 {
        ChildNumbers(next, i - 1);
      }
  }

  /** `gr` is the group of the argp at `rel` below `a`, which has options or a parser function. */
  ghost predicate IsGroup(a: Argp, rel: Path, gr: Group)
  {
    match ArgpAt(a, rel)
    case None => false
    case Some(b) => (b.options.Some? || b.parser) && gr.parser == b.parser && gr.children == NumChildren(b.children)
  }

  /** Whether the argp above the one at `rel` has a group; above `a` itself, as given. */
  ghost predicate GroupAbove(a: Argp, rel: Path, given: bool)
  {
    if rel == [] then given
    else match ArgpAt(a, rel[..|rel| - 1])
         case None => false
         case Some(b) => b.options.Some? || b.parser
  }

  lemma GroupBelowChild(a: Argp, c: nat, rel: Path, gr: Group)
    requires NthChild(a.children, c).Some?
    ensures IsGroup(NthChild(a.children, c).value, rel, gr) ==> IsGroup(a, [c] + rel, gr)
    ensures GroupAbove(NthChild(a.children, c).value, rel, HasGroup(a)) <==> GroupAbove(a, [c] + rel, true)
  {
    var p := [c] + rel;
    assert p[1..] == rel && p[0] == c;
    if rel == [] {
      assert p[..|p| - 1] == [];
    } else {
      assert p[..|p| - 1][1..] == rel[..|rel| - 1] && p[..|p| - 1][0] == c;
    }
  }

  /** Every group is that of an argp of the tree, and has a parent exactly if the argp above has
      a group. */
  lemma {:induction false} GroupOfTree(a: Argp, path: Path, parent: Option<nat>, index: nat, g: nat, s: nat, c: nat,
                                       k: nat)
    returns (rel: Path)
    requires k < |Groups(a, path, parent, index, g, s, c)|
    ensures var gr := Groups(a, path, parent, index, g, s, c)[k];
            && gr.path == path + rel && IsGroup(a, rel, gr) && (gr.parent.Some? <==> GroupAbove(a, rel, parent.Some?))
            && (rel == [] ==> gr.parent == parent && gr.parentIndex == index)
            && (rel != [] && gr.parent.Some? ==> gr.parentIndex == rel[|rel| - 1])
    ensures rel == [] <==> HasGroup(a) && k == 0
  {
    hide IsGroup, GroupAbove, ShortString, OwnOccurrences, NumChildren;
    var gs := Groups(a, path, parent, index, g, s, c);
    if HasGroup(a) && k == 0 {
      rel := [];
      OwnIsGroup(a, gs[0], parent);
    } else {
      var end := s + |ShortString(OwnOccurrences(OptionsOf(a), |OptionsOf(a)|, path, g))|;
      var i, r;
      if HasGroup(a) {
        i, r := GroupOfChild(a.children, path, Some(g), 0, g + 1, end, c + NumChildren(a.children), k - 1);
      } else {
        i, r := GroupOfChild(a.children, path, None, 0, g, s, c, k);
      }
      GroupBelowChild(a, i, r, gs[k]);
      GroupAboveGiven(a, [i] + r);
      rel := [i] + r;
    }
  }

  lemma GroupAboveGiven(a: Argp, rel: Path)
    requires rel != []
    ensures forall x, y :: GroupAbove(a, rel, x) == GroupAbove(a, rel, y)
  {
  }

  lemma OwnIsGroup(a: Argp, gr: Group, parent: Option<nat>)
    requires HasGroup(a) && gr.parser == a.parser && gr.children == NumChildren(a.children)
    ensures IsGroup(a, [], gr) && (GroupAbove(a, [], parent.Some?) <==> parent.Some?)
  {
  }

  lemma {:induction false} GroupOfChild(cs: Children, path: Path, parent: Option<nat>, i: nat, g: nat, s: nat, c: nat,
                                        k: nat)
    returns (n: nat, rel: Path)
    requires k < |ChildGroups(cs, path, parent, i, g, s, c)|
    ensures var gr := ChildGroups(cs, path, parent, i, g, s, c)[k];
            && gr.path == path + ([i + n] + rel) && NthChild(cs, n).Some? && IsGroup(NthChild(cs, n).value, rel, gr)
            && (gr.parent.Some? <==> GroupAbove(NthChild(cs, n).value, rel, parent.Some?))
            && (gr.parent.Some? ==> gr.parentIndex == ([i + n] + rel)[|rel|])
    ensures n == 0 <==> k < |Groups(cs.argp, path + [i], parent, i, g, s, c)|
  {
    hide IsGroup, GroupAbove, ShortString, Occurrences, Groups, GroupCount, Slots;
    var a, next := cs.argp, cs.next;
    var first := Groups(a, path + [i], parent, i, g, s, c);
    if k < |first| {
      rel := GroupOfTree(a, path + [i], parent, i, g, s, c, k);
      n := 0;
      Regroup(path, [i], rel);
    } else {
      n, rel := GroupOfChild(next, path, parent, i + 1, g + GroupCount(a),
                             s + |ShortString(Occurrences(a, path + [i], g))|, c + Slots(a), k - |first|);
      n := n + 1;
    }
  }

  /** The groups are in preorder of their argps, no two for one argp. */
  lemma {:induction false} GroupsInPreorder(a: Argp, path: Path, parent: Option<nat>, index: nat, g: nat, s: nat,
                                            c: nat, m: nat, n: nat)
    requires m < n < |Groups(a, path, parent, index, g, s, c)|
    ensures var gs := Groups(a, path, parent, index, g, s, c); PathBefore(gs[m].path, gs[n].path)
  {
    hide PathBefore, IsGroup, GroupAbove, ShortString, OwnOccurrences, NumChildren, ChildGroups;
    if HasGroup(a) {
      var end := s + |ShortString(OwnOccurrences(OptionsOf(a), |OptionsOf(a)|, path, g))|;
      if m == 0 {
        var rel := GroupOfTree(a, path, parent, index, g, s, c, n);
        ParentBefore(path, rel);
      } else {
        ChildGroupsInPreorder(a.children, path, Some(g), 0, g + 1, end, c + NumChildren(a.children), m - 1, n - 1);
      }
    } else {
      ChildGroupsInPreorder(a.children, path, None, 0, g, s, c, m, n);
    }
  }

  lemma {:induction false} ChildGroupsInPreorder(cs: Children, path: Path, parent: Option<nat>, i: nat, g: nat, s: nat,
                                                 c: nat, m: nat, n: nat)
    requires m < n < |ChildGroups(cs, path, parent, i, g, s, c)|
    ensures var gs := ChildGroups(cs, path, parent, i, g, s, c); PathBefore(gs[m].path, gs[n].path)
  {
    hide PathBefore, IsGroup, GroupAbove, ShortString, Occurrences, Groups, GroupCount, Slots;
    var a, next := cs.argp, cs.next;
    var first := |Groups(a, path + [i], parent, i, g, s, c)|;
    if n < first {
      GroupsInPreorder(a, path + [i], parent, i, g, s, c, m, n);
    } else if m >= first {
      ChildGroupsInPreorder(next, path, parent, i + 1, g + GroupCount(a),
                            s + |ShortString(Occurrences(a, path + [i], g))|, c + Slots(a), m - first, n - first);
    } else {
      var x, rel := GroupOfChild(cs, path, parent, i, g, s, c, m);
      var y, rel' := GroupOfChild(cs, path, parent, i, g, s, c, n);
      LeftBefore(path, i + x, rel, i + y, rel');
    }
  }

  /** Every argp with options or a parser function has a group. */
  lemma {:induction false} EveryGroup(a: Argp, path: Path, parent: Option<nat>, index: nat, g: nat, s: nat, c: nat,
                                      rel: Path)
    returns (k: nat)
    requires ArgpAt(a, rel).Some? && HasGroup(ArgpAt(a, rel).value)
    ensures k < |Groups(a, path, parent, index, g, s, c)|
    ensures Groups(a, path, parent, index, g, s, c)[k].path == path + rel
    decreases |rel|, 0
  {
    hide ShortString, OwnOccurrences, NumChildren, ChildGroups;
    var end := s + |ShortString(OwnOccurrences(OptionsOf(a), |OptionsOf(a)|, path, g))|;
    if rel == [] {
      k := 0;
      assert path + rel == path;
    } else {
      AtChild(a, rel);
      HeadAndTail(rel);
      hide ArgpAt;
      if HasGroup(a) {
        k := EveryChildGroup(a.children, path, Some(g), 0, g + 1, end, c + NumChildren(a.children), rel[0], rel[1..]);
        k := k + 1;
      } else {
        k := EveryChildGroup(a.children, path, None, 0, g, s, c, rel[0], rel[1..]);
      }
    }
  }

  lemma {:induction false} EveryChildGroup(cs: Children, path: Path, parent: Option<nat>, i: nat, g: nat, s: nat,
                                           c: nat, n: nat, rel: Path)
    returns (k: nat)
    requires NthChild(cs, n).Some? && ArgpAt(NthChild(cs, n).value, rel).Some?
    requires HasGroup(ArgpAt(NthChild(cs, n).value, rel).value)
    ensures k < |ChildGroups(cs, path, parent, i, g, s, c)|
    ensures ChildGroups(cs, path, parent, i, g, s, c)[k].path == path + ([i + n] + rel)
    decreases |rel|, n + 1
  {
    hide ArgpAt, ShortString, Occurrences, Groups, GroupCount, Slots;
    var a, next := cs.argp, cs.next;
    var first := Groups(a, path + [i], parent, i, g, s, c);
    if n == 0 {
      k := EveryGroup(a, path + [i], parent, i, g, s, c, rel);
      Regroup(path, [i], rel);
    } else {
      k := EveryChildGroup(next, path, parent, i + 1, g + GroupCount(a),
                           s + |ShortString(Occurrences(a, path + [i], g))|, c + Slots(a), n - 1, rel);
      k := |first| + k;
    }
  }

  // ----- Argps in preorder -----

  /** The paths of the argps with a property, in preorder. */
  ghost function Paths(a: Argp, path: Path, which: Argp -> bool): seq<Path>
  {
    (if which(a) then [path] else []) + ChildPaths(a.children, path, 0, which)
  }

  ghost function ChildPaths(cs: Children, path: Path, i: nat, which: Argp -> bool): seq<Path>
  {
    match cs
    case End => []
    case Child(a, _, _, next) => Paths(a, path + [i], which) + ChildPaths(next, path, i + 1, which)
  }

  lemma {:induction false} PathOf(a: Argp, path: Path, which: Argp -> bool, n: nat) returns (rel: Path)
    requires n < |Paths(a, path, which)|
    ensures Paths(a, path, which)[n] == path + rel && ArgpAt(a, rel).Some? && which(ArgpAt(a, rel).value)
    ensures rel == [] <==> which(a) && n == 0
  {
    if which(a) && n == 0 {
      rel := [];
    } else {
      var c, r := ChildPathOf(a.children, path, 0, which, if which(a) then n - 1 else n);
      rel := [c] + r;
      assert rel[1..] == r;
    }
  }

  lemma {:induction false} ChildPathOf(cs: Children, path: Path, i: nat, which: Argp -> bool, n: nat)
    returns (c: nat, rel: Path)
    requires n < |ChildPaths(cs, path, i, which)|
    ensures ChildPaths(cs, path, i, which)[n] == path + ([i + c] + rel) && NthChild(cs, c).Some?
    ensures ArgpAt(NthChild(cs, c).value, rel).Some? && which(ArgpAt(NthChild(cs, c).value, rel).value)
    ensures c == 0 <==> n < |Paths(cs.argp, path + [i], which)|
  {
    hide Paths, ArgpAt;
    var first := Paths(cs.argp, path + [i], which);
    if n < |first| {
      rel := PathOf(cs.argp, path + [i], which, n);
      c := 0;
      Regroup(path, [i], rel);
    } else {
      c, rel := ChildPathOf(cs.next, path, i + 1, which, n - |first|);
      c := c + 1;
    }
  }

  lemma {:induction false} PathsInPreorder(a: Argp, path: Path, which: Argp -> bool, m: nat, n: nat)
    requires m < n < |Paths(a, path, which)|
    ensures PathBefore(Paths(a, path, which)[m], Paths(a, path, which)[n])
  {
    hide PathBefore, ChildPaths, ArgpAt;
    if !which(a) {
      ChildPathsInPreorder(a.children, path, 0, which, m, n);
    } else if m > 0 {
      ChildPathsInPreorder(a.children, path, 0, which, m - 1, n - 1);
    } else {
      var rel := PathOf(a, path, which, n);
      ParentBefore(path, rel);
    }
  }

  lemma {:induction false} ChildPathsInPreorder(cs: Children, path: Path, i: nat, which: Argp -> bool, m: nat, n: nat)
    requires m < n < |ChildPaths(cs, path, i, which)|
    ensures PathBefore(ChildPaths(cs, path, i, which)[m], ChildPaths(cs, path, i, which)[n])
  {
    hide PathBefore, Paths, ArgpAt;
    var first := |Paths(cs.argp, path + [i], which)|;
    if n < first {
      PathsInPreorder(cs.argp, path + [i], which, m, n);
    } else if m >= first {
      ChildPathsInPreorder(cs.next, path, i + 1, which, m - first, n - first);
    } else {
      var x, rel := ChildPathOf(cs, path, i, which, m);
      var y, rel' := ChildPathOf(cs, path, i, which, n);
      LeftBefore(path, i + x, rel, i + y, rel');
    }
  }

  lemma {:induction false} EveryPath(a: Argp, path: Path, which: Argp -> bool, rel: Path)
    requires ArgpAt(a, rel).Some? && which(ArgpAt(a, rel).value)
    ensures path + rel in Paths(a, path, which)
    decreases |rel|, 0
  {
    hide ChildPaths;
    if rel == [] {
      assert path + rel == path && path in [path];
    } else {
      AtChild(a, rel);
      HeadAndTail(rel);
      EveryChildPath(a.children, path, 0, which, rel[0], rel[1..]);
    }
  }

  lemma {:induction false} EveryChildPath(cs: Children, path: Path, i: nat, which: Argp -> bool, c: nat, rel: Path)
    requires NthChild(cs, c).Some? && ArgpAt(NthChild(cs, c).value, rel).Some?
    requires which(ArgpAt(NthChild(cs, c).value, rel).value)
    ensures path + ([i + c] + rel) in ChildPaths(cs, path, i, which)
    decreases |rel|, c + 1
  {
    hide Paths, ArgpAt;
    if c == 0 {
      EveryPath(cs.argp, path + [i], which, rel);
      Regroup(path, [i], rel);
    } else {
      EveryChildPath(cs.next, path, i + 1, which, c - 1, rel);
    }
  }

  // ----- Counts -----

  /** The parser counts a group for each argp with options or a parser function, and a child input
      for each argp but the root. */
  lemma {:induction false} CountsAre(a: Argp, path: Path)
    ensures GroupCount(a) == |Paths(a, path, HasGroup)|
    ensures ChildCount(a) + 1 == |Paths(a, path, _ => true)|
  {
    hide ChildPaths;
    ChildCountsAre(a.children, path, 0);
  }

  lemma {:induction false} ChildCountsAre(cs: Children, path: Path, i: nat)
    ensures GroupCounts(cs) == |ChildPaths(cs, path, i, HasGroup)|
    ensures ChildCounts(cs) == |ChildPaths(cs, path, i, _ => true)|
  {
    hide Paths;
    match cs
    case End =>
    case Child(a, _, _, next) =>
      CountsAre(a, path + [i]);
      ChildCountsAre(next, path, i + 1);
  }
}
