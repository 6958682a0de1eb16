/**
 The order of help entries, law by law, in terms of what the entries and their
 clusters hold.
 */
module ArgpOrderLaws {
  import opened Wrappers
  import opened ArgpTree
  import opened ArgpHol
  import opened ArgpOrder

  // ----- Groups and clusters -----

  /** Group 0 is first, then 1, 2 and so on; the negative ones follow, up to -1. */
  predicate GroupBefore(g1: int, g2: int)
  {
    if g1 >= 0 then g2 < 0 || g1 < g2 else g1 < g2 < 0
  }

  /** `outer` is `cl` or a cluster around it. */
  predicate Inside(cl: Cluster, outer: Cluster)
  {
    cl == outer || (cl.parent.Some? && Inside(cl.parent.value, outer))
  }

  /** The group that matters first: of the outermost cluster around the entry, or its own. */
  ghost predicate SortedUnder(e: Entry, g: int)
  {
    match e.cluster
    case None => g == e.group
    case Some(cl) => exists outer :: Inside(cl, outer) && outer.parent == None && outer.group == g
  }

  lemma GroupOrder(g1: int, g2: int)
    ensures GroupCmp(g1, g2) < 0 <==> GroupBefore(g1, g2)
    ensures GroupCmp(g1, g2) == 0 <==> g1 == g2
  {
  }

  lemma {:induction false} OutermostGroup(cl: Cluster, outer: Cluster)
    requires Inside(cl, outer) && outer.parent == None
    ensures BaseGroup(cl) == outer.group
  {
    if cl != outer {
      OutermostGroup(cl.parent.value, outer);
    }
  }

  lemma TopGroupIs(e: Entry, g: int)
    requires SortedUnder(e, g)
    ensures TopGroup(e) == g
  {
    if e.cluster.Some? {
      var outer :| Inside(e.cluster.value, outer) && outer.parent == None && outer.group == g;
      OutermostGroup(e.cluster.value, outer);
    }
  }

  /** Entries are sorted by the groups of their outermost clusters first. */
  lemma OuterGroupFirst(e1: Entry, e2: Entry, g1: int, g2: int, short: seq<int>)
    requires e1.opts != [] && e2.opts != [] && SortedUnder(e1, g1) && SortedUnder(e2, g2) && GroupBefore(g1, g2)
    ensures EntryCmp(e1, e2, short) < 0
  {
    hide LabelOf, LabelCmp, ClusterCmp;
    TopGroupIs(e1, g1);
    TopGroupIs(e2, g2);
    GroupOrder(g1, g2);
  }

  /** In one such group, entries in no cluster come first. */
  lemma LooseEntryFirst(e1: Entry, e2: Entry, g: int, short: seq<int>)
    requires e1.opts != [] && e2.opts != [] && SortedUnder(e1, g) && SortedUnder(e2, g)
    requires e1.cluster == None && e2.cluster.Some?
    ensures EntryCmp(e1, e2, short) < 0
  {
    hide LabelOf, LabelCmp, ClusterCmp;
    TopGroupIs(e1, g);
    TopGroupIs(e2, g);
  }

  lemma {:induction false} InsideDepth(cl: Cluster, outer: Cluster)
    requires Inside(cl, outer)
    ensures Depth(outer) <= Depth(cl) && Ancestor(cl, Depth(outer)) == outer && BaseGroup(cl) == BaseGroup(outer)
    ensures cl != outer ==> Depth(outer) < Depth(cl)
  {
    if cl != outer {
      InsideDepth(cl.parent.value, outer);
    }
  }

  lemma CousinSame(cl: Cluster)
    ensures CousinCmp(cl, cl) == 0
  {
  }

  /** The entries of a cluster come before those of the clusters in it. */
  lemma OuterClusterFirst(e1: Entry, e2: Entry, short: seq<int>)
    requires e1.opts != [] && e2.opts != [] && e1.cluster.Some? && e2.cluster.Some?
    requires Inside(e2.cluster.value, e1.cluster.value) && e1.cluster != e2.cluster
    ensures EntryCmp(e1, e2, short) < 0
  {
    hide LabelOf, LabelCmp, CousinCmp, Ancestor;
    InsideDepth(e2.cluster.value, e1.cluster.value);
    CousinSame(e1.cluster.value);
  }

  /** Of two clusters next to each other, the one of the earlier group comes first with all
      that is in it, and in one group the one with the larger index. */
  ghost predicate SiblingBefore(cl1: Cluster, cl2: Cluster)
  {
    cl1.parent == cl2.parent && (GroupBefore(cl1.group, cl2.group) || (cl1.group == cl2.group && cl1.index > cl2.index))
  }

  lemma SiblingClusterFirst(e1: Entry, e2: Entry, r1: Cluster, r2: Cluster, short: seq<int>)
    requires e1.opts != [] && e2.opts != [] && e1.cluster.Some? && e2.cluster.Some?
    requires Inside(e1.cluster.value, r1) && Inside(e2.cluster.value, r2) && SiblingBefore(r1, r2)
    ensures EntryCmp(e1, e2, short) < 0
  {
    hide LabelOf, LabelCmp, ClusterCmp;
    var cl1, cl2 := e1.cluster.value, e2.cluster.value;
    InsideDepth(cl1, r1);
    InsideDepth(cl2, r2);
    SiblingsDecide(cl1, cl2, r1, r2);
    GroupOrder(r1.group, r2.group);
  }

  lemma SiblingFacts(r1: Cluster, r2: Cluster)
    requires r1.parent == r2.parent
    ensures Depth(r1) == Depth(r2)
    ensures if r1.parent == None then BaseGroup(r1) == r1.group && BaseGroup(r2) == r2.group
            else BaseGroup(r1) == BaseGroup(r2)
  {
  }

  lemma AncestorSelf(cl: Cluster)
    ensures Ancestor(cl, Depth(cl)) == cl
  {
  }

  lemma SiblingsDecide(cl1: Cluster, cl2: Cluster, r1: Cluster, r2: Cluster)
    requires Inside(cl1, r1) && Inside(cl2, r2) && SiblingBefore(r1, r2)
    ensures ClusterCmp(cl1, cl2) < 0 && (r1.parent == None ==> BaseGroup(cl1) == r1.group && BaseGroup(cl2) == r2.group)
    ensures r1.parent.Some? ==> BaseGroup(cl1) == BaseGroup(cl2)
  {
    hide CousinCmp, Ancestor, Depth, BaseGroup, Inside;
    SiblingFacts(r1, r2);
    AncestorSelf(cl1);
    AncestorSelf(cl2);
    InsideDepth(cl1, r1);
    InsideDepth(cl2, r2);
    var d := if Depth(cl1) < Depth(cl2) then Depth(cl1) else Depth(cl2);
    InsideAncestor(cl1, r1, d);
    InsideAncestor(cl2, r2, d);
    CousinsUnder(Ancestor(cl1, d), Ancestor(cl2, d), r1, r2);
  }

  lemma {:induction false} InsideAncestor(cl: Cluster, outer: Cluster, d: nat)
    requires Inside(cl, outer) && Depth(outer) <= d <= Depth(cl)
    ensures Inside(Ancestor(cl, d), outer)
  {
    if d < Depth(cl) {
      if cl != outer {
        InsideAncestor(cl.parent.value, outer, d);
      }
    }
  }

  lemma {:induction false} CousinsUnder(cl1: Cluster, cl2: Cluster, r1: Cluster, r2: Cluster)
    requires Depth(cl1) == Depth(cl2) && Inside(cl1, r1) && Inside(cl2, r2) && SiblingBefore(r1, r2)
    ensures CousinCmp(cl1, cl2) < 0
  {
    InsideDepth(cl1, r1);
    InsideDepth(cl2, r2);
    GroupOrder(r1.group, r2.group);
    if cl1 != r1 {
      CousinsUnder(cl1.parent.value, cl2.parent.value, r1, r2);
      CousinSame(cl1.parent.value);
    }
  }

  /** In one cluster, or in none, entries are sorted by their own groups. */
  lemma OwnGroupFirst(e1: Entry, e2: Entry, short: seq<int>)
    requires e1.opts != [] && e2.opts != [] && e1.cluster == e2.cluster && GroupBefore(e1.group, e2.group)
    ensures EntryCmp(e1, e2, short) < 0
  {
    hide LabelOf, LabelCmp;
    GroupOrder(e1.group, e2.group);
    if e1.cluster.Some? {
      CousinSame(e1.cluster.value);
    }
  }

  // ----- Names and keys -----

  /** Option `j` is the first with a visible name. */
  ghost predicate FirstNamedOption(e: Entry, j: nat)
  {
    && j < |e.opts| && e.opts[j].name.Some? && !e.opts[j].hidden
    && forall k :: 0 <= k < j ==> e.opts[k].name == None || e.opts[k].hidden
  }

  /** Option `j` is the first visible one whose short key the entry accepts. */
  ghost predicate FirstShortOption(e: Entry, short: seq<int>, j: nat)
  {
    var accepted := Walk(e.opts, short, e.shortAt);
    && j < |e.opts| && accepted[j] && !e.opts[j].hidden
    && forall k :: 0 <= k < j ==> !accepted[k] || e.opts[k].hidden
  }

  /** The short key that an entry is sorted by, or 0. */
  ghost predicate SortKey(e: Entry, short: seq<int>, key: int)
  {
    if exists j: nat :: FirstShortOption(e, short, j)
    then exists j: nat :: FirstShortOption(e, short, j) && key == e.opts[j].key
    else key == 0
  }

  predicate Letter(c: char)
  {
    'a' <= c <= 'z' || 'A' <= c <= 'Z' || '0' <= c <= '9'
  }

  predicate Blank(c: char)
  {
    c == ' ' || '\t' <= c <= '\r'
  }

  /** `tail` begins at the first letter or digit of `name`. */
  ghost predicate TailOf(name: string, tail: string)
  {
    && (tail == [] || Letter(tail[0]))
    && exists k :: 0 <= k <= |name| && tail == name[k..] && forall i :: 0 <= i < k ==> !Letter(name[i])
  }

  /** The long name that an entry is sorted by: of a documentation entry, from the first letter
      or digit on. */
  ghost predicate SortName(e: Entry, name: Option<CName>)
    requires e.opts != []
  {
    if exists j: nat :: FirstNamedOption(e, j) then
      exists j: nat :: && FirstNamedOption(e, j) && name.Some?
                       && if e.opts[0].doc then TailOf(e.opts[j].name.value, name.value) else name == e.opts[j].name
    else name == None
  }

  /** A documentation entry that does not look like an option: behind blanks there is no dash. */
  ghost predicate Text(e: Entry)
    requires e.opts != []
  {
    && e.opts[0].doc
    && exists j: nat :: FirstNamedOption(e, j) && NoDash(e.opts[j].name.value)
  }

  ghost predicate NoDash(name: string)
  {
    forall k :: 0 <= k < |name| && name[k] == '-' ==> exists i :: 0 <= i < k && !Blank(name[i])
  }

  lemma {:induction false} FirstLongIs(opts: seq<ArgpOption>, j: nat)
    requires j < |opts| && opts[j].name.Some? && !opts[j].hidden
    requires forall k :: 0 <= k < j ==> opts[k].name == None || opts[k].hidden
    ensures FirstLong(opts) == opts[j].name
  {
    if j > 0 {
      FirstLongIs(opts[1..], j - 1);
    }
  }

  lemma {:induction false} NoLong(opts: seq<ArgpOption>)
    requires forall k :: 0 <= k < |opts| ==> opts[k].name == None || opts[k].hidden
    ensures FirstLong(opts) == None
  {
    if opts != [] {
      NoLong(opts[1..]);
    }
  }

  lemma {:induction false} SomeFirst(e: Entry, k: nat) returns (j: nat)
    requires k < |e.opts| && e.opts[k].name.Some? && !e.opts[k].hidden
    ensures FirstNamedOption(e, j)
  {
    j := 0;
    while e.opts[j].name == None || e.opts[j].hidden
      invariant j <= k && forall i :: 0 <= i < j ==> e.opts[i].name == None || e.opts[i].hidden
      decreases k - j
    {
      j := j + 1;
    }
  }

  lemma {:induction false} FirstShortIs(opts: seq<ArgpOption>, accepted: seq<bool>, j: nat)
    requires |opts| == |accepted| && j < |opts| && accepted[j] && !opts[j].hidden
    requires forall k :: 0 <= k < j ==> !accepted[k] || opts[k].hidden
    ensures FirstShort(opts, accepted) == opts[j].key
  {
    if j > 0 {
      FirstShortIs(opts[1..], accepted[1..], j - 1);
    }
  }

  lemma {:induction false} NoShort(opts: seq<ArgpOption>, accepted: seq<bool>)
    requires |opts| == |accepted| && forall k :: 0 <= k < |opts| ==> !accepted[k] || opts[k].hidden
    ensures FirstShort(opts, accepted) == 0
  {
    if opts != [] {
      NoShort(opts[1..], accepted[1..]);
    }
  }

  lemma {:induction false} SomeShort(e: Entry, short: seq<int>, k: nat) returns (j: nat)
    requires var accepted := Walk(e.opts, short, e.shortAt); k < |e.opts| && accepted[k] && !e.opts[k].hidden
    ensures FirstShortOption(e, short, j)
  {
    hide Walk;
    var accepted := Walk(e.opts, short, e.shortAt);
    j := 0;
    while !accepted[j] || e.opts[j].hidden
      invariant j <= k && forall i :: 0 <= i < j ==> !accepted[i] || e.opts[i].hidden
      decreases k - j
    {
      j := j + 1;
    }
  }

  lemma SortKeyIs(e: Entry, short: seq<int>, key: int)
    requires SortKey(e, short, key)
    ensures FirstShort(e.opts, Walk(e.opts, short, e.shortAt)) == key
  {
    hide Walk;
    var accepted := Walk(e.opts, short, e.shortAt);
    if exists j: nat :: FirstShortOption(e, short, j) {
      var j: nat :| FirstShortOption(e, short, j) && key == e.opts[j].key;
      FirstShortIs(e.opts, accepted, j);
    } else {
      forall k | 0 <= k < |e.opts| ensures !accepted[k] || e.opts[k].hidden {
        if accepted[k] && !e.opts[k].hidden {
          var j := SomeShort(e, short, k);
        }
      }
      NoShort(e.opts, accepted);
    }
  }

  lemma {:induction false} SkipToAlnumIs(name: CName, k: nat)
    requires k <= |name| && (forall i :: 0 <= i < k ==> !Letter(name[i])) && (k == |name| || Letter(name[k]))
    ensures SkipToAlnum(name) == name[k..]
  {
    if k > 0 {
      SkipToAlnumIs(name[1..], k - 1);
      assert name[1..][k - 1..] == name[k..];
    }
  }

  lemma {:induction false} SkipSpaceIs(name: CName) returns (b: nat)
    ensures b <= |name| && SkipSpace(name) == name[b..] && (forall i :: 0 <= i < b ==> Blank(name[i]))
    ensures b < |name| ==> !Blank(name[b])
  {
    if name != [] && IsSpace(name[0]) {
      b := SkipSpaceIs(name[1..]);
      assert name[1..][b..] == name[b + 1..];
      forall i | 0 <= i < b + 1 ensures Blank(name[i]) {
        assert i > 0 ==> name[i] == name[1..][i - 1];
      }
      b := b + 1;
    } else {
      b := 0;
    }
  }

  lemma SortNameIs(e: Entry, short: seq<int>, name: Option<CName>)
    requires e.opts != [] && SortName(e, name)
    ensures LabelOf(e, short).long == name && (LabelOf(e, short).doc == if Text(e) then 1 else 0)
  {
    hide Walk, FirstShort;
    if exists j: nat :: FirstNamedOption(e, j) {
      var j: nat :| && FirstNamedOption(e, j) && name.Some?
                    && if e.opts[0].doc then TailOf(e.opts[j].name.value, name.value) else name == e.opts[j].name;
      FirstLongIs(e.opts, j);
      OneFirstNamed(e, j);
      if e.opts[0].doc {
        CanonIs(e.opts[j].name.value, name.value);
      }
    } else {
      forall k | 0 <= k < |e.opts| ensures e.opts[k].name == None || e.opts[k].hidden {
        if e.opts[k].name.Some? && !e.opts[k].hidden {
          var j := SomeFirst(e, k);
        }
      }
      NoLong(e.opts);
    }
  }

  lemma OneFirstNamed(e: Entry, j: nat)
    requires FirstNamedOption(e, j)
    ensures forall k: nat :: FirstNamedOption(e, k) ==> k == j
  {
  }

  /** What `canon_doc_option` makes of a name. */
  lemma CanonIs(name: CName, tail: CName)
    requires TailOf(name, tail)
    ensures var s := SkipSpace(name); SkipToAlnum(s) == tail && ((s != [] && s[0] == '-') <==> !NoDash(name))
  {
    var b := SkipSpaceIs(name);
    hide SkipSpace, SkipToAlnum;
    TailBehindBlanks(name, tail, b);
    DashBehindBlanks(name, b);
  }

  lemma TailBehindBlanks(name: CName, tail: CName, b: nat)
    requires TailOf(name, tail) && b <= |name| && forall i :: 0 <= i < b ==> Blank(name[i])
    ensures SkipToAlnum(name[b..]) == tail
  {
    hide SkipToAlnum;
    var k :| 0 <= k <= |name| && tail == name[k..] && forall i :: 0 <= i < k ==> !Letter(name[i]);
    assert k < |name| ==> Letter(name[k]) by { assert k < |name| ==> tail[0] == name[k]; }
    assert b <= k;
    SkipToAlnumIs(name[b..], k - b);
    assert name[b..][k - b..] == name[k..];
  }

  lemma DashBehindBlanks(name: CName, b: nat)
    requires b <= |name| && (forall i :: 0 <= i < b ==> Blank(name[i])) && (b < |name| ==> !Blank(name[b]))
    ensures (b < |name| && name[b] == '-') <==> !NoDash(name)
  {
    if !(b < |name| && name[b] == '-') {
      forall i | 0 <= i < |name| && name[i] == '-' ensures exists m :: 0 <= m < i && !Blank(name[m]) {
        assert b < i;
        assert !Blank(name[b]);
      }
    }
  }

  // ----- Entries of one group in one cluster -----

  /** The entries differ only in what they are sorted by within their group and cluster. */
  ghost predicate Together(e1: Entry, e2: Entry)
  {
    e1.opts != [] && e2.opts != [] && e1.cluster == e2.cluster && e1.group == e2.group
  }

  lemma TogetherCmp(e1: Entry, e2: Entry, short: seq<int>)
    requires Together(e1, e2)
    ensures EntryCmp(e1, e2, short) == LabelCmp(LabelOf(e1, short), LabelOf(e2, short))
  {
    hide LabelOf, LabelCmp;
    if e1.cluster.Some? {
      CousinSame(e1.cluster.value);
    }
  }

  /** Options, and documentation that looks like options, come before other documentation. */
  lemma TextLast(e1: Entry, e2: Entry, n1: Option<CName>, n2: Option<CName>, short: seq<int>)
    requires Together(e1, e2) && SortName(e1, n1) && SortName(e2, n2) && !Text(e1) && Text(e2)
    ensures EntryCmp(e1, e2, short) < 0
  {
    hide LabelOf, CharCmp, Text, SortName;
    TogetherCmp(e1, e2, short);
    SortNameIs(e1, short, n1);
    SortNameIs(e2, short, n2);
  }

  /** Everything that an entry is sorted by within its group and cluster. */
  ghost predicate Sorts(e: Entry, short: seq<int>, key: int, name: Option<CName>)
    requires e.opts != []
  {
    SortKey(e, short, key) && SortName(e, name)
  }

  /** The first character of an entry: its short key, or else that of its name. */
  function Initial(key: int, name: Option<CName>): int
  {
    if key != 0 then key else if name.Some? && name.value != [] then name.value[0] as int else 0
  }

  function Folded(c: int): int
  {
    if 65 <= c <= 90 then c + 32 else c
  }

  lemma LabelIs(e1: Entry, e2: Entry, short: seq<int>, k1: int, n1: Option<CName>, k2: int, n2: Option<CName>)
    requires Together(e1, e2) && Sorts(e1, short, k1, n1) && Sorts(e2, short, k2, n2) && (Text(e1) <==> Text(e2))
    ensures EntryCmp(e1, e2, short) == CharCmp(Label(0, k1, n1), Label(0, k2, n2))
  {
    hide CharCmp, Text, SortName, SortKey;
    TogetherCmp(e1, e2, short);
    SortNameIs(e1, short, n1);
    SortNameIs(e2, short, n2);
    SortKeyIs(e1, short, k1);
    SortKeyIs(e2, short, k2);
    assert LabelOf(e1, short).short == k1 && LabelOf(e2, short).short == k2;
    hide LabelOf;
    SameChars(LabelOf(e1, short), LabelOf(e2, short), Label(0, k1, n1), Label(0, k2, n2));
  }

  lemma SameChars(a1: Label, a2: Label, b1: Label, b2: Label)
    requires a1 == b1.(doc := a1.doc) && a2 == b2.(doc := a2.doc)
    ensures CharCmp(a1, a2) == CharCmp(b1, b2)
  {
  }

  /** The first characters decide, ignoring case; between the two cases of a letter, the lower. */
  lemma InitialsDecide(e1: Entry, e2: Entry, short: seq<int>, k1: int, n1: Option<CName>, k2: int, n2: Option<CName>)
    requires Together(e1, e2) && Sorts(e1, short, k1, n1) && Sorts(e2, short, k2, n2) && (Text(e1) <==> Text(e2))
    ensures var c1, c2 := Initial(k1, n1), Initial(k2, n2);
            && (Folded(c1) < Folded(c2) ==> EntryCmp(e1, e2, short) < 0)
            && (65 <= c2 <= 90 && c1 == c2 + 32 ==> EntryCmp(e1, e2, short) < 0)
  {
    hide EntryCmp, Text, Sorts, LongCmp;
    LabelIs(e1, e2, short, k1, n1, k2, n2);
  }

  /** With the same first character, entries without a short option come first. */
  lemma LongOnlyFirst(e1: Entry, e2: Entry, short: seq<int>, n1: Option<CName>, k2: int, n2: Option<CName>)
    requires Together(e1, e2) && Sorts(e1, short, 0, n1) && Sorts(e2, short, k2, n2) && (Text(e1) <==> Text(e2))
    requires Initial(0, n1) == Initial(k2, n2) && k2 != 0
    ensures EntryCmp(e1, e2, short) < 0
  {
    hide EntryCmp, Text, Sorts, LongCmp;
    LabelIs(e1, e2, short, 0, n1, k2, n2);
  }

  /** `a` comes before `b` in the dictionary, ignoring case. */
  ghost predicate NameBefore(a: string, b: string)
  {
    exists i :: && 0 <= i <= |a| && i < |b| && (forall k :: 0 <= k < i ==> Folded(a[k] as int) == Folded(b[k] as int))
                && (i == |a| || Folded(a[i] as int) < Folded(b[i] as int))
  }

  ghost predicate NameSame(a: string, b: string)
  {
    |a| == |b| && forall k :: 0 <= k < |a| ==> Folded(a[k] as int) == Folded(b[k] as int)
  }

  lemma {:induction false} NamesDecide(a: CName, b: CName, i: nat)
    requires i <= |a| && i < |b| && forall k :: 0 <= k < i ==> Folded(a[k] as int) == Folded(b[k] as int)
    requires i == |a| || Folded(a[i] as int) < Folded(b[i] as int)
    ensures StrCaseCmp(a, b) < 0
  {
    if i > 0 {
      assert Folded(a[0] as int) == Folded(b[0] as int);
      NamesDecide(a[1..], b[1..], i - 1);
    } else if a == [] {
      assert b[0] != '\0';
    }
  }

  lemma {:induction false} SameNames(a: CName, b: CName)
    requires NameSame(a, b)
    ensures StrCaseCmp(a, b) == 0
  {
    if a != [] {
      assert Folded(a[0] as int) == Folded(b[0] as int);
      SameNames(a[1..], b[1..]);
    }
  }

  /** Entries without a short option are sorted by their names, ignoring case behind the first
      character. */
  lemma LongNamesDecide(e1: Entry, e2: Entry, short: seq<int>, n1: CName, n2: CName)
    requires Together(e1, e2) && Sorts(e1, short, 0, Some(n1)) && Sorts(e2, short, 0, Some(n2))
    requires (Text(e1) <==> Text(e2))
    requires Initial(0, Some(n1)) == Initial(0, Some(n2))
    ensures NameBefore(n1, n2) ==> EntryCmp(e1, e2, short) < 0
    ensures NameSame(n1, n2) ==> EntryCmp(e1, e2, short) == 0
  {
    hide EntryCmp, Text, Sorts;
    LabelIs(e1, e2, short, 0, Some(n1), 0, Some(n2));
    if NameBefore(n1, n2) {
      var i :| && 0 <= i <= |n1| && i < |n2|
               && (forall k :: 0 <= k < i ==> Folded(n1[k] as int) == Folded(n2[k] as int))
               && (i == |n1| || Folded(n1[i] as int) < Folded(n2[i] as int));
      NamesDecide(n1, n2, i);
    }
    if NameSame(n1, n2) {
      SameNames(n1, n2);
    }
  }

  /** Entries with the same short key, and otherwise together, have no order. */
  lemma SameKeyUnordered(e1: Entry, e2: Entry, short: seq<int>, key: int, n1: Option<CName>, n2: Option<CName>)
    requires Together(e1, e2) && Sorts(e1, short, key, n1) && Sorts(e2, short, key, n2) && (Text(e1) <==> Text(e2))
    requires key != 0
    ensures EntryCmp(e1, e2, short) == 0
  {
    hide EntryCmp, Text, Sorts;
    LabelIs(e1, e2, short, key, n1, key, n2);
  }

  /** Without short option and name at all, an entry comes before one with an empty name. */
  lemma NamelessFirst(e1: Entry, e2: Entry, short: seq<int>, n2: CName)
    requires Together(e1, e2) && Sorts(e1, short, 0, None) && Sorts(e2, short, 0, Some(n2)) && (Text(e1) <==> Text(e2))
    ensures EntryCmp(e1, e2, short) < 0
  {
    hide EntryCmp, Text, Sorts;
    LabelIs(e1, e2, short, 0, None, 0, Some(n2));
    assert n2 != [] ==> n2[0] != '\0';
  }

  // ----- The laws apply to all entries -----

  lemma {:induction false} HasOutermost(cl: Cluster) returns (outer: Cluster)
    ensures Inside(cl, outer) && outer.parent == None
  {
    if cl.parent == None {
      outer := cl;
    } else {
      outer := HasOutermost(cl.parent.value);
    }
  }

  lemma EverySortedUnder(e: Entry) returns (g: int)
    ensures SortedUnder(e, g)
  {
    if e.cluster == None {
      g := e.group;
    } else {
      var outer := HasOutermost(e.cluster.value);
      g := outer.group;
    }
  }

  lemma {:induction false} HasTail(name: CName) returns (k: nat)
    ensures k <= |name| && (forall i :: 0 <= i < k ==> !Letter(name[i])) && (k == |name| || Letter(name[k]))
  {
    if name == [] || Letter(name[0]) {
      k := 0;
    } else {
      k := HasTail(name[1..]);
      forall i | 0 <= i < k + 1 ensures !Letter(name[i]) {
        assert i > 0 ==> name[i] == name[1..][i - 1];
      }
      k := k + 1;
    }
  }

  lemma EverySorts(e: Entry, short: seq<int>) returns (key: int, name: Option<CName>)
    requires e.opts != []
    ensures Sorts(e, short, key, name)
  {
    hide Walk;
    if j: nat :| FirstShortOption(e, short, j) {
      key := e.opts[j].key;
    } else {
      key := 0;
    }
    if j: nat :| FirstNamedOption(e, j) {
      var n := e.opts[j].name.value;
      if e.opts[0].doc {
        var k := HasTail(n);
        name := Some(n[k..]);
        assert TailOf(n, n[k..]);
      } else {
        name := e.opts[j].name;
      }
    } else {
      name := None;
    }
  }
}
