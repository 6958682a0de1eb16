/**
 The order of entries in a help listing: `hol_entry_cmp` compares lexicographically
 by a key, and is therefore the total order that its comment claims.
 */
module ArgpOrder {
  import opened Wrappers
  import opened ArgpTree
  import opened ArgpHol

  // ----- Lexicographic order -----

  function Lex(a: seq<int>, b: seq<int>): int
  {
    if a == [] && b == [] then 0
    else if a == [] then -1
    else if b == [] then 1
    else if a[0] < b[0] then -1
    else if a[0] > b[0] then 1
    else Lex(a[1..], b[1..])
  }

  function Sign(x: int): int
  {
    if x < 0 then -1 else if x > 0 then 1 else 0
  }

  lemma {:induction false} LexConcat(a: seq<int>, b: seq<int>, x: seq<int>, y: seq<int>)
    requires |a| == |b|
    ensures Lex(a + x, b + y) == if Lex(a, b) != 0 then Lex(a, b) else Lex(x, y)
  {
    if a == [] {
      assert a + x == x && b + y == y;
    } else {
      assert (a + x)[1..] == a[1..] + x && (b + y)[1..] == b[1..] + y;
      LexConcat(a[1..], b[1..], x, y);
    }
  }

  lemma {:induction false} LexAntisymmetric(a: seq<int>, b: seq<int>)
    ensures Lex(a, b) == -Lex(b, a)
  {
    if a != [] && b != [] {
      LexAntisymmetric(a[1..], b[1..]);
    }
  }

  lemma {:induction false} LexTransitive(a: seq<int>, b: seq<int>, c: seq<int>)
    ensures Lex(a, b) <= 0 && Lex(b, c) <= 0 ==>
              Lex(a, c) == if Lex(a, b) == 0 && Lex(b, c) == 0 then 0 else -1
  {
    if a != [] && b != [] && c != [] {
      LexTransitive(a[1..], b[1..], c[1..]);
    }
  }

  lemma LexOne(x: int, y: int)
    ensures Lex([x], [y]) == Sign(x - y)
  {
  }

  // ----- Groups and clusters -----

  /** Groups from 0 upwards come first, then the negative ones, -1 last. */
  function GroupCmp(group1: int, group2: int): int
  {
    if (group1 < 0 && group2 < 0) || (group1 >= 0 && group2 >= 0) then group1 - group2
    else group2 - group1
  }

  function GroupKey(group: int): seq<int>
  {
    [if group < 0 then 1 else 0, group]
  }

  lemma GroupCmpIsLex(g1: int, g2: int)
    ensures Sign(GroupCmp(g1, g2)) == Lex(GroupKey(g1), GroupKey(g2))
    ensures GroupCmp(g1, g2) == 0 <==> g1 == g2
  {
    var n1, n2 := if g1 < 0 then 1 else 0, if g2 < 0 then 1 else 0;
    assert GroupKey(g1) == [n1] + [g1] && GroupKey(g2) == [n2] + [g2];
    LexConcat([n1], [n2], [g1], [g2]);
    LexOne(n1, n2);
    LexOne(g1, g2);
  }

  function Depth(cl: Cluster): nat
  {
    match cl.parent
    case None => 0
    case Some(p) => 1 + Depth(p)
  }

  function SiblingCmp(cl1: Cluster, cl2: Cluster): int
  {
    var cmp := GroupCmp(cl1.group, cl2.group);
    if cmp != 0 then cmp else cl2.index - cl1.index
  }

  /** Clusters of the same depth. Comparing the parents of clusters with equal but
      distinct parents gives 0, so identity of parents need not be modelled. */
  function CousinCmp(cl1: Cluster, cl2: Cluster): int
    requires Depth(cl1) == Depth(cl2)
  {
    if cl1.parent == cl2.parent then SiblingCmp(cl1, cl2)
    else
      var cmp := CousinCmp(cl1.parent.value, cl2.parent.value);
      if cmp != 0 then cmp
      else
        var cmp := GroupCmp(cl1.group, cl2.group);
        if cmp != 0 then cmp else cl2.index - cl1.index
  }

  /** The ancestor of `cl` at depth `d`. */
  function Ancestor(cl: Cluster, d: nat): (r: Cluster)
    requires d <= Depth(cl)
    ensures Depth(r) == d
  {
    if Depth(cl) == d then cl else Ancestor(cl.parent.value, d)
  }

  function ClusterCmp(cl1: Cluster, cl2: Cluster): int
  {
    if Depth(cl1) > Depth(cl2) then
      var cmp := CousinCmp(Ancestor(cl1, Depth(cl2)), cl2);
      if cmp != 0 then cmp else 1
    else if Depth(cl1) < Depth(cl2) then
      var cmp := CousinCmp(cl1, Ancestor(cl2, Depth(cl1)));
      if cmp != 0 then cmp else -1
    else CousinCmp(cl1, cl2)
  }

  /** `hol_cluster_cmp`, with its walks up to the common depth. */
  method HolClusterCmp(c1: Cluster, c2: Cluster) returns (cmp: int)
    ensures cmp == ClusterCmp(c1, c2)
  {
    var cl1, cl2 := c1, c2;
    if Depth(cl1) > Depth(cl2) {
      while Depth(cl1) > Depth(cl2)
        invariant Depth(cl1) >= Depth(cl2) && Ancestor(c1, Depth(cl2)) == Ancestor(cl1, Depth(cl2))
        decreases Depth(cl1)
      {
        cl1 := cl1.parent.value;
      }
      cmp := CousinCmp(cl1, cl2);
      if cmp == 0 {
        cmp := 1;
      }
    } else if Depth(cl1) < Depth(cl2) {
      while Depth(cl1) < Depth(cl2)
        invariant Depth(cl1) <= Depth(cl2) && Ancestor(c2, Depth(cl1)) == Ancestor(cl2, Depth(cl1))
        decreases Depth(cl2)
      {
        cl2 := cl2.parent.value;
      }
      cmp := CousinCmp(cl1, cl2);
      if cmp == 0 {
        cmp := -1;
      }
    } else {
      cmp := CousinCmp(cl1, cl2);
    }
  }

  /** The group of the outermost cluster. */
  function BaseGroup(cl: Cluster): int
  {
    match cl.parent
    case None => cl.group
    case Some(p) => BaseGroup(p)
  }

  /** `hol_cluster_base`. */
  method HolClusterBase(c: Cluster) returns (cl: Cluster)
    ensures cl.parent == None && cl.group == BaseGroup(c)
  {
    cl := c;
    while cl.parent.Some?
      invariant BaseGroup(cl) == BaseGroup(c)
      decreases cl
    {
      cl := cl.parent.value;
    }
  }

  // ----- Clusters compare by their paths -----

  /** From the root to `cl`: a 1, the group key and the reversed index for each cluster. */
  function PathKey(cl: Cluster): seq<int>
  {
    (match cl.parent case None => [] case Some(p) => PathKey(p)) + Step(cl)
  }

  function Step(cl: Cluster): (s: seq<int>)
    ensures |s| == 4
  {
    [1] + GroupKey(cl.group) + [0 - (cl.index as int)]
  }

  lemma {:induction false} PathKeyLength(cl: Cluster)
    ensures |PathKey(cl)| == 4 * (Depth(cl) + 1)
  {
    if cl.parent.Some? {
      PathKeyLength(cl.parent.value);
    }
  }

  lemma StepCmp(cl1: Cluster, cl2: Cluster)
    ensures Sign(SiblingCmp(cl1, cl2)) == Lex(Step(cl1), Step(cl2))
  {
    var i1: int, i2: int := 0 - (cl1.index as int), 0 - (cl2.index as int);
    GroupCmpIsLex(cl1.group, cl2.group);
    hide Lex;
    var g1, g2 := GroupKey(cl1.group), GroupKey(cl2.group);
    LexConcat(g1, g2, [i1], [i2]);
    LexConcat([1], [1], g1 + [i1], g2 + [i2]);
    LexOne(1, 1);
    LexOne(i1, i2);
    assert Step(cl1) == [1] + (g1 + [i1]) && Step(cl2) == [1] + (g2 + [i2]);
  }

  lemma {:induction false} LexReflexive(a: seq<int>)
    ensures Lex(a, a) == 0
  {
    if a != [] {
      LexReflexive(a[1..]);
    }
  }

  /** Clusters of the same depth compare lexicographically by their paths. */
  lemma {:induction false} CousinCmpIsLex(cl1: Cluster, cl2: Cluster)
    requires Depth(cl1) == Depth(cl2)
    ensures Sign(CousinCmp(cl1, cl2)) == Lex(PathKey(cl1), PathKey(cl2))
  {
    StepCmp(cl1, cl2);
    match cl1.parent
    case None =>
      assert [] + Step(cl1) == Step(cl1) && [] + Step(cl2) == Step(cl2);
    case Some(p1) =>
      var p2 := cl2.parent.value;
      PathKeyLength(p1);
      PathKeyLength(p2);
      LexConcat(PathKey(p1), PathKey(p2), Step(cl1), Step(cl2));
      if p1 == p2 {
        LexReflexive(PathKey(p1));
      } else {
        CousinCmpIsLex(p1, p2);
      }
  }

  lemma {:induction false} AncestorPath(cl: Cluster, d: nat) returns (below: seq<int>)
    requires d <= Depth(cl)
    ensures PathKey(cl) == PathKey(Ancestor(cl, d)) + below
    ensures d < Depth(cl) ==> below != [] && below[0] == 1
  {
    if Depth(cl) == d {
      below := [];
    } else {
      below := AncestorPath(cl.parent.value, d);
      below := below + Step(cl);
    }
  }

  /** Clusters compare lexicographically by their paths, a cluster coming before
      those inside it; the 0 marks the end of a path, so that other keys can follow. */
  lemma ClusterCmpIsLex(cl1: Cluster, cl2: Cluster, x: seq<int>, y: seq<int>)
    ensures Lex(PathKey(cl1) + [0] + x, PathKey(cl2) + [0] + y)
            == if ClusterCmp(cl1, cl2) != 0 then Sign(ClusterCmp(cl1, cl2)) else Lex(x, y)
  {
    hide PathKey;
    var d := if Depth(cl1) < Depth(cl2) then Depth(cl1) else Depth(cl2);
    var a1, a2 := Ancestor(cl1, d), Ancestor(cl2, d);
    var b1 := AncestorPath(cl1, d);
    var b2 := AncestorPath(cl2, d);
    CousinCmpIsLex(a1, a2);
    PathKeyLength(a1);
    PathKeyLength(a2);
    assert PathKey(cl1) + [0] + x == PathKey(a1) + (b1 + [0] + x);
    assert PathKey(cl2) + [0] + y == PathKey(a2) + (b2 + [0] + y);
    LexConcat(PathKey(a1), PathKey(a2), b1 + [0] + x, b2 + [0] + y);
    assert [] + [0] + x == [0] + x && [] + [0] + y == [0] + y;
    LexConcat([0], [0], x, y);
  }

  // ----- Entries -----

  /** `hol_entry_first_long`. */
  function FirstLong(opts: seq<ArgpOption>): Option<CName>
  {
    if opts == [] then None
    else if opts[0].name.Some? && !opts[0].hidden then opts[0].name
    else FirstLong(opts[1..])
  }

  /** `hol_entry_first_short`: the first accepted and visible short option, or 0. */
  function FirstShort(opts: seq<ArgpOption>, accepted: seq<bool>): int
    requires |opts| == |accepted|
  {
    if opts == [] then 0
    else if accepted[0] && !opts[0].hidden then opts[0].key
    else FirstShort(opts[1..], accepted[1..])
  }

  predicate IsSpace(c: char)
  {
    c == ' ' || 9 <= c as int <= 13
  }

  predicate IsAlnum(c: char)
  {
    '0' <= c <= '9' || 'A' <= c <= 'Z' || 'a' <= c <= 'z'
  }

  function SkipSpace(name: CName): CName
  {
    if name != [] && IsSpace(name[0]) then SkipSpace(name[1..]) else name
  }

  function SkipToAlnum(name: CName): CName
  {
    if name != [] && !IsAlnum(name[0]) then SkipToAlnum(name[1..]) else name
  }

  function ToLower(c: int): int
  {
    if 'A' as int <= c <= 'Z' as int then c + 32 else c
  }

  /** What an entry is sorted by once its cluster and groups are settled. */
  datatype Label = Label(doc: int, short: int, long: Option<CName>)

  /** `canon_doc_option` applies to documentation entries only. */
  function LabelOf(e: Entry, short: seq<int>): Label
    requires e.opts != []
  {
    var name := FirstLong(e.opts);
    var sh := FirstShort(e.opts, Walk(e.opts, short, e.shortAt));
    if e.opts[0].doc && name.Some? then
      var s := SkipSpace(name.value);
      Label(if s != [] && s[0] == '-' then 0 else 1, sh, Some(SkipToAlnum(s)))
    else Label(0, sh, name)
  }

  function FirstChar(l: Label): int
  {
    if l.short != 0 then l.short else if l.long.Some? && l.long.value != [] then l.long.value[0] as int else 0
  }

  function Bit(b: bool): int
  {
    if b then 1 else 0
  }

  function StrCaseCmp(a: CName, b: CName): int
  {
    if a == [] && b == [] then 0
    else if a == [] then 0 - ToLower(b[0] as int)
    else if b == [] then ToLower(a[0] as int)
    else
      var cmp := ToLower(a[0] as int) - ToLower(b[0] as int);
      if cmp != 0 then cmp else StrCaseCmp(a[1..], b[1..])
  }

  /** The last criterion: without a short option, the long one. */
  function LongCmp(l1: Label, l2: Label): int
  {
    if l1.short != 0 then 0
    else
      var cmp := Bit(l1.long.Some?) - Bit(l2.long.Some?);
      if cmp != 0 then cmp
      else if l1.long.Some? then StrCaseCmp(l1.long.value, l2.long.value)
      else 0
  }

  /** First characters, ignoring case at first, then lower case first. Entries
      without a short option come before those with one. */
  function CharCmp(l1: Label, l2: Label): int
  {
    var first1, first2 := FirstChar(l1), FirstChar(l2);
    var cmp := ToLower(first1) - ToLower(first2);
    if cmp != 0 then cmp
    else
      var cmp := first2 - first1;
      if cmp != 0 then cmp
      else
        var cmp := Bit(l1.short != 0) - Bit(l2.short != 0);
        if cmp != 0 then cmp else LongCmp(l1, l2)
  }

  function LabelCmp(l1: Label, l2: Label): int
  {
    var cmp := l1.doc - l2.doc;
    if cmp != 0 then cmp else CharCmp(l1, l2)
  }

  /** The group by which an entry is sorted at the top level. */
  function TopGroup(e: Entry): int
  {
    match e.cluster
    case None => e.group
    case Some(cl) => BaseGroup(cl)
  }

  /** `hol_entry_cmp`, for entries of a help list with the short options `short`. */
  function EntryCmp(e1: Entry, e2: Entry, short: seq<int>): int
    requires e1.opts != [] && e2.opts != []
  {
    var cmp := GroupCmp(TopGroup(e1), TopGroup(e2));
    if cmp != 0 then cmp
    else
      var cmp := Bit(e1.cluster.Some?) - Bit(e2.cluster.Some?);
      if cmp != 0 then cmp
      else
        var cmp := if e1.cluster.Some? then ClusterCmp(e1.cluster.value, e2.cluster.value) else 0;
        if cmp != 0 then cmp
        else
          var cmp := GroupCmp(e1.group, e2.group);
          if cmp != 0 then cmp else LabelCmp(LabelOf(e1, short), LabelOf(e2, short))
  }

  // ----- The key of an entry -----

  function LowerKey(name: CName): seq<int>
  {
    if name == [] then [] else [ToLower(name[0] as int)] + LowerKey(name[1..])
  }

  function LongKey(l: Label): seq<int>
  {
    if l.short != 0 then [] else if l.long.Some? then [1] + LowerKey(l.long.value) else [0]
  }

  function CharKey(l: Label): seq<int>
  {
    [ToLower(FirstChar(l)), 0 - FirstChar(l), Bit(l.short != 0)] + LongKey(l)
  }

  function ClusterKey(cluster: Option<Cluster>): seq<int>
  {
    match cluster
    case None => []
    case Some(cl) => PathKey(cl) + [0]
  }

  /** An entry's place in the listing: its top-level group, whether it is in a cluster,
      the path of the cluster, its own group, and its label. */
  function EntryKey(e: Entry, short: seq<int>): seq<int>
    requires e.opts != []
  {
    var l := LabelOf(e, short);
    GroupKey(TopGroup(e))
    + ([Bit(e.cluster.Some?)] + (ClusterKey(e.cluster) + (GroupKey(e.group) + ([l.doc] + CharKey(l)))))
  }

  lemma {:induction false} StrCaseCmpIsLex(a: CName, b: CName)
    ensures Sign(StrCaseCmp(a, b)) == Lex(LowerKey(a), LowerKey(b))
  {
    if a != [] && b != [] {
      var x, y := ToLower(a[0] as int), ToLower(b[0] as int);
      StrCaseCmpIsLex(a[1..], b[1..]);
      LexConcat([x], [y], LowerKey(a[1..]), LowerKey(b[1..]));
      LexOne(x, y);
    } else if a != [] {
      assert a[0] != '\0';
    } else if b != [] {
      assert b[0] != '\0';
    }
  }

  lemma LongCmpIsLex(l1: Label, l2: Label)
    requires l1.short != 0 <==> l2.short != 0
    ensures Sign(LongCmp(l1, l2)) == Lex(LongKey(l1), LongKey(l2))
  {
    hide Lex;
    if l1.short != 0 {
      LexReflexive([]);
    } else if l1.long.Some? && l2.long.Some? {
      StrCaseCmpIsLex(l1.long.value, l2.long.value);
      LexConcat([1], [1], LowerKey(l1.long.value), LowerKey(l2.long.value));
      LexReflexive([1]);
    } else {
      var x := if l1.long.Some? then LowerKey(l1.long.value) else [];
      var y := if l2.long.Some? then LowerKey(l2.long.value) else [];
      var b1, b2 := Bit(l1.long.Some?), Bit(l2.long.Some?);
      assert [0] + [] == [0];
      LexConcat([b1], [b2], x, y);
      LexOne(b1, b2);
      LexReflexive([]);
    }
  }

  lemma CharCmpIsLex(l1: Label, l2: Label)
    ensures Sign(CharCmp(l1, l2)) == Lex(CharKey(l1), CharKey(l2))
  {
    hide Lex, LongCmp, LongKey, FirstChar;
    var f1, f2, s1, s2 := FirstChar(l1), FirstChar(l2), Bit(l1.short != 0), Bit(l2.short != 0);
    var k1, k2 := LongKey(l1), LongKey(l2);
    assert CharKey(l1) == [ToLower(f1)] + ([0 - f1] + ([s1] + k1));
    assert CharKey(l2) == [ToLower(f2)] + ([0 - f2] + ([s2] + k2));
    LexConcat([ToLower(f1)], [ToLower(f2)], [0 - f1] + ([s1] + k1), [0 - f2] + ([s2] + k2));
    LexConcat([0 - f1], [0 - f2], [s1] + k1, [s2] + k2);
    LexConcat([s1], [s2], k1, k2);
    LexOne(ToLower(f1), ToLower(f2));
    LexOne(0 - f1, 0 - f2);
    LexOne(s1, s2);
    if s1 == s2 {
      LongCmpIsLex(l1, l2);
    }
  }

  /** `hol_entry_cmp` is lexicographic comparison of the keys. */
  lemma EntryCmpIsLex(e1: Entry, e2: Entry, short: seq<int>)
    requires e1.opts != [] && e2.opts != []
    ensures Sign(EntryCmp(e1, e2, short)) == Lex(EntryKey(e1, short), EntryKey(e2, short))
  {
    hide Lex, LabelOf, CharCmp, CharKey, GroupCmp, ClusterCmp, PathKey, TopGroup;
    var l1, l2 := LabelOf(e1, short), LabelOf(e2, short);
    var c1, c2 := [l1.doc] + CharKey(l1), [l2.doc] + CharKey(l2);
    var g1, g2 := GroupKey(e1.group) + c1, GroupKey(e2.group) + c2;
    var p1, p2 := ClusterKey(e1.cluster) + g1, ClusterKey(e2.cluster) + g2;
    var b1, b2 := Bit(e1.cluster.Some?), Bit(e2.cluster.Some?);
    LexConcat(GroupKey(TopGroup(e1)), GroupKey(TopGroup(e2)), [b1] + p1, [b2] + p2);
    GroupCmpIsLex(TopGroup(e1), TopGroup(e2));
    LexConcat([b1], [b2], p1, p2);
    LexOne(b1, b2);
    if e1.cluster.Some? && e2.cluster.Some? {
      ClusterCmpIsLex(e1.cluster.value, e2.cluster.value, g1, g2);
    } else if !e1.cluster.Some? && !e2.cluster.Some? {
      assert [] + g1 == g1 && [] + g2 == g2;
    }
    LexConcat(GroupKey(e1.group), GroupKey(e2.group), c1, c2);
    GroupCmpIsLex(e1.group, e2.group);
    LexConcat([l1.doc], [l2.doc], CharKey(l1), CharKey(l2));
    LexOne(l1.doc, l2.doc);
    CharCmpIsLex(l1, l2);
  }

  /** The four laws in the comment of `hol_entry_cmp`, and the antisymmetry they
      rely on: the comparison is a total preorder, whatever the clusters. */
  lemma EntryCmpIsTotalOrder(e1: Entry, e2: Entry, e3: Entry, short: seq<int>)
    requires e1.opts != [] && e2.opts != [] && e3.opts != []
    ensures var c12, c23, c13 := EntryCmp(e1, e2, short), EntryCmp(e2, e3, short), EntryCmp(e1, e3, short);
            && (c12 < 0 && c23 < 0 ==> c13 < 0)
            && (c12 < 0 && c23 == 0 ==> c13 < 0)
            && (c12 == 0 && c23 < 0 ==> c13 < 0)
            && (c12 == 0 && c23 == 0 ==> c13 == 0)
    ensures EntryCmp(e1, e1, short) == 0
    ensures Sign(EntryCmp(e1, e2, short)) == -Sign(EntryCmp(e2, e1, short))
  {
    hide Lex, EntryCmp, EntryKey;
    EntryCmpIsLex(e1, e2, short);
    EntryCmpIsLex(e2, e3, short);
    EntryCmpIsLex(e1, e3, short);
    EntryCmpIsLex(e1, e1, short);
    EntryCmpIsLex(e2, e1, short);
    LexTransitive(EntryKey(e1, short), EntryKey(e2, short), EntryKey(e3, short));
    LexAntisymmetric(EntryKey(e1, short), EntryKey(e2, short));
    LexReflexive(EntryKey(e1, short));
  }
}
