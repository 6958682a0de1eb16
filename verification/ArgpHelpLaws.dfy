/**
 The entries of the help list in terms of the tree of argps: which options they
 hold, and the groups and clusters they are sorted by.
 */
module ArgpHelpLaws {
  import opened Wrappers
  import opened Sequences
  import opened ArgpTree
  import opened ArgpHol
  import opened ArgpTreeLaws

  // ----- Entries of one argp -----

  /** The group of an entry: its own number, or else that of the entry before, one more for a
      header without name and key. `before` is 0 for the first entry. */
  ghost predicate GroupFollows(first: ArgpOption, before: int, group: int)
  {
    && (first.group != 0 ==> group == first.group)
    && (first.group == 0 && first.name == None && first.key == 0 ==> group == before + 1)
    && (first.group == 0 && (first.name.Some? || first.key != 0) ==> group == before)
  }

  /** Entry `e` is the option at `k` with all its aliases. */
  ghost predicate OptionWithAliases(opts: seq<ArgpOption>, e: Entry, k: nat)
  {
    && e.opts != [] && k + |e.opts| <= |opts| && e.opts == opts[k..k + |e.opts|]
    && (forall i :: 1 <= i < |e.opts| ==> e.opts[i].isAlias)
    && (k + |e.opts| < |opts| ==> !opts[k + |e.opts|].isAlias)
  }

  lemma {:induction false} AliasRun(opts: seq<ArgpOption>)
    ensures var n := AliasCount(opts);
            (forall i :: 0 <= i < n ==> opts[i].isAlias) && (n < |opts| ==> !opts[n].isAlias)
  {
    if opts != [] && opts[0].isAlias {
      AliasRun(opts[1..]);
      var n := AliasCount(opts[1..]);
      forall i | 0 <= i < n + 1 ensures opts[i].isAlias {
        assert i > 0 ==> opts[i] == opts[1..][i - 1];
      }
    }
  }

  lemma FirstRun(opts: seq<ArgpOption>)
    requires opts != []
    ensures var n := RunLength(opts);
            (forall i :: 1 <= i < n ==> opts[i].isAlias) && (n < |opts| ==> !opts[n].isAlias)
  {
    AliasRun(opts[1..]);
    forall i | 1 <= i < RunLength(opts) ensures opts[i].isAlias {
      assert opts[i] == opts[1..][i - 1];
    }
  }

  /** Every entry is an option with its aliases, behind the options of the entries before it; its
      group follows from that of the entry before. */
  lemma {:induction false} EntryOfArgp(opts: seq<ArgpOption>, cur: int, cluster: Option<Cluster>, path: Path, n: nat)
    returns (k: nat)
    requires n < |OwnEntries(opts, cur, cluster, path)|
    ensures var es := OwnEntries(opts, cur, cluster, path);
            && OptionWithAliases(opts, es[n], k) && es[n].cluster == cluster && es[n].path == path
            && (n == 0 <==> k == 0) && (k > 0 ==> !opts[k].isAlias)
            && GroupFollows(es[n].opts[0], if n == 0 then cur else es[n - 1].group, es[n].group)
    decreases n
  {
    var r, group := RunLength(opts), EntryGroup(opts[0], cur);
    FirstRun(opts);
    hide RunLength;
    if n == 0 {
      k := 0;
    } else {
      var j := EntryOfArgp(opts[r..], group, cluster, path, n - 1);
      k := r + j;
      ShiftEntry(opts, r, OwnEntries(opts, cur, cluster, path)[n], j);
    }
  }

  lemma ShiftEntry(opts: seq<ArgpOption>, r: nat, e: Entry, j: nat)
    requires r <= |opts| && OptionWithAliases(opts[r..], e, j)
    ensures OptionWithAliases(opts, e, r + j)
  {
    assert opts[r..][j..j + |e.opts|] == opts[r + j..r + j + |e.opts|];
  }

  // ----- Entries of a tree -----

  function ChildGroup(cs: Children, i: nat): int
  {
    match cs
    case End => 0
    case Child(_, group, _, next) => if i == 0 then group else ChildGroup(next, i - 1)
  }

  function ChildHeader(cs: Children, i: nat): bool
  {
    match cs
    case End => false
    case Child(_, _, header, next) => if i == 0 then header.Some? else ChildHeader(next, i - 1)
  }

  /** The cluster of child `i` of an argp, whose own is `cluster`. */
  ghost function Opened(cs: Children, i: nat, index: nat, cluster: Option<Cluster>): Option<Cluster>
  {
    if ChildGroup(cs, i) != 0 || ChildHeader(cs, i) then Some(Cluster(ChildGroup(cs, i), index, cluster)) else cluster
  }

  /** The cluster of the entries of the argp at `rel`: each child with a group or a header on the
      way opens one, of that group and with the child's index, in the one before. */
  ghost function ClusterAt(a: Argp, rel: Path, cluster: Option<Cluster>): Option<Cluster>
    requires ArgpAt(a, rel).Some?
    decreases rel
  {
    if rel == [] then cluster
    else ClusterAt(NthChild(a.children, rel[0]).value, rel[1..], Opened(a.children, rel[0], rel[0], cluster))
  }

  /** `e` is one of the entries of the argp at `rel` below `a`, with the right cluster. */
  ghost predicate IsEntry(a: Argp, cluster: Option<Cluster>, path: Path, rel: Path, e: Entry, m: nat)
  {
    && ArgpAt(a, rel).Some?
    && var es := OwnEntries(OptionsOf(ArgpAt(a, rel).value), 0, ClusterAt(a, rel, cluster), path + rel);
       m < |es| && es[m] == e
  }

  lemma {:induction false} EntryOfTree(a: Argp, cluster: Option<Cluster>, path: Path, n: nat)
    returns (rel: Path, m: nat)
    requires n < |TreeEntries(a, cluster, path)|
    ensures IsEntry(a, cluster, path, rel, TreeEntries(a, cluster, path)[n], m)
  {
    hide OwnEntries, IsEntry;
    var own := OwnEntries(OptionsOf(a), 0, cluster, path);
    if n < |own| {
      rel, m := [], n;
      RootEntry(a, cluster, path, n);
    } else {
      var c, r;
      c, r, m := EntryOfChild(a.children, cluster, path, 0, n - |own|);
      rel := [c] + r;
      ChildEntryIs(a, cluster, path, c, r, TreeEntries(a, cluster, path)[n], m);
    }
  }

  lemma RootEntry(a: Argp, cluster: Option<Cluster>, path: Path, m: nat)
    requires m < |OwnEntries(OptionsOf(a), 0, cluster, path)|
    ensures IsEntry(a, cluster, path, [], OwnEntries(OptionsOf(a), 0, cluster, path)[m], m)
  {
    hide OwnEntries;
    assert path + [] == path;
  }

  lemma ChildEntryIs(a: Argp, cluster: Option<Cluster>, path: Path, c: nat, rel: Path, e: Entry, m: nat)
    requires NthChild(a.children, c).Some?
    requires IsEntry(NthChild(a.children, c).value, Opened(a.children, c, c, cluster), path + [c], rel, e, m)
    ensures IsEntry(a, cluster, path, [c] + rel, e, m)
  {
    hide OwnEntries;
    assert ([c] + rel)[1..] == rel;
    Regroup(path, [c], rel);
  }

  lemma {:induction false} EntryOfChild(cs: Children, cluster: Option<Cluster>, path: Path, i: nat, n: nat)
    returns (c: nat, rel: Path, m: nat)
    requires n < |ChildEntries(cs, cluster, path, i)|
    ensures NthChild(cs, c).Some?
    ensures IsEntry(NthChild(cs, c).value, Opened(cs, c, i + c, cluster), path + [i + c], rel,
                    ChildEntries(cs, cluster, path, i)[n], m)
  {
    hide IsEntry, TreeEntries;
    var a, next := cs.argp, cs.next;
    var first := TreeEntries(a, ChildCluster(cs, cluster, i), path + [i]);
    if n < |first| {
      c := 0;
      rel, m := EntryOfTree(a, ChildCluster(cs, cluster, i), path + [i], n);
    } else {
      c, rel, m := EntryOfChild(next, cluster, path, i + 1, n - |first|);
      c := c + 1;
    }
  }
}
