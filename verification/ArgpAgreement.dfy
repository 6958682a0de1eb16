/**
 Parser and help agree: the two flattenings of a tree of argps see the same
 options in the same order, and resolve conflicts between them the same way.
 */
module ArgpAgreement {
  import opened Wrappers
  import opened ArgpTree
  import opened ArgpConvert
  import opened ArgpHol
  import T = ArgpTables

  /** An option and the argp it is from. */
  datatype Located = Located(path: Path, opt: ArgpOption)

  function Locate(opts: seq<ArgpOption>, path: Path): (r: seq<Located>)
    ensures |r| == |opts| && forall i :: 0 <= i < |r| ==> r[i] == Located(path, opts[i])
  {
    seq(|opts|, i requires 0 <= i < |opts| => Located(path, opts[i]))
  }

  /** The options of a help list, one after the other. */
  ghost function Flat(es: seq<Entry>): seq<Located>
  {
    if es == [] then [] else Flat(es[..|es| - 1]) + Locate(es[|es| - 1].opts, es[|es| - 1].path)
  }

  ghost function Erase(os: seq<Occurrence>): (r: seq<Located>)
    ensures |r| == |os| && forall i :: 0 <= i < |r| ==> r[i] == Located(os[i].path, os[i].opt)
  {
    seq(|os|, i requires 0 <= i < |os| => Located(os[i].path, os[i].opt))
  }

  lemma {:induction false} FlatConcat(a: seq<Entry>, b: seq<Entry>)
    ensures Flat(a + b) == Flat(a) + Flat(b)
  {
    if b == [] {
      assert a + b == a;
    } else {
      assert (a + b)[..|a + b| - 1] == a + b[..|b| - 1];
      FlatConcat(a, b[..|b| - 1]);
    }
  }

  lemma {:induction false} FlatOwn(opts: seq<ArgpOption>, cur: int, cluster: Option<Cluster>, path: Path)
    ensures Flat(OwnEntries(opts, cur, cluster, path)) == Locate(opts, path)
    decreases |opts|
  {
    if opts != [] {
      var n, group := RunLength(opts), EntryGroup(opts[0], cur);
      var e := Entry(opts[..n], 0, group, cluster, path);
      FlatOwn(opts[n..], group, cluster, path);
      FlatConcat([e], OwnEntries(opts[n..], group, cluster, path));
      assert [e][..0] == [];
      assert Flat([e]) == Locate(opts[..n], path);
    }
  }

  /** Both flattenings of a tree list the same options in the same order. */
  lemma {:induction false} SameOptions(a: Argp, cluster: Option<Cluster>, path: Path, g: nat)
    ensures Flat(TreeEntries(a, cluster, path)) == Erase(Occurrences(a, path, g))
  {
    hide Flat, OwnEntries, OwnOccurrences, Locate, Erase;
    var opts, g' := OptionsOf(a), if HasGroup(a) then g + 1 else g;
    FlatOwn(opts, 0, cluster, path);
    SameChildOptions(a.children, cluster, path, 0, g');
    FlatConcat(OwnEntries(opts, 0, cluster, path), ChildEntries(a.children, cluster, path, 0));
    assert Locate(opts, path) == Erase(OwnOccurrences(opts, |opts|, path, g));
    assert Erase(Occurrences(a, path, g))
        == Erase(OwnOccurrences(opts, |opts|, path, g)) + Erase(ChildOccurrences(a.children, path, 0, g'));
  }

  lemma {:induction false} SameChildOptions(cs: Children, cluster: Option<Cluster>, path: Path, i: nat, g: nat)
    ensures Flat(ChildEntries(cs, cluster, path, i)) == Erase(ChildOccurrences(cs, path, i, g))
  {
    hide Flat, Erase, Occurrences, TreeEntries, GroupCount;
    match cs
    case End =>
      NoOptions();
    case Child(a, _, _, next) =>
      var cl := ChildCluster(cs, cluster, i);
      SameOptions(a, cl, path + [i], g);
      SameChildOptions(next, cluster, path, i + 1, g + GroupCount(a));
      FlatConcat(TreeEntries(a, cl, path + [i]), ChildEntries(next, cluster, path, i + 1));
      assert Erase(ChildOccurrences(cs, path, i, g))
          == Erase(Occurrences(a, path + [i], g)) + Erase(ChildOccurrences(next, path, i + 1, g + GroupCount(a)));
  }

  lemma NoOptions()
    ensures Flat([]) == [] && Erase([]) == []
  {
  }

  // ----- Unshadowed options -----

  ghost function Opts(fs: seq<Located>): (r: seq<ArgpOption>)
    ensures |r| == |fs| && forall i :: 0 <= i < |r| ==> r[i] == fs[i].opt
  {
    seq(|fs|, i requires 0 <= i < |fs| => fs[i].opt)
  }

  predicate IsShortKey(o: ArgpOption, c: int)
  {
    IsShort(o) && o.key == c
  }

  lemma {:induction false} ShortKeysMembers(opts: seq<ArgpOption>, c: int)
    ensures c in ShortKeys(opts) <==> exists j :: 0 <= j < |opts| && IsShortKey(opts[j], c)
  {
    if opts != [] {
      ShortKeysMembers(opts[..|opts| - 1], c);
    }
  }

  lemma {:induction false} KeysOfFlat(es: seq<Entry>)
    ensures KeysOf(es) == ShortKeys(Opts(Flat(es)))
  {
    hide ShortKeys, Opts, Locate;
    if es == [] {
      assert Opts([]) == [] && ShortKeys([]) == [] by { NoKeysAtAll(); }
    } else {
      var init, e := es[..|es| - 1], es[|es| - 1];
      KeysOfFlat(init);
      ShortKeysConcat(Opts(Flat(init)), e.opts);
      assert Opts(Flat(es)) == Opts(Flat(init)) + e.opts;
    }
  }

  lemma NoKeysAtAll()
    ensures Opts([]) == [] && ShortKeys([]) == []
  {
  }

  /** Where option `j` of entry `i` stands among all options. */
  ghost function Position(es: seq<Entry>, i: nat, j: nat): nat
    requires i < |es|
  {
    |Flat(es[..i])| + j
  }

  lemma FlatPosition(es: seq<Entry>, i: nat, j: nat)
    requires i < |es| && j < |es[i].opts|
    ensures var n := Position(es, i, j);
            && n < |Flat(es)| && Flat(es)[n] == Located(es[i].path, es[i].opts[j])
            && KeysOf(es[..i]) + ShortKeys(es[i].opts[..j]) == ShortKeys(Opts(Flat(es))[..n])
  {
    hide ShortKeys, KeysOf, Flat, Locate, Opts;
    var before, opts := Flat(es[..i]), es[i].opts;
    FlatSplit(es, i);
    OptsSplit(before, opts, es[i].path, Flat(es[i + 1..]), j);
    KeysOfFlat(es[..i]);
    ShortKeysConcat(Opts(before), opts[..j]);
  }

  lemma FlatSplit(es: seq<Entry>, i: nat)
    requires i < |es|
    ensures Flat(es) == Flat(es[..i]) + Locate(es[i].opts, es[i].path) + Flat(es[i + 1..])
  {
    hide Locate, Flat;
    assert es == es[..i + 1] + es[i + 1..];
    FlatConcat(es[..i + 1], es[i + 1..]);
    FlatLast(es, i);
  }

  lemma FlatLast(es: seq<Entry>, i: nat)
    requires i < |es|
    ensures Flat(es[..i + 1]) == Flat(es[..i]) + Locate(es[i].opts, es[i].path)
  {
    hide Locate;
    assert es[..i + 1][..i] == es[..i];
  }

  lemma OptsSplit(before: seq<Located>, opts: seq<ArgpOption>, path: Path, behind: seq<Located>, j: nat)
    requires j < |opts|
    ensures var all, n := before + Locate(opts, path) + behind, |before| + j;
            n < |all| && all[n] == Located(path, opts[j]) && |Opts(all)| == |all| &&
              Opts(all)[..n] == Opts(before) + opts[..j]
  {
  }

  /** The option at position `n` is a short option and the first with its key. */
  ghost predicate Unshadowed(os: seq<Occurrence>, n: nat)
  {
    && n < |os| && IsShort(os[n].opt)
    && forall m :: 0 <= m < n ==> !IsShortKey(os[m].opt, os[n].opt.key)
  }

  /** What the help list shows of a tree: exactly its unshadowed short options. */
  lemma AcceptedIsUnshadowed(a: Argp, h: Hol, i: nat, j: nat)
    requires var es := TreeEntries(a, None, []); Lists(h, es) && i < |es| && j < |es[i].opts|
    ensures var es, os := TreeEntries(a, None, []), Occurrences(a, [], 0);
            var n := Position(es, i, j);
            && i < |h.entries| && h.entries[i].opts == es[i].opts && h.entries[i].path == es[i].path
            && n < |os| && os[n].opt == es[i].opts[j] && os[n].path == es[i].path
            && (Walk(h.entries[i].opts, h.short, h.entries[i].shortAt)[j] <==> Unshadowed(os, n))
  {
    hide Walk, Flat, KeysOf, ShortKeys, Occurrences, TreeEntries, Firsts, Position;
    var es, os := TreeEntries(a, None, []), Occurrences(a, [], 0);
    var n := Position(es, i, j);
    EntryAcceptsUnshadowed(h, es, i, j);
    FlatPosition(es, i, j);
    SameOptions(a, None, [], 0);
    ShortKeysMembers(Opts(Flat(es))[..n], es[i].opts[j].key);
    forall m | 0 <= m < n ensures Opts(Flat(es))[..n][m] == os[m].opt {
      assert Flat(es)[m] == Erase(os)[m];
    }
  }

  // ----- Agreement -----

  /** The only options that help and parser see differently: short aliases of
      documentation entries, which the parser ignores. */
  predicate DocAlias(o: Occurrence)
  {
    IsShort(o.opt) && o.base.doc
  }

  lemma UnshadowedDeclares(os: seq<Occurrence>, n: nat)
    requires Unshadowed(os, n)
    ensures FirstDeclarer(os, os[n].opt.key, n) <==> !DocAlias(os[n])
  {
  }

  /** Whether an entry of the help list accepts its option `j`. */
  ghost predicate Accepted(h: Hol, i: nat, j: nat)
  {
    i < |h.entries| && j < |h.entries[i].opts| && Walk(h.entries[i].opts, h.short, h.entries[i].shortAt)[j]
  }

  /** The parser hands the short option `key` to a group of the argp at `path`. */
  ghost predicate Reaches(a: Argp, inOrder: bool, noArgs: bool, key: int, path: Path)
  {
    var prefix := T.Prefix(inOrder, noArgs);
    var gs := Groups(a, [], None, 0, 0, |prefix|, 0);
    var g := DispatchShort(prefix + ShortString(Occurrences(a, [], 0)), gs, key);
    g.Some? && gs[g.value].path == path
  }

  /** When it does so for the argp of option `n`: if the first option to carry its key is of
      the same argp; or if the argp is the first of all and the key the ordering character. */
  ghost predicate OwnFirst(a: Argp, inOrder: bool, noArgs: bool, n: nat)
  {
    var os, prefix := Occurrences(a, [], 0), T.Prefix(inOrder, noArgs);
    var gs := Groups(a, [], None, 0, 0, |prefix|, 0);
    && n < |os|
    && if os[n].opt.key in prefix then gs != [] && gs[0].path == os[n].path
       else exists m: nat :: FirstCarrier(os, os[n].opt.key, m) && os[m].path == os[n].path
  }

  lemma ReachesExactly(a: Argp, inOrder: bool, noArgs: bool, n: nat)
    requires n < |Occurrences(a, [], 0)|
    ensures var o := Occurrences(a, [], 0)[n];
            Reaches(a, inOrder, noArgs, o.opt.key, o.path) <==> OwnFirst(a, inOrder, noArgs, n)
  {
    hide Occurrences, Groups, ShortString, DispatchShort, Carries, Owned;
    var os, prefix := Occurrences(a, [], 0), T.Prefix(inOrder, noArgs);
    var gs, c := Groups(a, [], None, 0, 0, |prefix|, 0), os[n].opt.key;
    TreeOwned(a, [], None, 0, 0, |prefix|, 0);
    OwnedGroup(os, gs, |prefix|, n);
    var g := DispatchShort(prefix + ShortString(os), gs, c);
    if g.Some? {
      DispatchExactly(prefix, os, gs, c, g.value);
    }
    DispatchExactly(prefix, os, gs, c, 0);
    forall m: nat | FirstCarrier(os, c, m) && c !in prefix
           ensures g == Some(os[m].group) && gs[os[m].group].path == os[m].path {
      DispatchExactly(prefix, os, gs, c, os[m].group);
      OwnedGroup(os, gs, |prefix|, m);
    }
  }

  lemma OwnedGroup(os: seq<Occurrence>, gs: seq<Group>, s: nat, n: nat)
    requires Owned(os, gs, 0, s) && n < |os|
    ensures os[n].group < |gs| && gs[os[n].group].path == os[n].path
  {
  }

  /** An option that help shows is dispatched to its own argp exactly if the first option to
      carry its key is of that argp. It is, and is that very option, unless the option is
      an alias of a documentation entry or its key a colon or the ordering character. */
  lemma HelpAgreesWithParser(a: Argp, h: Hol, i: nat, j: nat, inOrder: bool, noArgs: bool)
    requires Lists(h, TreeEntries(a, None, [])) && Accepted(h, i, j)
    ensures var os, n, key := Occurrences(a, [], 0), Position(TreeEntries(a, None, []), i, j), h.entries[i].opts[j].key;
            && n < |os| && Unshadowed(os, n) && os[n].opt == h.entries[i].opts[j] && os[n].path == h.entries[i].path
            && (Reaches(a, inOrder, noArgs, key, h.entries[i].path) <==> OwnFirst(a, inOrder, noArgs, n))
            && (!DocAlias(os[n]) && key != COLON && key !in T.Prefix(inOrder, noArgs) ==>
                  FirstDeclarer(os, key, n) && Reaches(a, inOrder, noArgs, key, h.entries[i].path))
  {
    hide Walk, Flat, Occurrences, TreeEntries, Reaches, Position, FirstDeclarer;
    var os, es := Occurrences(a, [], 0), TreeEntries(a, None, []);
    var n := Position(es, i, j);
    ListedEntry(h, es, i);
    AcceptedIsUnshadowed(a, h, i, j);
    ReachesExactly(a, inOrder, noArgs, n);
    UnshadowedDeclares(os, n);
    if FirstDeclarer(os, os[n].opt.key, n) && os[n].opt.key != COLON {
      DeclarerCarries(os, os[n].opt.key, n);
    }
  }

  lemma ListedEntry(h: Hol, es: seq<Entry>, i: nat)
    requires Lists(h, es) && i < |h.entries|
    ensures i < |es| && h.entries[i].opts == es[i].opts
  {
  }

  lemma DeclarerCarries(os: seq<Occurrence>, c: int, n: nat)
    requires FirstDeclarer(os, c, n) && c != COLON
    ensures FirstCarrier(os, c, n)
  {
    forall m | 0 <= m < |os| ensures Carries(os[m], c) <==> Declares(os[m], c) {
      CarriesDeclared(os[m], c);
    }
  }

  /** Parser and help agree on a whole tree exactly if every unshadowed short option has a key
      that an option of its own argp is the first to carry. */
  lemma AgreementCondition(a: Argp, h: Hol, inOrder: bool, noArgs: bool)
    requires Lists(h, TreeEntries(a, None, []))
    ensures (forall i: nat, j: nat :: Accepted(h, i, j) ==>
            Reaches(a, inOrder, noArgs, h.entries[i].opts[j].key, h.entries[i].path))
            <==> (forall n: nat :: Unshadowed(Occurrences(a, [], 0), n) ==> OwnFirst(a, inOrder, noArgs, n))
  {
    hide Lists, Walk, Occurrences, TreeEntries, Reaches, OwnFirst, Position, FirstDeclarer, Unshadowed, DocAlias;
    var os, es := Occurrences(a, [], 0), TreeEntries(a, None, []);
    ListedShort(h, es);
    forall i: nat, j: nat | Accepted(h, i, j)
      ensures Reaches(a, inOrder, noArgs, h.entries[i].opts[j].key, h.entries[i].path)
              <==> OwnFirst(a, inOrder, noArgs, Position(es, i, j))
      ensures Unshadowed(os, Position(es, i, j))
    {
      HelpAgreesWithParser(a, h, i, j, inOrder, noArgs);
    }
    forall n: nat | Unshadowed(os, n)
      ensures exists i: nat, j: nat :: Accepted(h, i, j) && i < |es| && Position(es, i, j) == n
    {
      var i, j := UnshadowedAccepted(a, h, n);
    }
  }

  /** Every unshadowed short option of a tree is accepted by the entry that has it. */
  lemma UnshadowedAccepted(a: Argp, h: Hol, n: nat) returns (i: nat, j: nat)
    requires Lists(h, TreeEntries(a, None, [])) && Unshadowed(Occurrences(a, [], 0), n)
    ensures i < |TreeEntries(a, None, [])| && Accepted(h, i, j) && Position(TreeEntries(a, None, []), i, j) == n
  {
    hide Walk, Flat, Occurrences, TreeEntries;
    var os, es := Occurrences(a, [], 0), TreeEntries(a, None, []);
    SameOptions(a, None, [], 0);
    assert |Flat(es)| == |os|;
    i, j := PositionOnto(es, n);
    AcceptedIsUnshadowed(a, h, i, j);
  }

  lemma {:induction false} PositionOnto(es: seq<Entry>, n: nat) returns (i: nat, j: nat)
    requires n < |Flat(es)|
    ensures i < |es| && j < |es[i].opts| && Position(es, i, j) == n
  {
    var front := es[..|es| - 1];
    if n < |Flat(front)| {
      i, j := PositionOnto(front, n);
      assert es[..i] == front[..i];
    } else {
      i, j := |es| - 1, n - |Flat(front)|;
    }
  }

  /** The failing case: help accepts the short alias of a documentation entry, the
      parser dispatches it nowhere. */
  lemma DocAliasDisagrees(entry: ArgpOption, alt: ArgpOption)
    requires entry.doc && !entry.isAlias && alt.isAlias && IsShort(alt)
    ensures var a := Argp(Some([entry, alt]), true, None, Children.End);
            var os := Occurrences(a, [], 0);
            Unshadowed(os, 1) && DispatchShort(ShortString(os), Groups(a, [], None, 0, 0, 0, 0), alt.key) == None
  {
  }
}
