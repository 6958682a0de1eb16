/**
 Long names in parser and help. Help shows every visible name of every entry, while
 the parser keeps only the first option of each name.
 */
module ArgpLongNames {
  import opened Wrappers
  import opened ArgpTree
  import opened ArgpConvert
  import opened ArgpHol
  import opened ArgpAgreement

  predicate ShowsName(o: ArgpOption)
  {
    o.name.Some? && !o.hidden
  }

  /** The loop of `hol_entry_long_iterate`, as the indices of the options shown: there is no
      shadowing. */
  method LongIterate(e: Entry) returns (shown: seq<nat>)
    ensures forall i, j :: 0 <= i < j < |shown| ==> shown[i] < shown[j]
    ensures forall j: nat :: j in shown <==> j < |e.opts| && ShowsName(e.opts[j])
  {
    shown := [];
    for i := 0 to |e.opts|
      invariant forall k, j :: 0 <= k < j < |shown| ==> shown[k] < shown[j]
      invariant forall k :: 0 <= k < |shown| ==> shown[k] < i
      invariant forall j: nat :: j in shown <==> j < i && ShowsName(e.opts[j])
    {
      if e.opts[i].name.Some? {
        if !e.opts[i].hidden {
          shown := shown + [i];
        }
      }
    }
  }

  /** Whether an entry of the help list shows the name of its option `j`. */
  ghost predicate Shown(h: Hol, i: nat, j: nat)
  {
    i < |h.entries| && j < |h.entries[i].opts| && ShowsName(h.entries[i].opts[j])
  }

  /** The parser hands the long option `name` to the group of the argp at `path`; `s` is the
      length of what precedes the short options. */
  ghost predicate ReachesName(a: Argp, s: nat, name: string, path: Path)
  {
    var t, gs := AddAllLong([], Occurrences(a, [], 0)), Groups(a, [], None, 0, 0, s, 0);
    exists i :: 0 <= i < |t| && t[i].name == name && ToPath(gs, GroupKey(t[i].val), path)
  }

  ghost predicate ToPath(gs: seq<Group>, key: int, path: Path)
  {
    1 <= key <= |gs| && gs[key - 1].path == path
  }

  /** The first option with the name of option `n` is of the same argp. */
  ghost predicate OwnName(os: seq<Occurrence>, n: nat)
  {
    && n < |os| && os[n].opt.name.Some?
    && exists m: nat :: FirstNamed(os, os[n].opt.name.value, m) && os[m].path == os[n].path
  }

  /** The group is decoded from a value exactly if there are at most 127 of them, whatever the key. */
  lemma GroupIsExact(key: int, group: nat)
    ensures GroupKey(Encode(key, group)) == group + 1 <==> group + 1 <= 127
  {
  }

  lemma TableEntryGroup(os: seq<Occurrence>, gs: seq<Group>, s: nat, l: LongOption) returns (m: nat)
    requires Owned(os, gs, 0, s) && |gs| <= 127 && FromFirst(os, l)
    ensures FirstNamed(os, l.name, m) && forall path :: ToPath(gs, GroupKey(l.val), path) <==> path == os[m].path
  {
    m :| FirstNamed(os, l.name, m) && l == LongEntry(os[m]);
    OwnedGroup(os, gs, s, m);
    GroupIsExact(if os[m].opt.key != 0 then os[m].opt.key else os[m].base.key, os[m].group);
  }

  /** A long option reaches the argp of an option with its name exactly if the first with the
      name is of that argp. */
  lemma ReachesNameExactly(a: Argp, s: nat, n: nat)
    requires n < |Occurrences(a, [], 0)| && Occurrences(a, [], 0)[n].opt.name.Some?
    requires GroupCount(a) <= 127
    ensures var os := Occurrences(a, [], 0);
            ReachesName(a, s, os[n].opt.name.value, os[n].path) <==> OwnName(os, n)
  {
    hide Occurrences, Groups, AddAllLong, GroupKey, Owned, FromFirst, ToPath, FirstNamed, Named;
    var os, gs := Occurrences(a, [], 0), Groups(a, [], None, 0, 0, s, 0);
    var t, name := AddAllLong([], os), os[n].opt.name.value;
    TreeOwned(a, [], None, 0, 0, s, 0);
    GroupsCount(a, [], None, 0, 0, s, 0);
    LongTable(os);
    forall i | 0 <= i < |t| && t[i].name == name
      ensures ToPath(gs, GroupKey(t[i].val), os[n].path) <==> OwnName(os, n)
    {
      var m := TableEntryGroup(os, gs, s, t[i]);
      FirstNamedUnique(os, name, m);
    }
    if m: nat :| FirstNamed(os, name, m) {
      FirstIsNamed(os, name, m);
      assert HasName(t, name);
    }
  }

  lemma FirstNamedUnique(os: seq<Occurrence>, name: string, m: nat)
    requires FirstNamed(os, name, m)
    ensures forall k: nat :: FirstNamed(os, name, k) ==> k == m
  {
  }

  lemma FirstIsNamed(os: seq<Occurrence>, name: string, m: nat)
    requires FirstNamed(os, name, m)
    ensures m < |os| && Named(os[m], name)
  {
  }

  /** A name that help shows for an argp is dispatched to it exactly if the first option with
      the name is of that argp. */
  lemma ShownNameAgrees(a: Argp, h: Hol, i: nat, j: nat, s: nat)
    requires Lists(h, TreeEntries(a, None, [])) && Shown(h, i, j) && GroupCount(a) <= 127
    ensures var os, n := Occurrences(a, [], 0), Position(TreeEntries(a, None, []), i, j);
            && n < |os| && os[n].opt == h.entries[i].opts[j] && os[n].path == h.entries[i].path
            && (ReachesName(a, s, h.entries[i].opts[j].name.value, h.entries[i].path) <==> OwnName(os, n))
  {
    hide Occurrences, TreeEntries, ReachesName, OwnName, Walk, Position;
    ListedEntry(h, TreeEntries(a, None, []), i);
    AcceptedIsUnshadowed(a, h, i, j);
    ReachesNameExactly(a, s, Position(TreeEntries(a, None, []), i, j));
  }

  /** Parser and help agree on the long names of a whole tree exactly if every visible name is
      first declared by the argp it is shown for. */
  lemma NameAgreementCondition(a: Argp, h: Hol, s: nat)
    requires Lists(h, TreeEntries(a, None, [])) && GroupCount(a) <= 127
    ensures (forall i: nat, j: nat :: Shown(h, i, j) ==>
            ReachesName(a, s, h.entries[i].opts[j].name.value, h.entries[i].path))
            <==> (forall n: nat :: n < |Occurrences(a, [], 0)| && ShowsName(Occurrences(a, [], 0)[n].opt) ==>
                                     OwnName(Occurrences(a, [], 0), n))
  {
    hide Lists, Occurrences, TreeEntries, ReachesName, OwnName, Position, Walk;
    var os, es := Occurrences(a, [], 0), TreeEntries(a, None, []);
    ListedShort(h, es);
    forall i: nat, j: nat | Shown(h, i, j)
      ensures var n := Position(es, i, j); n < |os| && os[n].opt == h.entries[i].opts[j]
      ensures ReachesName(a, s, h.entries[i].opts[j].name.value, h.entries[i].path) <==> OwnName(os, Position(es, i, j))
    {
      ShownNameAgrees(a, h, i, j, s);
    }
    forall n: nat | n < |os| && ShowsName(os[n].opt)
      ensures exists i: nat, j: nat :: Shown(h, i, j) && i < |es| && Position(es, i, j) == n
    {
      var i, j := VisibleShown(a, h, n);
    }
  }

  lemma VisibleShown(a: Argp, h: Hol, n: nat) returns (i: nat, j: nat)
    requires Lists(h, TreeEntries(a, None, [])) && n < |Occurrences(a, [], 0)|
    requires ShowsName(Occurrences(a, [], 0)[n].opt)
    ensures i < |TreeEntries(a, None, [])| && Shown(h, i, j) && Position(TreeEntries(a, None, []), i, j) == n
  {
    hide Walk, Flat, Occurrences, TreeEntries;
    var os, es := Occurrences(a, [], 0), TreeEntries(a, None, []);
    SameOptions(a, None, [], 0);
    assert |Flat(es)| == |os|;
    i, j := PositionOnto(es, n);
    AcceptedIsUnshadowed(a, h, i, j);
  }

  /** The failing case: a child that repeats a name of its parent. Help shows the name for
      both, the parser hands it to the parent. */
  lemma RepeatedNameDisagrees(first: ArgpOption, second: ArgpOption, s: nat)
    requires !first.doc && first.name.Some? && second.name == first.name && !second.hidden
    ensures var child := Argp(Some([second]), true, None, Children.End);
            var a := Argp(Some([first]), true, None, Child(child, 0, None, Children.End));
            var os := Occurrences(a, [], 0);
            && |os| == 2 && os[1].path == [0] && ShowsName(os[1].opt) && !OwnName(os, 1)
            && !ReachesName(a, s, second.name.value, [0])
  {
    var child := Argp(Some([second]), true, None, Children.End);
    var a := Argp(Some([first]), true, None, Child(child, 0, None, Children.End));
    var os := Occurrences(a, [], 0);
    OneOption(first, [], 0, a.children);
    OneOption(second, [0], 1, Children.End);
    var root: Path := [];
    assert root + [0] == [0] && ChildOccurrences(Children.End, [0], 0, 2) == [];
    assert ChildOccurrences(a.children, [], 0, 1)
        == Occurrences(child, root + [0], 1) + ChildOccurrences(Children.End, [], 1, 2);
    assert os == [Occurrence([], 0, first, first), Occurrence([0], 1, second, second)];
    assert GroupCount(child) == 1 && GroupCounts(a.children) == 1 + GroupCounts(Children.End);
    assert FirstNamed(os, second.name.value, 0);
    assert GroupCount(a) == 2;
    FirstNamedUnique(os, second.name.value, 0);
    hide *;
    ReachesNameExactly(a, s, 1);
  }
  lemma OneOption(o: ArgpOption, path: Path, g: nat, cs: Children)
    ensures Occurrences(Argp(Some([o]), true, None, cs), path, g) ==
            [Occurrence(path, g, o, o)] + ChildOccurrences(cs, path, 0, g + 1)
  {
  }
}
