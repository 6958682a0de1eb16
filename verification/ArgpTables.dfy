/**
 The parser's tables, written in place: storage is reserved by `calc_sizes` and
 filled by `convert_options` through cursors that must stay inside it.
 */
module ArgpTables {
  import opened Wrappers
  import opened Sequences
  import opened ArgpTree
  import opened ArgpConvert

  /** `struct parser_sizes`. */
  datatype Sizes = Sizes(shortLen: nat, longLen: nat, numGroups: nat, numChildInputs: nat)

  /** `calc_sizes`. */
  method CalcSizes(a: Argp, szs: Sizes) returns (r: Sizes)
    ensures r == Sizes(szs.shortLen + 3 * OptionCount(a), szs.longLen + OptionCount(a),
                       szs.numGroups + GroupCount(a), szs.numChildInputs + ChildCount(a))
    decreases a
  {
    r := szs;
    if HasGroup(a) {
      r := r.(numGroups := r.numGroups + 1);
      if a.options.Some? {
        var numOpts := |a.options.value|;
        r := r.(shortLen := r.shortLen + numOpts * 3, longLen := r.longLen + numOpts);
      }
    }
    var child := a.children;
    while child.Child?
      invariant child == a.children || child < a
      invariant r.shortLen + 3 * OptionCounts(child) == szs.shortLen + 3 * OptionCount(a)
      invariant r.longLen + OptionCounts(child) == szs.longLen + OptionCount(a)
      invariant r.numGroups + GroupCounts(child) == szs.numGroups + GroupCount(a)
      invariant r.numChildInputs + ChildCounts(child) == szs.numChildInputs + ChildCount(a)
      decreases child
    {
      r := CalcSizes(child.argp, r);
      r := r.(numChildInputs := r.numChildInputs + 1);
      child := child.next;
    }
  }

  lemma OwnStart(opts: seq<ArgpOption>, path: Path, g: nat, long: seq<LongOption>)
    ensures ShortString(OwnOccurrences(opts, 0, path, g)) == []
    ensures AddAllLong(long, OwnOccurrences(opts, 0, path, g)) == long
    ensures ShortString([]) == [] && AddAllLong(long, []) == long
  {
  }

  lemma OwnStep(opts: seq<ArgpOption>, i: nat, path: Path, g: nat, long: seq<LongOption>)
    requires i < |opts|
    ensures var os, os', o := OwnOccurrences(opts, i, path, g), OwnOccurrences(opts, i + 1, path, g),
                              Occurrence(path, g, opts[i], Base(opts, i));
            && ShortString(os') == ShortString(os) + ShortPiece(o)
            && AddAllLong(long, os') == AddLong(AddAllLong(long, os), o)
  {
  }

  lemma OwnPrefix(opts: seq<ArgpOption>, i: nat, path: Path, g: nat)
    requires i <= |opts|
    ensures |ShortString(OwnOccurrences(opts, i, path, g))| <= |ShortString(OwnOccurrences(opts, |opts|, path, g))|
  {
    hide *;
    var os := OwnOccurrences(opts, |opts|, path, g);
    ShortPrefix(os, i);
    assert os[..i] == OwnOccurrences(opts, i, path, g);
  }

  lemma ShortPrefix(os: seq<Occurrence>, i: nat)
    requires i <= |os|
    ensures |ShortString(os[..i])| <= |ShortString(os)|
  {
    hide *;
    assert os == os[..i] + os[i..];
    ShortStringConcat(os[..i], os[i..]);
  }

  /** What a tree adds to the tables: what its root adds, and what the children add. */
  lemma TreeParts(a: Argp, path: Path, parent: Option<nat>, index: nat, g: nat, s: nat, c: nat, long: seq<LongOption>)
    ensures var own := OwnOccurrences(OptionsOf(a), |OptionsOf(a)|, path, g);
            var below := ChildOccurrences(a.children, path, 0, if HasGroup(a) then g + 1 else g);
            var os, end, n := Occurrences(a, path, g), s + |ShortString(own)|, NumChildren(a.children);
            && ShortString(os) == ShortString(own) + ShortString(below)
            && AddAllLong(long, os) == AddAllLong(AddAllLong(long, own), below)
            && OptionCount(a) == |OptionsOf(a)| + OptionCounts(a.children)
            && if HasGroup(a) then
                 && Groups(a, path, parent, index, g, s, c)
                    == [Group(path, a.parser, end, parent, index, c, n)]
                       + ChildGroups(a.children, path, Some(g), 0, g + 1, end, c + n)
                 && Slots(a) == n + ChildSlots(a.children) && GroupCount(a) == 1 + GroupCounts(a.children)
               else
                 && ShortString(own) == [] && AddAllLong(long, own) == long
                 && Groups(a, path, parent, index, g, s, c) == ChildGroups(a.children, path, None, 0, g, s, c)
                 && Slots(a) == ChildSlots(a.children) && GroupCount(a) == GroupCounts(a.children)
  {
    hide ShortString, AddAllLong;
    var own := OwnOccurrences(OptionsOf(a), |OptionsOf(a)|, path, g);
    var below := ChildOccurrences(a.children, path, 0, if HasGroup(a) then g + 1 else g);
    ShortStringConcat(own, below);
    AddAllLongConcat(long, own, below);
    OwnStart(OptionsOf(a), path, g, long);
  }

  /** The tables of `struct parser`, with the cursors of `struct parser_convert_state`. */
  class Tables {
    const shortOpts: array<int>
    const longOpts: array<Option<LongOption>>
    const groups: array<Option<Group>>
    const childInputs: nat

    var shortEnd: nat
    var longEnd: nat
    var groupEnd: nat
    var childInputsEnd: nat

    /** What has been written so far. */
    ghost var short: seq<int>
    ghost var long: seq<LongOption>
    ghost var made: seq<Group>

    ghost predicate Counted()
      reads this
    {
      |short| == shortEnd && |long| == longEnd && |made| == groupEnd
    }

    /** The tables hold what has been written, and the option tables are terminated. */
    ghost predicate Valid()
      reads this, shortOpts, longOpts, groups
    {
      && shortEnd < shortOpts.Length && longEnd < longOpts.Length && groupEnd < groups.Length
      && childInputsEnd <= childInputs
      && Counted()
      && shortOpts[..shortEnd] == short && 0 !in short && shortOpts[shortEnd] == 0
      && (forall i :: 0 <= i < longEnd ==> longOpts[i] == Some(long[i])) && longOpts[longEnd] == None
      && (forall i :: 0 <= i < groupEnd ==> groups[i] == Some(made[i]))
    }

    constructor (szs: Sizes)
      ensures Valid() && fresh(this) && fresh(shortOpts) && fresh(longOpts) && fresh(groups)
      ensures shortOpts.Length == szs.shortLen + 1 && longOpts.Length == szs.longLen + 1
      ensures groups.Length == szs.numGroups + 1 && childInputs == szs.numChildInputs
      ensures short == [] && long == [] && made == [] && childInputsEnd == 0
    {
      shortOpts := new int[szs.shortLen + 1](_ => 0);
      longOpts := new Option<LongOption>[szs.longLen + 1](_ => None);
      groups := new Option<Group>[szs.numGroups + 1](_ => None);
      childInputs := szs.numChildInputs;
      shortEnd, longEnd, groupEnd, childInputsEnd := 0, 0, 0, 0;
      short, long, made := [], [], [];
    }

    method PutShort(c: int)
      requires Valid() && c != 0 && shortEnd + 1 < shortOpts.Length
      modifies this`shortEnd, this`short, shortOpts
      ensures Valid() && short == old(short) + [c] && shortEnd == old(shortEnd) + 1
    {
      shortOpts[shortEnd] := c;
      shortEnd := shortEnd + 1;
      shortOpts[shortEnd] := 0;
      short := short + [c];
    }

    /** `find_long_option`: walk to the entry with this name or to the terminator. */
    method FindLongOption(name: string) returns (found: bool)
      requires Valid()
      ensures found == HasName(long, name)
    {
      var l := 0;
      while longOpts[l].Some?
        invariant l <= longEnd
        invariant forall i :: 0 <= i < l ==> long[i].name != name
        decreases longEnd - l
      {
        if longOpts[l].value.name == name {
          return true;
        }
        l := l + 1;
      }
      return false;
    }

    method AddShort(o: Occurrence)
      requires Valid() && shortEnd + |ShortPiece(o)| < shortOpts.Length
      modifies this`shortEnd, this`short, shortOpts
      ensures Valid() && short == old(short) + ShortPiece(o)
    {
      if !o.base.doc && IsShort(o.opt) {
        PutShort(o.opt.key);
        if o.base.arg {
          PutShort(COLON);
          if o.base.argOptional {
            PutShort(COLON);
          }
        }
      }
    }

    method AddLongOption(o: Occurrence)
      requires Valid() && longEnd + 1 < longOpts.Length
      modifies this`longEnd, this`long, longOpts
      ensures Valid() && long == AddLong(old(long), o) && longEnd <= old(longEnd) + 1
    {
      if !o.base.doc && o.opt.name.Some? {
        var found := FindLongOption(o.opt.name.value);
        if !found {
          longOpts[longEnd] := Some(LongEntry(o));
          longEnd := longEnd + 1;
          longOpts[longEnd] := None;
          long := long + [LongEntry(o)];
        }
      }
    }

    /** The loop over the options of one argp. */
    method AddOptions(opts: seq<ArgpOption>, path: Path)
      requires Valid() && longEnd + |opts| < longOpts.Length
      requires shortEnd + |ShortString(OwnOccurrences(opts, |opts|, path, groupEnd))| < shortOpts.Length
      modifies this`shortEnd, this`short, this`longEnd, this`long, shortOpts, longOpts
      ensures Valid()
      ensures short == old(short) + ShortString(OwnOccurrences(opts, |opts|, path, groupEnd))
      ensures long == AddAllLong(old(long), OwnOccurrences(opts, |opts|, path, groupEnd))
    {
      hide ShortPiece, AddLong, ShortString, AddAllLong, OwnOccurrences;
      OwnStart(opts, path, groupEnd, long);
      if opts == [] {
        return;
      }
      var base := opts[0];
      for i := 0 to |opts|
        invariant Valid()
        invariant longEnd + (|opts| - i) < longOpts.Length
        invariant base == Base(opts, if i > 0 then i - 1 else 0)
        invariant short == old(short) + ShortString(OwnOccurrences(opts, i, path, groupEnd))
        invariant long == AddAllLong(old(long), OwnOccurrences(opts, i, path, groupEnd))
      {
        if !opts[i].isAlias {
          base := opts[i];
        }
        OwnStep(opts, i, path, groupEnd, old(long));
        OwnPrefix(opts, i + 1, path, groupEnd);
        var o := Occurrence(path, groupEnd, opts[i], base);
        AddShort(o);
        AddLongOption(o);
      }
    }

    /** Room for `s` more characters, `n` long options, `g` groups and `c` child inputs. */
    ghost predicate Room(s: nat, n: nat, g: nat, c: nat)
      reads this
    {
      && shortEnd + s < shortOpts.Length && longEnd + n < longOpts.Length
      && groupEnd + g < groups.Length && childInputsEnd + c <= childInputs
    }

    /** The options, the group and the child-input slice of one argp. */
    method MakeGroup(a: Argp, path: Path, parent: Option<nat>, index: nat)
      requires Valid() && Counted()
      requires Room(|ShortString(OwnOccurrences(OptionsOf(a), |OptionsOf(a)|, path, groupEnd))|, |OptionsOf(a)|, 1,
                    NumChildren(a.children))
      modifies this, shortOpts, longOpts, groups
      ensures Valid() && Counted()
      ensures var os := OwnOccurrences(OptionsOf(a), |OptionsOf(a)|, path, old(groupEnd));
              && short == old(short) + ShortString(os) && long == AddAllLong(old(long), os)
              && made == old(made)
                 + [Group(path, a.parser, shortEnd, parent, index, old(childInputsEnd), NumChildren(a.children))]
      ensures childInputsEnd == old(childInputsEnd) + NumChildren(a.children)
    {
      hide ShortString, AddAllLong, OwnOccurrences;
      AddOptions(OptionsOf(a), path);
      var numChildren := 0;
      var child := a.children;
      while child.Child?
        invariant numChildren + NumChildren(child) == NumChildren(a.children)
        decreases child
      {
        numChildren := numChildren + 1;
        child := child.next;
      }
      ghost var group := Group(path, a.parser, shortEnd, parent, index, childInputsEnd, numChildren);
      groups[groupEnd] := Some(Group(path, a.parser, shortEnd, parent, index, childInputsEnd, numChildren));
      made := made + [group];
      groupEnd := groupEnd + 1;
      childInputsEnd := childInputsEnd + numChildren;
    }

    /** `convert_options`: everything that is written for the argps below `a` fits into
        the room reserved for them. */
    method ConvertOptions(a: Argp, path: Path, parent: Option<nat>, index: nat)
      requires Valid() && Counted()
      requires Room(|ShortString(Occurrences(a, path, groupEnd))|, OptionCount(a), GroupCount(a), Slots(a))
      modifies this, shortOpts, longOpts, groups
      ensures Valid() && Counted()
      ensures var os := Occurrences(a, path, old(groupEnd));
              && short == old(short) + ShortString(os) && long == AddAllLong(old(long), os)
              && made == old(made) + Groups(a, path, parent, index, old(groupEnd), old(shortEnd), old(childInputsEnd))
              && childInputsEnd == old(childInputsEnd) + Slots(a)
      decreases a, 1
    {
      hide Valid, ShortString, AddAllLong, OwnOccurrences, Occurrences, ChildOccurrences, Groups, ChildGroups, Slots,
           NumChildren,
           GroupCount, OptionCount;
      TreeParts(a, path, parent, index, groupEnd, shortEnd, childInputsEnd, long);
      ghost var own := OwnOccurrences(OptionsOf(a), |OptionsOf(a)|, path, groupEnd);
      ghost var below := ChildOccurrences(a.children, path, 0, if HasGroup(a) then groupEnd + 1 else groupEnd);
      Regroup(short, ShortString(own), ShortString(below));
      var us := None;
      if HasGroup(a) {
        us := Some(groupEnd);
        MakeGroup(a, path, parent, index);
      }
      ConvertChildren(a.children, path, us);
    }

    /** The part of `parser_parse_opt` that finds the group of a short option: the
        first group whose short options end behind the first occurrence of the key. */
    method FindShortGroup(opt: int) returns (group: Option<nat>)
      requires Valid() && opt != 0
      ensures group == DispatchShort(short, made, opt)
    {
      var shortIndex := 0;
      while shortOpts[shortIndex] != 0 && shortOpts[shortIndex] != opt
        invariant 0 <= shortIndex <= shortEnd
        invariant Strchr(short, opt) ==
                  match Strchr(short[shortIndex..], opt) case None => None case Some(i) => Some(shortIndex + i)
        decreases shortEnd - shortIndex
      {
        assert shortOpts[shortIndex] == short[shortIndex];
        assert short[shortIndex..][1..] == short[shortIndex + 1..];
        shortIndex := shortIndex + 1;
      }
      if shortIndex < shortEnd {
        assert shortOpts[..shortEnd][shortIndex] in short;
      }
      if shortOpts[shortIndex] == 0 {
        return None;
      }
      var g := 0;
      while g < groupEnd
        invariant 0 <= g <= groupEnd
        invariant FirstPast(made, shortIndex) ==
                  match FirstPast(made[g..], shortIndex) case None => None case Some(k) => Some(g + k)
      {
        if groups[g].value.shortEnd > shortIndex {
          return Some(g);
        }
        assert made[g..][1..] == made[g + 1..];
        g := g + 1;
      }
      return None;
    }

    /** One child, leaving room for the others. */
    method ConvertChild(cs: Children, path: Path, parent: Option<nat>, index: nat)
      requires cs.Child? && Valid() && Counted()
      requires Room(|ShortString(ChildOccurrences(cs, path, index, groupEnd))|, OptionCounts(cs), GroupCounts(cs),
               ChildSlots(cs))
      modifies this, shortOpts, longOpts, groups
      ensures Valid() && Counted()
      ensures var os := Occurrences(cs.argp, path + [index], old(groupEnd));
              && short == old(short) + ShortString(os) && long == AddAllLong(old(long), os)
              && made == old(made) + Groups(cs.argp, path + [index], parent, index, old(groupEnd), old(shortEnd),
                                            old(childInputsEnd))
              && groupEnd == old(groupEnd) + GroupCount(cs.argp)
              && shortEnd == old(shortEnd) + |ShortString(os)|
              && childInputsEnd == old(childInputsEnd) + Slots(cs.argp)
      ensures Room(|ShortString(ChildOccurrences(cs.next, path, index + 1, groupEnd))|, OptionCounts(cs.next),
                   GroupCounts(cs.next), ChildSlots(cs.next))
      decreases cs, 0
    {
      hide Valid, ShortString, AddAllLong, Occurrences, Groups, Slots, GroupCount, OptionCount;
      GroupsCount(cs.argp, path + [index], parent, index, groupEnd, shortEnd, childInputsEnd);
      OccurrencesCount(cs.argp, path + [index], groupEnd);
      ShortStringConcat(Occurrences(cs.argp, path + [index], groupEnd),
                        ChildOccurrences(cs.next, path, index + 1, groupEnd + GroupCount(cs.argp)));
      ConvertOptions(cs.argp, path + [index], parent, index);
    }

    /** The loop over the children. */
    method ConvertChildren(children: Children, path: Path, parent: Option<nat>)
      requires Valid() && Counted()
      requires Room(|ShortString(ChildOccurrences(children, path, 0, groupEnd))|, OptionCounts(children),
               GroupCounts(children),
                    ChildSlots(children))
      modifies this, shortOpts, longOpts, groups
      ensures Valid() && Counted()
      ensures var os := ChildOccurrences(children, path, 0, old(groupEnd));
              && short == old(short) + ShortString(os) && long == AddAllLong(old(long), os)
              && made == old(made)
                 + ChildGroups(children, path, parent, 0, old(groupEnd), old(shortEnd), old(childInputsEnd))
              && childInputsEnd == old(childInputsEnd) + ChildSlots(children)
      decreases children, 1
    {
      hide *;
      OwnStart([], path, 0, long);
      ghost var os, gs := [], [];
      var cs, index := children, 0;
      ConvertingStart(children, path, parent, groupEnd, shortEnd, childInputsEnd);
      while cs.Child?
        invariant cs == children || cs < children
        invariant Valid() && Counted()
        invariant Room(|ShortString(ChildOccurrences(cs, path, index, groupEnd))|, OptionCounts(cs), GroupCounts(cs),
                  ChildSlots(cs))
        invariant short == old(short) + ShortString(os) && long == AddAllLong(old(long), os) && made == old(made) + gs
        invariant Converting(children, path, parent, old(groupEnd), old(shortEnd), old(childInputsEnd),
                             cs, index, groupEnd, shortEnd, childInputsEnd, os, gs)
        decreases cs
      {
        ghost var own := Occurrences(cs.argp, path + [index], groupEnd);
        ghost var more := Groups(cs.argp, path + [index], parent, index, groupEnd, shortEnd, childInputsEnd);
        ShortStringConcat(os, own);
        AddAllLongConcat(old(long), os, own);
        Regroup(old(short), ShortString(os), ShortString(own));
        Regroup(old(made), gs, more);
        ConvertingStep(children, path, parent, old(groupEnd), old(shortEnd), old(childInputsEnd),
                       cs, index, groupEnd, shortEnd, childInputsEnd, os, gs);
        ConvertChild(cs, path, parent, index);
        os, gs := os + own, gs + more;
        cs, index := cs.next, index + 1;
      }
      ConvertingEnd(children, path, parent, old(groupEnd), old(shortEnd), old(childInputsEnd),
                    cs, index, groupEnd, shortEnd, childInputsEnd, os, gs);
    }
  }

  /** Part of the loop over the children is done: `os` and `gs` are its options and
      groups, and the children `cs`, from number `index` on, are still to come. */
  ghost predicate Converting(children: Children, path: Path, parent: Option<nat>, g0: nat, s0: nat, c0: nat,
                             cs: Children, index: nat, g: nat, s: nat, c: nat, os: seq<Occurrence>, gs: seq<Group>)
  {
    && os + ChildOccurrences(cs, path, index, g) == ChildOccurrences(children, path, 0, g0)
    && gs + ChildGroups(cs, path, parent, index, g, s, c) == ChildGroups(children, path, parent, 0, g0, s0, c0)
    && c + ChildSlots(cs) == c0 + ChildSlots(children)
  }

  lemma ConvertingStart(children: Children, path: Path, parent: Option<nat>, g: nat, s: nat, c: nat)
    ensures Converting(children, path, parent, g, s, c, children, 0, g, s, c, [], [])
  {
  }

  lemma ConvertingStep(children: Children, path: Path, parent: Option<nat>, g0: nat, s0: nat, c0: nat,
                       cs: Children, index: nat, g: nat, s: nat, c: nat, os: seq<Occurrence>, gs: seq<Group>)
    requires cs.Child? && Converting(children, path, parent, g0, s0, c0, cs, index, g, s, c, os, gs)
    ensures var own, more := Occurrences(cs.argp, path + [index], g),
            Groups(cs.argp, path + [index], parent, index, g, s, c);
            Converting(children, path, parent, g0, s0, c0, cs.next, index + 1, g + GroupCount(cs.argp),
                       s + |ShortString(own)|,
                       c + Slots(cs.argp), os + own, gs + more)
  {
    hide Occurrences, Groups, Slots, GroupCount, ShortString;
    var own, more := Occurrences(cs.argp, path + [index], g), Groups(cs.argp, path + [index], parent, index, g, s, c);
    var g', s', c' := g + GroupCount(cs.argp), s + |ShortString(own)|, c + Slots(cs.argp);
    Regroup(os, own, ChildOccurrences(cs.next, path, index + 1, g'));
    Regroup(gs, more, ChildGroups(cs.next, path, parent, index + 1, g', s', c'));
  }

  lemma ConvertingEnd(children: Children, path: Path, parent: Option<nat>, g0: nat, s0: nat, c0: nat,
                      cs: Children, index: nat, g: nat, s: nat, c: nat, os: seq<Occurrence>, gs: seq<Group>)
    requires cs.End? && Converting(children, path, parent, g0, s0, c0, cs, index, g, s, c, os, gs)
    ensures os == ChildOccurrences(children, path, 0, g0) && gs == ChildGroups(children, path, parent, 0, g0, s0, c0)
    ensures c == c0 + ChildSlots(children)
  {
  }

  // ----- parser_init -----

  /** The ordering flag that getopt wants in front of the short options. */
  function Prefix(inOrder: bool, noArgs: bool): seq<int>
  {
    if inOrder then ['-' as int] else if noArgs then ['+' as int] else []
  }

  /** The storage reserved for the short-option string, with its terminator. */
  function ShortReserved(a: Argp, noArgs: bool): nat
  {
    (if noArgs then 0 else 1) + 3 * OptionCount(a) + 1
  }

  /** The short-option string fits into what is reserved for it exactly if the flag
      ARGP_NO_ARGS is not given, or some option needs less than three characters. */
  lemma ShortStringFits(a: Argp, inOrder: bool, noArgs: bool)
    ensures var os := Occurrences(a, [], 0);
            |Prefix(inOrder, noArgs)| + |ShortString(os)| + 1 <= ShortReserved(a, noArgs)
            <==> !noArgs || exists n :: 0 <= n < |os| && |ShortPiece(os[n])| < 3
  {
    var os := Occurrences(a, [], 0);
    OccurrencesCount(a, [], 0);
    FullLength(os);
  }

  lemma {:induction false} FullLength(os: seq<Occurrence>)
    ensures |ShortString(os)| < 3 * |os| <==> exists n :: 0 <= n < |os| && |ShortPiece(os[n])| < 3
  {
    hide ShortPiece;
    if os != [] {
      var init := os[..|os| - 1];
      FullLength(init);
      if |ShortString(init)| < 3 * |init| {
        var n :| 0 <= n < |init| && |ShortPiece(init[n])| < 3;
        assert |ShortPiece(os[n])| < 3;
      } else if |ShortPiece(os[|os| - 1])| == 3 {
        forall n | 0 <= n < |os| ensures |ShortPiece(os[n])| == 3 {
          assert n < |init| ==> os[n] == init[n];
        }
      }
    }
  }

  /** With ARGP_NO_ARGS even an argp without options overruns its string. */
  lemma NoArgsOverrun()
    ensures var a := Argp(None, true, None, End);
            |Prefix(false, true)| + |ShortString(Occurrences(a, [], 0))| + 1 > ShortReserved(a, true)
  {
  }

  /** Reserve storage and convert. The storage is what was measured, no write leaves it, the
      group array is filled exactly, and the tables are those of the options in preorder. */
  method ParserConvert(a: Argp, inOrder: bool, noArgs: bool) returns (t: Tables)
    requires !noArgs || exists n :: 0 <= n < |Occurrences(a, [], 0)| && |ShortPiece(Occurrences(a, [], 0)[n])| < 3
    ensures t.Valid() && fresh(t)
    ensures var os, prefix := Occurrences(a, [], 0), Prefix(inOrder, noArgs);
            && t.short == prefix + ShortString(os) && t.long == AddAllLong([], os)
            && t.made == Groups(a, [], None, 0, 0, |prefix|, 0)
    ensures t.groupEnd == GroupCount(a) == t.groups.Length - 1
    ensures t.shortOpts.Length == ShortReserved(a, noArgs) && t.longOpts.Length == OptionCount(a) + 1
    ensures t.childInputs == ChildCount(a)
    ensures t.shortOpts.Length == (if noArgs then 0 else 1) + 3 * OptionCount(a) + 1
    ensures inOrder ==> t.short == ['-' as int] + ShortString(Occurrences(a, [], 0))
    ensures !inOrder && noArgs ==> t.short == ['+' as int] + ShortString(Occurrences(a, [], 0))
    ensures !inOrder && !noArgs ==> t.short == ShortString(Occurrences(a, [], 0))
  {
    hide Tables.Valid, ShortString, AddAllLong, Occurrences, Groups, ShortPiece;
    ShortStringFits(a, inOrder, noArgs);
    SlotsSuffice(a);
    GroupsCount(a, [], None, 0, 0, |Prefix(inOrder, noArgs)|, 0);
    var szs := CalcSizes(a, Sizes(if noArgs then 0 else 1, 0, 0, 0));
    t := new Tables(szs);
    if inOrder {
      t.PutShort('-' as int);
    } else if noArgs {
      t.PutShort('+' as int);
    }
    t.ConvertOptions(a, [], None, 0);
  }
}
