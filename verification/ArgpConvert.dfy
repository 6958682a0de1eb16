/**
 `convert_options`: the tree of argps is flattened into the tables that getopt
 works on, written with moving cursors into storage that `calc_sizes` measured
 beforehand; and `parser_parse_opt`, which finds the group an option came from.
 */
module ArgpConvert {
  import opened Wrappers
  import opened ArgpTree

  // ----- Options in preorder -----

  /** An option as the parser meets it: the argp and group it is from, and the
      option that provides its argument and flags. */
  datatype Occurrence = Occurrence(path: Path, group: nat, opt: ArgpOption, base: ArgpOption)

  function OwnOccurrences(opts: seq<ArgpOption>, n: nat, path: Path, g: nat): (r: seq<Occurrence>)
    requires n <= |opts|
    ensures |r| == n
    ensures forall i :: 0 <= i < n ==> r[i] == Occurrence(path, g, opts[i], Base(opts, i))
  {
    if n == 0 then [] else OwnOccurrences(opts, n - 1, path, g) + [Occurrence(path, g, opts[n - 1], Base(opts, n - 1))]
  }

  /** All options of the tree below `a`, in preorder; `g` is the next group number. */
  function Occurrences(a: Argp, path: Path, g: nat): seq<Occurrence>
  {
    OwnOccurrences(OptionsOf(a), |OptionsOf(a)|, path, g)
    + ChildOccurrences(a.children, path, 0, if HasGroup(a) then g + 1 else g)
  }

  function ChildOccurrences(cs: Children, path: Path, i: nat, g: nat): seq<Occurrence>
  {
    match cs
    case End => []
    case Child(a, _, _, next) => Occurrences(a, path + [i], g) + ChildOccurrences(next, path, i + 1, g + GroupCount(a))
  }

  lemma {:induction a} OccurrencesCount(a: Argp, path: Path, g: nat)
    ensures |Occurrences(a, path, g)| == OptionCount(a)
  {
    ChildOccurrencesCount(a.children, path, 0, if HasGroup(a) then g + 1 else g);
  }

  lemma ChildOccurrencesCount(cs: Children, path: Path, i: nat, g: nat)
    ensures |ChildOccurrences(cs, path, i, g)| == OptionCounts(cs)
  {
    match cs
    case End =>
    case Child(a, _, _, next) =>
      OccurrencesCount(a, path + [i], g);
      ChildOccurrencesCount(next, path, i + 1, g + GroupCount(a));
  }

  // ----- Short options -----

  const COLON: int := ':' as int

  /** The characters that an option contributes to the getopt short-option string. */
  function ShortPiece(o: Occurrence): (s: seq<int>)
    ensures |s| <= 3
  {
    if o.base.doc || !IsShort(o.opt) then []
    else [o.opt.key] + (if !o.base.arg then [] else if !o.base.argOptional then [COLON] else [COLON, COLON])
  }

  function ShortString(os: seq<Occurrence>): (s: seq<int>)
    ensures |s| <= 3 * |os|
  {
    if os == [] then [] else ShortString(os[..|os| - 1]) + ShortPiece(os[|os| - 1])
  }

  lemma {:induction false} ShortStringConcat(a: seq<Occurrence>, b: seq<Occurrence>)
    ensures ShortString(a + b) == ShortString(a) + ShortString(b)
  {
    hide ShortPiece, ShortString;
    if b == [] {
      assert a + b == a && ShortString([]) == [] by { ShortStringNone(); }
    } else {
      var front, last := b[..|b| - 1], b[|b| - 1];
      ShortStringConcat(a, front);
      ShortStringLast(a + front, last);
      ShortStringLast(front, last);
      assert a + b == (a + front) + [last] && b == front + [last];
    }
  }

  lemma ShortStringNone()
    ensures ShortString([]) == []
  {
  }

  lemma ShortStringLast(os: seq<Occurrence>, o: Occurrence)
    ensures ShortString(os + [o]) == ShortString(os) + ShortPiece(o)
  {
  }

  // ----- Long options -----

  datatype HasArg = NoArgument | RequiredArgument | OptionalArgument

  datatype LongOption = LongOption(name: string, hasArg: HasArg, val: int)

  /** An `int` product or sum wrapped to 32 bits. */
  function ToInt(x: int): int
  {
    (x + 0x8000_0000) % 0x1_0000_0000 - 0x8000_0000
  }

  /** The value that tells getopt's caller both the group and the user's key. */
  function Encode(key: int, group: nat): int
  {
    ToInt(key % 0x100_0000 + (group + 1) * 0x100_0000)
  }

  function GroupKey(val: int): int
  {
    val / 0x100_0000
  }

  /** The low 24 bits, sign-extended. */
  function UserKey(val: int): int
  {
    ToInt(val * 0x100) / 0x100
  }

  predicate HasName(long: seq<LongOption>, name: string)
  {
    exists i :: 0 <= i < |long| && long[i].name == name
  }

  function LongEntry(o: Occurrence): LongOption
    requires o.opt.name.Some?
  {
    LongOption(o.opt.name.value,
               if !o.base.arg then NoArgument else if o.base.argOptional then OptionalArgument else RequiredArgument,
               Encode(if o.opt.key != 0 then o.opt.key else o.base.key, o.group))
  }

  /** The long-option table after one more option. */
  function AddLong(long: seq<LongOption>, o: Occurrence): (r: seq<LongOption>)
    ensures |r| <= |long| + 1
  {
    if !o.base.doc && o.opt.name.Some? && !HasName(long, o.opt.name.value) then long + [LongEntry(o)] else long
  }

  function AddAllLong(long: seq<LongOption>, os: seq<Occurrence>): (r: seq<LongOption>)
    ensures |r| <= |long| + |os|
  {
    if os == [] then long else AddLong(AddAllLong(long, os[..|os| - 1]), os[|os| - 1])
  }

  lemma {:induction false} AddAllLongConcat(long: seq<LongOption>, a: seq<Occurrence>, b: seq<Occurrence>)
    ensures AddAllLong(long, a + b) == AddAllLong(AddAllLong(long, a), b)
  {
    if b == [] {
      assert a + b == a;
    } else {
      assert (a + b)[..|a + b| - 1] == a + b[..|b| - 1];
      AddAllLongConcat(long, a, b[..|b| - 1]);
    }
  }

  // ----- Groups -----

  /** `struct group`, as far as the conversion fills it in. `childInputs` is the
      start of its slice of the child-input vector. */
  datatype Group = Group(path: Path, parser: bool, shortEnd: nat, parent: Option<nat>, parentIndex: nat,
                         childInputs: nat, children: nat)

  /** Child-input slots handed out below `a`. */
  function Slots(a: Argp): nat
  {
    (if HasGroup(a) then NumChildren(a.children) else 0) + ChildSlots(a.children)
  }

  function ChildSlots(cs: Children): nat
  {
    match cs
    case End => 0
    case Child(a, _, _, next) => Slots(a) + ChildSlots(next)
  }

  /** The groups below `a`, given the group, short-option and child-input cursors. */
  function Groups(a: Argp, path: Path, parent: Option<nat>, index: nat, g: nat, s: nat, c: nat): seq<Group>
  {
    if HasGroup(a) then
      var end := s + |ShortString(OwnOccurrences(OptionsOf(a), |OptionsOf(a)|, path, g))|;
      [Group(path, a.parser, end, parent, index, c, NumChildren(a.children))]
      + ChildGroups(a.children, path, Some(g), 0, g + 1, end, c + NumChildren(a.children))
    else
      ChildGroups(a.children, path, None, 0, g, s, c)
  }

  function ChildGroups(cs: Children, path: Path, parent: Option<nat>, i: nat, g: nat, s: nat, c: nat): seq<Group>
  {
    match cs
    case End => []
    case Child(a, _, _, next) =>
      Groups(a, path + [i], parent, i, g, s, c)
      + ChildGroups(next, path, parent, i + 1, g + GroupCount(a), s + |ShortString(Occurrences(a, path + [i], g))|,
                    c + Slots(a))
  }

  lemma {:induction false} GroupsCount(a: Argp, path: Path, parent: Option<nat>, index: nat, g: nat, s: nat, c: nat)
    ensures |Groups(a, path, parent, index, g, s, c)| == GroupCount(a)
  {
    hide ShortString, OwnOccurrences, NumChildren;
    if HasGroup(a) {
      var end := s + |ShortString(OwnOccurrences(OptionsOf(a), |OptionsOf(a)|, path, g))|;
      ChildGroupsCount(a.children, path, Some(g), 0, g + 1, end, c + NumChildren(a.children));
    } else {
      ChildGroupsCount(a.children, path, None, 0, g, s, c);
    }
  }

  lemma {:induction false} ChildGroupsCount(cs: Children, path: Path, parent: Option<nat>, i: nat, g: nat, s: nat,
                                            c: nat)
    ensures |ChildGroups(cs, path, parent, i, g, s, c)| == GroupCounts(cs)
  {
    hide ShortString, Occurrences, Slots;
    match cs
    case End =>
    case Child(a, _, _, next) =>
      GroupsCount(a, path + [i], parent, i, g, s, c);
      ChildGroupsCount(next, path, parent, i + 1, g + GroupCount(a), s + |ShortString(Occurrences(a, path + [i], g))|,
                       c + Slots(a));
  }

  // ----- Which options belong to which group -----

  /** Where the characters of option `n` start in the short-option string. */
  ghost function ShortAt(os: seq<Occurrence>, n: nat): nat
    requires n <= |os|
  {
    |ShortString(os[..n])|
  }

  lemma ShortAtMonotone(os: seq<Occurrence>, m: nat, n: nat)
    requires m <= n <= |os|
    ensures ShortAt(os, m) <= ShortAt(os, n)
  {
    assert os[..n] == os[..m] + os[m..n];
    ShortStringConcat(os[..m], os[m..n]);
  }

  /** Option `n`, whose group number is `h`, and the end of the short options of
      group number `k` lie on the right sides of each other. */
  ghost predicate EndsRight(h: int, k: int, end: nat, before: nat, behind: nat)
  {
    (h <= k ==> behind <= end) && (h > k ==> end <= before)
  }

  /** Groups `gs`, numbered from `g`, own the options `os`, and the `shortEnd` of each
      splits the short-option string, which starts at `s`, between the options of
      this and earlier groups and those of later ones. */
  ghost predicate Owned(os: seq<Occurrence>, gs: seq<Group>, g: nat, s: nat)
  {
    && (forall n :: 0 <= n < |os| ==> g <= os[n].group < g + |gs| && gs[os[n].group - g].path == os[n].path)
    && (forall k :: 0 <= k < |gs| ==> s <= gs[k].shortEnd <= s + ShortAt(os, |os|))
    && (forall k, n :: 0 <= k < |gs| && 0 <= n < |os| ==> Sided(os, gs, g, s, k, n))
  }

  ghost predicate Sided(os: seq<Occurrence>, gs: seq<Group>, g: nat, s: nat, k: nat, n: nat)
    requires n < |os| && k < |gs|
  {
    EndsRight(os[n].group, g + k, gs[k].shortEnd, s + ShortAt(os, n), s + ShortAt(os, n + 1))
  }

  lemma OwnedConcat(os1: seq<Occurrence>, gs1: seq<Group>, g: nat, s: nat, os2: seq<Occurrence>, gs2: seq<Group>)
    requires Owned(os1, gs1, g, s) && Owned(os2, gs2, g + |gs1|, s + ShortAt(os1, |os1|))
    ensures Owned(os1 + os2, gs1 + gs2, g, s)
  {
    hide ShortAt, EndsRight;
    var os, gs := os1 + os2, gs1 + gs2;
    ShortAtRight(os1, os2, |os2|);
    forall n | 0 <= n < |os| ensures g <= os[n].group < g + |gs| && gs[os[n].group - g].path == os[n].path {
      assert os[n] == if n < |os1| then os1[n] else os2[n - |os1|];
    }
    forall k | 0 <= k < |gs| ensures s <= gs[k].shortEnd <= s + ShortAt(os, |os|) {
      assert gs[k] == if k < |gs1| then gs1[k] else gs2[k - |gs1|];
    }
    forall k, n | 0 <= k < |gs| && 0 <= n < |os| ensures Sided(os, gs, g, s, k, n) {
      if n < |os1| {
        if k < |gs1| {
          assert Sided(os1, gs1, g, s, k, n);
        }
        SidedLeft(os1, os2, n, gs[k].shortEnd, g + k, s);
      } else {
        if k >= |gs1| {
          assert Sided(os2, gs2, g + |gs1|, s + ShortAt(os1, |os1|), k - |gs1|, n - |os1|);
        }
        SidedRight(os1, os2, n - |os1|, gs[k].shortEnd, g + k, s);
      }
    }
  }

  /** An option of the first part is on the right side of the ends of both parts. */
  lemma SidedLeft(os1: seq<Occurrence>, os2: seq<Occurrence>, n: nat, end: nat, k: nat, s: nat)
    requires n < |os1|
    requires || EndsRight(os1[n].group, k, end, s + ShortAt(os1, n), s + ShortAt(os1, n + 1))
             || (os1[n].group <= k && s + ShortAt(os1, |os1|) <= end)
    ensures EndsRight(os1[n].group, k, end, s + ShortAt(os1 + os2, n), s + ShortAt(os1 + os2, n + 1))
  {
    hide ShortAt;
    ShortAtLeft(os1, os2, n);
    ShortAtLeft(os1, os2, n + 1);
    ShortAtMonotone(os1, n + 1, |os1|);
  }

  lemma SidedRight(os1: seq<Occurrence>, os2: seq<Occurrence>, m: nat, end: nat, k: nat, s: nat)
    requires m < |os2|
    requires var s2 := s + ShortAt(os1, |os1|);
             || EndsRight(os2[m].group, k, end, s2 + ShortAt(os2, m), s2 + ShortAt(os2, m + 1))
             || (os2[m].group > k && end <= s2)
    ensures EndsRight(os2[m].group, k, end, s + ShortAt(os1 + os2, |os1| + m), s + ShortAt(os1 + os2, |os1| + m + 1))
  {
    hide ShortAt;
    ShortAtRight(os1, os2, m);
    ShortAtRight(os1, os2, m + 1);
  }

  lemma ShortAtLeft(os1: seq<Occurrence>, os2: seq<Occurrence>, n: nat)
    requires n <= |os1|
    ensures ShortAt(os1 + os2, n) == ShortAt(os1, n)
  {
    assert (os1 + os2)[..n] == os1[..n];
  }

  lemma ShortAtRight(os1: seq<Occurrence>, os2: seq<Occurrence>, n: nat)
    requires n <= |os2|
    ensures ShortAt(os1 + os2, |os1| + n) == ShortAt(os1, |os1|) + ShortAt(os2, n)
  {
    assert (os1 + os2)[..|os1| + n] == os1 + os2[..n];
    assert os1[..|os1|] == os1;
    ShortStringConcat(os1, os2[..n]);
  }

  /** Every argp's options belong to the group made for that argp. */
  lemma {:induction false} TreeOwned(a: Argp, path: Path, parent: Option<nat>, index: nat, g: nat, s: nat, c: nat)
    ensures Owned(Occurrences(a, path, g), Groups(a, path, parent, index, g, s, c), g, s)
  {
    hide Owned, ShortString, ShortAt, NumChildren;
    var own := OwnOccurrences(OptionsOf(a), |OptionsOf(a)|, path, g);
    if HasGroup(a) {
      var end := s + |ShortString(own)|;
      var group := Group(path, a.parser, end, parent, index, c, NumChildren(a.children));
      GroupOwned(own, group, g, s);
      ShortAtEnd(own);
      ChildrenOwned(a.children, path, Some(g), 0, g + 1, end, c + NumChildren(a.children));
      OwnedConcat(own, [group], g, s,
                  ChildOccurrences(a.children, path, 0, g + 1),
                  ChildGroups(a.children, path, Some(g), 0, g + 1, end, c + NumChildren(a.children)));
    } else {
      ChildrenOwned(a.children, path, None, 0, g, s, c);
      assert Occurrences(a, path, g) == ChildOccurrences(a.children, path, 0, g);
    }
  }

  lemma {:induction false} ChildrenOwned(cs: Children, path: Path, parent: Option<nat>, i: nat, g: nat, s: nat, c: nat)
    ensures Owned(ChildOccurrences(cs, path, i, g), ChildGroups(cs, path, parent, i, g, s, c), g, s)
  {
    hide Owned, ShortString, ShortAt, Occurrences, Groups, Slots, GroupCount;
    match cs
    case End =>
      NothingOwned(g, s);
    case Child(a, _, _, next) =>
      var os := Occurrences(a, path + [i], g);
      var s2 := s + |ShortString(os)|;
      TreeOwned(a, path + [i], parent, i, g, s, c);
      GroupsCount(a, path + [i], parent, i, g, s, c);
      ChildrenOwned(next, path, parent, i + 1, g + GroupCount(a), s2, c + Slots(a));
      ShortAtEnd(os);
      OwnedConcat(os, Groups(a, path + [i], parent, i, g, s, c), g, s,
                  ChildOccurrences(next, path, i + 1, g + GroupCount(a)),
                  ChildGroups(next, path, parent, i + 1, g + GroupCount(a), s2, c + Slots(a)));
  }

  lemma NothingOwned(g: nat, s: nat)
    ensures Owned([], [], g, s)
  {
  }

  lemma ShortAtEnd(os: seq<Occurrence>)
    ensures ShortAt(os, |os|) == |ShortString(os)|
  {
    assert os[..|os|] == os;
  }

  lemma GroupOwned(own: seq<Occurrence>, group: Group, g: nat, s: nat)
    requires forall n :: 0 <= n < |own| ==> own[n].group == g && own[n].path == group.path
    requires group.shortEnd == s + |ShortString(own)|
    ensures Owned(own, [group], g, s)
  {
    hide ShortAt, ShortString;
    ShortAtEnd(own);
    forall n | 0 <= n <= |own| ensures ShortAt(own, n) <= ShortAt(own, |own|) {
      ShortAtMonotone(own, n, |own|);
    }
  }

  // ----- Dispatching short options -----

  function Strchr(s: seq<int>, c: int): Option<nat>
  {
    if s == [] then None
    else if s[0] == c then Some(0)
    else match Strchr(s[1..], c)
      case None => None
      case Some(i) => Some(i + 1)
  }

  /** The first group whose short options end behind `i`. */
  function FirstPast(gs: seq<Group>, i: nat): (r: Option<nat>)
    ensures r.Some? ==> r.value < |gs|
  {
    if gs == [] then None
    else if gs[0].shortEnd > i then Some(0)
    else match FirstPast(gs[1..], i)
      case None => None
      case Some(k) => Some(k + 1)
  }

  /** The group that a short option is handed to. */
  function DispatchShort(short: seq<int>, gs: seq<Group>, key: int): (r: Option<nat>)
    ensures r.Some? ==> r.value < |gs|
  {
    match Strchr(short, key)
    case None => None
    case Some(i) => FirstPast(gs, i)
  }

  /** Whether the parser sees `o` as the short option `c`. */
  predicate Declares(o: Occurrence, c: int)
  {
    !o.base.doc && IsShort(o.opt) && o.opt.key == c
  }

  /** Option `n` is the first in preorder that declares `c`. */
  ghost predicate FirstDeclarer(os: seq<Occurrence>, c: int, n: nat)
  {
    n < |os| && Declares(os[n], c) && forall m :: 0 <= m < n ==> !Declares(os[m], c)
  }

  lemma {:induction false} StrchrConcat(a: seq<int>, b: seq<int>, c: int)
    ensures Strchr(a + b, c) ==
            if c in a then Strchr(a, c)
            else match Strchr(b, c) case None => None case Some(i) => Some(|a| + i)
    ensures c in a <==> Strchr(a, c).Some?
  {
    if a == [] {
      assert a + b == b;
    } else {
      assert (a + b)[1..] == a[1..] + b;
      StrchrConcat(a[1..], b, c);
    }
  }

  /** The characters of `o` in the short-option string include `c`: as its key, or as
      the colon for its argument. */
  predicate Carries(o: Occurrence, c: int)
  {
    c in ShortPiece(o)
  }

  /** Option `n` is the first in preorder that carries `c`. */
  ghost predicate FirstCarrier(os: seq<Occurrence>, c: int, n: nat)
  {
    n < |os| && Carries(os[n], c) && forall m :: 0 <= m < n ==> !Carries(os[m], c)
  }

  lemma {:induction false} UncarriedAbsent(os: seq<Occurrence>, c: int)
    requires forall n :: 0 <= n < |os| ==> !Carries(os[n], c)
    ensures c !in ShortString(os)
  {
    hide ShortPiece;
    if os != [] {
      UncarriedAbsent(os[..|os| - 1], c);
    }
  }

  lemma {:induction false} FindCarrier(os: seq<Occurrence>, c: int) returns (n: nat)
    ensures n <= |os| && (forall m :: 0 <= m < n ==> !Carries(os[m], c)) && (n < |os| ==> Carries(os[n], c))
  {
    n := 0;
    while n < |os| && !Carries(os[n], c)
      invariant n <= |os| && forall m :: 0 <= m < n ==> !Carries(os[m], c)
    {
      n := n + 1;
    }
  }

  lemma {:induction false} FirstPastAt(gs: seq<Group>, i: nat, k: nat)
    requires k < |gs| && gs[k].shortEnd > i && forall j :: 0 <= j < k ==> gs[j].shortEnd <= i
    ensures FirstPast(gs, i) == Some(k)
  {
    if k > 0 {
      FirstPastAt(gs[1..], i, k - 1);
    }
  }

  /** The first occurrence of a character is in the piece of its first carrier. */
  lemma StrchrAtFirstCarrier(prefix: seq<int>, os: seq<Occurrence>, c: int, n: nat) returns (i: nat)
    requires c !in prefix && FirstCarrier(os, c, n)
    ensures Strchr(prefix + ShortString(os), c) == Some(i)
    ensures |prefix| + ShortAt(os, n) <= i < |prefix| + ShortAt(os, n + 1)
  {
    hide ShortString, ShortPiece, Strchr;
    var before, piece, rest := ShortString(os[..n]), ShortPiece(os[n]), ShortString(os[n + 1..]);
    assert os == os[..n + 1] + os[n + 1..];
    ShortStringConcat(os[..n + 1], os[n + 1..]);
    ShortStringStep(os, n);
    assert prefix + ShortString(os) == (prefix + before) + (piece + rest);
    UncarriedAbsent(os[..n], c);
    StrchrConcat(prefix + before, piece + rest, c);
    StrchrConcat(piece, rest, c);
    i := |prefix + before| + StrchrIn(piece, c);
  }

  /** The position of a character that is there. */
  lemma {:induction false} StrchrInside(s: seq<int>, c: int)
    requires c in s
    ensures Strchr(s, c).Some? && Strchr(s, c).value < |s|
  {
    if s[0] != c {
      StrchrInside(s[1..], c);
    }
  }

  ghost function StrchrIn(s: seq<int>, c: int): (i: nat)
    requires c in s
    ensures i < |s| && Strchr(s, c) == Some(i)
  {
    StrchrInside(s, c);
    Strchr(s, c).value
  }

  lemma ShortStringStep(os: seq<Occurrence>, n: nat)
    requires n < |os|
    ensures ShortString(os[..n + 1]) == ShortString(os[..n]) + ShortPiece(os[n])
  {
    assert os[..n + 1][..n] == os[..n];
  }

  /** A character goes to the group of the argp of its first carrier. */
  lemma DispatchToFirstCarrier(prefix: seq<int>, os: seq<Occurrence>, gs: seq<Group>, c: int, n: nat)
    requires Owned(os, gs, 0, |prefix|) && c !in prefix && FirstCarrier(os, c, n)
    ensures DispatchShort(prefix + ShortString(os), gs, c) == Some(os[n].group)
    ensures os[n].group < |gs| && gs[os[n].group].path == os[n].path
  {
    hide FirstPast, Strchr, ShortAt, ShortString, Carries;
    var i := StrchrAtFirstCarrier(prefix, os, c, n);
    var g := os[n].group;
    forall k | 0 <= k <= g ensures k < g ==> gs[k].shortEnd <= i ensures k == g ==> gs[k].shortEnd > i {
      assert Sided(os, gs, 0, |prefix|, k, n);
    }
    FirstPastAt(gs, i, g);
  }

  /** The ordering character in front of the string goes to the first group. */
  lemma DispatchOrderingCharacter(prefix: seq<int>, os: seq<Occurrence>, gs: seq<Group>, c: int)
    requires Owned(os, gs, 0, |prefix|) && c in prefix && gs != []
    ensures DispatchShort(prefix + ShortString(os), gs, c) == Some(0)
  {
    hide Strchr, ShortString, ShortAt;
    StrchrConcat(prefix, ShortString(os), c);
    FirstPastAt(gs, StrchrIn(prefix, c), 0);
  }

  /** Which group the parser hands a short option to, for every character and every tree: the
      first for the ordering character, else that of the first carrier, or none. */
  lemma DispatchExactly(prefix: seq<int>, os: seq<Occurrence>, gs: seq<Group>, c: int, g: nat)
    requires Owned(os, gs, 0, |prefix|) && gs != []
    ensures DispatchShort(prefix + ShortString(os), gs, c) == Some(g)
            <==> if c in prefix then g == 0 else exists m: nat :: FirstCarrier(os, c, m) && os[m].group == g
  {
    hide DispatchShort, Owned, ShortString, Carries;
    if c in prefix {
      DispatchOrderingCharacter(prefix, os, gs, c);
    } else {
      var n := FindCarrier(os, c);
      if n < |os| {
        DispatchToFirstCarrier(prefix, os, gs, c, n);
        assert forall m: nat :: FirstCarrier(os, c, m) ==> m == n;
        assert FirstCarrier(os, c, n);
      } else {
        UncarriedNotDispatched(prefix, os, gs, c);
      }
    }
  }

  /** A character that no option carries is not dispatched at all. */
  lemma UncarriedNotDispatched(prefix: seq<int>, os: seq<Occurrence>, gs: seq<Group>, c: int)
    requires c !in prefix && forall n :: 0 <= n < |os| ==> !Carries(os[n], c)
    ensures DispatchShort(prefix + ShortString(os), gs, c) == None
  {
    hide Carries, ShortString;
    UncarriedAbsent(os, c);
    StrchrConcat(prefix + ShortString(os), [], c);
    assert prefix + ShortString(os) + [] == prefix + ShortString(os);
  }

  /** Except for the colon, to carry a character is to declare it. */
  lemma CarriesDeclared(o: Occurrence, c: int)
    ensures c != COLON ==> (Carries(o, c) <==> Declares(o, c))
  {
  }

  /** A short option goes to the group of the argp that declares it first. */
  lemma DispatchToFirstDeclarer(prefix: seq<int>, os: seq<Occurrence>, gs: seq<Group>, c: int, n: nat)
    requires Owned(os, gs, 0, |prefix|)
    requires c != COLON && c !in prefix && FirstDeclarer(os, c, n)
    ensures DispatchShort(prefix + ShortString(os), gs, c) == Some(os[n].group)
    ensures os[n].group < |gs| && gs[os[n].group].path == os[n].path
  {
    hide DispatchShort, Owned, ShortString, Carries, Declares;
    forall m | 0 <= m < |os| ensures Carries(os[m], c) <==> Declares(os[m], c) {
      CarriesDeclared(os[m], c);
    }
    DispatchToFirstCarrier(prefix, os, gs, c, n);
  }

  // ----- Encoding of long options -----

  /** Decoding gives back group and key for up to 127 groups and any key of 24
      bits with sign, and for nothing else. */
  lemma EncodingIsExact(key: int, group: nat)
    ensures GroupKey(Encode(key, group)) == group + 1 && UserKey(Encode(key, group)) == key
            <==> group + 1 <= 127 && -0x80_0000 <= key < 0x80_0000
  {
  }

  /** Encoded values are out of the way of everything else getopt can return. */
  lemma EncodedValuesAreDistinct(key: int, group: nat)
    requires group + 1 <= 127
    ensures Encode(key, group) >= 0x100_0000
  {
  }

  ghost predicate Named(o: Occurrence, name: string)
  {
    !o.base.doc && o.opt.name == Some(name)
  }

  /** Option `n` is the first in preorder with this long name. */
  ghost predicate FirstNamed(os: seq<Occurrence>, name: string, n: nat)
  {
    n < |os| && Named(os[n], name) && forall m :: 0 <= m < n ==> !Named(os[m], name)
  }

  /** An entry of the table is that of the first declarer of its name. */
  ghost predicate FromFirst(os: seq<Occurrence>, l: LongOption)
  {
    exists n: nat :: FirstNamed(os, l.name, n) && l == LongEntry(os[n])
  }

  ghost predicate RightTable(t: seq<LongOption>, os: seq<Occurrence>)
  {
    && (forall i, j :: 0 <= i < j < |t| ==> t[i].name != t[j].name)
    && (forall i :: 0 <= i < |t| ==> FromFirst(os, t[i]))
    && (forall n, name :: 0 <= n < |os| && Named(os[n], name) ==> HasName(t, name))
  }

  /** Names in the long-option table are unique, every declared name is there, and
      each entry is that of the first declarer. */
  lemma {:induction false} LongTable(os: seq<Occurrence>)
    ensures RightTable(AddAllLong([], os), os)
  {
    if os != [] {
      var init, o := os[..|os| - 1], os[|os| - 1];
      LongTable(init);
      NextLong(AddAllLong([], init), init, o);
      assert init + [o] == os;
    }
  }

  lemma NextLong(t: seq<LongOption>, init: seq<Occurrence>, o: Occurrence)
    requires RightTable(t, init)
    ensures RightTable(AddLong(t, o), init + [o])
  {
    hide Encode;
    var t', os := AddLong(t, o), init + [o];
    forall i | 0 <= i < |t| ensures FromFirst(os, t[i]) {
      StillFirst(init, o, t[i]);
    }
    if t' != t {
      var name := o.opt.name.value;
      assert forall m :: 0 <= m < |init| ==> !Named(init[m], name);
      assert FirstNamed(os, name, |init|);
      assert FromFirst(os, t'[|t|]);
      assert forall i :: 0 <= i < |t| ==> t[i].name != name;
    }
    forall n, name | 0 <= n < |os| && Named(os[n], name) ensures HasName(t', name) {
      if n < |init| {
        assert Named(init[n], name);
      }
      if HasName(t, name) {
        var i :| 0 <= i < |t| && t[i].name == name;
        assert t'[i].name == name;
      } else {
        assert t'[|t|].name == name;
      }
    }
  }

  lemma StillFirst(init: seq<Occurrence>, o: Occurrence, l: LongOption)
    requires FromFirst(init, l)
    ensures FromFirst(init + [o], l)
  {
    var n: nat :| FirstNamed(init, l.name, n) && l == LongEntry(init[n]);
    assert FirstNamed(init + [o], l.name, n);
  }

  /** A long option goes to the group of the argp that declares its name first,
      with the user's own key. */
  lemma DispatchLong(os: seq<Occurrence>, gs: seq<Group>, s: nat, i: nat)
    requires Owned(os, gs, 0, s) && |gs| <= 127 && i < |AddAllLong([], os)|
    requires forall n :: 0 <= n < |os| ==>
             -0x80_0000 <= os[n].opt.key < 0x80_0000 && -0x80_0000 <= os[n].base.key < 0x80_0000
    ensures var l := AddAllLong([], os)[i];
            exists n: nat :: && FirstNamed(os, l.name, n)
                        && 0 <= GroupKey(l.val) - 1 < |gs| && gs[GroupKey(l.val) - 1].path == os[n].path
                        && UserKey(l.val) == if os[n].opt.key != 0 then os[n].opt.key else os[n].base.key
  {
    hide Encode, GroupKey, UserKey, AddAllLong;
    LongTable(os);
    var l := AddAllLong([], os)[i];
    assert FromFirst(os, l);
    var n: nat :| FirstNamed(os, l.name, n) && l == LongEntry(os[n]);
    EncodingIsExact(if os[n].opt.key != 0 then os[n].opt.key else os[n].base.key, os[n].group);
  }

  /** No value of the long-option table can be taken for anything else that getopt
      returns: KEY_END, KEY_ARG, KEY_ERR or a short key. */
  lemma LongValuesAreApart(os: seq<Occurrence>, gs: seq<Group>, s: nat, i: nat)
    requires Owned(os, gs, 0, s) && |gs| <= 127 && i < |AddAllLong([], os)|
    ensures var val := AddAllLong([], os)[i].val;
            && val != -1 && val != 1 && val != '?' as int
            && forall n :: 0 <= n < |os| && IsShort(os[n].opt) ==> val != os[n].opt.key
  {
    hide Encode, AddAllLong;
    LongTable(os);
    var l := AddAllLong([], os)[i];
    assert FromFirst(os, l);
    var n: nat :| FirstNamed(os, l.name, n) && l == LongEntry(os[n]);
    EncodedValuesAreDistinct(if os[n].opt.key != 0 then os[n].opt.key else os[n].base.key, os[n].group);
  }

  // ----- Storage and parents -----

  /** The slices of the child-input vector lie one behind the other in [c..d). */
  ghost predicate Disjoint(gs: seq<Group>, c: nat, d: nat)
  {
    && c <= d
    && (forall k :: 0 <= k < |gs| ==> c <= gs[k].childInputs && gs[k].childInputs + gs[k].children <= d)
    && (forall j, k :: 0 <= j < k < |gs| ==> gs[j].childInputs + gs[j].children <= gs[k].childInputs)
  }

  /** The parent of group `k` is an earlier group of `gs`, whose child it is by its
      path and index; or it is `parent`, outside of `gs`. */
  ghost predicate ParentRight(gs: seq<Group>, g: nat, path: Path, parent: Option<nat>, lo: nat, hi: nat, k: nat)
    requires k < |gs|
  {
    var p, i := gs[k].parent, gs[k].parentIndex;
    || p == None
    || (g <= p.value < g + k && i < gs[p.value - g].children && gs[k].path == gs[p.value - g].path + [i])
    || (p == parent && lo <= i < hi && gs[k].path == path + [i])
  }

  ghost predicate ParentsRight(gs: seq<Group>, g: nat, path: Path, parent: Option<nat>, lo: nat, hi: nat)
  {
    forall k :: 0 <= k < |gs| ==> ParentRight(gs, g, path, parent, lo, hi, k)
  }

  lemma ParentsConcat(gs1: seq<Group>, gs2: seq<Group>, g: nat, path: Path, parent: Option<nat>, lo: nat, mid: nat,
                      hi: nat)
    requires ParentsRight(gs1, g, path, parent, lo, mid) && ParentsRight(gs2, g + |gs1|, path, parent, mid, hi)
    requires lo <= mid <= hi
    ensures ParentsRight(gs1 + gs2, g, path, parent, lo, hi)
  {
    forall k | 0 <= k < |gs1 + gs2| ensures ParentRight(gs1 + gs2, g, path, parent, lo, hi, k) {
      if k < |gs1| {
        assert ParentRight(gs1, g, path, parent, lo, mid, k);
      } else {
        assert ParentRight(gs2, g + |gs1|, path, parent, mid, hi, k - |gs1|);
      }
    }
  }

  lemma ParentsUnder(group: Group, gs: seq<Group>, g: nat, path: Path, parent: Option<nat>, lo: nat, hi: nat)
    requires ParentsRight(gs, g + 1, group.path, Some(g), 0, group.children)
    requires || group.parent == None
             || (group.parent == parent && lo <= group.parentIndex < hi && group.path == path + [group.parentIndex])
    ensures ParentsRight([group] + gs, g, path, parent, lo, hi)
  {
    forall k | 0 <= k < |[group] + gs| ensures ParentRight([group] + gs, g, path, parent, lo, hi, k) {
      if k > 0 {
        assert ParentRight(gs, g + 1, group.path, Some(g), 0, group.children, k - 1);
      }
    }
  }

  /** The child-input slices of the groups are pairwise disjoint, and parents come
      before their children. The argp is child `index` of the one at `base`. */
  lemma {:induction false} TreeLaidOut(a: Argp, path: Path, base: Path, parent: Option<nat>, index: nat, g: nat, s: nat,
                                       c: nat)
    requires parent == None || path == base + [index]
    ensures var gs := Groups(a, path, parent, index, g, s, c);
            Disjoint(gs, c, c + Slots(a)) && ParentsRight(gs, g, base, parent, index, index + 1)
  {
    hide ShortString, OwnOccurrences, ParentsRight, Disjoint;
    var own := OwnOccurrences(OptionsOf(a), |OptionsOf(a)|, path, g);
    if HasGroup(a) {
      var end, n := s + |ShortString(own)|, NumChildren(a.children);
      var group := Group(path, a.parser, end, parent, index, c, n);
      ChildrenLaidOut(a.children, path, Some(g), 0, g + 1, end, c + n);
      DisjointUnder(group, ChildGroups(a.children, path, Some(g), 0, g + 1, end, c + n),
                    c + n + ChildSlots(a.children));
      ParentsUnder(group, ChildGroups(a.children, path, Some(g), 0, g + 1, end, c + n), g, base, parent, index,
                   index + 1);
    } else {
      ChildrenLaidOut(a.children, path, None, 0, g, s, c);
      ParentsLeft(ChildGroups(a.children, path, None, 0, g, s, c), g, path, NumChildren(a.children), base, parent,
                  index, index + 1);
    }
  }

  lemma ParentsLeft(gs: seq<Group>, g: nat, path: Path, n: nat, path': Path, parent: Option<nat>, lo: nat, hi: nat)
    requires ParentsRight(gs, g, path, None, 0, n)
    ensures ParentsRight(gs, g, path', parent, lo, hi)
  {
    forall k | 0 <= k < |gs| ensures ParentRight(gs, g, path', parent, lo, hi, k) {
      assert ParentRight(gs, g, path, None, 0, n, k);
    }
  }

  lemma {:induction false} ChildrenLaidOut(cs: Children, path: Path, parent: Option<nat>, i: nat, g: nat, s: nat,
                                           c: nat)
    ensures var gs := ChildGroups(cs, path, parent, i, g, s, c);
            Disjoint(gs, c, c + ChildSlots(cs)) && ParentsRight(gs, g, path, parent, i, i + NumChildren(cs))
  {
    hide ShortString, Occurrences, Groups, ParentsRight, Disjoint;
    match cs
    case End =>
      NoParents(g, path, parent, i, c);
    case Child(a, _, _, next) =>
      var s2 := s + |ShortString(Occurrences(a, path + [i], g))|;
      TreeLaidOut(a, path + [i], path, parent, i, g, s, c);
      GroupsCount(a, path + [i], parent, i, g, s, c);
      ChildrenLaidOut(next, path, parent, i + 1, g + GroupCount(a), s2, c + Slots(a));
      ParentsConcat(Groups(a, path + [i], parent, i, g, s, c),
                    ChildGroups(next, path, parent, i + 1, g + GroupCount(a), s2, c + Slots(a)),
                    g, path, parent, i, i + 1, i + NumChildren(cs));
      DisjointConcat(Groups(a, path + [i], parent, i, g, s, c),
                     ChildGroups(next, path, parent, i + 1, g + GroupCount(a), s2, c + Slots(a)),
                     c, c + Slots(a), c + ChildSlots(cs));
  }

  lemma NoParents(g: nat, path: Path, parent: Option<nat>, i: nat, c: nat)
    ensures ParentsRight([], g, path, parent, i, i) && Disjoint([], c, c)
  {
  }

  lemma DisjointUnder(group: Group, gs: seq<Group>, d: nat)
    requires Disjoint(gs, group.childInputs + group.children, d)
    ensures Disjoint([group] + gs, group.childInputs, d)
  {
  }

  lemma DisjointConcat(gs1: seq<Group>, gs2: seq<Group>, c: nat, mid: nat, d: nat)
    requires Disjoint(gs1, c, mid) && Disjoint(gs2, mid, d)
    ensures Disjoint(gs1 + gs2, c, d)
  {
  }

  /** Only argps with a group take slots, so no more are used than there are children. */
  lemma {:induction false} SlotsSuffice(a: Argp)
    ensures Slots(a) <= ChildCount(a)
  {
    ChildSlotsSuffice(a.children);
  }

  lemma {:induction false} ChildSlotsSuffice(cs: Children)
    ensures NumChildren(cs) + ChildSlots(cs) <= ChildCounts(cs)
  {
    match cs
    case End =>
    case Child(a, _, _, next) =>
      SlotsSuffice(a);
      ChildSlotsSuffice(next);
  }
}
