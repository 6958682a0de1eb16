/**
 The help option list (HOL): an independent flattening of the tree of argps, with
 its own rule for shadowed short options, made by `make_hol`, `hol_append` and
 `argp_hol`.
 */
module ArgpHol {
  import opened Wrappers
  import opened Sequences
  import opened ArgpTree

  /** A cluster of entries: where a child argp asks to be kept together. */
  datatype Cluster = Cluster(group: int, index: nat, parent: Option<Cluster>)

  /** `struct hol_entry`: an option with its aliases. `shortAt` is its position in the
      list's string of short options. */
  datatype Entry = Entry(opts: seq<ArgpOption>, shortAt: nat, group: int, cluster: Option<Cluster>, path: Path)

  datatype Hol = Hol(entries: seq<Entry>, short: seq<int>)

  // ----- First occurrences -----

  /** The elements of `ks` without repetitions, in the order of first occurrence. */
  ghost function Firsts(ks: seq<int>): seq<int>
  {
    if ks == [] then []
    else
      var init, k := ks[..|ks| - 1], ks[|ks| - 1];
      Firsts(init) + if k in init then [] else [k]
  }

  lemma {:induction false} FirstsMembers(ks: seq<int>)
    ensures forall k :: k in Firsts(ks) <==> k in ks
  {
    if ks != [] {
      FirstsMembers(ks[..|ks| - 1]);
      assert ks == ks[..|ks| - 1] + [ks[|ks| - 1]];
    }
  }

  lemma {:induction false} FirstsDistinct(ks: seq<int>)
    ensures forall i, j :: 0 <= i < j < |Firsts(ks)| ==> Firsts(ks)[i] != Firsts(ks)[j]
  {
    if ks != [] {
      FirstsDistinct(ks[..|ks| - 1]);
      FirstsMembers(ks[..|ks| - 1]);
    }
  }

  lemma FirstsStep(ks: seq<int>, k: int)
    ensures Firsts(ks + [k]) == Firsts(ks) + if k in ks then [] else [k]
  {
  }

  /** Appending more keys appends first occurrences that were not there before. */
  lemma {:induction false} FirstsExtend(ks: seq<int>, more: seq<int>)
    ensures Firsts(ks) <= Firsts(ks + more)
    ensures forall i :: |Firsts(ks)| <= i < |Firsts(ks + more)| ==> Firsts(ks + more)[i] !in ks
  {
    if more == [] {
      assert ks + more == ks;
    } else {
      var init := more[..|more| - 1];
      FirstsExtend(ks, init);
      assert ks + more == (ks + init) + [more[|more| - 1]];
      FirstsStep(ks + init, more[|more| - 1]);
    }
  }

  /** The character at position `i` of a NUL-terminated string. */
  function CharAt(s: seq<int>, i: nat): int
  {
    if i < |s| then s[i] else 0
  }

  /** Reading the string of first occurrences in step with the keys: the next
      character is the next key exactly if this key is new. */
  lemma NextIsFresh(before: seq<int>, k: int, rest: seq<int>)
    requires k != 0
    ensures CharAt(Firsts(before + [k] + rest), |Firsts(before)|) == k <==> k !in before
  {
    FirstsStep(before, k);
    FirstsExtend(before + [k], rest);
    assert before + ([k] + rest) == before + [k] + rest;
    FirstsExtend(before, [k] + rest);
  }

  // ----- Short keys of entries -----

  function KeyOf(o: ArgpOption): (ks: seq<int>)
    ensures 0 !in ks
  {
    if IsShort(o) then [o.key] else []
  }

  function ShortKeys(opts: seq<ArgpOption>): seq<int>
  {
    if opts == [] then [] else ShortKeys(opts[..|opts| - 1]) + KeyOf(opts[|opts| - 1])
  }

  function KeysOf(es: seq<Entry>): seq<int>
  {
    if es == [] then [] else KeysOf(es[..|es| - 1]) + ShortKeys(es[|es| - 1].opts)
  }

  lemma {:induction false} ShortKeysConcat(a: seq<ArgpOption>, b: seq<ArgpOption>)
    ensures ShortKeys(a + b) == ShortKeys(a) + ShortKeys(b)
  {
    if b == [] {
      assert a + b == a;
    } else {
      assert (a + b)[..|a + b| - 1] == a + b[..|b| - 1];
      ShortKeysConcat(a, b[..|b| - 1]);
    }
  }

  lemma {:induction false} KeysOfConcat(a: seq<Entry>, b: seq<Entry>)
    ensures KeysOf(a + b) == KeysOf(a) + KeysOf(b)
  {
    hide ShortKeys;
    if b == [] {
      assert a + b == a;
    } else {
      var front, last := b[..|b| - 1], b[|b| - 1];
      assert (a + b)[..|a + b| - 1] == a + front;
      KeysOfConcat(a, front);
      Regroup(KeysOf(a), KeysOf(front), ShortKeys(last.opts));
    }
  }

  /** `h` lists the entries `es`: its string holds the first occurrences of all short
      keys, and each entry points behind those of the entries before it. */
  ghost predicate Lists(h: Hol, es: seq<Entry>)
  {
    && h.short == Firsts(KeysOf(es))
    && |h.entries| == |es|
    && forall i :: 0 <= i < |es| ==> h.entries[i] == Placed(es, i)
  }

  ghost function Placed(es: seq<Entry>, i: nat): Entry
    requires i < |es|
  {
    es[i].(shortAt := |Firsts(KeysOf(es[..i]))|)
  }

  // ----- make_hol -----

  /** How many options the first entry of `opts` has: itself and its aliases. */
  function RunLength(opts: seq<ArgpOption>): (n: nat)
    requires opts != []
    ensures 1 <= n <= |opts|
  {
    1 + AliasCount(opts[1..])
  }

  function AliasCount(opts: seq<ArgpOption>): (n: nat)
    ensures n <= |opts|
  {
    if opts != [] && opts[0].isAlias then 1 + AliasCount(opts[1..]) else 0
  }

  /** The group of an entry: its own, or else that of the entry before, plus one for
      a group header. */
  function EntryGroup(o: ArgpOption, cur: int): int
  {
    if o.group != 0 then o.group else if o.name == None && o.key == 0 then cur + 1 else cur
  }

  /** The entries for an option vector, their positions left open. */
  function OwnEntries(opts: seq<ArgpOption>, cur: int, cluster: Option<Cluster>, path: Path): seq<Entry>
    decreases |opts|
  {
    if opts == [] then []
    else
      var n, group := RunLength(opts), EntryGroup(opts[0], cur);
      [Entry(opts[..n], 0, group, cluster, path)] + OwnEntries(opts[n..], group, cluster, path)
  }

  /** One more entry at the end. */
  lemma ListsAppend(h: Hol, es: seq<Entry>, e: Entry, h': Hol)
    requires Lists(h, es)
    requires h' == Hol(h.entries + [e.(shortAt := |h.short|)], Firsts(KeysOf(es) + ShortKeys(e.opts)))
    ensures Lists(h', es + [e])
  {
    hide Firsts, ShortKeys;
    var es' := es + [e];
    assert es'[..|es|] == es;
    forall i | 0 <= i < |es'| ensures h'.entries[i] == Placed(es', i) {
      if i < |es| {
        assert es'[..i] == es[..i];
      }
    }
  }

  /** The inner loop of `make_hol`: the options of one entry, from index `o` on. */
  method EntryOptions(opts: seq<ArgpOption>, o: nat, short: seq<int>, ghost before: seq<int>) returns (num: nat,
                      so: seq<int>)
    requires o < |opts| && short == Firsts(before)
    ensures num == RunLength(opts[o..])
    ensures so == Firsts(before + ShortKeys(opts[o..o + num]))
  {
    hide Firsts, ShortKeys, RunLength, AliasCount;
    num, so := 0, short;
    NoKeys(before, opts, o);
    while num == 0 || (o + num < |opts| && opts[o + num].isAlias)
      invariant o + num <= |opts|
      invariant num > 0 ==> RunLength(opts[o..]) == num + AliasCount(opts[o + num..])
      invariant so == Firsts(before + ShortKeys(opts[o..o + num]))
      decreases |opts| - num
    {
      var opt := opts[o + num];
      RunStep(opts, o, num);
      KeysStep(before, opts, o, o + num);
      if IsShort(opt) && opt.key !in so {
        so := so + [opt.key];
      }
      num := num + 1;
    }
    RunEnd(opts, o, num);
  }

  lemma NoKeys(before: seq<int>, opts: seq<ArgpOption>, o: nat)
    requires o <= |opts|
    ensures before + ShortKeys(opts[o..o]) == before
  {
  }

  /** What one option adds to the string of first occurrences. */
  lemma KeysStep(before: seq<int>, opts: seq<ArgpOption>, o: nat, p: nat)
    requires o <= p < |opts|
    ensures var ks := before + ShortKeys(opts[o..p]);
            Firsts(before + ShortKeys(opts[o..p + 1]))
            == Firsts(ks) + if IsShort(opts[p]) && opts[p].key !in Firsts(ks) then [opts[p].key] else []
  {
    hide Firsts;
    var ks := before + ShortKeys(opts[o..p]);
    assert opts[o..p + 1][..p - o] == opts[o..p];
    assert before + ShortKeys(opts[o..p + 1]) == ks + KeyOf(opts[p]);
    FirstsMembers(ks);
    FirstsStep(ks, opts[p].key);
    assert ks + [] == ks;
  }

  lemma RunStep(opts: seq<ArgpOption>, o: nat, num: nat)
    requires o + num < |opts|
    ensures num == 0 ==> RunLength(opts[o..]) == 1 + AliasCount(opts[o + 1..])
    ensures num > 0 && opts[o + num].isAlias ==> AliasCount(opts[o + num..]) == 1 + AliasCount(opts[o + num + 1..])
  {
  }

  lemma RunEnd(opts: seq<ArgpOption>, o: nat, num: nat)
    requires o + num <= |opts| && (o + num == |opts| || !opts[o + num].isAlias)
    ensures AliasCount(opts[o + num..]) == 0
  {
  }

  method MakeHol(a: Argp, cluster: Option<Cluster>, path: Path) returns (hol: Hol)
    requires OptionsOf(a) == [] || !OptionsOf(a)[0].isAlias
    ensures Lists(hol, OwnEntries(OptionsOf(a), 0, cluster, path))
  {
    hide Lists, Firsts, OwnEntries, RunLength, ShortKeys, KeysOf;
    var opts := OptionsOf(a);
    ghost var all := OwnEntries(opts, 0, cluster, path);
    ghost var es := [];
    hol := Hol([], []);
    EmptyList();
    OwnEntriesEnd(cluster, path);
    assert opts[0..] == opts && es + all == all;
    var o, cur := 0, 0;
    while o < |opts|
      invariant 0 <= o <= |opts|
      invariant Lists(hol, es) && hol.short == Firsts(KeysOf(es))
      invariant es + OwnEntries(opts[o..], cur, cluster, path) == all
      decreases |opts| - o
    {
      OwnEntriesStep(opts, o, cur, cluster, path);
      cur := EntryGroup(opts[o], cur);
      var num, so := EntryOptions(opts, o, hol.short, KeysOf(es));
      ghost var e := Entry(opts[o..o + num], 0, cur, cluster, path);
      var hol' := Hol(hol.entries + [Entry(opts[o..o + num], |hol.short|, cur, cluster, path)], so);
      ListsAppend(hol, es, e, hol');
      ListedShort(hol', es + [e]);
      Regroup(es, [e], OwnEntries(opts[o + num..], cur, cluster, path));
      hol, es, o := hol', es + [e], o + num;
    }
    assert es + [] == es;
  }

  lemma OwnEntriesEnd(cluster: Option<Cluster>, path: Path)
    ensures forall cur :: OwnEntries([], cur, cluster, path) == []
  {
  }

  lemma OwnEntriesStep(opts: seq<ArgpOption>, o: nat, cur: int, cluster: Option<Cluster>, path: Path)
    requires o < |opts|
    ensures var n, group := RunLength(opts[o..]), EntryGroup(opts[o], cur);
            o + n <= |opts|
            && OwnEntries(opts[o..], cur, cluster, path)
               == [Entry(opts[o..o + n], 0, group, cluster, path)] + OwnEntries(opts[o + n..], group, cluster, path)
  {
    var n := RunLength(opts[o..]);
    assert opts[o..][..n] == opts[o..o + n] && opts[o..][n..] == opts[o + n..];
  }

  lemma EmptyList()
    ensures Lists(Hol([], []), []) && Firsts(KeysOf([])) == []
  {
  }

  lemma ListedShort(h: Hol, es: seq<Entry>)
    requires Lists(h, es)
    ensures h.short == Firsts(KeysOf(es)) && |h.entries| == |es|
  {
  }

  // ----- hol_append -----

  /** The next key of the second list, met in step with that list's own string. */
  lemma AppendStep(k1: seq<int>, p: seq<int>, k: int, rest: seq<int>)
    requires k != 0
    ensures CharAt(Firsts(p + [k] + rest), |Firsts(p)|) == k <==> k !in p
    ensures |Firsts(p + [k])| == |Firsts(p)| + if k in p then 0 else 1
    ensures Firsts(k1 + (p + [k])) == Firsts(k1 + p) + if k in k1 || k in p then [] else [k]
  {
    hide Firsts;
    NextIsFresh(p, k, rest);
    FirstsStep(p, k);
    FirstsStep(k1 + p, k);
    assert k1 + (p + [k]) == (k1 + p) + [k];
  }

  /** Add the short options of one entry, met in step with the string `moreShort`
      of the list it is from, unless the first list has them already. */
  method AppendEntry(opts: seq<ArgpOption>, holShort: seq<int>, moreShort: seq<int>, short: seq<int>, moreSo: nat,
                     ghost k1: seq<int>, ghost before: seq<int>, ghost behind: seq<int>)
    returns (short': seq<int>, moreSo': nat)
    requires holShort == Firsts(k1) && moreShort == Firsts(before + ShortKeys(opts) + behind)
    requires short == Firsts(k1 + before) && moreSo == |Firsts(before)|
    ensures short' == Firsts(k1 + (before + ShortKeys(opts))) && moreSo' == |Firsts(before + ShortKeys(opts))|
  {
    hide Firsts, ShortKeys;
    short', moreSo' := short, moreSo;
    FirstsMembers(k1);
    ghost var p := before;
    ShortKeysEnds(opts);
    for j := 0 to |opts|
      invariant p == before + ShortKeys(opts[..j])
      invariant short' == Firsts(k1 + p) && moreSo' == |Firsts(p)|
      invariant moreShort == Firsts(p + ShortKeys(opts[j..]) + behind)
    {
      var opt := opts[j];
      var ch := CharAt(moreShort, moreSo');
      ShortKeysSplit(opts, j);
      ghost var rest := ShortKeys(opts[j + 1..]) + behind;
      if IsShort(opt) {
        AppendStep(k1, p, opt.key, rest);
        assert p + ShortKeys(opts[j..]) + behind == p + [opt.key] + rest;
        assert (p + [opt.key]) + ShortKeys(opts[j + 1..]) + behind == p + [opt.key] + rest;
        assert before + ShortKeys(opts[..j + 1]) == p + [opt.key];
        p := p + [opt.key];
        if ch == opt.key {
          if ch !in holShort {
            short' := short' + [ch];
          }
          moreSo' := moreSo' + 1;
        }
      } else {
        assert before + ShortKeys(opts[..j + 1]) == p;
        assert ShortKeys(opts[j..]) == ShortKeys(opts[j + 1..]);
      }
    }
    assert opts[..|opts|] == opts;
  }

  lemma ShortKeysEnds(opts: seq<ArgpOption>)
    ensures ShortKeys(opts[..0]) == [] && ShortKeys(opts[0..]) == ShortKeys(opts)
  {
  }

  lemma ShortKeysSplit(opts: seq<ArgpOption>, j: nat)
    requires j < |opts|
    ensures ShortKeys(opts[..j + 1]) == ShortKeys(opts[..j]) + KeyOf(opts[j])
    ensures ShortKeys(opts[j..]) == KeyOf(opts[j]) + ShortKeys(opts[j + 1..])
  {
    assert opts[..j + 1][..j] == opts[..j];
    assert opts[j..] == [opts[j]] + opts[j + 1..];
    ShortKeysConcat([opts[j]], opts[j + 1..]);
    assert [opts[j]][..0] == [];
  }

  /** `hol_append`: the entries of the second list follow those of the first, whose
      short options shadow theirs. */
  method HolAppend(hol: Hol, more: Hol, ghost es1: seq<Entry>, ghost es2: seq<Entry>) returns (r: Hol)
    requires Lists(hol, es1) && Lists(more, es2)
    ensures Lists(r, es1 + es2)
  {
    hide Lists, Firsts, KeysOf, ShortKeys;
    ListedShort(hol, es1);
    ListedShort(more, es2);
    assert es1 + [] == es1 && [] + es2 == es2;
    if more.entries == [] {
      return hol;
    }
    if hol.entries == [] {
      return more;
    }
    ghost var es := es1;
    r := hol;
    var so, moreSo := hol.short, 0;
    AppendStart(es1, es2);
    for i := 0 to |more.entries|
      invariant es == es1 + es2[..i] && Lists(r, es) && r.short == so
      invariant so == Firsts(KeysOf(es1) + KeysOf(es2[..i])) && moreSo == |Firsts(KeysOf(es2[..i]))|
    {
      ghost var k1, before := KeysOf(es1), KeysOf(es2[..i]);
      AppendTurn(more, es1, es2, i);
      var e := more.entries[i].(shortAt := |so|);
      so, moreSo := AppendEntry(e.opts, hol.short, more.short, so, moreSo, k1, before, KeysOf(es2[i + 1..]));
      Regroup(k1, before, ShortKeys(es2[i].opts));
      var r' := Hol(r.entries + [e], so);
      ListsAppend(r, es, es2[i], r');
      ListedShort(r', es + [es2[i]]);
      assert es + [es2[i]] == es1 + es2[..i + 1];
      r, es := r', es + [es2[i]];
    }
    assert es2[..|es2|] == es2;
  }

  lemma AppendStart(es1: seq<Entry>, es2: seq<Entry>)
    ensures KeysOf(es1) + KeysOf(es2[..0]) == KeysOf(es1) && |Firsts(KeysOf(es2[..0]))| == 0
    ensures es1 + es2[..0] == es1
  {
  }

  lemma AppendTurn(more: Hol, es1: seq<Entry>, es2: seq<Entry>, i: nat)
    requires Lists(more, es2) && i < |es2|
    ensures i < |more.entries| && more.entries[i] == Placed(es2, i)
    ensures more.short == Firsts(KeysOf(es2[..i]) + ShortKeys(es2[i].opts) + KeysOf(es2[i + 1..]))
    ensures KeysOf(es2[..i + 1]) == KeysOf(es2[..i]) + ShortKeys(es2[i].opts)
    ensures KeysOf(es1 + es2[..i]) == KeysOf(es1) + KeysOf(es2[..i])
  {
    hide Firsts, ShortKeys;
    assert es2[..i + 1][..i] == es2[..i];
    assert es2 == es2[..i + 1] + es2[i + 1..];
    KeysOfConcat(es2[..i + 1], es2[i + 1..]);
    KeysOfConcat(es1, es2[..i]);
  }

  // ----- argp_hol -----

  /** The entries of the whole tree below `a`, in preorder. */
  function TreeEntries(a: Argp, cluster: Option<Cluster>, path: Path): seq<Entry>
  {
    OwnEntries(OptionsOf(a), 0, cluster, path) + ChildEntries(a.children, cluster, path, 0)
  }

  function ChildEntries(cs: Children, cluster: Option<Cluster>, path: Path, i: nat): seq<Entry>
  {
    match cs
    case End => []
    case Child(a, _, _, next) =>
      TreeEntries(a, ChildCluster(cs, cluster, i), path + [i]) + ChildEntries(next, cluster, path, i + 1)
  }

  /** A child with a group or a header of its own gets its own cluster. */
  function ChildCluster(cs: Children, cluster: Option<Cluster>, i: nat): Option<Cluster>
    requires cs.Child?
  {
    if cs.group != 0 || cs.header.Some? then Some(Cluster(cs.group, i, cluster)) else cluster
  }

  /** The assertion of `make_hol`, for every argp of the tree. */
  predicate FirstNotAlias(a: Argp)
  {
    (OptionsOf(a) == [] || !OptionsOf(a)[0].isAlias) && ChildrenFirstNotAlias(a.children)
  }

  predicate ChildrenFirstNotAlias(cs: Children)
  {
    match cs
    case End => true
    case Child(a, _, _, next) => FirstNotAlias(a) && ChildrenFirstNotAlias(next)
  }

  method ArgpHol(a: Argp, cluster: Option<Cluster>, path: Path) returns (hol: Hol)
    requires FirstNotAlias(a)
    ensures Lists(hol, TreeEntries(a, cluster, path))
    decreases a
  {
    hide Lists, OwnEntries;
    hol := MakeHol(a, cluster, path);
    ghost var es := OwnEntries(OptionsOf(a), 0, cluster, path);
    var child, i := a.children, 0;
    while child.Child?
      invariant (child == a.children || child < a) && ChildrenFirstNotAlias(child)
      invariant Lists(hol, es) && es + ChildEntries(child, cluster, path, i) == TreeEntries(a, cluster, path)
      decreases child
    {
      var childCluster := ChildCluster(child, cluster, i);
      var more := ArgpHol(child.argp, childCluster, path + [i]);
      ghost var es2 := TreeEntries(child.argp, childCluster, path + [i]);
      hol := HolAppend(hol, more, es, es2);
      Regroup(es, es2, ChildEntries(child.next, cluster, path, i + 1));
      es := es + es2;
      child, i := child.next, i + 1;
    }
    assert es + [] == es;
  }

  // ----- hol_entry_short_iterate -----

  /** For each option of an entry, whether the walk along the string accepts it. */
  function Walk(opts: seq<ArgpOption>, short: seq<int>, so: nat): (r: seq<bool>)
    ensures |r| == |opts|
  {
    if opts == [] then []
    else if IsShort(opts[0]) && CharAt(short, so) == opts[0].key then [true] + Walk(opts[1..], short, so + 1)
    else [false] + Walk(opts[1..], short, so)
  }

  /** The loop of `hol_entry_short_iterate`, as the list of accepted options. */
  method ShortIterate(e: Entry, short: seq<int>) returns (accepted: seq<bool>)
    ensures accepted == Walk(e.opts, short, e.shortAt)
  {
    accepted := [];
    var so := e.shortAt;
    for i := 0 to |e.opts|
      invariant accepted + Walk(e.opts[i..], short, so) == Walk(e.opts, short, e.shortAt)
    {
      assert e.opts[i..][1..] == e.opts[i + 1..];
      var ok := IsShort(e.opts[i]) && CharAt(short, so) == e.opts[i].key;
      Regroup(accepted, [ok], Walk(e.opts[i + 1..], short, if ok then so + 1 else so));
      accepted := accepted + [ok];
      if ok {
        so := so + 1;
      }
    }
    assert accepted + [] == accepted;
  }

  /** The walk accepts exactly the options whose keys have not occurred before. */
  lemma {:induction false} WalkAcceptsFresh(opts: seq<ArgpOption>, before: seq<int>, behind: seq<int>, j: nat)
    requires j < |opts|
    ensures Walk(opts, Firsts(before + ShortKeys(opts) + behind), |Firsts(before)|)[j]
            <==> IsShort(opts[j]) && opts[j].key !in before + ShortKeys(opts[..j])
    decreases |opts|
  {
    hide Firsts, ShortKeys;
    var o, rest := opts[0], ShortKeys(opts[1..]) + behind;
    var short, so := Firsts(before + ShortKeys(opts) + behind), |Firsts(before)|;
    ShortKeysSplit(opts, 0);
    assert opts[0..] == opts;
    if IsShort(o) {
      assert before + ShortKeys(opts) + behind == before + [o.key] + rest;
      AppendStep([], before, o.key, rest);
      if j > 0 {
        assert (before + [o.key]) + ShortKeys(opts[1..]) + behind == before + [o.key] + rest;
        WalkAcceptsFresh(opts[1..], before + [o.key], behind, j - 1);
        KeysBefore(opts, j);
        assert (before + [o.key]) + ShortKeys(opts[1..][..j - 1]) == before + ShortKeys(opts[..j]);
      } else {
        ShortKeysEnds(opts);
      }
    } else if j > 0 {
      assert ShortKeys(opts) == ShortKeys(opts[1..]);
      WalkAcceptsFresh(opts[1..], before, behind, j - 1);
      KeysBefore(opts, j);
      assert ShortKeys(opts[..j]) == ShortKeys(opts[1..][..j - 1]);
    }
  }

  lemma KeysBefore(opts: seq<ArgpOption>, j: nat)
    requires 0 < j <= |opts|
    ensures ShortKeys(opts[..j]) == KeyOf(opts[0]) + ShortKeys(opts[1..][..j - 1])
  {
    assert opts[..j] == [opts[0]] + opts[1..][..j - 1];
    ShortKeysConcat([opts[0]], opts[1..][..j - 1]);
    assert [opts[0]][..0] == [];
  }

  /** In a help list, an entry's walk accepts exactly its unshadowed short options. */
  lemma EntryAcceptsUnshadowed(h: Hol, es: seq<Entry>, i: nat, j: nat)
    requires Lists(h, es) && i < |es| && j < |es[i].opts|
    ensures i < |h.entries| && h.entries[i].opts == es[i].opts
    ensures Walk(h.entries[i].opts, h.short, h.entries[i].shortAt)[j]
            <==> IsShort(es[i].opts[j]) && es[i].opts[j].key !in KeysOf(es[..i]) + ShortKeys(es[i].opts[..j])
  {
    AppendTurn(h, [], es, i);
    WalkAcceptsFresh(es[i].opts, KeysOf(es[..i]), KeysOf(es[i + 1..]), j);
  }
}
