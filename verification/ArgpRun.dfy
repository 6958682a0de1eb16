/**
 `argp_parse` as a whole: what every group sees over a complete run.
 */
module ArgpRun {
  import opened Wrappers
  import opened Sequences
  import opened ArgpTree
  import opened ArgpConvert
  import opened ArgpLifecycle
  import T = ArgpTables

  /** Everything that a run depends on: the tables, the command line as getopt sees it,
      the parser functions, and what the caller asks for. `script` holds the answers that
      getopt would give in each round of the loop. */
  datatype Setup = Setup(gs: seq<Group>, short: seq<int>, slots: nat, argc: nat, noArgs: bool, parsers: Parsers,
                         input: Input,
                         script: seq<Got>, wantEnd: bool)

  /** A run that got past its INIT pass: the INIT calls, the rounds of the loop, and the
      calls that close it. */
  datatype Run = Run(init: seq<Call>, rounds: seq<Round>, cl: Closing)

  datatype Outcome = InitFailed(err: int) | Unfinished | Finished(err: int, end: Option<int>)

  function Mid(rounds: seq<Round>): seq<Call>
  {
    if rounds == [] then [] else Mid(rounds[..|rounds| - 1]) + rounds[|rounds| - 1].calls
  }

  function Calls(run: Run): seq<Call>
  {
    run.init + Mid(run.rounds) + ClosingCalls(run.cl)
  }

  /** The tables are laid out, and getopt keeps its promises. */
  ghost predicate Ready(s: Setup)
  {
    Laid(s.gs, s.slots) && forall i :: 0 <= i < |s.script| ==> Proper(s.script[i], s.argc, |s.gs|)
  }

  /** A successful INIT pass. */
  ghost predicate InitDone(init: seq<Call>, s: Setup)
  {
    && FullPass(init, Up(|s.gs|), Init) && Threaded(init, 0, Zeros(|s.gs|))
    && forall j :: 0 <= j < |s.gs| ==> Quiet(init[j].reply.err) && Fed(s.gs, s.input, init, j)
  }

  function Start(init: seq<Call>, s: Setup): Cursor
  {
    Cursor(LastNext(init, 0), 0, true, seq(|s.gs|, _ => 0))
  }

  /** Where the parser stands, and the error, after some rounds. */
  function At(rounds: seq<Round>, start: Cursor): Cursor
  {
    if rounds == [] then start else rounds[|rounds| - 1].after
  }

  function Err(rounds: seq<Round>): int
  {
    if rounds == [] then 0 else rounds[|rounds| - 1].err
  }

  /** The loop goes on, round by round, as long as there is no error. */
  ghost predicate Played(rounds: seq<Round>, start: Cursor, s: Setup)
  {
    rounds != [] ==>
      var front, r := rounds[..|rounds| - 1], rounds[|rounds| - 1];
      && Played(front, start, s) && Err(front) == 0 && |front| < |s.script|
      && r.got == s.script[|front|] && r.before == At(front, start) && RoundDone(r, s.short, s.gs, s.argc, s.noArgs)
  }

  /** The error with which the loop ends: an unknown key is none if the options are used up
      or the argument is refused by all groups. */
  function LoopError(run: Run, s: Setup): int
  {
    if run.rounds == [] then 0
    else
      var last := run.rounds[|run.rounds| - 1];
      if last.err == EBADKEY && Excused(last, s.argc, s.noArgs) then 0 else last.err
  }

  /** The index of the first argument not parsed, and the arguments processed by each group. */
  function Index(run: Run, s: Setup): int
  {
    At(run.rounds, Start(run.init, s)).next
  }

  function Counts(run: Run, s: Setup): seq<nat>
  {
    At(run.rounds, Start(run.init, s)).processed
  }

  /** A complete run, with the error and the end index returned. */
  ghost predicate Complete(run: Run, s: Setup, err: int, end: Option<int>)
  {
    && InitDone(run.init, s)
    && Played(run.rounds, Start(run.init, s), s) && Err(run.rounds) != 0
    && |Counts(run, s)| == |s.gs|
    && Closed(run.cl, |s.gs|, Counts(run, s), LoopError(run, s), Index(run, s) == s.argc, s.wantEnd, err)
    && Threaded(ClosingCalls(run.cl), Index(run, s), Counts(run, s))
    && end == (if s.wantEnd && LoopError(run, s) == 0 then Some(LastNext(run.cl.noArgs + run.cl.ends, Index(run, s)))
       else None)
    && Honest(Calls(run), s.gs, s.parsers) && Kept(Calls(run))
  }

  /** `__argp_parse`. A run is unfinished when the loop goes on after the last answer of
      the script. */
  method ArgpParse(s: Setup) returns (outcome: Outcome, log: seq<Call>, ghost run: Run)
    requires Ready(s)
    ensures Honest(log, s.gs, s.parsers) && Kept(log)
    ensures match outcome
            case InitFailed(err) => && !Quiet(err) && Pass(log, Up(|s.gs|), Init, 0, err)
                                    && Threaded(log, 0, Zeros(|s.gs|))
                                    && forall j :: 0 <= j < |log| ==> Fed(s.gs, s.input, log, j)
            case Unfinished => && InitDone(run.init, s) && log == run.init + Mid(run.rounds)
                               && |run.rounds| == |s.script|
                               && Played(run.rounds, Start(run.init, s), s) && Err(run.rounds) == 0
            case Finished(err, end) => log == Calls(run) && Complete(run, s, err, end) && err != EBADKEY
  {
    hide Laid, Pass, FullPass, Fed, Closed, Up, ClosingCalls, Honest, Kept, Threaded, LastNext, Played, RoundDone, Mid,
         Excused, Proper;
    var p := new Parser(s.gs, s.short, s.slots, s.argc, s.noArgs, s.parsers);
    run := Run([], [], Closing([], [], [], [], 0));
    var err, e := p.InitPass(s.input);
    InitComplete(p.log, s.gs, e);
    if err != 0 {
      return InitFailed(err), p.log, run;
    }
    ghost var init, rounds, start := p.log, [], p.Here();
    assert start.processed == Start(init, s).processed;
    NotPlayed(start, s);
    var argEbadkey := false;
    var i := 0;
    while err == 0 && i < |s.script|
      invariant fresh(p) && p.Valid() && i == |rounds| <= |s.script| && p.log == init + Mid(rounds)
      invariant Played(rounds, start, s) && p.Here() == At(rounds, start) && err == Err(rounds)
      invariant err == EBADKEY ==> rounds != [] && argEbadkey == Excused(rounds[|rounds| - 1], s.argc, s.noArgs)
    {
      ghost var round;
      err, argEbadkey, round := p.ParseNext(s.script[i], argEbadkey);
      PlayedStep(rounds, start, s, round);
      Regroup(init, Mid(rounds), round.calls);
      rounds := rounds + [round];
      i := i + 1;
    }
    run := Run(init, rounds, Closing([], [], [], [], 0));
    if err == 0 {
      return Unfinished, p.log, run;
    }
    var err', end, cl := p.Finalize(err, argEbadkey, s.wantEnd);
    run := Run(init, rounds, cl);
    return Finished(err', end), p.log, run;
  }

  lemma NotPlayed(start: Cursor, s: Setup)
    ensures Played([], start, s) && Mid([]) == []
  {
  }

  lemma PlayedStep(rounds: seq<Round>, start: Cursor, s: Setup, r: Round)
    requires Played(rounds, start, s) && Err(rounds) == 0 && |rounds| < |s.script|
    requires r.got == s.script[|rounds|] && r.before == At(rounds, start)
    requires RoundDone(r, s.short, s.gs, s.argc, s.noArgs)
    ensures Played(rounds + [r], start, s) && Mid(rounds + [r]) == Mid(rounds) + r.calls
  {
    assert (rounds + [r])[..|rounds|] == rounds;
  }

  lemma InitComplete(init: seq<Call>, gs: seq<Group>, e: int)
    requires Pass(init, Up(|gs|), Init, 0, e)
    ensures Quiet(e) ==> FullPass(init, Up(|gs|), Init) && |init| == |gs| && forall j :: 0 <= j < |gs| ==>
            Quiet(init[j].reply.err)
  {
  }

  // ----- The loop -----

  /** A call after which the loop goes on: a success, or an argument refused. */
  ghost predicate Smooth(c: Call)
  {
    c.reply.err == 0 || (c.reply.err == EBADKEY && (c.req.key == Arg || c.req.key == Args))
  }

  /** Options and arguments are offered up to the first error and not beyond: only the
      last call of the loop may be answered by an error, and then it ends the loop. */
  lemma {:induction false} ErrorIsLast(rounds: seq<Round>, start: Cursor, s: Setup, i: nat)
    requires Played(rounds, start, s) && i < |Mid(rounds)|
    ensures var c := Mid(rounds)[i];
            Middle(c.req.key) && (Smooth(c) || (i == |Mid(rounds)| - 1 && c.reply.err == Err(rounds)))
  {
    hide RoundDone, Smooth;
    var front, r := rounds[..|rounds| - 1], rounds[|rounds| - 1];
    if i < |Mid(front)| {
      ErrorIsLast(front, start, s, i);
      assert Smooth(Mid(front)[i]) by { ZeroIsSmooth(Mid(front)[i]); }
    } else {
      RoundError(r, s, i - |Mid(front)|);
    }
  }

  lemma ZeroIsSmooth(c: Call)
    ensures c.reply.err == 0 ==> Smooth(c)
  {
  }

  lemma RoundError(r: Round, s: Setup, i: nat)
    requires RoundDone(r, s.short, s.gs, s.argc, s.noArgs) && i < |r.calls|
    ensures Middle(r.calls[i].req.key) && (Smooth(r.calls[i]) || (i == |r.calls| - 1 && r.calls[i].reply.err == r.err))
  {
    hide GroupKey, UserKey, DispatchShort, OfferNexts, AfterArg, Consult, Threaded;
    assert TurnOf(r.got, r.before, s.argc, s.noArgs).TakeArg? ==> OfferAt(r.calls[i], i);
  }

  // ----- Arguments -----

  /** If the parser functions leave `next` alone, the count of every group is the number of
      arguments it has accepted, in every state of the loop. */
  lemma {:induction false} RoundsCredited(rounds: seq<Round>, init: seq<Call>, s: Setup)
    requires Ready(s) && InitDone(init, s) && Played(rounds, Start(init, s), s) && LeaveNext(Mid(rounds))
    ensures var c := At(rounds, Start(init, s));
            |c.processed| == |s.gs| && Credited(c.processed, init + Mid(rounds), s.argc)
  {
    hide Credited, RoundDone, LeaveNext, Laid, Proper, InitDone, Start;
    var start := Start(init, s);
    if rounds == [] {
      CreditedStart(init, s);
    } else {
      var front, r := rounds[..|rounds| - 1], rounds[|rounds| - 1];
      LeaveConcat(Mid(front), r.calls);
      RoundsCredited(front, init, s);
      RoundCredited(init + Mid(front), r, s.short, s.gs, s.argc, s.noArgs);
      Regroup(init, Mid(front), r.calls);
    }
  }

  lemma CreditedStart(init: seq<Call>, s: Setup)
    requires InitDone(init, s)
    ensures |Start(init, s).processed| == |s.gs| && Credited(Start(init, s).processed, init + [], s.argc)
  {
    hide Up, Fed, Threaded;
    NoCredit([], init, s.argc);
    assert [] + init == init == init + [];
    SumZeros(Start(init, s).processed);
  }

  lemma {:induction false} SumZeros(s: seq<nat>)
    requires forall k :: 0 <= k < |s| ==> s[k] == 0
    ensures Sum(s) == 0
  {
    if s != [] {
      SumZeros(s[..|s| - 1]);
    }
  }

  /** The same over a whole run, whose closing passes accept no arguments. */
  lemma RunCredited(run: Run, s: Setup, err: int, end: Option<int>)
    requires Ready(s) && Complete(run, s, err, end) && LeaveNext(Mid(run.rounds))
    ensures Credited(Counts(run, s), Calls(run), s.argc)
  {
    hide Credited, LeaveNext, Laid, Proper, InitDone, Start, Played, Mid, Threaded, LastNext, Honest, Kept, Idle, Up,
         Down, Quiet, After;
    RoundsCredited(run.rounds, run.init, s);
    var log := run.init + Mid(run.rounds);
    NoCredit(log, ClosingCalls(run.cl), s.argc);
    assert Credited(Counts(run, s), log, s.argc) ==> Credited(Counts(run, s), log + ClosingCalls(run.cl), s.argc) by {
      SameCredit(Counts(run, s), log, log + ClosingCalls(run.cl), s.argc);
    }
  }

  lemma SameCredit(processed: seq<nat>, log: seq<Call>, log': seq<Call>, argc: nat)
    requires Accepted(log', argc) == Accepted(log, argc)
    requires forall k: nat :: AcceptedBy(log', k, argc) == AcceptedBy(log, k, argc)
    ensures Credited(processed, log, argc) ==> Credited(processed, log', argc)
  {
  }

  // ----- Isolation -----

  /** Every call behind the INIT pass shows its group the input that INIT showed it, and its
      child inputs as the group itself left them: no other group can change either. */
  lemma Isolated(run: Run, s: Setup, err: int, end: Option<int>, i: nat)
    requires Complete(run, s, err, end) && |s.gs| <= i < |Calls(run)|
    ensures var c := Calls(run)[i];
            && c.req.group < |s.gs| == |run.init| && c.req.input == run.init[c.req.group].req.input
            && var before := LastTo(Calls(run)[..i], c.req.group); before.Some? && c.req.child == Left(before.value)
  {
    hide Threaded, Played, Closed, Left, Kept, LoopError, Index, Counts, LastNext, Up, ClosingCalls, Mid;
    var log := Calls(run);
    var k := log[i].req.group;
    assert |run.init| == |s.gs| && log[k] == run.init[k];
    assert run.init[k].req.group == k by { assert Fed(s.gs, s.input, run.init, k); }
    SameInput(log, k, i);
  }

  /** In a record kept like that, any two calls of a group show the same input. */
  lemma {:induction false} SameInput(log: seq<Call>, j: nat, i: nat)
    requires Kept(log) && j < i < |log| && log[j].req.group == log[i].req.group
    ensures log[i].req.input == log[j].req.input
    ensures var before := LastTo(log[..i], log[i].req.group); before.Some? && log[i].req.child == Left(before.value)
    decreases i
  {
    hide Left;
    KeptPrefix(log, i + 1);
    assert log[..i + 1][..i] == log[..i];
    var m := LastAt(log[..i], log[i].req.group, j);
    if j < m {
      SameInput(log, j, m);
    }
  }

  lemma {:induction false} KeptPrefix(log: seq<Call>, n: nat)
    requires Kept(log) && n <= |log|
    ensures Kept(log[..n])
  {
    hide Left;
    if n == |log| {
      assert log[..n] == log;
    } else {
      var front := log[..|log| - 1];
      KeptPrefix(front, n);
      assert front[..n] == log[..n];
    }
  }

  lemma {:induction false} LastAt(log: seq<Call>, k: nat, j: nat) returns (m: nat)
    requires j < |log| && log[j].req.group == k
    ensures j <= m < |log| && log[m].req.group == k && LastTo(log, k) == Some(log[m])
  {
    if log[|log| - 1].req.group == k {
      m := |log| - 1;
    } else {
      m := LastAt(log[..|log| - 1], k, j);
    }
  }

  /** The calls of a round show the counts before the round. */
  lemma RoundCounted(rounds: seq<Round>, start: Cursor, s: Setup, n: nat, i: nat)
    requires Played(rounds, start, s) && n < |rounds| && i < |rounds[n].calls|
    ensures Counted(rounds[n].calls[i], rounds[n].before.processed)
  {
    hide Threaded, OfferNexts, Offered, OptOffered, AfterArg, LastNext, Counted;
    PlayedAt(rounds, start, s, n);
    var r := rounds[n];
    match TurnOf(r.got, r.before, s.argc, s.noArgs)
    case TakeArg(index) => OfferCounted(r.calls, index, r.before.processed, i);
    case TakeOpt(_) => ThreadCounted(r.calls, r.got.optind, r.before.processed, i);
  }

  /** The closing calls show the final counts. */
  lemma ClosingCounted(run: Run, s: Setup, err: int, end: Option<int>, i: nat)
    requires Complete(run, s, err, end) && i < |ClosingCalls(run.cl)|
    ensures Counted(ClosingCalls(run.cl)[i], Counts(run, s))
  {
    hide ClosingCalls, Counted;
    ThreadCounted(ClosingCalls(run.cl), Index(run, s), Counts(run, s), i);
  }

  lemma {:induction false} PlayedAt(rounds: seq<Round>, start: Cursor, s: Setup, n: nat)
    requires Played(rounds, start, s) && n < |rounds|
    ensures n < |s.script| && rounds[n].got == s.script[n] && RoundDone(rounds[n], s.short, s.gs, s.argc, s.noArgs)
  {
    hide RoundDone;
    if n < |rounds| - 1 {
      PlayedAt(rounds[..|rounds| - 1], start, s, n);
    }
  }

  lemma {:induction false} ThreadCounted(calls: seq<Call>, next: int, counts: seq<nat>, i: nat)
    requires Threaded(calls, next, counts) && i < |calls|
    ensures Counted(calls[i], counts)
  {
    if i < |calls| - 1 {
      ThreadCounted(calls[..|calls| - 1], next, counts, i);
    }
  }

  lemma {:induction false} OfferCounted(calls: seq<Call>, index: int, counts: seq<nat>, i: nat)
    requires OfferNexts(calls, index, counts) && i < |calls|
    ensures Counted(calls[i], counts)
  {
    if i < |calls| - 1 {
      OfferCounted(calls[..|calls| - 1], index, counts, i);
    }
  }

  // ----- Runs on a tree -----

  /** The tables of a run are those of a tree of argps. */
  ghost predicate OnTree(s: Setup, a: Argp, inOrder: bool)
  {
    var prefix := T.Prefix(inOrder, s.noArgs);
    && s.gs == Groups(a, [], None, 0, 0, |prefix|, 0) && s.slots == ChildCount(a)
    && s.short == prefix + ShortString(Occurrences(a, [], 0))
  }

  /** Every tree can be run. */
  lemma TreeReady(s: Setup, a: Argp, inOrder: bool)
    requires OnTree(s, a, inOrder)
    ensures Ready(s) <==> forall i :: 0 <= i < |s.script| ==> Proper(s.script[i], s.argc, |s.gs|)
  {
    hide Groups, ShortString, Laid, Proper;
    TreeIsLaid(a, |T.Prefix(inOrder, s.noArgs)|);
  }

  /** In every run on a tree, a short option is one call to the group of the first option to
      carry it, or to the first group if it is the ordering character; without a
      carrier it is an error. */
  lemma TreeShortOption(s: Setup, a: Argp, inOrder: bool, rounds: seq<Round>, start: Cursor, n: nat, opt: int)
    requires OnTree(s, a, inOrder) && Played(rounds, start, s) && n < |rounds|
    requires Asked(rounds[n].before) && rounds[n].got.GotOpt? && rounds[n].got.opt == opt && 0 <= opt < 0x100_0000
    ensures var r, os, ordering := rounds[n], Occurrences(a, [], 0), opt in T.Prefix(inOrder, s.noArgs);
            if r.calls == [] then
              r.err == EBADKEY && if ordering then s.gs == [] else forall m: nat :: !FirstCarrier(os, opt, m)
            else && |r.calls| == 1 && r.calls[0].req.key == Opt(opt) && r.err == r.calls[0].reply.err
                 && if ordering then r.calls[0].req.group == 0
                    else exists m: nat :: FirstCarrier(os, opt, m) && os[m].group == r.calls[0].req.group
  {
    PlayedAt(rounds, start, s, n);
    hide *;
    ShortOptionCall(rounds[n], s, opt);
    TreeDispatch(s, a, inOrder, opt);
  }

  lemma ShortOptionCall(r: Round, s: Setup, opt: int)
    requires RoundDone(r, s.short, s.gs, s.argc, s.noArgs)
    requires Asked(r.before) && r.got.GotOpt? && r.got.opt == opt && 0 <= opt < 0x100_0000
    ensures match DispatchShort(s.short, s.gs, opt)
            case None => r.calls == [] && r.err == EBADKEY
            case Some(k) => && |r.calls| == 1 && r.calls[0].req.key == Opt(opt) && r.calls[0].req.group == k
                            && r.err == r.calls[0].reply.err
  {
    hide DispatchShort, Threaded, LastNext, UserKey, OfferNexts, Offered, AfterArg;
  }

  /** Where a tree's tables send a short option. */
  lemma TreeDispatch(s: Setup, a: Argp, inOrder: bool, opt: int)
    requires OnTree(s, a, inOrder)
    ensures var g, os := DispatchShort(s.short, s.gs, opt), Occurrences(a, [], 0);
            if opt in T.Prefix(inOrder, s.noArgs) then (g == None <==> s.gs == []) && (g.Some? ==> g.value == 0)
            else if g == None then forall m: nat :: !FirstCarrier(os, opt, m)
            else exists m: nat :: FirstCarrier(os, opt, m) && os[m].group == g.value
  {
    hide Groups, ShortString, Occurrences, Carries, Owned;
    var os, prefix := Occurrences(a, [], 0), T.Prefix(inOrder, s.noArgs);
    TreeOwned(a, [], None, 0, 0, |prefix|, 0);
    var g := DispatchShort(s.short, s.gs, opt);
    if os != [] {
      OptionsHaveGroups(os, s.gs, |prefix|);
    }
    if s.gs != [] {
      hide DispatchShort;
      DispatchExactly(prefix, os, s.gs, opt, if g.Some? then g.value else 0);
      forall m: nat | FirstCarrier(os, opt, m) && opt !in prefix ensures g.Some? {
        DispatchExactly(prefix, os, s.gs, opt, os[m].group);
      }
    }
  }

  lemma OptionsHaveGroups(os: seq<Occurrence>, gs: seq<Group>, s: nat)
    requires Owned(os, gs, 0, s) && os != []
    ensures gs != []
  {
    assert os[0].group < |gs|;
  }

  /** In every run on a tree, a long option of the table is one call to the argp that is the
      first to declare its name, with the user's own key. */
  lemma TreeLongOption(s: Setup, a: Argp, inOrder: bool, rounds: seq<Round>, start: Cursor, n: nat, i: nat)
    requires OnTree(s, a, inOrder) && Played(rounds, start, s) && n < |rounds| && |s.gs| <= 127
    requires var os := Occurrences(a, [], 0);
             && (forall m :: 0 <= m < |os| ==> && -0x80_0000 <= os[m].opt.key < 0x80_0000
                                               && -0x80_0000 <= os[m].base.key < 0x80_0000)
             && i < |AddAllLong([], os)|
             && Asked(rounds[n].before) && rounds[n].got.GotOpt? && rounds[n].got.opt == AddAllLong([], os)[i].val
    ensures var r, os := rounds[n], Occurrences(a, [], 0);
            && |r.calls| == 1 && r.err == r.calls[0].reply.err
            && exists m: nat :: && FirstNamed(os, AddAllLong([], os)[i].name, m)
                                && r.calls[0].req.group < |s.gs| && s.gs[r.calls[0].req.group].path == os[m].path
                                && r.calls[0].req.key ==
                                   Opt(if os[m].opt.key != 0 then os[m].opt.key else os[m].base.key)
  {
    hide Groups, ShortString, Occurrences, DispatchShort, Threaded, LastNext, UserKey, GroupKey, Owned, OfferNexts,
         AfterArg, AddAllLong,
         FirstNamed;
    PlayedAt(rounds, start, s, n);
    var prefix := T.Prefix(inOrder, s.noArgs);
    TreeOwned(a, [], None, 0, 0, |prefix|, 0);
    DispatchLong(Occurrences(a, [], 0), s.gs, |prefix|, i);
  }

  // ----- What one group sees -----

  /** The keys that are offered to group `k`. */
  function KeysTo(calls: seq<Call>, k: nat): seq<Key>
  {
    if calls == [] then []
    else KeysTo(calls[..|calls| - 1], k) + if calls[|calls| - 1].req.group == k then [calls[|calls| - 1].req.key]
         else []
  }

  lemma {:induction false} KeysConcat(a: seq<Call>, b: seq<Call>, k: nat)
    ensures KeysTo(a + b, k) == KeysTo(a, k) + KeysTo(b, k)
  {
    if b == [] {
      assert a + b == a;
    } else {
      assert (a + b)[..|a + b| - 1] == a + b[..|b| - 1];
      KeysConcat(a, b[..|b| - 1], k);
    }
  }

  lemma {:induction false} KeysNone(calls: seq<Call>, k: nat)
    requires forall i :: 0 <= i < |calls| ==> calls[i].req.group != k
    ensures KeysTo(calls, k) == []
  {
    if calls != [] {
      KeysNone(calls[..|calls| - 1], k);
    }
  }

  lemma KeysOnce(calls: seq<Call>, k: nat, i: nat)
    requires i < |calls| && calls[i].req.group == k
    requires forall j :: 0 <= j < |calls| && j != i ==> calls[j].req.group != k
    ensures KeysTo(calls, k) == [calls[i].req.key]
  {
    assert calls == calls[..i] + [calls[i]] + calls[i + 1..];
    KeysConcat(calls[..i] + [calls[i]], calls[i + 1..], k);
    KeysNone(calls[..i], k);
    KeysNone(calls[i + 1..], k);
    assert (calls[..i] + [calls[i]])[..i] == calls[..i];
  }

  lemma {:induction false} KeysMiddle(calls: seq<Call>, k: nat)
    requires forall i :: 0 <= i < |calls| ==> Middle(calls[i].req.key)
    ensures forall i :: 0 <= i < |KeysTo(calls, k)| ==> Middle(KeysTo(calls, k)[i])
  {
    if calls != [] {
      KeysMiddle(calls[..|calls| - 1], k);
    }
  }

  /** A pass offers its key to each group at most once, and to every group of the
      order unless a group before it answered with an error. */
  lemma PassKeys(calls: seq<Call>, order: seq<nat>, key: Key, err0: int, err: int, k: nat)
    requires Pass(calls, order, key, err0, err)
    requires forall i, j :: 0 <= i < j < |order| ==> order[i] != order[j]
    ensures KeysTo(calls, k) == [] || (k in order && KeysTo(calls, k) == [key])
    ensures k in order && Quiet(err) ==> KeysTo(calls, k) == [key]
  {
    if i :| 0 <= i < |calls| && calls[i].req.group == k {
      KeysOnce(calls, k, i);
    } else {
      KeysNone(calls, k);
    }
  }

  lemma {:induction false} IdleIncreases(processed: seq<nat>, k: nat)
    requires k <= |processed|
    ensures var idle := Idle(processed, k);
            && (forall i, j :: 0 <= i < j < |idle| ==> idle[i] < idle[j])
            && forall g :: 0 <= g < k && processed[g] == 0 ==> g in idle
  {
    if k > 0 {
      var front, last := Idle(processed, k - 1), if processed[k - 1] == 0 then [k - 1] else [];
      assert Idle(processed, k) == front + last;
      hide Idle;
      IdleIncreases(processed, k - 1);
      assert forall g :: g in front || g in last ==> g in front + last;
    }
  }

  /** What a group sees in the closing passes. */
  ghost predicate ClosingKeys(cl: Closing, k: nat, idle: bool)
  {
    var a, b, c := KeysTo(cl.noArgs, k), KeysTo(cl.ends, k), KeysTo(cl.notes, k);
    && (a == [] || (a == [NoArgs] && idle))
    && (b == [] || b == [Key.End])
    && (if cl.pre != 0 then c == [Error] else c == [] || c == [Success])
  }

  lemma ClosedKeys(cl: Closing, n: nat, processed: seq<nat>, e0: int, all: bool, wantEnd: bool, err: int, k: nat)
    requires |processed| == n && Closed(cl, n, processed, e0, all, wantEnd, err) && k < n
    ensures ClosingKeys(cl, k, processed[k] == 0) && KeysTo(cl.finis, k) == [Fini]
    ensures err == 0 && e0 == 0 && all ==>
              && KeysTo(cl.noArgs, k) == (if processed[k] == 0 then [NoArgs] else [])
              && KeysTo(cl.ends, k) == [Key.End]
    ensures err == 0 ==> KeysTo(cl.notes, k) == [Success]
  {
    hide KeysTo, Idle;
    KeysOnce(cl.finis, k, n - 1 - k);
    IdleIncreases(processed, n);
    assert Down(n)[n - 1 - k] == k && Up(n)[k] == k;
    if e0 == 0 && all {
      PassKeys(cl.noArgs, Idle(processed, n), NoArgs, 0, After(cl.noArgs, 0), k);
      PassKeys(cl.ends, Down(n), Key.End, After(cl.noArgs, 0), After(cl.ends, After(cl.noArgs, 0)), k);
    } else {
      KeysNone([], k);
    }
    if cl.pre != 0 {
      KeysOnce(cl.notes, k, k);
    } else {
      PassKeys(cl.notes, Down(n), Success, 0, After(cl.notes, 0), k);
    }
  }

  /** Over a complete run every group is offered INIT, then options and arguments, then
      perhaps NO_ARGS, then perhaps END, then either ERROR or perhaps SUCCESS, and
      then FINI exactly once and last. An error that ends the loop leads to ERROR at once. */
  lemma GroupStory(run: Run, s: Setup, err: int, end: Option<int>, k: nat)
    requires Complete(run, s, err, end) && k < |s.gs|
    ensures var mid := KeysTo(Mid(run.rounds), k);
            && KeysTo(Calls(run), k) ==
               [Init] + mid + KeysTo(run.cl.noArgs, k) + KeysTo(run.cl.ends, k) + KeysTo(run.cl.notes, k) + [Fini]
            && forall i :: 0 <= i < |mid| ==> Middle(mid[i])
    ensures ClosingKeys(run.cl, k, Counts(run, s)[k] == 0)
    ensures LoopError(run, s) != 0 ==>
            KeysTo(run.cl.noArgs, k) == KeysTo(run.cl.ends, k) == [] && KeysTo(run.cl.notes, k) == [Error]
  {
    hide KeysTo, Fed, Played, Mid, Honest, Kept, Threaded, LastNext, Counts, Index, LoopError, FullPass, Pass, Down,
         Idle, After;
    var mid := Mid(run.rounds);
    InitOnce(run.init, s, k);
    forall i | 0 <= i < |mid| ensures Middle(mid[i].req.key) {
      ErrorIsLast(run.rounds, Start(run.init, s), s, i);
    }
    KeysMiddle(mid, k);
    KeysNone([], k);
    ClosedKeys(run.cl, |s.gs|, Counts(run, s), LoopError(run, s), Index(run, s) == s.argc, s.wantEnd, err, k);
    KeysConcat(run.init + mid, ClosingCalls(run.cl), k);
    KeysConcat(run.init, mid, k);
    KeysConcat(run.cl.noArgs + run.cl.ends + run.cl.notes, run.cl.finis, k);
    KeysConcat(run.cl.noArgs + run.cl.ends, run.cl.notes, k);
    KeysConcat(run.cl.noArgs, run.cl.ends, k);
  }

  lemma InitOnce(init: seq<Call>, s: Setup, k: nat)
    requires InitDone(init, s) && k < |s.gs|
    ensures KeysTo(init, k) == [Init]
  {
    hide KeysTo, Fed, Threaded;
    KeysOnce(init, k, k);
  }

  /** A run without an error shows every group one of the documented sequences: with END if
      all arguments were parsed, and with NO_ARGS before it if the group processed
      none; or without both if arguments are left over. */
  lemma SuccessStory(run: Run, s: Setup, end: Option<int>, k: nat)
    requires Complete(run, s, 0, end) && k < |s.gs|
    ensures KeysTo(Calls(run), k) ==
            [Init] + KeysTo(Mid(run.rounds), k)
            + (if Index(run, s) != s.argc then [] else (if Counts(run, s)[k] == 0 then [NoArgs] else []) + [Key.End])
            + [Success] + [Fini]
    ensures LoopError(run, s) == 0 && (Index(run, s) != s.argc ==> s.wantEnd)
  {
    hide KeysTo, ClosingKeys, Fed, Calls, Played, Mid, Honest, Kept, Threaded, LastNext, Counts, Index, LoopError,
         FullPass, Pass, Down, Idle,
         After;
    GroupStory(run, s, 0, end, k);
    ClosedKeys(run.cl, |s.gs|, Counts(run, s), LoopError(run, s), Index(run, s) == s.argc, s.wantEnd, 0, k);
    KeysNone([], k);
  }

  /** The end index returned: all arguments, or the first that is left over. */
  lemma EndIndex(run: Run, s: Setup, err: int, end: Option<int>)
    requires Complete(run, s, err, end) && LeaveNext(ClosingCalls(run.cl))
    ensures end == if s.wantEnd && LoopError(run, s) == 0 then Some(Index(run, s)) else None
  {
    hide Played, InitDone, Closed, Honest, Kept, Threaded, LeaveNext, LastNext, LoopError, Counts, Index;
    var done, rest := run.cl.noArgs + run.cl.ends, run.cl.notes + run.cl.finis;
    assert ClosingCalls(run.cl) == done + rest;
    LeaveConcat(done, rest);
    ThreadedPrefix(done, rest, Index(run, s), Counts(run, s));
    LeaveThread(done, Index(run, s), Counts(run, s));
  }

  lemma {:induction false} ThreadedPrefix(a: seq<Call>, b: seq<Call>, next: int, counts: seq<nat>)
    requires Threaded(a + b, next, counts)
    ensures Threaded(a, next, counts)
  {
    if b == [] {
      assert a + b == a;
    } else {
      assert (a + b)[..|a + b| - 1] == a + b[..|b| - 1];
      ThreadedPrefix(a, b[..|b| - 1], next, counts);
    }
  }

  /** Group `k` accepts an argument. */
  ghost predicate Accepts(c: Call, k: nat)
  {
    c.req.group == k && c.reply.err == 0 && (c.req.key == Arg || c.req.key == Args)
  }

  /** NO_ARGS is for the groups that accepted no argument: if `next` is left alone, a group
      has a count of zero exactly if none of its calls accepted one. */
  lemma {:induction false} IdleAcceptedNothing(rounds: seq<Round>, init: seq<Call>, s: Setup, k: nat)
    requires Ready(s) && InitDone(init, s) && Played(rounds, Start(init, s), s) && LeaveNext(Mid(rounds)) && k < |s.gs|
    ensures var c := At(rounds, Start(init, s));
            && |c.processed| == |s.gs|
            && (c.processed[k] == 0 <==> forall i :: 0 <= i < |Mid(rounds)| ==> !Accepts(Mid(rounds)[i], k))
  {
    hide RoundDone, LeaveNext, Laid, Proper, InitDone, Accepts;
    if rounds != [] {
      var front, r := rounds[..|rounds| - 1], rounds[|rounds| - 1];
      LeaveConcat(Mid(front), r.calls);
      IdleAcceptedNothing(front, init, s, k);
      RoundAccepts(r, s, k);
      AcceptsConcat(Mid(front), r.calls, k);
    }
  }

  lemma AcceptsConcat(a: seq<Call>, b: seq<Call>, k: nat)
    ensures (forall i :: 0 <= i < |a + b| ==> !Accepts((a + b)[i], k)) <==>
            (forall i :: 0 <= i < |a| ==> !Accepts(a[i], k)) && (forall i :: 0 <= i < |b| ==> !Accepts(b[i], k))
  {
    hide Accepts;
    assert forall i :: 0 <= i < |a| ==> a[i] == (a + b)[i];
    assert forall i :: 0 <= i < |b| ==> b[i] == (a + b)[|a| + i];
  }

  lemma RoundAccepts(r: Round, s: Setup, k: nat)
    requires RoundDone(r, s.short, s.gs, s.argc, s.noArgs) && Proper(r.got, s.argc, |s.gs|)
    requires |r.before.processed| == |s.gs| && k < |s.gs|
    requires LeaveNext(r.calls)
    ensures |r.after.processed| == |s.gs|
    ensures r.after.processed[k] == 0 <==>
            r.before.processed[k] == 0 && forall i :: 0 <= i < |r.calls| ==> !Accepts(r.calls[i], k)
  {
    hide OfferNexts, AfterArg, LeaveNext, GroupKey, UserKey, DispatchShort, Threaded, LastNext;
    match TurnOf(r.got, r.before, s.argc, s.noArgs)
    case TakeArg(index) =>
      var c := Consult(r.before, r.got);
      if r.calls == [] {
        AfterNothing(c, index, s.argc);
      } else {
        AcceptedCredit(r.calls, s.argc, index, r.err, c);
        var last := r.calls[|r.calls| - 1];
        assert OfferAt(last, |r.calls| - 1);
        assert Accepts(last, k) <==> last.req.group == k && r.err == 0;
      }
    case _ =>
  }

  /** Every call to group `b` comes after one to group `a`. */
  ghost predicate Precedes(calls: seq<Call>, a: nat, b: nat)
  {
    forall j :: 0 <= j < |calls| && calls[j].req.group == b ==> exists i :: 0 <= i < j && calls[i].req.group == a
  }

  /** Parents are initialised before their children, with the input going down, and
      all closing passes but NO_ARGS and ERROR go from the children to the parents. */
  lemma ParentsAround(run: Run, s: Setup, err: int, end: Option<int>, k: nat)
    requires Ready(s) && Complete(run, s, err, end) && k < |s.gs| && s.gs[k].parent.Some?
    ensures var p := s.gs[k].parent.value;
            && p < k && Precedes(run.init, p, k) && run.init[k].req.input == Left(run.init[p])[s.gs[k].parentIndex]
            && Precedes(run.cl.ends, k, p) && (run.cl.pre == 0 ==> Precedes(run.cl.notes, k, p))
            && Precedes(run.cl.finis, k, p)
  {
    hide Left, Idle, Quiet, After, Blank, Played, Mid, Honest, Kept, Threaded, LastNext, Counts, Index, LoopError,
         Proper;
    var p, n := s.gs[k].parent.value, |s.gs|;
    assert Fed(s.gs, s.input, run.init, k);
    assert run.init[p].req.group == p;
    DownPrecedes(run.cl.ends, n, k, p);
    DownPrecedes(run.cl.notes, n, k, p);
    DownPrecedes(run.cl.finis, n, k, p);
  }

  lemma DownPrecedes(calls: seq<Call>, n: nat, k: nat, p: nat)
    requires p < k < n
    ensures |calls| <= n && (forall i :: 0 <= i < |calls| ==> calls[i].req.group == Down(n)[i]) ==>
            Precedes(calls, k, p)
  {
    if |calls| <= n && forall i :: 0 <= i < |calls| ==> calls[i].req.group == Down(n)[i] {
      forall j | 0 <= j < |calls| && calls[j].req.group == p ensures exists i :: 0 <= i < j && calls[i].req.group == k {
        assert calls[n - 1 - k].req.group == k;
      }
    }
  }
}
