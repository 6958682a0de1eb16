/**
 How the loop of `argp_parse` ends and what follows, told from the calls made and
 the answers of getopt.
 */
module ArgpRunLaws {
  import opened Wrappers
  import opened Sequences
  import opened ArgpTree
  import opened ArgpConvert
  import opened ArgpLifecycle
  import opened ArgpRun

  // ----- The last round -----

  ghost predicate AllAnswer(calls: seq<Call>, err: int)
  {
    forall i :: 0 <= i < |calls| ==> calls[i].reply.err == err
  }

  /** No call is answered by an error; an unknown key is none. */
  ghost predicate NoErrors(calls: seq<Call>)
  {
    forall i :: 0 <= i < |calls| ==> calls[i].reply.err == 0 || calls[i].reply.err == EBADKEY
  }

  /** The closing calls are ERROR to every group, and FINI to every group from the last on. */
  ghost predicate ErrorToAll(cl: Closing, n: nat)
  {
    && cl.noArgs == cl.ends == [] && |cl.notes| == |cl.finis| == n
    && (forall k :: 0 <= k < n ==> cl.notes[k].req.group == k && cl.notes[k].req.key == Error)
    && forall k :: 0 <= k < n ==> cl.finis[k].req.group == n - 1 - k && cl.finis[k].req.key == Fini
  }

  lemma LastRound(run: Run, s: Setup, err: int, end: Option<int>) returns (r: Round)
    requires Ready(s) && Complete(run, s, err, end)
    ensures run.rounds != [] && r == run.rounds[|run.rounds| - 1] && RoundDone(r, s.short, s.gs, s.argc, s.noArgs)
    ensures Proper(r.got, s.argc, |s.gs|) && r.err != 0 && Index(run, s) == r.after.next
  {
    hide RoundDone, Proper, Closed, Threaded, Kept, Honest, Laid, InitDone, LoopError;
    r := run.rounds[|run.rounds| - 1];
    PlayedAt(run.rounds, Start(run.init, s), s, |run.rounds| - 1);
  }

  lemma {:induction false} FirstOffer(calls: seq<Call>, index: int, counts: seq<nat>)
    requires OfferNexts(calls, index, counts) && calls != []
    ensures calls[0].req.next == index + 1
  {
    if |calls| > 1 {
      FirstOffer(calls[..|calls| - 1], index, counts);
    }
  }

  /** A round that offers an argument, by its calls. */
  lemma OffersArgument(r: Round, s: Setup)
    requires RoundDone(r, s.short, s.gs, s.argc, s.noArgs) && Proper(r.got, s.argc, |s.gs|)
    requires r.calls != [] && r.calls[0].req.key == Arg
    ensures TurnOf(r.got, r.before, s.argc, s.noArgs) == TakeArg(r.calls[0].req.next - 1)
    ensures r.calls[0].req.next - 1 < s.argc && r.err == r.calls[|r.calls| - 1].reply.err
  {
    hide AfterArg, DispatchShort, GroupKey, UserKey;
    match TurnOf(r.got, r.before, s.argc, s.noArgs)
    case TakeArg(index) => FirstOffer(r.calls, index, r.before.processed);
    case _ =>
  }

  /** An argument that every group refuses ends the loop. It is left over: with its index if the
      caller asks for that, and otherwise as an error. */
  lemma RefusedArgument(run: Run, s: Setup, err: int, end: Option<int>)
    requires Ready(s) && Complete(run, s, err, end) && run.rounds != []
    requires var calls := run.rounds[|run.rounds| - 1].calls;
             calls != [] && calls[0].req.key == Arg && AllAnswer(calls, EBADKEY) && LeaveNext(calls)
    ensures run.cl.noArgs == run.cl.ends == []
    ensures s.wantEnd ==> end == Some(run.rounds[|run.rounds| - 1].calls[0].req.next - 1)
    ensures s.wantEnd && NoErrors(run.cl.notes) ==>
              err == 0 && |run.cl.notes| == |s.gs| && forall i :: 0 <= i < |s.gs| ==> run.cl.notes[i].req.key == Success
    ensures !s.wantEnd ==> err == EINVAL && end == None && ErrorToAll(run.cl, |s.gs|)
  {
    hide Complete, ErrorToAll, Ready, RoundDone;
    var r := LastRound(run, s, err, end);
    OffersArgument(r, s);
    RoundLeaves(r, s.short, s.gs, s.argc, s.noArgs);
    assert LoopError(run, s) == 0;
    ClosesLeftOver(run, s, err, end);
  }

  lemma ClosesLeftOver(run: Run, s: Setup, err: int, end: Option<int>)
    requires Complete(run, s, err, end) && LoopError(run, s) == 0 && Index(run, s) != s.argc
    ensures run.cl.noArgs == run.cl.ends == []
    ensures s.wantEnd ==> end == Some(Index(run, s))
    ensures s.wantEnd && NoErrors(run.cl.notes) ==>
              err == 0 && |run.cl.notes| == |s.gs| && forall i :: 0 <= i < |s.gs| ==> run.cl.notes[i].req.key == Success
    ensures !s.wantEnd ==> err == EINVAL && end == None && ErrorToAll(run.cl, |s.gs|)
  {
    hide Played, InitDone, Honest, Kept, Threaded, LoopError, Index, Counts, ClosingCalls, Idle, Up, Down;
  }

  lemma EndsInError(run: Run, s: Setup, err: int, end: Option<int>)
    requires Complete(run, s, err, end) && LoopError(run, s) != 0
    ensures ErrorToAll(run.cl, |s.gs|) && end == None
    ensures err == if LoopError(run, s) == EBADKEY then EINVAL else LoopError(run, s)
  {
    hide RoundDone, Played, InitDone, Honest, Kept, Threaded, Laid, Proper, LoopError, Index, Counts;
  }

  /** An option that its parser function does not know is an error. */
  lemma RefusedOption(run: Run, s: Setup, err: int, end: Option<int>)
    requires Ready(s) && Complete(run, s, err, end) && run.rounds != []
    requires var calls := run.rounds[|run.rounds| - 1].calls;
             |calls| == 1 && calls[0].req.key.Opt? && calls[0].reply.err == EBADKEY
    ensures err == EINVAL && end == None && ErrorToAll(run.cl, |s.gs|)
  {
    var r := LastRound(run, s, err, end);
    hide AfterArg, DispatchShort, GroupKey, UserKey, OfferNexts, Complete, Ready, ErrorToAll;
    FirstIsArg(r, s);
    assert LoopError(run, s) == EBADKEY;
    EndsInError(run, s, err, end);
  }

  lemma FirstIsArg(r: Round, s: Setup)
    requires RoundDone(r, s.short, s.gs, s.argc, s.noArgs) && r.calls != []
    ensures TurnOf(r.got, r.before, s.argc, s.noArgs).TakeArg? ==> r.calls[0].req.key == Arg
  {
    hide AfterArg, DispatchShort, GroupKey, UserKey, OfferNexts;
    if TurnOf(r.got, r.before, s.argc, s.noArgs).TakeArg? {
      assert OfferAt(r.calls[0], 0);
    }
  }

  /** getopt is asked in a round. */
  predicate AsksGetopt(c: Cursor)
  {
    c.tryGetopt && (c.quoted == 0 || c.next < c.quoted)
  }

  /** An error of getopt, and an option that belongs to no group, are errors. */
  lemma GetoptError(run: Run, s: Setup, err: int, end: Option<int>)
    requires Ready(s) && Complete(run, s, err, end) && run.rounds != []
    requires var r := run.rounds[|run.rounds| - 1];
             AsksGetopt(r.before) && (r.got.GotErr? || (r.got.GotOpt? && r.calls == []))
    ensures err == EINVAL && end == None && ErrorToAll(run.cl, |s.gs|)
  {
    var r := LastRound(run, s, err, end);
    hide AfterArg, DispatchShort, GroupKey, UserKey, OfferNexts, Complete, Ready, ErrorToAll;
    assert LoopError(run, s) == EBADKEY;
    EndsInError(run, s, err, end);
  }

  /** An error of a parser function is the error of the run. */
  lemma FailedCall(run: Run, s: Setup, err: int, end: Option<int>)
    requires Ready(s) && Complete(run, s, err, end) && run.rounds != []
    requires var calls := run.rounds[|run.rounds| - 1].calls;
             calls != [] && calls[|calls| - 1].reply.err != 0 && calls[|calls| - 1].reply.err != EBADKEY
    ensures var calls := run.rounds[|run.rounds| - 1].calls;
            err == calls[|calls| - 1].reply.err && end == None && ErrorToAll(run.cl, |s.gs|)
  {
    var r := LastRound(run, s, err, end);
    hide AfterArg, DispatchShort, GroupKey, UserKey, OfferNexts, Complete, Ready, ErrorToAll;
    assert LoopError(run, s) == r.calls[|r.calls| - 1].reply.err;
    EndsInError(run, s, err, end);
  }

  /** Without a call, and without an error or an option from getopt, all is parsed, or the rest
      is left over. */
  lemma NothingLeftToOffer(run: Run, s: Setup, err: int, end: Option<int>)
    requires Ready(s) && Complete(run, s, err, end) && run.rounds != []
    requires var r := run.rounds[|run.rounds| - 1];
             r.calls == [] && !(AsksGetopt(r.before) && (r.got.GotErr? || r.got.GotOpt?))
    ensures var index := run.rounds[|run.rounds| - 1].after.next;
            if index == s.argc || s.wantEnd then
              NoErrors(ClosingCalls(run.cl)) ==> err == 0 && (s.wantEnd <==> end.Some?)
            else err == EINVAL && end == None && ErrorToAll(run.cl, |s.gs|)
  {
    hide Complete, ClosingCalls, ErrorToAll;
    var r := LastRound(run, s, err, end);
    hide AfterArg, DispatchShort, GroupKey, UserKey, OfferNexts, Ready;
    assert LoopError(run, s) == 0;
    ClosesWithoutError(run, s, err, end);
  }

  lemma ClosesWithoutError(run: Run, s: Setup, err: int, end: Option<int>)
    requires Complete(run, s, err, end) && LoopError(run, s) == 0
    ensures if Index(run, s) == s.argc || s.wantEnd then
              NoErrors(ClosingCalls(run.cl)) ==> err == 0 && (s.wantEnd <==> end.Some?)
            else err == EINVAL && end == None && ErrorToAll(run.cl, |s.gs|)
  {
    hide Played, InitDone, Honest, Kept, Threaded, LoopError, Counts, Index, ClosingCalls, Idle, Up, Down, LastNext;
    if NoErrors(ClosingCalls(run.cl)) {
      QuietParts(run.cl);
    }
  }

  lemma QuietParts(cl: Closing)
    requires NoErrors(ClosingCalls(cl))
    ensures NoErrors(cl.noArgs) && NoErrors(cl.ends) && NoErrors(cl.notes)
  {
    var all := ClosingCalls(cl);
    assert forall i :: 0 <= i < |cl.noArgs| ==> cl.noArgs[i] == all[i];
    assert forall i :: 0 <= i < |cl.ends| ==> cl.ends[i] == all[|cl.noArgs| + i];
    assert forall i :: 0 <= i < |cl.notes| ==> cl.notes[i] == all[|cl.noArgs| + |cl.ends| + i];
  }

  // ----- Options end, arguments go on -----

  lemma {:induction false} PlayedLink(rounds: seq<Round>, start: Cursor, s: Setup, n: nat)
    requires Played(rounds, start, s) && n + 1 < |rounds|
    ensures rounds[n + 1].before == rounds[n].after && rounds[n].err == 0
  {
    hide RoundDone;
    var front := rounds[..|rounds| - 1];
    if n + 1 < |front| {
      PlayedLink(front, start, s, n);
    }
  }

  /** No call of a round is for an option. */
  ghost predicate OnlyArguments(r: Round)
  {
    forall i :: 0 <= i < |r.calls| ==> r.calls[i].req.key == Arg || r.calls[i].req.key == Args
  }

  /** Where getopt is not asked no option is handed out, and the argument offered, if any, is
      the next one. */
  lemma NotAsked(r: Round, s: Setup)
    requires RoundDone(r, s.short, s.gs, s.argc, s.noArgs) && !AsksGetopt(r.before)
    ensures OnlyArguments(r) && (r.calls != [] ==> r.calls[0].req.next == r.before.next + 1)
  {
    hide AfterArg;
    match TurnOf(r.got, r.before, s.argc, s.noArgs)
    case TakeArg(index) =>
      forall i | 0 <= i < |r.calls| ensures r.calls[i].req.key == Arg || r.calls[i].req.key == Args {
        assert OfferAt(r.calls[i], i);
      }
      if r.calls != [] {
        FirstOffer(r.calls, index, r.before.processed);
      }
    case _ =>
  }

  /** A "--" opens a quoted region: as long as `next` stays in it, whatever the parser functions
      do, getopt is not asked again and no argument is taken for an option. */
  lemma {:induction false} QuotedArguments(rounds: seq<Round>, start: Cursor, s: Setup, n: nat, m: nat)
    requires Played(rounds, start, s) && n < m < |rounds|
    requires var r := rounds[n]; AsksGetopt(r.before) && r.got.GotEnd? && r.got.optind > 1 && r.got.dashes
    requires forall k :: n < k <= m ==> rounds[k].before.next >= rounds[n].got.optind
    ensures !AsksGetopt(rounds[m].before) && OnlyArguments(rounds[m])
    ensures rounds[m].before.quoted == rounds[n].got.optind
    decreases m
  {
    hide RoundDone, Played;
    PlayedAt(rounds, start, s, m - 1);
    PlayedAt(rounds, start, s, m);
    PlayedLink(rounds, start, s, m - 1);
    if m - 1 == n {
      QuotedRegion(rounds[n], s);
    } else {
      QuotedArguments(rounds, start, s, n, m - 1);
      QuotedRegion(rounds[m - 1], s);
    }
    NotAsked(rounds[m], s);
  }

  /** The quoted region after a round: a "--" behind the program name opens it where the options
      end, and asking getopt, or a `next` before the region, closes it. */
  lemma QuotedRegion(r: Round, s: Setup)
    requires RoundDone(r, s.short, s.gs, s.argc, s.noArgs)
    ensures r.after.quoted ==
            if AsksGetopt(r.before) && r.got.GotEnd? && r.got.optind > 1 && r.got.dashes then r.got.optind
            else if AsksGetopt(r.before) || r.before.next < r.before.quoted then 0
            else r.before.quoted
  {
    hide OfferNexts, Offered, GroupKey, DispatchShort, UserKey;
  }

  /** Once getopt has said that the options are used up, and the parser functions leave `next`
      alone, the rest are arguments, offered one after the other. */
  lemma {:induction false} ArgumentsAfterEnd(rounds: seq<Round>, start: Cursor, s: Setup, n: nat, m: nat)
    requires Ready(s) && Played(rounds, start, s) && n < m < |rounds|
    requires AsksGetopt(rounds[n].before) && rounds[n].got.GotEnd?
    requires forall k :: n <= k < m ==> LeaveNext(rounds[k].calls)
    ensures !rounds[m].before.tryGetopt && OnlyArguments(rounds[m])
    ensures rounds[m].calls != [] ==> rounds[m].calls[0].req.next == rounds[m].before.next + 1
    decreases m
  {
    hide RoundDone, Played, LeaveNext, Laid, Proper;
    PlayedAt(rounds, start, s, m - 1);
    PlayedAt(rounds, start, s, m);
    PlayedLink(rounds, start, s, m - 1);
    if m - 1 > n {
      ArgumentsAfterEnd(rounds, start, s, n, m - 1);
    }
    GetoptStaysOff(rounds[m - 1], s);
    NotAsked(rounds[m], s);
  }

  lemma GetoptStaysOff(r: Round, s: Setup)
    requires RoundDone(r, s.short, s.gs, s.argc, s.noArgs) && Proper(r.got, s.argc, |s.gs|) && LeaveNext(r.calls)
    requires !r.before.tryGetopt || (AsksGetopt(r.before) && r.got.GotEnd?)
    ensures !r.after.tryGetopt
  {
    hide GroupKey, DispatchShort, UserKey;
    RoundLeaves(r, s.short, s.gs, s.argc, s.noArgs);
  }

  /** A parser function that accepts an argument but sets `next` back to it, or before it, makes
      the loop ask getopt again. */
  lemma SetBackAsksAgain(r: Round, s: Setup)
    requires RoundDone(r, s.short, s.gs, s.argc, s.noArgs) && Proper(r.got, s.argc, |s.gs|) && r.calls != []
    requires var last := r.calls[|r.calls| - 1];
             && r.calls[0].req.key == Arg && last.req.key == Arg
             && last.reply.err == 0 && last.reply.next < r.calls[0].req.next
    ensures r.after.tryGetopt && r.after.next == r.calls[|r.calls| - 1].reply.next
    ensures r.after.processed == r.before.processed
  {
    OffersArgument(r, s);
    hide OfferNexts, GroupKey, DispatchShort, UserKey;
  }

  // ----- Offers -----

  /** An argument is first offered to group 0 as ARG; an ARG that a group refuses is followed by
      ARGS to it, a refused ARGS by ARG to the next group, and anything else ends the round. */
  lemma OfferOrder(r: Round, s: Setup, i: nat)
    requires RoundDone(r, s.short, s.gs, s.argc, s.noArgs) && i < |r.calls| && r.calls[0].req.key == Arg
    ensures i == 0 ==> r.calls[0].req.group == 0
    ensures i + 1 < |r.calls| ==>
              && r.calls[i].reply.err == EBADKEY
              && var c, d := r.calls[i].req, r.calls[i + 1].req;
                 if c.key == Arg then d.group == c.group && d.key == Args else d.group == c.group + 1 && d.key == Arg
    ensures i + 1 == |r.calls| && r.calls[i].reply.err == EBADKEY ==>
              r.calls[i].req.key == Args && r.calls[i].req.group == |s.gs| - 1
  {
    hide OfferNexts, GroupKey, DispatchShort, UserKey, AfterArg;
    match TurnOf(r.got, r.before, s.argc, s.noArgs)
    case TakeArg(index) =>
      assert OfferAt(r.calls[i], i);
      if i + 1 < |r.calls| {
        assert OfferAt(r.calls[i + 1], i + 1);
      }
    case _ =>
  }

  // ----- Inputs -----

  /** The first group gets the caller's input, and every group with a parser function finds null
      pointers for its children. */
  lemma FirstInput(run: Run, s: Setup, err: int, end: Option<int>, k: nat)
    requires Ready(s) && Complete(run, s, err, end) && k < |s.gs|
    ensures run.init[0].req.input == s.input
    ensures s.gs[k].parser ==> forall i :: 0 <= i < |run.init[k].req.child| ==> run.init[k].req.child[i] == 0
    ensures |run.init[k].req.child| == s.gs[k].children
  {
    hide Left, Played, Mid, Honest, Kept, Threaded, Closed, LoopError, Index, Counts, Proper, Up;
    assert Fed(s.gs, s.input, run.init, 0) && Fed(s.gs, s.input, run.init, k);
    assert run.init[..0] == [];
  }

  /** A group without a parser function hands its own input to its first child and null pointers
      to the others. */
  lemma ParserlessHandsDown(run: Run, s: Setup, err: int, end: Option<int>, c: nat)
    requires Ready(s) && Complete(run, s, err, end) && c < |s.gs|
    requires s.gs[c].parent.Some? && s.gs[c].parent.value < |s.gs| && !s.gs[s.gs[c].parent.value].parser
    ensures var p := s.gs[c].parent.value;
            run.init[c].req.input == if s.gs[c].parentIndex == 0 then run.init[p].req.input else 0
  {
    hide Played, Mid, Kept, Threaded, Closed, LoopError, Index, Counts, Proper, Up, ClosingCalls;
    var p := s.gs[c].parent.value;
    assert Fed(s.gs, s.input, run.init, c) && Fed(s.gs, s.input, run.init, p);
    assert Calls(run)[p] == run.init[p];
    assert run.init[p].reply.child == [];
    assert run.init[..c][p] == run.init[p];
  }

  // ----- Counts -----

  /** An argument accepted as ARG counts one for its group, accepted as ARGS all that are left, if
      the parser function leaves `next` alone; nothing else changes a count. */
  lemma AcceptedCounts(r: Round, s: Setup, k: nat)
    requires RoundDone(r, s.short, s.gs, s.argc, s.noArgs) && Proper(r.got, s.argc, |s.gs|) && LeaveNext(r.calls)
    requires k < |s.gs| == |r.before.processed|
    ensures |r.after.processed| == |s.gs|
    ensures r.after.processed[k] == r.before.processed[k] +
              if r.calls == [] || r.calls[|r.calls| - 1].req.group != k || r.calls[|r.calls| - 1].reply.err != 0 then 0
              else match r.calls[|r.calls| - 1].req.key
                   case Arg => 1
                   case Args => s.argc - (r.calls[0].req.next - 1)
                   case _ => 0
  {
    hide OfferNexts, AfterArg, GroupKey, UserKey, DispatchShort, Threaded, LastNext;
    match TurnOf(r.got, r.before, s.argc, s.noArgs)
    case TakeArg(index) =>
      var c := Consult(r.before, r.got);
      if r.calls == [] {
        AfterNothing(c, index, s.argc);
      } else {
        FirstOffer(r.calls, index, r.before.processed);
        AcceptedCredit(r.calls, s.argc, index, r.err, c);
        LastOffer(r.calls, index, r.before.processed);
        assert OfferAt(r.calls[|r.calls| - 1], |r.calls| - 1);
      }
    case _ =>
  }

  lemma LastOffer(calls: seq<Call>, index: int, counts: seq<nat>)
    requires OfferNexts(calls, index, counts) && LeaveNext(calls) && calls != []
    ensures calls[|calls| - 1].req.next == if |calls| % 2 == 0 then index else index + 1
  {
    LeaveOffer(calls, index, counts);
  }

  // ----- What getopt's answers lead to -----

  /** What a round does when getopt is asked: an option is no argument and an argument is offered
      where getopt stands; behind the last option the next argument is offered, unless there is
      none or ARGP_NO_ARGS says not to. */
  lemma AskedAnswers(r: Round, s: Setup)
    requires RoundDone(r, s.short, s.gs, s.argc, s.noArgs) && AsksGetopt(r.before)
    ensures r.got.GotErr? ==> r.calls == []
    ensures r.got.GotOpt? ==>
              |r.calls| <= 1 && (r.calls != [] ==> r.calls[0].req.key.Opt? && r.calls[0].req.next == r.got.optind)
    ensures r.got.GotArg? && s.gs != [] ==>
              r.calls != [] && r.calls[0].req.key == Arg && r.calls[0].req.next == r.got.optind
    ensures r.got.GotEnd? && s.gs != [] ==> (r.calls != [] <==> r.got.optind < s.argc && !s.noArgs)
    ensures r.got.GotEnd? && r.calls != [] ==> r.calls[0].req.key == Arg && r.calls[0].req.next == r.got.optind + 1
  {
    hide AfterArg, DispatchShort, GroupKey, UserKey;
    match TurnOf(r.got, r.before, s.argc, s.noArgs)
    case TakeArg(index) =>
      if r.calls != [] {
        FirstOffer(r.calls, index, r.before.processed);
        assert OfferAt(r.calls[0], 0);
      }
    case _ =>
  }

  /** When getopt is not asked, the next argument is offered, unless there is none or ARGP_NO_ARGS
      says not to. */
  lemma NotAskedOffers(r: Round, s: Setup)
    requires RoundDone(r, s.short, s.gs, s.argc, s.noArgs) && !AsksGetopt(r.before) && s.gs != []
    ensures r.calls != [] <==> r.before.next < s.argc && !s.noArgs
    ensures r.calls == [] ==> r.after.next == r.before.next
  {
    hide AfterArg, DispatchShort, GroupKey, UserKey, OfferNexts;
  }

  /** A group that accepts ARGS has all arguments, wherever its parser function leaves `next`. */
  lemma ArgsTakesAll(r: Round, s: Setup)
    requires RoundDone(r, s.short, s.gs, s.argc, s.noArgs) && r.calls != []
    requires r.calls[|r.calls| - 1].req.key == Args && r.calls[|r.calls| - 1].reply.err == 0
    ensures r.after.next == s.argc
  {
    hide OfferNexts, DispatchShort, GroupKey, UserKey;
  }

  // ----- Errors in the closing passes -----

  /** An error of NO_ARGS or END goes to all groups as ERROR, and is that of the run; an error of
      SUCCESS is that of the run, and ends that pass. */
  lemma ClosingErrors(run: Run, s: Setup, err: int, end: Option<int>)
    requires Ready(s) && Complete(run, s, err, end)
    ensures var pre := run.cl.noArgs + run.cl.ends;
            pre != [] && pre[|pre| - 1].reply.err != 0 && pre[|pre| - 1].reply.err != EBADKEY ==>
              && err == pre[|pre| - 1].reply.err && |run.cl.notes| == |s.gs|
              && forall k :: 0 <= k < |s.gs| ==> run.cl.notes[k].req.key == Error && run.cl.notes[k].req.group == k
    ensures var notes := run.cl.notes;
            notes != [] && notes[0].req.key == Success && !NoErrors(notes) ==>
              err == notes[|notes| - 1].reply.err != 0
  {
    hide Played, InitDone, Honest, Kept, Threaded, LoopError, Counts, Index, ClosingCalls, Idle, LastNext, Ready;
  }
}
