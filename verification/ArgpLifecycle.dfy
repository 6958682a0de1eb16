/**
 The life of a parse: INIT, the options and arguments, the closing passes. Every
 call of a group's parser function is recorded, so the promises about the order
 of keys are statements about the record of a whole run.
 */
module ArgpLifecycle {
  import opened Wrappers
  import opened Sequences
  import opened ArgpTree
  import opened ArgpConvert

  /** `void *`; 0 is the null pointer. */
  type Input = int

  /** The keys; `Opt` carries a user key. */
  datatype Key = Init | Opt(user: int) | Arg | Args | NoArgs | End | Success | Error | Fini

  const EBADKEY := 7
  const EINVAL := 22

  predicate Quiet(err: int)
  {
    err == 0 || err == EBADKEY
  }

  function Settled(err: int): int
  {
    if err == EBADKEY then 0 else err
  }

  /** What `group_parse` shows to a parser function. */
  datatype Request = Request(group: nat, key: Key, next: int, input: Input, child: seq<Input>, argNum: nat)

  /** What comes back: the error, the new `next`, and what was written to the first child inputs. */
  datatype Reply = Reply(err: int, next: int, child: seq<Input>)

  datatype Call = Call(req: Request, reply: Reply)

  /** All parser functions together: they may depend on everything seen before. */
  type Parsers = (seq<Call>, Request) -> Reply

  // ----- Child inputs -----

  /** Overwrite the beginning of a slice. */
  function Written(slice: seq<Input>, w: seq<Input>): (r: seq<Input>)
    ensures |r| == |slice|
  {
    if |w| <= |slice| then w + slice[|w|..] else w[..|slice|]
  }

  function Slice(inputs: seq<Input>, g: Group): (r: seq<Input>)
    requires g.childInputs + g.children <= |inputs|
    ensures |r| == g.children
  {
    inputs[g.childInputs..g.childInputs + g.children]
  }

  function PutSlice(inputs: seq<Input>, g: Group, slice: seq<Input>): (r: seq<Input>)
    requires g.childInputs + g.children <= |inputs| && |slice| == g.children
    ensures |r| == |inputs| && Slice(r, g) == slice
  {
    inputs[..g.childInputs] + slice + inputs[g.childInputs + g.children..]
  }

  /** The slices of the groups are apart, and every parent is an earlier group with
      a slot for the child. */
  ghost predicate Laid(gs: seq<Group>, slots: nat)
  {
    && Disjoint(gs, 0, slots)
    && forall k :: 0 <= k < |gs| && gs[k].parent.Some? ==>
         gs[k].parent.value < k && gs[k].parentIndex < gs[gs[k].parent.value].children
  }

  /** `convert_options` lays the groups of every tree out like that. */
  lemma TreeIsLaid(a: Argp, s: nat)
    ensures Laid(Groups(a, [], None, 0, 0, s, 0), ChildCount(a))
  {
    hide Groups, Slots, ChildCount;
    var gs := Groups(a, [], None, 0, 0, s, 0);
    TreeLaidOut(a, [], [], None, 0, 0, s, 0);
    SlotsSuffice(a);
    forall k | 0 <= k < |gs| && gs[k].parent.Some?
      ensures gs[k].parent.value < k && gs[k].parentIndex < gs[gs[k].parent.value].children
    {
      assert ParentRight(gs, 0, [], None, 0, 1, k);
    }
  }

  // ----- Passes over the groups -----

  /** One pass offers `key` to the groups of `order` in turn and stops at the first
      error; `err0` is the error before it and `err` the one after. */
  ghost predicate Pass(calls: seq<Call>, order: seq<nat>, key: Key, err0: int, err: int)
  {
    && |calls| <= |order|
    && (forall i :: 0 <= i < |calls| ==> calls[i].req.group == order[i] && calls[i].req.key == key)
    && (forall i :: 0 <= i < |calls| - 1 ==> Quiet(calls[i].reply.err))
    && (if calls == [] then err == err0 else Quiet(err0) && err == calls[|calls| - 1].reply.err)
    && (|calls| < |order| ==> !Quiet(err))
  }

  /** A pass that reaches every group whatever they answer. */
  ghost predicate FullPass(calls: seq<Call>, order: seq<nat>, key: Key)
  {
    |calls| == |order| && forall i :: 0 <= i < |calls| ==> calls[i].req.group == order[i] && calls[i].req.key == key
  }

  function Up(n: nat): (r: seq<nat>)
    ensures |r| == n && forall i :: 0 <= i < n ==> r[i] == i
  {
    seq(n, i => i)
  }

  function Down(n: nat): (r: seq<nat>)
    ensures |r| == n && forall i :: 0 <= i < n ==> r[i] == n - 1 - i
  {
    seq(n, i requires 0 <= i < n => n - 1 - i)
  }

  /** The groups below `k` that have processed no argument. */
  function Idle(processed: seq<nat>, k: nat): (r: seq<nat>)
    requires k <= |processed|
    ensures forall i :: 0 <= i < |r| ==> r[i] < k && processed[r[i]] == 0
  {
    if k == 0 then [] else Idle(processed, k - 1) + if processed[k - 1] == 0 then [k - 1] else []
  }

  lemma {:induction false} IdlePrefix(processed: seq<nat>, k: nat, n: nat)
    requires k <= n <= |processed|
    ensures Idle(processed, k) <= Idle(processed, n) && Idle(processed, 0) == []
    decreases n
  {
    if k < n {
      IdlePrefix(processed, k, n - 1);
    }
  }

  lemma IdleNext(processed: seq<nat>, k: nat, n: nat)
    requires k < n <= |processed|
    ensures var order, m := Idle(processed, n), |Idle(processed, k)|;
            if processed[k] == 0 then |Idle(processed, k + 1)| == m + 1 <= |order| && order[m] == k
            else |Idle(processed, k + 1)| == m <= |order|
  {
    IdlePrefix(processed, k + 1, n);
    var now, next := Idle(processed, k), Idle(processed, k + 1);
    assert next == now + if processed[k] == 0 then [k] else [];
    hide Idle;
    if processed[k] == 0 {
      assert next[|now|] == k;
    }
  }

  // ----- Arguments -----

  function Sum(s: seq<nat>): nat
  {
    if s == [] then 0 else Sum(s[..|s| - 1]) + s[|s| - 1]
  }

  lemma {:induction false} SumUpdate(s: seq<nat>, k: nat, v: nat)
    requires k < |s|
    ensures Sum(s[k := v]) == Sum(s) - s[k] + v
  {
    var front := s[..|s| - 1];
    if k == |s| - 1 {
      assert s[k := v][..k] == front;
    } else {
      assert s[k := v][..|s| - 1] == front[k := v];
      SumUpdate(front, k, v);
    }
  }

  /** The arguments an accepted call stands for: one, or all that are left. */
  function Credit(c: Call, argc: nat): int
  {
    if c.reply.err != 0 then 0
    else match c.req.key
      case Arg => 1
      case Args => argc - c.req.next
      case _ => 0
  }

  function Accepted(log: seq<Call>, argc: nat): int
  {
    if log == [] then 0 else Accepted(log[..|log| - 1], argc) + Credit(log[|log| - 1], argc)
  }

  function AcceptedBy(log: seq<Call>, k: nat, argc: nat): int
  {
    if log == [] then 0
    else AcceptedBy(log[..|log| - 1], k, argc) + if log[|log| - 1].req.group == k then Credit(log[|log| - 1], argc)
         else 0
  }

  /** The parser functions called have not touched `next`. */
  ghost predicate LeaveNext(log: seq<Call>)
  {
    forall i :: 0 <= i < |log| ==> log[i].reply.next == log[i].req.next
  }

  /** Calls that accept no argument earn no credit. */
  lemma {:induction false} NoCredit(log: seq<Call>, calls: seq<Call>, argc: nat)
    requires forall i :: 0 <= i < |calls| ==> Credit(calls[i], argc) == 0
    ensures Accepted(log + calls, argc) == Accepted(log, argc)
    ensures forall k: nat :: AcceptedBy(log + calls, k, argc) == AcceptedBy(log, k, argc)
  {
    if calls == [] {
      assert log + calls == log;
    } else {
      var front := calls[..|calls| - 1];
      NoCredit(log, front, argc);
      assert (log + calls)[..|log + calls| - 1] == log + front;
    }
  }

  // ----- The INIT pass -----

  /** The child inputs as a call leaves them. */
  function Left(c: Call): seq<Input>
  {
    Written(c.req.child, c.reply.child)
  }

  function Zeros(n: nat): seq<Input>
  {
    seq(n, _ => 0)
  }

  /** The child inputs that a group finds: null pointers, but a group without a parser
      function hands its own input on to its first child. */
  function Blank(g: Group, input: Input): seq<Input>
  {
    if !g.parser && g.children > 0 then Zeros(g.children)[0 := input] else Zeros(g.children)
  }

  /** The input of the next group is the one that its parent left for it. */
  ghost predicate Inherits(g: Group, input: Input, init: seq<Call>, x: Input)
  {
    match g.parent
    case None => x == if init == [] then input else 0
    case Some(p) => p < |init| && g.parentIndex < |Left(init[p])| && x == Left(init[p])[g.parentIndex]
  }

  /** Call `j` of the pass is INIT to group `j`, with the input that the parent left for it. */
  ghost predicate Fed(gs: seq<Group>, input: Input, init: seq<Call>, j: nat)
    requires j < |init| <= |gs|
  {
    var c := init[j].req;
    c.group == j && c.key == Init && c.child == Blank(gs[j], c.input) && Inherits(gs[j], input, init[..j], c.input)
  }

  /** The state of the child inputs during the pass. */
  ghost predicate Filled(gs: seq<Group>, inputs: seq<Input>, init: seq<Call>)
  {
    && Disjoint(gs, 0, |inputs|) && |init| <= |gs|
    && forall j :: 0 <= j < |gs| ==> Slice(inputs, gs[j]) == if j < |init| then Left(init[j]) else Zeros(gs[j].children)
  }

  lemma FilledStep(gs: seq<Group>, inputs: seq<Input>, init: seq<Call>, slice: seq<Input>, c: Call)
    requires Filled(gs, inputs, init) && |init| < |gs| && |slice| == |c.req.child| == gs[|init|].children
    requires slice == Left(c)
    ensures Filled(gs, PutSlice(inputs, gs[|init|], slice), init + [c])
  {
  }

  /** Writing one child input writes its group's slice. */
  lemma PutFirst(inputs: seq<Input>, g: Group, v: Input)
    requires g.childInputs + g.children <= |inputs| && g.children > 0
    ensures inputs[g.childInputs := v] == PutSlice(inputs, g, Slice(inputs, g)[0 := v])
  {
  }

  lemma PutSame(inputs: seq<Input>, g: Group)
    requires g.childInputs + g.children <= |inputs|
    ensures PutSlice(inputs, g, Slice(inputs, g)) == inputs
  {
  }

  lemma PutTwice(inputs: seq<Input>, g: Group, s: seq<Input>, t: seq<Input>)
    requires g.childInputs + g.children <= |inputs| && |s| == |t| == g.children
    ensures PutSlice(PutSlice(inputs, g, s), g, t) == PutSlice(inputs, g, t)
  {
  }

  // ----- struct parser -----

  /** What getopt answers. */
  datatype Got =
    | GotEnd(optind: int, dashes: bool)  // KEY_END, and whether "--" comes before `optind`
    | GotErr(optind: int)
    | GotArg(optind: int)
    | GotOpt(optind: int, opt: int)

  /** What getopt promises: an argument it returns is one of the vector, and an option
      is a character of the short options or a value of the long options. */
  ghost predicate Proper(got: Got, argc: nat, groups: nat)
  {
    match got
    case GotArg(optind) => 1 <= optind <= argc
    case GotOpt(_, opt) => opt != 0 && 0 <= GroupKey(opt) <= groups
    case _ => true
  }

  /** Where the parser stands between two rounds of its loop. */
  datatype Cursor = Cursor(next: int, quoted: int, tryGetopt: bool, processed: seq<nat>)

  /** Every parser function called answered as `parsers` does, given all calls before; a
      group without a parser function knows no key. */
  ghost predicate Honest(log: seq<Call>, gs: seq<Group>, parsers: Parsers)
  {
    forall i :: 0 <= i < |log| ==>
      && log[i].req.group < |gs|
      && log[i].reply == if gs[log[i].req.group].parser then parsers(log[..i], log[i].req)
         else Reply(EBADKEY, log[i].req.next, [])
  }

  lemma HonestStep(log: seq<Call>, gs: seq<Group>, parsers: Parsers, c: Call)
    requires Honest(log, gs, parsers) && c.req.group < |gs|
    requires c.reply == if gs[c.req.group].parser then parsers(log, c.req) else Reply(EBADKEY, c.req.next, [])
    ensures Honest(log + [c], gs, parsers)
  {
    var log' := log + [c];
    assert log'[..|log|] == log && forall i :: 0 <= i < |log| ==> log'[..i] == log[..i];
  }

  /** The value of `next` after some calls. */
  function LastNext(calls: seq<Call>, next: int): int
  {
    if calls == [] then next else calls[|calls| - 1].reply.next
  }

  /** A call shows its group the number of arguments that it has processed. */
  ghost predicate Counted(c: Call, counts: seq<nat>)
  {
    c.req.group < |counts| && c.req.argNum == counts[c.req.group]
  }

  /** Each call finds `next` as the call before has left it, and shows the count of its group. */
  ghost predicate Threaded(calls: seq<Call>, next: int, counts: seq<nat>)
  {
    calls != [] ==>
      var front, c := calls[..|calls| - 1], calls[|calls| - 1];
      Threaded(front, next, counts) && c.req.next == LastNext(front, next) && Counted(c, counts)
  }

  lemma {:induction false} ThreadedConcat(a: seq<Call>, b: seq<Call>, next: int, counts: seq<nat>)
    requires Threaded(a, next, counts) && Threaded(b, LastNext(a, next), counts)
    ensures Threaded(a + b, next, counts) && LastNext(a + b, next) == LastNext(b, LastNext(a, next))
  {
    if b == [] {
      assert a + b == a;
    } else {
      ThreadedConcat(a, b[..|b| - 1], next, counts);
      assert (a + b)[..|a + b| - 1] == a + b[..|b| - 1];
    }
  }

  lemma NoCalls(next: int, counts: seq<nat>)
    ensures Threaded([], next, counts) && LastNext([], next) == next
  {
  }

  lemma ThreadedLast(calls: seq<Call>, next: int, counts: seq<nat>, c: Call)
    ensures LastNext(calls + [c], next) == c.reply.next
    ensures Threaded(calls, next, counts) && c.req.next == LastNext(calls, next) && Counted(c, counts) ==>
              Threaded(calls + [c], next, counts)
  {
    assert (calls + [c])[..|calls|] == calls;
  }

  /** The last call of group `k`. */
  function LastTo(log: seq<Call>, k: nat): Option<Call>
  {
    if log == [] then None
    else if log[|log| - 1].req.group == k then Some(log[|log| - 1])
    else LastTo(log[..|log| - 1], k)
  }

  /** Every later call of a group shows it the input of the call before, and its child inputs
      as it left them itself: no other group has changed them. */
  ghost predicate Kept(log: seq<Call>)
  {
    log != [] ==>
      var front, c := log[..|log| - 1], log[|log| - 1];
      Kept(front) && match LastTo(front, c.req.group)
                     case None => true
                     case Some(b) => c.req.input == b.req.input && c.req.child == Left(b)
  }

  /** The inputs stored are those that each group has seen and left. */
  ghost predicate Current(log: seq<Call>, gs: seq<Group>, inputs: seq<Input>, childInputs: seq<Input>)
  {
    && |inputs| == |gs| && Disjoint(gs, 0, |childInputs|)
    && forall k :: 0 <= k < |gs| ==> match LastTo(log, k)
                                     case None => true
                                     case Some(c) => inputs[k] == c.req.input && Slice(childInputs, gs[k]) == Left(c)
  }

  lemma KeptStep(log: seq<Call>, gs: seq<Group>, inputs: seq<Input>, childInputs: seq<Input>, c: Call)
    requires Kept(log) && Current(log, gs, inputs, childInputs) && c.req.group < |gs|
    requires c.req.input == inputs[c.req.group] && c.req.child == Slice(childInputs, gs[c.req.group])
    ensures Kept(log + [c]) && Current(log + [c], gs, inputs, PutSlice(childInputs, gs[c.req.group], Left(c)))
  {
    assert (log + [c])[..|log|] == log;
    OtherSlices(gs, childInputs, c.req.group, Left(c));
    hide Slice, PutSlice, Left;
  }

  lemma OtherSlices(gs: seq<Group>, childInputs: seq<Input>, k: nat, slice: seq<Input>)
    requires Disjoint(gs, 0, |childInputs|) && k < |gs| && |slice| == gs[k].children
    ensures forall j :: 0 <= j < |gs| && j != k ==>
            Slice(PutSlice(childInputs, gs[k], slice), gs[j]) == Slice(childInputs, gs[j])
  {
  }

  /** What is stored for a group that has not been called yet can be chosen freely. */
  lemma NewGroup(log: seq<Call>, gs: seq<Group>, inputs: seq<Input>, childInputs: seq<Input>, k: nat, input: Input,
                 slice: seq<Input>)
    requires Current(log, gs, inputs, childInputs) && k < |gs| && LastTo(log, k) == None && |slice| == gs[k].children
    ensures Current(log, gs, inputs[k := input], PutSlice(childInputs, gs[k], slice))
  {
    OtherSlices(gs, childInputs, k, slice);
    hide Slice, PutSlice, Left;
  }

  lemma NoLog(gs: seq<Group>, inputs: seq<Input>, childInputs: seq<Input>)
    requires |inputs| == |gs| && Laid(gs, |childInputs|)
    ensures Kept([]) && Current([], gs, inputs, childInputs)
  {
  }

  lemma {:induction false} NotCalled(log: seq<Call>, k: nat)
    requires forall i :: 0 <= i < |log| ==> log[i].req.group != k
    ensures LastTo(log, k) == None
  {
    if log != [] {
      NotCalled(log[..|log| - 1], k);
    }
  }

  class Parser {
    const groups: seq<Group>
    const short: seq<int>
    const argc: nat
    const noArgs: bool  // ARGP_NO_ARGS
    const parsers: Parsers

    var next: int
    var quoted: int
    var tryGetopt: bool
    var inputs: seq<Input>
    var childInputs: seq<Input>
    var processed: seq<nat>
    var log: seq<Call>

    ghost predicate Valid()
      reads this
    {
      && |inputs| == |processed| == |groups| && Laid(groups, |childInputs|)
      && Honest(log, groups, parsers) && Kept(log) && Current(log, groups, inputs, childInputs)
    }

    ghost function Here(): Cursor
      reads this
    {
      Cursor(next, quoted, tryGetopt, processed)
    }

    constructor (gs: seq<Group>, short: seq<int>, slots: nat, argc: nat, noArgs: bool, parsers: Parsers)
      requires Laid(gs, slots)
      ensures Valid() && groups == gs && this.short == short && this.argc == argc && this.noArgs == noArgs
      ensures this.parsers == parsers
      ensures Here() == Cursor(0, 0, true, Zeros(|gs|)) && log == []
      ensures inputs == Zeros(|gs|) && childInputs == Zeros(slots)
    {
      groups, this.short, this.argc, this.noArgs, this.parsers := gs, short, argc, noArgs, parsers;
      next, quoted, tryGetopt, log := 0, 0, true, [];
      inputs, childInputs, processed := Zeros(|gs|), Zeros(slots), seq(|gs|, _ => 0);
    }

    /** The request that `group_parse` makes up from the group and the state. */
    function RequestOf(k: nat, key: Key): Request
      requires Valid() && k < |groups|
      reads this
    {
      Request(k, key, next, inputs[k], Slice(childInputs, groups[k]), processed[k])
    }

    /** `group_parse`: a group without a parser function knows no key. */
    method GroupParse(k: nat, key: Key) returns (err: int)
      requires Valid() && k < |groups|
      modifies this`next, this`childInputs, this`log
      ensures Valid() && |log| == |old(log)| + 1 && log[..|old(log)|] == old(log)
      ensures var c := log[|old(log)|];
              && c.req == old(RequestOf(k, key)) && err == c.reply.err && next == c.reply.next
              && c.reply == (if groups[k].parser then parsers(old(log), c.req) else Reply(EBADKEY, old(next), []))
              && childInputs == PutSlice(old(childInputs), groups[k], Left(c))
    {
      hide Laid, Slice, PutSlice, Written, Honest, Kept, Current;
      LaidFits(groups, |childInputs|, k);
      var req := RequestOf(k, key);
      var reply := Reply(EBADKEY, next, []);
      if groups[k].parser {
        reply := parsers(log, req);
        next := reply.next;
      }
      childInputs := PutSlice(childInputs, groups[k], Written(req.child, reply.child));
      HonestStep(log, groups, parsers, Call(req, reply));
      KeptStep(log, groups, inputs, old(childInputs), Call(req, reply));
      log := log + [Call(req, reply)];
      err := reply.err;
    }

    /** The INIT pass of `parser_init`. */
    method InitPass(input: Input) returns (err: int, ghost e: int)
      requires Valid() && log == [] && inputs == Zeros(|groups|) && childInputs == Zeros(|childInputs|)
      modifies this`next, this`inputs, this`childInputs, this`log
      ensures Valid() && Pass(log, Up(|groups|), Init, 0, e) && err == Settled(e)
      ensures forall j :: 0 <= j < |log| ==> Fed(groups, input, log, j)
      ensures Threaded(log, old(next), processed) && next == LastNext(log, old(next))
    {
      hide Laid, Fed, Filled, Pass, Up, Zeros, Initialising, Honest, Kept, Current, Threaded, LastNext;
      InitStart(groups, |childInputs|, input);
      NoCalls(next, processed);
      if |groups| > 0 {
        inputs := inputs[0 := input];
      }
      NoLog(groups, inputs, childInputs);
      err := 0;
      var k := 0;
      while k < |groups| && Quiet(err)
        invariant Valid() && k == |log| <= |groups| && Initialising(groups, input, inputs, childInputs, log, err)
        invariant Threaded(log, old(next), processed) && next == LastNext(log, old(next))
      {
        ghost var calls := log;
        err := InitGroup(k, input, err);
        ThreadedLast(calls, old(next), processed, log[k]);
        k := k + 1;
      }
      InitEnd(groups, input, inputs, childInputs, log, err);
      e := err;
      if err == EBADKEY {
        err := 0;
      }
    }

    /** The input of group `k`, from its parent's slot for it; without a parser function, the
        group hands it on to its first child. */
    method HandInput(k: nat, ghost input: Input, ghost err0: int)
      requires Valid() && k == |log| < |groups| && Initialising(groups, input, inputs, childInputs, log, err0)
      modifies this`inputs, this`childInputs
      ensures Valid() && inputs == old(inputs)[k := inputs[k]]
      ensures var g := groups[k];
              && g.childInputs + g.children <= |old(childInputs)| && |Blank(g, inputs[k])| == g.children
              && childInputs == PutSlice(old(childInputs), g, Blank(g, inputs[k]))
              && Inherits(g, input, log, inputs[k])
    {
      hide Slice, PutSlice, Left, Laid, Fed, Filled, Written, Pass, Up, Blank, After, Quiet, Honest, Kept, Current;
      ghost var before, was, g := childInputs, inputs, groups[k];
      LaidFits(groups, |childInputs|, k);
      if groups[k].parent.Some? {
        var p := groups[k].parent.value;
        FilledParent(groups, childInputs, log, k);
        inputs := inputs[k := childInputs[groups[p].childInputs + groups[k].parentIndex]];
      }
      FilledBlank(groups, childInputs, log, inputs[k]);
      PutSame(before, g);
      if !groups[k].parser && groups[k].children > 0 {
        PutFirst(childInputs, groups[k], inputs[k]);
        childInputs := childInputs[groups[k].childInputs := inputs[k]];
      }
      NotYetCalled(groups, input, was, before, log, err0);
      assert inputs == was[k := inputs[k]];
      NewGroup(log, groups, was, before, k, inputs[k], Blank(g, inputs[k]));
    }

    /** One round of the loop. */
    method InitGroup(k: nat, ghost input: Input, ghost err0: int) returns (err: int)
      requires Valid() && k == |log| < |groups| && Quiet(err0)
      requires Initialising(groups, input, inputs, childInputs, log, err0)
      modifies this`next, this`inputs, this`childInputs, this`log
      ensures Valid() && |log| == k + 1 && Initialising(groups, input, inputs, childInputs, log, err)
      ensures log == old(log) + [log[k]] && log[k].req.next == old(next) && next == log[k].reply.next
      ensures Counted(log[k], processed)
    {
      hide Slice, PutSlice, Left, Laid, Fed, Filled, Written, Pass, Up, Blank, After, Quiet, Honest, Kept, Current,
           Inherits;
      ghost var before, calls, g := childInputs, log, groups[k];
      HandInput(k, input, err0);
      err := GroupParse(k, Init);
      assert log == calls + [log[k]];
      PutTwice(before, g, Blank(g, inputs[k]), Left(log[k]));
      FilledStep(groups, before, calls, Left(log[k]), log[k]);
      FedStep(groups, input, calls, log[k]);
      PassStep(calls, Up(|groups|), Init, 0, log[k]);
    }

    /** Offer an argument to group `k`, first as ARG and then as ARGS. */
    method OfferGroup(k: nat) returns (err: int, key: Key, ghost calls: seq<Call>)
      requires Valid() && k < |groups|
      modifies this`next, this`childInputs, this`log
      ensures Valid() && log == old(log) + calls && Offer(calls, k, old(next), processed, key, err)
      ensures next == LastNext(calls, old(next))
      ensures key == Arg ==> err != EBADKEY
    {
      hide Laid, Slice, PutSlice, Left, Honest, Kept, Current;
      next := next + 1;
      key := Arg;
      err := GroupParse(k, key);
      calls := [log[|old(log)|]];
      if err == EBADKEY {
        next := next - 1;
        key := Args;
        err := GroupParse(k, key);
        calls := calls + [log[|old(log)| + 1]];
        assert calls[0] == old(log + calls)[|old(log)|];
      }
      assert log == old(log) + calls;
    }

    /** `parser_parse_arg`: the argument before `next` is offered to the groups in turn. */
    method ParseArg() returns (err: int, ghost calls: seq<Call>)
      requires Valid()
      modifies this`next, this`childInputs, this`log, this`processed, this`tryGetopt
      ensures Valid() && log == old(log) + calls && Offered(calls, |groups|, err)
      ensures OfferNexts(calls, old(next) - 1, old(processed))
      ensures Here() == AfterArg(old(Here()), calls, old(next) - 1, argc)
    {
      hide Laid, Offer, Offers, Offered, OfferNexts, LastNext, Honest, Kept, Current;
      next := next - 1;
      var index := next;
      err := EBADKEY;
      var key := Arg;
      calls := [];
      var k := 0;
      OffersStart(index, processed);
      while k < |groups| && err == EBADKEY
        invariant Valid() && k <= |groups| && log == old(log) + calls && Offers(calls, k, index, processed, key, err)
        invariant next == LastNext(calls, index)
        invariant processed == old(processed) && tryGetopt == old(tryGetopt)
      {
        ghost var key0, from, more := key, next, [];
        err, key, more := OfferGroup(k);
        OffersStep(calls, k, index, processed, key0, from, more, key, err);
        calls := calls + more;
        k := k + 1;
      }
      OffersEnd(calls, k, index, processed, key, err, |groups|);
      if err == 0 {
        if key == Args {
          next := argc;
        }
        if next > index {
          k := k - 1;
          processed := processed[k := processed[k] + (next - index)];
        } else {
          tryGetopt := true;
        }
      }
    }

    /** `parser_parse_opt`: hand an option to the group it belongs to. */
    method ParseOpt(opt: int) returns (err: int, ghost calls: seq<Call>)
      requires Valid() && opt != 0 && 0 <= GroupKey(opt) <= |groups|
      modifies this`next, this`childInputs, this`log
      ensures Valid() && log == old(log) + calls
      ensures OptOffered(calls, short, groups, opt, err) && Threaded(calls, old(next), processed)
      ensures next == LastNext(calls, old(next))
    {
      hide Laid, UserKey, GroupKey, DispatchShort, Slice, PutSlice, Left, Honest, Kept, Current;
      err, calls := EBADKEY, [];
      if GroupKey(opt) == 0 {
        var k := DispatchShort(short, groups, opt);
        if k.Some? {
          err := GroupParse(k.value, Opt(opt));
          calls := [log[|old(log)|]];
        }
      } else {
        err := GroupParse(GroupKey(opt) - 1, Opt(UserKey(opt)));
        calls := [log[|old(log)|]];
      }
    }

    /** `parser_parse_next`. */
    method ParseNext(got: Got, argEbadkey0: bool) returns (err: int, argEbadkey: bool, ghost round: Round)
      requires Valid() && Proper(got, argc, |groups|)
      modifies this
      ensures Valid() && log == old(log) + round.calls && unchanged(`inputs)
      ensures round.got == got && round.before == old(Here()) && round.err == err && round.after == Here()
      ensures RoundDone(round, short, groups, argc, noArgs)
      ensures argEbadkey == if err == EBADKEY then Excused(round, argc, noArgs) else argEbadkey0
    {
      hide Laid, GroupKey, UserKey, DispatchShort, Offered, OfferNexts, OptOffered, Honest, Kept, Current, Threaded,
           LastNext, AfterArg;
      argEbadkey := argEbadkey0;
      ghost var before, calls := Here(), [];
      if quoted != 0 && next < quoted {
        quoted := 0;
      }
      var answer := GotEnd(next, false);
      if tryGetopt && quoted == 0 {
        answer := got;
        next := got.optind;
        if got.GotEnd? {
          tryGetopt := false;
          if next > 1 && got.dashes {
            quoted := next;
          }
        } else if got.GotErr? {
          return EBADKEY, false, Round(got, before, [], EBADKEY, Here());
        }
      }
      if answer.GotEnd? {
        if next >= argc || noArgs {
          return EBADKEY, true, Round(got, before, [], EBADKEY, Here());
        }
        next := next + 1;
        answer := GotArg(next);
      }
      ghost var consulted := Here();
      if answer.GotArg? {
        err, calls := ParseArg();
        AfterArgStart(consulted, Consult(before, got), calls, consulted.next - 1, argc);
      } else {
        err, calls := ParseOpt(answer.opt);
      }
      if err == EBADKEY {
        argEbadkey := answer.GotArg?;
      }
      round := Round(got, before, calls, err, Here());
    }

    /** NO_ARGS, to the groups that have processed no argument. */
    method NoArgsPass() returns (err: int, ghost calls: seq<Call>)
      requires Valid()
      modifies this`next, this`childInputs, this`log
      ensures Valid() && log == old(log) + calls && Pass(calls, Idle(processed, |groups|), NoArgs, 0, err)
      ensures err == After(calls, 0) && Threaded(calls, old(next), processed) && next == LastNext(calls, old(next))
    {
      hide Laid, Slice, PutSlice, Left, Pass, After, Quiet, Threaded, LastNext, Honest, Kept, Current, Idle;
      err, calls := 0, [];
      ghost var order := Idle(processed, |groups|);
      IdlePrefix(processed, 0, |groups|);
      PassStart(order, NoArgs, 0);
      NoCalls(next, processed);
      var k := 0;
      while k < |groups| && Quiet(err)
        invariant Valid() && k <= |groups| && log == old(log) + calls && |calls| == |Idle(processed, k)| <= |order|
        invariant Pass(calls, order[..|calls|], NoArgs, 0, err) && err == After(calls, 0)
        invariant Threaded(calls, old(next), processed) && next == LastNext(calls, old(next))
      {
        IdleNext(processed, k, |groups|);
        if processed[k] == 0 {
          ghost var n := |log|;
          err := GroupParse(k, NoArgs);
          PassStep(calls, order, NoArgs, 0, log[n]);
          ThreadedLast(calls, old(next), processed, log[n]);
          calls := calls + [log[n]];
        }
        k := k + 1;
      }
      PassEnd(calls, order, NoArgs, 0, err);
    }

    /** From the last group to the first, until an error. */
    method DownPass(key: Key, err0: int) returns (err: int, ghost calls: seq<Call>)
      requires Valid()
      modifies this`next, this`childInputs, this`log
      ensures Valid() && log == old(log) + calls && Pass(calls, Down(|groups|), key, err0, err)
      ensures err == After(calls, err0) && Threaded(calls, old(next), processed) && next == LastNext(calls, old(next))
    {
      hide Laid, Slice, PutSlice, Left, Pass, Down, After, Quiet, Threaded, LastNext, Honest, Kept, Current;
      err, calls := err0, [];
      ghost var order := Down(|groups|);
      PassStart(order, key, err0);
      NoCalls(next, processed);
      var k: nat := |groups|;
      while k > 0 && Quiet(err)
        invariant Valid() && k <= |groups| && log == old(log) + calls && |calls| == |groups| - k
        invariant Pass(calls, order[..|groups| - k], key, err0, err) && err == After(calls, err0)
        invariant Threaded(calls, old(next), processed) && next == LastNext(calls, old(next))
      {
        k := k - 1;
        ghost var n := |log|;
        err := GroupParse(k, key);
        PassStep(calls, order, key, err0, log[n]);
        ThreadedLast(calls, old(next), processed, log[n]);
        calls := calls + [log[n]];
      }
      PassEnd(calls, order, key, err0, err);
    }

    /** ERROR to every group. */
    method ErrorPass() returns (ghost calls: seq<Call>)
      requires Valid()
      modifies this`next, this`childInputs, this`log
      ensures Valid() && log == old(log) + calls && FullPass(calls, Up(|groups|), Error)
      ensures Threaded(calls, old(next), processed) && next == LastNext(calls, old(next))
    {
      hide Laid, Slice, PutSlice, Left, Threaded, LastNext, Honest, Kept, Current;
      calls := [];
      NoCalls(next, processed);
      for k := 0 to |groups|
        invariant Valid() && log == old(log) + calls && FullPass(calls, Up(k), Error)
        invariant Threaded(calls, old(next), processed) && next == LastNext(calls, old(next))
      {
        ghost var n := |log|;
        var _ := GroupParse(k, Error);
        ThreadedLast(calls, old(next), processed, log[n]);
        calls := calls + [log[n]];
      }
    }

    /** FINI to every group, the last one first. */
    method FiniPass() returns (ghost calls: seq<Call>)
      requires Valid()
      modifies this`next, this`childInputs, this`log
      ensures Valid() && log == old(log) + calls && FullPass(calls, Down(|groups|), Fini)
      ensures Threaded(calls, old(next), processed) && next == LastNext(calls, old(next))
    {
      hide Laid, Slice, PutSlice, Left, Threaded, LastNext, Honest, Kept, Current;
      calls := [];
      NoCalls(next, processed);
      for k := |groups| downto 0
        invariant Valid() && log == old(log) + calls && |calls| == |groups| - k
        invariant forall i :: 0 <= i < |calls| ==> calls[i].req.group == |groups| - 1 - i && calls[i].req.key == Fini
        invariant Threaded(calls, old(next), processed) && next == LastNext(calls, old(next))
      {
        ghost var n := |log|;
        var _ := GroupParse(k, Fini);
        ThreadedLast(calls, old(next), processed, log[n]);
        calls := calls + [log[n]];
      }
    }

    /** Notify the groups of an error, or of success. */
    method Notify(pre: int) returns (err: int, ghost notes: seq<Call>)
      requires Valid()
      modifies this`next, this`childInputs, this`log
      ensures Valid() && log == old(log) + notes && Threaded(notes, old(next), processed)
      ensures next == LastNext(notes, old(next))
      ensures if pre != 0 then FullPass(notes, Up(|groups|), Error) && err == pre
              else Pass(notes, Down(|groups|), Success, 0, After(notes, 0)) && err == Settled(After(notes, 0))
    {
      hide Pass, FullPass, Laid, Down, Up, After, Threaded, LastNext, Honest, Kept, Current;
      err := pre;
      if err != 0 {
        notes := ErrorPass();
      } else {
        err, notes := DownPass(Success, err);
        if err == EBADKEY {
          err := 0;
        }
      }
    }

    /** The first part of `parser_finalize`, for a parse that ended without error: if all
        arguments are parsed, NO_ARGS and END, and in any case the end index. */
    method EndPasses(wantEnd: bool) returns (pre: int, end: Option<int>, ghost noArgs: seq<Call>, ghost ends: seq<Call>)
      requires Valid()
      modifies this`next, this`childInputs, this`log
      ensures Valid() && log == old(log) + (noArgs + ends)
      ensures Threaded(noArgs + ends, old(next), processed) && next == LastNext(noArgs + ends, old(next))
      ensures Ended(noArgs, ends, |groups|, processed, old(next) == argc, wantEnd, pre)
      ensures end == if wantEnd then Some(next) else None
    {
      hide Pass, Laid, Down, Idle, After, Threaded, LastNext, Honest, Kept, Current;
      pre, end, noArgs, ends := 0, None, [], [];
      NoCalls(next, processed);
      if next == argc {
        pre, noArgs := NoArgsPass();
        pre, ends := DownPass(Key.End, pre);
        if pre == EBADKEY {
          pre := 0;
        }
        if wantEnd {
          end := Some(next);
        }
      } else if wantEnd {
        end := Some(next);
      } else {
        pre := EBADKEY;
      }
      ThreadedConcat(noArgs, ends, old(next), processed);
      Regroup(old(log), noArgs, ends);
    }

    /** `parser_finalize`. */
    method Finalize(err0: int, argEbadkey: bool, wantEnd: bool) returns (err: int, end: Option<int>, ghost cl: Closing)
      requires Valid()
      modifies this`next, this`childInputs, this`log
      ensures Valid() && log == old(log) + ClosingCalls(cl) && Threaded(ClosingCalls(cl), old(next), processed)
      ensures err != EBADKEY
      ensures var e0 := if argEbadkey then Settled(err0) else err0;
              && Closed(cl, |groups|, processed, e0, old(next) == argc, wantEnd, err)
              && end == if wantEnd && e0 == 0 then Some(LastNext(cl.noArgs + cl.ends, old(next))) else None
    {
      hide Pass, FullPass, Laid, Down, Up, After, Threaded, LastNext, Honest, Kept, Current, Ended;
      NoCalls(next, processed);
      err, end := err0, None;
      if err == EBADKEY && argEbadkey {
        err := 0;
      }
      ghost var noArgs, ends, notes, finis := [], [], [], [];
      if err == 0 {
        err, end, noArgs, ends := EndPasses(wantEnd);
      }
      ghost var pre, done := err, noArgs + ends;
      assert log == old(log) + done;
      err, notes := Notify(err);
      ThreadedConcat(done, notes, old(next), processed);
      Regroup(old(log), done, notes);
      finis := FiniPass();
      ThreadedConcat(done + notes, finis, old(next), processed);
      Regroup(old(log), done + notes, finis);
      if err == EBADKEY {
        err := EINVAL;
      }
      cl := Closing(noArgs, ends, notes, finis, pre);
    }
  }

  predicate Middle(key: Key)
  {
    key.Opt? || key == Arg || key == Args
  }

  /** The calls of `parser_finalize`, and the error before the groups are notified of it. */
  datatype Closing = Closing(noArgs: seq<Call>, ends: seq<Call>, notes: seq<Call>, finis: seq<Call>, pre: int)

  function ClosingCalls(cl: Closing): seq<Call>
  {
    cl.noArgs + cl.ends + cl.notes + cl.finis
  }

  /** The error after a pass. */
  function After(calls: seq<Call>, err0: int): int
  {
    if calls == [] then err0 else calls[|calls| - 1].reply.err
  }

  /** The end of a parse without error: arguments left over are an error unless their
      index is asked for. */
  ghost predicate Ended(noArgs: seq<Call>, ends: seq<Call>, n: nat, processed: seq<nat>, all: bool, wantEnd: bool,
                        pre: int)
    requires |processed| == n
  {
    if all then
      && Pass(noArgs, Idle(processed, n), NoArgs, 0, After(noArgs, 0))
      && Pass(ends, Down(n), Key.End, After(noArgs, 0), After(ends, After(noArgs, 0)))
      && pre == Settled(After(ends, After(noArgs, 0)))
    else noArgs == ends == [] && pre == if wantEnd then 0 else EBADKEY
  }

  /** How a parse is closed: `e0` is its error, `all` whether every argument is parsed. */
  ghost predicate Closed(cl: Closing, n: nat, processed: seq<nat>, e0: int, all: bool, wantEnd: bool, err: int)
    requires |processed| == n
  {
    && (if e0 == 0 then Ended(cl.noArgs, cl.ends, n, processed, all, wantEnd, cl.pre)
        else cl.noArgs == cl.ends == [] && cl.pre == e0)
    && (if cl.pre != 0 then FullPass(cl.notes, Up(n), Error) && err == (if cl.pre == EBADKEY then EINVAL else cl.pre)
        else Pass(cl.notes, Down(n), Success, 0, After(cl.notes, 0)) && err == Settled(After(cl.notes, 0)))
    && FullPass(cl.finis, Down(n), Fini)
  }

  /** What a round of the loop sets out to do: to end the loop (for good, or for an
      error of getopt), or to take the argument at `index` or an option. */
  datatype Turn = Stop(done: bool) | TakeArg(index: int) | TakeOpt(opt: int)

  /** Whether getopt is asked. */
  predicate Asked(c: Cursor)
  {
    c.tryGetopt && (c.quoted == 0 || c.next < c.quoted)
  }

  function TurnOf(got: Got, c: Cursor, argc: nat, noArgs: bool): Turn
  {
    if Asked(c) && got.GotErr? then Stop(false)
    else if Asked(c) && got.GotArg? then TakeArg(got.optind - 1)
    else if Asked(c) && got.GotOpt? then TakeOpt(got.opt)
    else
      var index := if Asked(c) then got.optind else c.next;
      if index >= argc || noArgs then Stop(true) else TakeArg(index)
  }

  /** The cursor once getopt has been asked, or not: a `next` before the quoted region
      forgets the region, and the end of the options begins one behind a "--". */
  function Consult(c: Cursor, got: Got): Cursor
  {
    if !Asked(c) then c.(quoted := if c.next < c.quoted then 0 else c.quoted)
    else if !got.GotEnd? then c.(next := got.optind, quoted := 0)
    else c.(next := got.optind, quoted := if got.optind > 1 && got.dashes then got.optind else 0, tryGetopt := false)
  }

  /** The cursor after the argument at `index` was offered: a group that accepts it is
      credited with what was consumed, or, with `next` set back, getopt is asked again. */
  function AfterArg(c: Cursor, calls: seq<Call>, index: int, argc: nat): Cursor
  {
    if calls == [] then c.(next := index)
    else
      var last := calls[|calls| - 1];
      if last.reply.err != 0 then c.(next := last.reply.next)
      else
        var k, next := last.req.group, if last.req.key == Args then argc else last.reply.next;
        if next <= index || k >= |c.processed| then c.(next := next, tryGetopt := c.tryGetopt || next <= index)
        else c.(next := next, processed := c.processed[k := c.processed[k] + (next - index)])
  }

  lemma AfterArgStart(c: Cursor, d: Cursor, calls: seq<Call>, index: int, argc: nat)
    requires c == d.(next := c.next)
    ensures AfterArg(c, calls, index, argc) == AfterArg(d, calls, index, argc)
  {
  }

  /** One round of the loop: getopt's answer, the calls and the error they end with. */
  datatype Round = Round(got: Got, before: Cursor, calls: seq<Call>, err: int, after: Cursor)

  ghost predicate RoundDone(r: Round, short: seq<int>, gs: seq<Group>, argc: nat, noArgs: bool)
  {
    var c := Consult(r.before, r.got);
    match TurnOf(r.got, r.before, argc, noArgs)
    case Stop(_) => r.calls == [] && r.err == EBADKEY && r.after == c
    case TakeArg(index) => && Offered(r.calls, |gs|, r.err) && OfferNexts(r.calls, index, c.processed)
                           && r.after == AfterArg(c, r.calls, index, argc)
    case TakeOpt(opt) => && OptOffered(r.calls, short, gs, opt, r.err) && Threaded(r.calls, c.next, c.processed)
                         && r.after == c.(next := LastNext(r.calls, c.next))
  }

  /** An unknown key that ends the loop without being an error: the options are used up,
      or no group accepts an argument. */
  predicate Excused(r: Round, argc: nat, noArgs: bool)
  {
    var turn := TurnOf(r.got, r.before, argc, noArgs);
    turn == Stop(true) || turn.TakeArg?
  }

  /** The call for an option: to the group it belongs to, with the user's key. */
  ghost predicate OptOffered(calls: seq<Call>, short: seq<int>, gs: seq<Group>, opt: int, err: int)
  {
    match if GroupKey(opt) == 0 then DispatchShort(short, gs, opt) else Some(GroupKey(opt) - 1)
    case None => calls == [] && err == EBADKEY
    case Some(k) => && |calls| == 1 && calls[0].req.group == k && calls[0].reply.err == err
                    && calls[0].req.key == Opt(if GroupKey(opt) == 0 then opt else UserKey(opt))
  }

  /** The calls that offer an argument to group `k`. */
  ghost predicate Offer(calls: seq<Call>, k: nat, index: int, counts: seq<nat>, key: Key, err: int)
  {
    && 1 <= |calls| <= 2 && Counted(calls[0], counts) && Counted(calls[|calls| - 1], counts)
    && calls[0].req.group == k && calls[0].req.key == Arg && calls[0].req.next == index + 1
    && (if |calls| == 1 then key == Arg && err == calls[0].reply.err != EBADKEY
        else && calls[0].reply.err == EBADKEY
             && calls[1].req.group == k && calls[1].req.key == key == Args && calls[1].reply.err == err
             && calls[1].req.next == calls[0].reply.next - 1)
  }

  /** Call `i` of an offer to all groups. */
  ghost predicate OfferAt(c: Call, i: nat)
  {
    c.req.group == i / 2 && c.req.key == if i % 2 == 0 then Arg else Args
  }

  /** An argument is offered to the groups below `n` in order, as ARG and as ARGS,
      until one of them does not refuse. */
  ghost predicate Offered(calls: seq<Call>, n: nat, err: int)
  {
    && |calls| <= 2 * n
    && (forall i :: 0 <= i < |calls| ==> OfferAt(calls[i], i))
    && (forall i :: 0 <= i < |calls| - 1 ==> calls[i].reply.err == EBADKEY)
    && err == (if calls == [] then EBADKEY else calls[|calls| - 1].reply.err)
    && (err == EBADKEY ==> |calls| == 2 * n)
  }

  /** The argument is at `index`: ARG finds `next` one further than it was left, and
      ARGS one back. */
  ghost predicate OfferNexts(calls: seq<Call>, index: int, counts: seq<nat>)
  {
    calls != [] ==>
      var front, c := calls[..|calls| - 1], calls[|calls| - 1];
      && OfferNexts(front, index, counts) && Counted(c, counts)
      && c.req.next == LastNext(front, index) + if |front| % 2 == 0 then 1 else -1
  }

  /** The loop has passed the groups below `k`; `key` is the key last used. */
  ghost predicate Offers(calls: seq<Call>, k: nat, index: int, counts: seq<nat>, key: Key, err: int)
  {
    && Offered(calls, k, err) && OfferNexts(calls, index, counts)
    && (if calls == [] then k == 0 else calls[|calls| - 1].req.group == k - 1 && calls[|calls| - 1].req.key == key)
  }

  lemma OffersStart(index: int, counts: seq<nat>)
    ensures Offers([], 0, index, counts, Arg, EBADKEY) && LastNext([], index) == index
  {
  }

  lemma OffersStep(calls: seq<Call>, k: nat, index: int, counts: seq<nat>, key0: Key, from: int, more: seq<Call>,
                   key: Key, err: int)
    requires Offers(calls, k, index, counts, key0, EBADKEY) && Offer(more, k, from, counts, key, err)
    requires from == LastNext(calls, index)
    ensures Offers(calls + more, k + 1, index, counts, key, err)
    ensures LastNext(calls + more, index) == LastNext(more, from)
  {
    OfferedStep(calls, k, from, counts, more, key, err);
    OfferNextsStep(calls, k, index, counts, more, key, err);
    hide Offered, OfferNexts, Counted;
    assert (calls + more)[|calls + more| - 1] == more[|more| - 1];
  }

  lemma OfferNextsStep(calls: seq<Call>, k: nat, index: int, counts: seq<nat>, more: seq<Call>, key: Key, err: int)
    requires OfferNexts(calls, index, counts) && |calls| % 2 == 0
    requires Offer(more, k, LastNext(calls, index), counts, key, err)
    ensures OfferNexts(calls + more, index, counts)
  {
    hide OfferNexts, Counted;
    var first := calls + [more[0]];
    OfferNextsLast(calls, index, counts, more[0]);
    if |more| == 1 {
      assert more == [more[0]];
    } else {
      assert calls + more == first + [more[1]];
      OfferNextsLast(first, index, counts, more[1]);
    }
  }

  lemma OfferedStep(calls: seq<Call>, k: nat, from: int, counts: seq<nat>, more: seq<Call>, key: Key, err: int)
    requires Offered(calls, k, EBADKEY) && Offer(more, k, from, counts, key, err)
    ensures Offered(calls + more, k + 1, err) && |calls| % 2 == 0
  {
    hide Counted;
    assert OfferAt(more[0], 2 * k) && (|more| == 2 ==> OfferAt(more[1], 2 * k + 1));
  }

  lemma OfferNextsLast(calls: seq<Call>, index: int, counts: seq<nat>, c: Call)
    requires OfferNexts(calls, index, counts) && Counted(c, counts)
    requires c.req.next == LastNext(calls, index) + if |calls| % 2 == 0 then 1 else -1
    ensures OfferNexts(calls + [c], index, counts) && LastNext(calls + [c], index) == c.reply.next
  {
    assert (calls + [c])[..|calls|] == calls;
  }

  lemma OffersEnd(calls: seq<Call>, k: nat, index: int, counts: seq<nat>, key: Key, err: int, n: nat)
    requires Offers(calls, k, index, counts, key, err) && (k == n || err != EBADKEY) && k <= n
    ensures Offered(calls, n, err) && OfferNexts(calls, index, counts)
    ensures if calls == [] then err == EBADKEY
            else err == calls[|calls| - 1].reply.err && calls[|calls| - 1].req.group == k - 1 &&
                 calls[|calls| - 1].req.key == key
    ensures LastNext(calls, index) == if calls == [] then index else calls[|calls| - 1].reply.next
  {
  }

  lemma LeaveConcat(a: seq<Call>, b: seq<Call>)
    ensures LeaveNext(a + b) <==> LeaveNext(a) && LeaveNext(b)
  {
    assert forall i :: 0 <= i < |b| ==> b[i] == (a + b)[|a| + i];
    assert forall i :: 0 <= i < |a| ==> a[i] == (a + b)[i];
  }

  /** If `next` is left alone, it is behind the argument for ARG and on it for ARGS. */
  lemma {:induction false} LeaveOffer(calls: seq<Call>, index: int, counts: seq<nat>)
    requires OfferNexts(calls, index, counts) && LeaveNext(calls)
    ensures LastNext(calls, index) == if |calls| % 2 == 0 then index else index + 1
  {
    if calls != [] {
      LeaveOffer(calls[..|calls| - 1], index, counts);
    }
  }

  lemma {:induction false} LeaveThread(calls: seq<Call>, next: int, counts: seq<nat>)
    requires Threaded(calls, next, counts) && LeaveNext(calls)
    ensures LastNext(calls, next) == next
  {
    if calls != [] {
      LeaveThread(calls[..|calls| - 1], next, counts);
    }
  }

  /** Where a round leaves `next` if the parser functions leave it alone: at getopt's index
      after an option, on an argument refused, behind one accepted, and at the end of the
      vector if all that are left were accepted. */
  lemma RoundLeaves(r: Round, short: seq<int>, gs: seq<Group>, argc: nat, noArgs: bool)
    requires RoundDone(r, short, gs, argc, noArgs) && LeaveNext(r.calls)
    ensures match TurnOf(r.got, r.before, argc, noArgs)
            case Stop(_) => r.after.next == if Asked(r.before) then r.got.optind else r.before.next
            case TakeOpt(_) => r.after.next == r.got.optind
            case TakeArg(index) => && (r.err == EBADKEY ==> r.after.next == index)
                                   && (r.err == 0 ==>
                                         && r.calls != []
                                         && var key := r.calls[|r.calls| - 1].req.key;
                                            r.after.next == if key == Arg then index + 1 else argc)
  {
    hide GroupKey, UserKey, DispatchShort;
    match TurnOf(r.got, r.before, argc, noArgs)
    case Stop(_) =>
    case TakeOpt(_) => LeaveThread(r.calls, r.got.optind, r.before.processed);
    case TakeArg(index) =>
      if r.calls != [] {
        LeaveOffer(r.calls, index, r.before.processed);
        assert OfferAt(r.calls[|r.calls| - 1], |r.calls| - 1);
      }
  }

  /** The count of every group is the number of arguments it has accepted. */
  ghost predicate Credited(processed: seq<nat>, log: seq<Call>, argc: nat)
  {
    && Sum(processed) == Accepted(log, argc)
    && forall k :: 0 <= k < |processed| ==> processed[k] == AcceptedBy(log, k, argc)
  }

  /** The credit of a group for the argument at `index` is that of the call it accepted. */
  lemma AcceptedCredit(calls: seq<Call>, argc: nat, index: int, err: int, c: Cursor)
    requires Offered(calls, |c.processed|, err) && OfferNexts(calls, index, c.processed) && LeaveNext(calls)
    requires index < argc && calls != []
    ensures var last := calls[|calls| - 1];
            && last.req.group < |c.processed| && Credit(last, argc) >= 0 && (err == 0 <==> Credit(last, argc) > 0)
            && AfterArg(c, calls, index, argc).processed ==
               c.processed[last.req.group := c.processed[last.req.group] + Credit(last, argc)]
  {
    LeaveOffer(calls, index, c.processed);
    assert OfferAt(calls[|calls| - 1], |calls| - 1);
  }

  lemma ArgCredited(log: seq<Call>, calls: seq<Call>, argc: nat, index: int, err: int, c: Cursor)
    requires Offered(calls, |c.processed|, err) && OfferNexts(calls, index, c.processed) && LeaveNext(calls)
    requires index < argc
    requires Credited(c.processed, log, argc)
    ensures |AfterArg(c, calls, index, argc).processed| == |c.processed|
    ensures Credited(AfterArg(c, calls, index, argc).processed, log + calls, argc)
  {
    hide OfferNexts, AfterArg, LeaveNext, OfferAt, Credited;
    if calls == [] {
      assert log + calls == log &&
             AfterArg(c, [], index, argc) == c.(next := index) by { AfterNothing(c, index, argc); }
    } else {
      AcceptedCredit(calls, argc, index, err, c);
      CreditLast(log, calls, argc, c.processed);
    }
  }

  /** Of calls that all but the last earn no credit, the last one is credited. */
  lemma CreditLast(log: seq<Call>, calls: seq<Call>, argc: nat, processed: seq<nat>)
    requires Credited(processed, log, argc) && calls != [] && calls[|calls| - 1].req.group < |processed|
    requires Credit(calls[|calls| - 1], argc) >= 0 && forall i :: 0 <= i < |calls| - 1 ==> Credit(calls[i], argc) == 0
    ensures var last := calls[|calls| - 1];
            Credited(processed[last.req.group := processed[last.req.group] + Credit(last, argc)], log + calls, argc)
  {
    hide Sum, Credit;
    var front, last := calls[..|calls| - 1], calls[|calls| - 1];
    NoCredit(log, front, argc);
    assert (log + calls)[..|log + calls| - 1] == log + front;
    SumUpdate(processed, last.req.group, processed[last.req.group] + Credit(last, argc));
  }

  lemma AfterNothing(c: Cursor, index: int, argc: nat)
    ensures AfterArg(c, [], index, argc) == c.(next := index)
  {
  }

  /** Every round keeps the counts right if the parser functions leave `next` alone. */
  lemma RoundCredited(log: seq<Call>, r: Round, short: seq<int>, gs: seq<Group>, argc: nat, noArgs: bool)
    requires RoundDone(r, short, gs, argc, noArgs) && Proper(r.got, argc, |gs|) && |r.before.processed| == |gs|
    requires LeaveNext(r.calls) && Credited(r.before.processed, log, argc)
    ensures |r.after.processed| == |gs| && Credited(r.after.processed, log + r.calls, argc)
  {
    hide Credited, Offered, OfferNexts, AfterArg, LeaveNext, GroupKey, UserKey, DispatchShort;
    match TurnOf(r.got, r.before, argc, noArgs)
    case TakeArg(index) => ArgCredited(log, r.calls, argc, index, r.err, Consult(r.before, r.got));
    case _ => OptCredited(log, r.calls, argc, r.after.processed);
  }

  lemma OptCredited(log: seq<Call>, calls: seq<Call>, argc: nat, processed: seq<nat>)
    requires forall i :: 0 <= i < |calls| ==> calls[i].req.key.Opt?
    ensures Credited(processed, log, argc) ==> Credited(processed, log + calls, argc)
  {
    NoCredit(log, calls, argc);
  }

  /** The INIT pass has dealt with the first groups. */
  ghost predicate Initialising(gs: seq<Group>, input: Input, inputs: seq<Input>, childInputs: seq<Input>,
                               init: seq<Call>, err: int)
  {
    && |init| <= |gs| == |inputs| && Laid(gs, |childInputs|) && Filled(gs, childInputs, init)
    && (forall j :: |init| <= j < |gs| ==> inputs[j] == if j == 0 then input else 0)
    && (forall j :: 0 <= j < |init| ==> Fed(gs, input, init, j))
    && Pass(init, Up(|gs|)[..|init|], Init, 0, err) && err == After(init, 0)
  }

  lemma InitStart(gs: seq<Group>, slots: nat, input: Input)
    requires Laid(gs, slots)
    ensures var inputs := Zeros(|gs|);
            && |inputs| == |gs| && (|gs| == 0 ==> Initialising(gs, input, inputs, Zeros(slots), [], 0))
            && (|gs| > 0 ==> Initialising(gs, input, inputs[0 := input], Zeros(slots), [], 0))
  {
  }

  lemma NotYetCalled(gs: seq<Group>, input: Input, inputs: seq<Input>, childInputs: seq<Input>, init: seq<Call>,
                     err: int)
    requires Initialising(gs, input, inputs, childInputs, init, err) && |init| < |gs|
    ensures LastTo(init, |init|) == None
  {
    hide Filled, Laid, Pass, Up;
    forall i | 0 <= i < |init| ensures init[i].req.group != |init| {
      assert Fed(gs, input, init, i);
    }
    NotCalled(init, |init|);
  }

  lemma InitEnd(gs: seq<Group>, input: Input, inputs: seq<Input>, childInputs: seq<Input>, init: seq<Call>, err: int)
    requires Initialising(gs, input, inputs, childInputs, init, err) && (|init| == |gs| || !Quiet(err))
    ensures Pass(init, Up(|gs|), Init, 0, err) && forall j :: 0 <= j < |init| ==> Fed(gs, input, init, j)
  {
  }

  lemma PassStart(order: seq<nat>, key: Key, err0: int)
    ensures Pass([], order[..0], key, err0, err0) && After([], err0) == err0
  {
  }

  lemma PassStep(calls: seq<Call>, order: seq<nat>, key: Key, err0: int, c: Call)
    requires |calls| < |order| && Pass(calls, order[..|calls|], key, err0, After(calls, err0))
    requires Quiet(After(calls, err0))
    requires c.req.group == order[|calls|] && c.req.key == key
    ensures Pass(calls + [c], order[..|calls| + 1], key, err0, c.reply.err) && After(calls + [c], err0) == c.reply.err
  {
  }

  lemma PassEnd(calls: seq<Call>, order: seq<nat>, key: Key, err0: int, err: int)
    requires |calls| <= |order| && Pass(calls, order[..|calls|], key, err0, err) && (|calls| == |order| || !Quiet(err))
    ensures Pass(calls, order, key, err0, err)
  {
  }

  /** The slot that a group takes its input from holds what its parent left there. */
  lemma FilledParent(gs: seq<Group>, inputs: seq<Input>, init: seq<Call>, k: nat)
    requires Laid(gs, |inputs|) && Filled(gs, inputs, init) && |init| == k < |gs| && gs[k].parent.Some?
    ensures var p, i := gs[k].parent.value, gs[k].parentIndex;
            p < k && gs[p].childInputs + i < |inputs| && i < |Left(init[p])| &&
              inputs[gs[p].childInputs + i] == Left(init[p])[i]
  {
  }

  lemma FilledBlank(gs: seq<Group>, inputs: seq<Input>, init: seq<Call>, input: Input)
    requires Filled(gs, inputs, init) && |init| < |gs|
    ensures var g := gs[|init|];
            g.childInputs + g.children <= |inputs|
            && Blank(g, input) == if !g.parser && g.children > 0 then Slice(inputs, g)[0 := input] else Slice(inputs, g)
  {
  }

  lemma FedStep(gs: seq<Group>, input: Input, init: seq<Call>, c: Call)
    requires |init| < |gs| && forall j :: 0 <= j < |init| ==> Fed(gs, input, init, j)
    requires var k := |init|;
             && c.req.group == k && c.req.key == Init && c.req.child == Blank(gs[k], c.req.input)
             && Inherits(gs[k], input, init, c.req.input)
    ensures forall j :: 0 <= j <= |init| ==> Fed(gs, input, init + [c], j)
  {
    hide Left, Blank, Inherits;
    forall j | 0 <= j < |init| ensures Fed(gs, input, init + [c], j) {
      assert Fed(gs, input, init, j) && (init + [c])[..j] == init[..j];
    }
    assert (init + [c])[..|init|] == init;
  }

  lemma LaidFits(gs: seq<Group>, slots: nat, k: nat)
    requires Laid(gs, slots) && k < |gs|
    ensures gs[k].childInputs + gs[k].children <= slots
  {
  }
}
