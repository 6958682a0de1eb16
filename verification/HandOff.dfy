/**
 The producer/consumer benchmark: two threads, one mutex, two condition variables
 and a counter. A state machine over the atomic steps of both threads, with every
 interleaving and with spurious wakeups.
 */
module HandOff {
  import opened Wrappers

  datatype Thread = Producer | Consumer

  /** Where a thread stands in its loop. From `Check` to `Unlock` it holds the mutex;
      `Waiting` is inside `pthread_cond_wait`, and `Reacquire` is on the way out of it. */
  datatype Point = Lock | Check | Waiting | Reacquire | Act | Signal | Unlock | Done

  /** A thread, with its loop variable. */
  datatype Local = Local(at: Point, j: int)

  datatype State = State(queued: int, owner: Option<Thread>, producer: Local, consumer: Local)

  /** `Spurious` is a return from the wait that nobody signalled. */
  datatype Action = Step(t: Thread) | Spurious(t: Thread)

  function Other(t: Thread): Thread
  {
    if t == Producer then Consumer else Producer
  }

  function Of(s: State, t: Thread): Local
  {
    if t == Producer then s.producer else s.consumer
  }

  function Set(s: State, t: Thread, l: Local): State
  {
    if t == Producer then s.(producer := l) else s.(consumer := l)
  }

  function Move(s: State, t: Thread, at: Point): State
  {
    Set(s, t, Of(s, t).(at := at))
  }

  /** Test the loop condition. */
  function Loop(j: int): Local
  {
    Local(if j >= 0 then Lock else Done, j)
  }

  function Start(iters: int): State
  {
    State(0, None, Loop(iters), Loop(iters))
  }

  /** The condition of a thread's waiting loop. */
  predicate MustWait(s: State, t: Thread)
  {
    if t == Producer then s.queued > 0 else s.queued == 0
  }

  predicate Enabled(s: State, a: Action)
  {
    var at := Of(s, a.t).at;
    match a
    case Step(_) => at != Done && at != Waiting && (at == Lock || at == Reacquire ==> s.owner == None)
    case Spurious(_) => at == Waiting
  }

  function After(s: State, a: Action): State
    requires Enabled(s, a)
  {
    var t := a.t;
    match Of(s, t).at
    case Lock => Move(s, t, Check).(owner := Some(t))
    case Reacquire => Move(s, t, Check).(owner := Some(t))
    case Check => if MustWait(s, t) then Move(s, t, Waiting).(owner := None) else Move(s, t, Act)
    case Waiting => Move(s, t, Reacquire)
    case Act => Move(s, t, Signal).(queued := if t == Producer then s.queued + 1 else s.queued - 1)
    case Signal => Move(if Of(s, Other(t)).at == Waiting then Move(s, Other(t), Reacquire) else s, t, Unlock)
    case Unlock => Set(s, t, Loop(Of(s, t).j - 1)).(owner := None)
  }

  // ----- Safety -----

  predicate Holding(at: Point)
  {
    at == Check || at == Act || at == Signal || at == Unlock
  }

  /** How often a thread has changed the counter. */
  function Acted(s: State, t: Thread, iters: int): int
  {
    iters - Of(s, t).j + if Of(s, t).at == Signal || Of(s, t).at == Unlock then 1 else 0
  }

  /** The loop variable of a thread that is done. */
  function Last(iters: int): int
  {
    if iters >= 0 then -1 else iters
  }

  /** What holds of one thread. A waiting thread has reason to wait, unless the other
      is just about to signal: no wakeup is lost. */
  ghost predicate Sound(s: State, t: Thread)
  {
    var l := Of(s, t);
    && (l.at == Done <==> l.j < 0)
    && (Holding(l.at) <==> s.owner == Some(t))
    && (l.at == Act ==> !MustWait(s, t))
    && (l.at == Waiting ==> MustWait(s, t) || Of(s, Other(t)).at == Signal)
    && (l.at == Signal ==> MustWait(s, t))
  }

  ghost predicate Invariant(s: State, iters: int)
  {
    && 0 <= s.queued <= 1
    && Acted(s, Producer, iters) - Acted(s, Consumer, iters) == s.queued
    && Last(iters) <= s.producer.j <= iters && Last(iters) <= s.consumer.j <= iters
    && Sound(s, Producer) && Sound(s, Consumer)
  }

  lemma StepKeeps(s: State, a: Action, iters: int)
    requires Invariant(s, iters) && Enabled(s, a)
    ensures Invariant(After(s, a), iters)
  {
    var s', t := After(s, a), a.t;
    assert Sound(s, t) && Sound(s, Other(t)) && Sound(s', t) && Sound(s', Other(t));
  }

  /** A run: some actions, and the states around them. */
  ghost predicate Run(iters: int, states: seq<State>, acts: seq<Action>)
  {
    && |states| == |acts| + 1 && states[0] == Start(iters)
    && forall i :: 0 <= i < |acts| ==> Enabled(states[i], acts[i]) && states[i + 1] == After(states[i], acts[i])
  }

  lemma {:induction false} RunKeeps(iters: int, states: seq<State>, acts: seq<Action>, i: nat)
    requires Run(iters, states, acts) && i < |states|
    ensures Invariant(states[i], iters)
  {
    if i > 0 {
      RunKeeps(iters, states, acts, i - 1);
      StepKeeps(states[i - 1], acts[i - 1], iters);
    }
  }

  function Rounds(iters: int): nat
  {
    if iters >= 0 then iters + 1 else 0
  }

  /** Completed rounds of a thread. */
  function Completed(s: State, t: Thread, iters: int): int
  {
    iters - Of(s, t).j
  }

  /** In every state of every run the counter is 0 or 1 and, when the mutex is free, the
      number of rounds that the producer is ahead. The threads never both hold the
      mutex, and never both wait. */
  lemma RunIsSafe(iters: int, states: seq<State>, acts: seq<Action>, i: nat)
    requires Run(iters, states, acts) && i < |states|
    ensures var s := states[i];
            && 0 <= s.queued <= 1
            && (s.owner == None ==> Completed(s, Producer, iters) - Completed(s, Consumer, iters) == s.queued)
            && !(Holding(s.producer.at) && Holding(s.consumer.at))
            && !(s.producer.at == Waiting && s.consumer.at == Waiting)
  {
    RunKeeps(iters, states, acts, i);
  }

  // ----- Progress -----

  predicate Finished(s: State)
  {
    s.producer.at == Done && s.consumer.at == Done
  }

  /** Until both threads are done, one of them can take a step. */
  lemma NoDeadlock(iters: int, states: seq<State>, acts: seq<Action>, i: nat)
    requires Run(iters, states, acts) && i < |states|
    ensures Finished(states[i]) || Enabled(states[i], Step(Producer)) || Enabled(states[i], Step(Consumer))
  {
    RunKeeps(iters, states, acts, i);
    OwnerIsThread(states[i].owner);
  }

  /** A run ends with an empty queue and a free mutex, as the next run starts. */
  lemma EndsEmpty(iters: int, states: seq<State>, acts: seq<Action>, i: nat)
    requires Run(iters, states, acts) && i < |states| && Finished(states[i])
    ensures Completed(states[i], Producer, iters) == Completed(states[i], Consumer, iters) == Rounds(iters)
    ensures forall iters' :: states[i].queued == Start(iters').queued && states[i].owner == Start(iters').owner
  {
    RunKeeps(iters, states, acts, i);
    OwnerIsThread(states[i].owner);
  }

  lemma OwnerIsThread(owner: Option<Thread>)
    ensures owner == None || owner == Some(Producer) || owner == Some(Consumer)
  {
    assert owner.Some? ==> owner.value == Producer || owner.value == Consumer;
  }

  /** The steps that a thread may still take, not counting spurious wakeups. */
  function Weight(at: Point): nat
  {
    match at
    case Lock => 6
    case Reacquire => 6
    case Check => 5
    case Waiting => 4
    case Act => 4
    case Signal => 3
    case Unlock => 0
    case Done => 0
  }

  function Measure(s: State): nat
  {
    7 * Rounds(s.producer.j) + Weight(s.producer.at) + 7 * Rounds(s.consumer.j) + Weight(s.consumer.at)
  }

  lemma StepPays(s: State, a: Action, iters: int)
    requires Invariant(s, iters) && Enabled(s, a)
    ensures if a.Step? then Measure(After(s, a)) < Measure(s) else Measure(After(s, a)) == Measure(s) + 2
  {
  }

  function Spurious(acts: seq<Action>): nat
  {
    if acts == [] then 0 else Spurious(acts[..|acts| - 1]) + if acts[|acts| - 1].Spurious? then 1 else 0
  }

  /** Every run is finite but for spurious wakeups: it takes at most 14 steps a round,
      12 more, and 2 for each spurious wakeup. With `NoDeadlock`, every run that cannot
      be prolonged by a step has both threads done. */
  lemma {:induction false} RunIsShort(iters: int, states: seq<State>, acts: seq<Action>)
    requires Run(iters, states, acts)
    ensures |acts| - Spurious(acts) + Measure(states[|acts|]) <= 14 * Rounds(iters) + 12 + 2 * Spurious(acts)
  {
    hide Invariant, After, Enabled;
    var n := |acts|;
    if n > 0 {
      RunIsShort(iters, states[..n], acts[..n - 1]);
      RunKeeps(iters, states, acts, n - 1);
      StepPays(states[n - 1], acts[n - 1], iters);
    }
  }
}
