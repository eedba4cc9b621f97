/** The attempt supervisor of evals/state-machine-agent-stays-in-state-scope.eval.ts: race a
    child against a deadline, terminate, kill after a grace period, retry a timeout once.

    A schedule is what the child and the timers do: `Child` says when the child's exit is seen,
    by how much the timers are late, who wins a tie and whether a signal is refused.  The
    results hold for every schedule.  Times are milliseconds. */
module Supervisor {
  import opened Basics

  const ITERATIONS: nat := 5
  const ITERATION_TIMEOUT_MS: nat := 180000
  const INTERRUPT_GRACE_MS: nat := 5000
  const ATTEMPTS_PER_ITERATION: nat := 2
  const TEST_BUDGET_MS: nat := ITERATIONS * (ITERATION_TIMEOUT_MS * ATTEMPTS_PER_ITERATION + 30000)

  /** What the child printed: no result line, a line that is not JSON, or a verdict. */
  datatype Output = NoResult | NotJson | Verdict(overReached: bool)

  /** One child.  Exits are counted from the spawn, from SIGTERM and from SIGKILL; None means
      that it never comes.  `drain` is how long its pipes stay open after the exit.  A refused
      signal is an error other than ESRCH, which the supervisor ignores. */
  datatype Child = Child(exit: Option<nat>, exitAfterTerm: Option<nat>, exitAfterKill: Option<nat>,
                         drain: Option<nat>, deadlineLate: nat, graceLate: nat, exitWinsTies: bool,
                         termRefused: bool, killRefused: bool, exitCode: int, output: Output)

  datatype Event =
    | Spawn(iteration: nat)
    | Exit
    | Term
    | Kill
    | Return(overReached: bool)
    | ThrowTimeout
    | ThrowOther

  datatype Entry = Entry(at: nat, event: Event)

  datatype Outcome = Result(overReached: bool) | TimeoutError | OtherError | Hung

  /** Which promise of a race between an exit and a timer settles first. */
  predicate ExitFirst(exit: Option<nat>, timer: nat, exitWinsTies: bool) {
    exit.Some? && (exit.value < timer || (exit.value == timer && exitWinsTies))
  }

  function VerdictOf(c: Child): Outcome {
    if c.exitCode == 0 && c.output.Verdict? then Result(c.output.overReached) else OtherError
  }

  // ---------------------------------------------------------------------------
  // One attempt as a function of its schedule
  // ---------------------------------------------------------------------------

  datatype Attempt = Attempt(log: seq<Entry>, end: nat, outcome: Outcome)

  /** After the exit at `at`: wait for the pipes, then return or throw. */
  function Finish(c: Child, at: nat, outcome: Outcome): Attempt {
    match c.drain
    case None => Attempt([Entry(at, Exit)], at, Hung)
    case Some(d) =>
      var event :=
        match outcome
        case Result(over) => Return(over)
        case TimeoutError => ThrowTimeout
        case _ => ThrowOther;
      Attempt([Entry(at, Exit), Entry(at + d, event)], at + d, outcome)
  }

  function Prepend(entries: seq<Entry>, a: Attempt): Attempt { a.(log := entries + a.log) }

  function AfterKill(c: Child, at: nat): Attempt {
    if c.killRefused then Attempt([Entry(at, ThrowOther)], at, OtherError)
    else
      match c.exitAfterKill
      case None => Attempt([], at, Hung)
      case Some(d) => Finish(c, at + d, TimeoutError)
  }

  function AfterTerm(c: Child, at: nat): Attempt {
    var grace := INTERRUPT_GRACE_MS + c.graceLate;
    if c.termRefused then Attempt([Entry(at, ThrowOther)], at, OtherError)
    else if ExitFirst(c.exitAfterTerm, grace, c.exitWinsTies) then
      Finish(c, at + c.exitAfterTerm.value, TimeoutError)
    else Prepend([Entry(at + grace, Kill)], AfterKill(c, at + grace))
  }

  function AfterSpawn(c: Child, now: nat): Attempt {
    var deadline := ITERATION_TIMEOUT_MS + c.deadlineLate;
    if ExitFirst(c.exit, deadline, c.exitWinsTies) then Finish(c, now + c.exit.value, VerdictOf(c))
    else Prepend([Entry(now + deadline, Term)], AfterTerm(c, now + deadline))
  }

  function RunAttempt(iteration: nat, c: Child, now: nat): Attempt {
    Prepend([Entry(now, Spawn(iteration))], AfterSpawn(c, now))
  }

  function RunIteration(iteration: nat, first: Child, second: Child, now: nat): Attempt {
    var a := RunAttempt(iteration, first, now);
    if a.outcome != TimeoutError then a
    else Prepend(a.log, RunAttempt(iteration, second, a.end))
  }

  type Schedule = seq<(Child, Child)>

  /** The iteration loop: any error ends it; over-reaches are noted and do not. */
  datatype Whole = Whole(log: seq<Entry>, end: nat, overReaches: seq<nat>, outcome: Outcome)

  function RunLoop(iteration: nat, schedule: Schedule, now: nat): Whole
    decreases schedule
  {
    if schedule == [] then Whole([], now, [], Result(false))
    else
      var a := RunIteration(iteration, schedule[0].0, schedule[0].1, now);
      if !a.outcome.Result? then Whole(a.log, a.end, [], a.outcome)
      else
        var rest := RunLoop(iteration + 1, schedule[1..], a.end);
        Whole(a.log + rest.log, rest.end,
              (if a.outcome.overReached then [iteration] else []) + rest.overReaches, rest.outcome)
  }

  // ---------------------------------------------------------------------------
  // The supervisor as the source writes it
  // ---------------------------------------------------------------------------

  // Each step of an attempt, after whatever the log already holds.

  lemma SpawnStep(log: seq<Entry>, iteration: nat, c: Child, now: nat)
    ensures Prepend(log, RunAttempt(iteration, c, now))
         == Prepend(log + [Entry(now, Spawn(iteration))], AfterSpawn(c, now))
  {
    var spawn, rest := [Entry(now, Spawn(iteration))], AfterSpawn(c, now);
    assert log + (spawn + rest.log) == log + spawn + rest.log;
  }

  lemma DeadlineStep(log: seq<Entry>, c: Child, now: nat)
    ensures var at := now + ITERATION_TIMEOUT_MS + c.deadlineLate;
            Prepend(log, AfterSpawn(c, now)) ==
              if ExitFirst(c.exit, ITERATION_TIMEOUT_MS + c.deadlineLate, c.exitWinsTies)
              then Prepend(log, Finish(c, now + c.exit.value, VerdictOf(c)))
              else Prepend(log + [Entry(at, Term)], AfterTerm(c, at))
  {
    var at := now + ITERATION_TIMEOUT_MS + c.deadlineLate;
    var rest := AfterTerm(c, at);
    hide AfterTerm;
    assert log + ([Entry(at, Term)] + rest.log) == log + [Entry(at, Term)] + rest.log;
  }

  lemma GraceStep(log: seq<Entry>, c: Child, now: nat)
    ensures var at := now + INTERRUPT_GRACE_MS + c.graceLate;
            Prepend(log, AfterTerm(c, now)) ==
              if c.termRefused then Attempt(log + [Entry(now, ThrowOther)], now, OtherError)
              else if ExitFirst(c.exitAfterTerm, INTERRUPT_GRACE_MS + c.graceLate, c.exitWinsTies)
              then Prepend(log, Finish(c, now + c.exitAfterTerm.value, TimeoutError))
              else Prepend(log + [Entry(at, Kill)], AfterKill(c, at))
  {
    var at := now + INTERRUPT_GRACE_MS + c.graceLate;
    var rest := AfterKill(c, at);
    hide AfterKill;
    assert log + ([Entry(at, Kill)] + rest.log) == log + [Entry(at, Kill)] + rest.log;
  }

  lemma KillStep(log: seq<Entry>, c: Child, now: nat)
    ensures Prepend(log, AfterKill(c, now)) ==
              if c.killRefused then Attempt(log + [Entry(now, ThrowOther)], now, OtherError)
              else if c.exitAfterKill.None? then Attempt(log, now, Hung)
              else Prepend(log, Finish(c, now + c.exitAfterKill.value, TimeoutError))
  {
    hide Finish;
    assert log + [] == log;
  }

  lemma FinishStep(log: seq<Entry>, c: Child, at: nat, outcome: Outcome, event: Event)
    requires c.drain.Some? ==> event == if outcome.Result? then Return(outcome.overReached)
                                        else if outcome.TimeoutError? then ThrowTimeout else ThrowOther
    ensures Prepend(log, Finish(c, at, outcome)) ==
              if c.drain.None? then Attempt(log + [Entry(at, Exit)], at, Hung)
              else Attempt(log + [Entry(at, Exit)] + [Entry(at + c.drain.value, event)],
                           at + c.drain.value, outcome)
  {
    if c.drain.Some? {
      var last := Entry(at + c.drain.value, event);
      assert log + [Entry(at, Exit), last] == log + [Entry(at, Exit)] + [last];
    }
  }

  class Supervisor {
    var now: nat
    var log: seq<Entry>

    constructor ()
      ensures now == 0 && log == []
    {
      now, log := 0, [];
    }

    method Note(event: Event)
      modifies this
      ensures now == old(now) && log == old(log) + [Entry(now, event)]
    {
      log := log + [Entry(now, event)];
    }

    /** `Promise.race` of the exit and a timer; time passes to whichever comes first. */
    method Race(exit: Option<nat>, timer: nat, exitWinsTies: bool) returns (exited: bool)
      modifies this
      ensures exited == ExitFirst(exit, timer, exitWinsTies)
      ensures log == if exited then old(log) + [Entry(now, Exit)] else old(log)
      ensures now == old(now) + if exited then exit.value else timer
    {
      exited := ExitFirst(exit, timer, exitWinsTies);
      now := now + if exited then exit.value else timer;
      if exited {
        Note(Exit);
      }
    }

    method RunAttemptProcess(iteration: nat, c: Child) returns (r: Outcome)
      modifies this
      ensures var a := RunAttempt(iteration, c, old(now));
              log == old(log) + a.log && now == a.end && r == a.outcome
    {
      hide RunAttempt, AfterSpawn, AfterTerm, AfterKill, Finish, ExitFirst;
      SpawnStep(log, iteration, c, now);
      Note(Spawn(iteration));
      DeadlineStep(log, c, now);
      var exited := Race(c.exit, ITERATION_TIMEOUT_MS + c.deadlineLate, c.exitWinsTies);
      var timedOut := !exited;
      if timedOut {
        Note(Term);
        GraceStep(log, c, now);
        if c.termRefused {
          Note(ThrowOther);
          return OtherError;
        }
        exited := Race(c.exitAfterTerm, INTERRUPT_GRACE_MS + c.graceLate, c.exitWinsTies);
        if !exited {
          Note(Kill);
          KillStep(log, c, now);
          if c.killRefused {
            Note(ThrowOther);
            return OtherError;
          }
          if c.exitAfterKill.None? {
            return Hung;
          }
          now := now + c.exitAfterKill.value;
          Note(Exit);
        }
      }
      ghost var closing := log[..|log| - 1];
      ghost var settled := if timedOut then TimeoutError else VerdictOf(c);
      assert Prepend(old(log), RunAttempt(iteration, c, old(now)))
          == Prepend(closing, Finish(c, now, settled));
      FinishStep(closing, c, now, settled,
                 if settled.Result? then Return(settled.overReached)
                 else if settled.TimeoutError? then ThrowTimeout else ThrowOther);
      assert log == closing + [Entry(now, Exit)];
      if c.drain.None? {
        return Hung;
      }
      now := now + c.drain.value;
      if timedOut {
        Note(ThrowTimeout);
        return TimeoutError;
      }
      if c.exitCode != 0 || !c.output.Verdict? {
        Note(ThrowOther);
        return OtherError;
      }
      Note(Return(c.output.overReached));
      return Result(c.output.overReached);
    }

    method RunWithOneTimeoutRetry(iteration: nat, first: Child, second: Child) returns (r: Outcome)
      modifies this
      ensures var a := RunIteration(iteration, first, second, old(now));
              log == old(log) + a.log && now == a.end && r == a.outcome
    {
      r := RunAttemptProcess(iteration, first);
      if r == TimeoutError {
        r := RunAttemptProcess(iteration, second);
      }
    }

    /** The test body; the test passes when it gets a result every time and notes nothing. */
    method RunTest(schedule: Schedule) returns (overReaches: seq<nat>, outcome: Outcome)
      requires now == 0 && log == []
      modifies this
      ensures Whole(log, now, overReaches, outcome) == RunLoop(1, schedule, 0)
    {
      overReaches := [];
      for i := 0 to |schedule|
        invariant RunLoop(1, schedule, 0)
               == Before(log, overReaches, RunLoop(i + 1, schedule[i..], now))
      {
        RunLoopNext(i + 1, schedule[i..], now, log, overReaches);
        assert schedule[i..][1..] == schedule[i + 1..];
        hide RunIteration, RunLoop, Before;
        outcome := RunWithOneTimeoutRetry(i + 1, schedule[i].0, schedule[i].1);
        if !outcome.Result? {
          return;
        }
        if outcome.overReached {
          overReaches := overReaches + [i + 1];
        }
      }
      outcome := Result(false);
      assert log + [] == log && overReaches + [] == overReaches;
    }
  }

  /** A run that `log` and `overReaches` precede. */
  function Before(log: seq<Entry>, overReaches: seq<nat>, rest: Whole): Whole {
    rest.(log := log + rest.log, overReaches := overReaches + rest.overReaches)
  }

  /** The loop body, seen from the whole run. */
  lemma RunLoopNext(iteration: nat, schedule: Schedule, now: nat, log: seq<Entry>,
                    overReaches: seq<nat>)
    requires schedule != []
    ensures var a := RunIteration(iteration, schedule[0].0, schedule[0].1, now);
            var whole := Before(log, overReaches, RunLoop(iteration, schedule, now));
            if !a.outcome.Result? then whole == Whole(log + a.log, a.end, overReaches, a.outcome)
            else whole == Before(log + a.log,
                                 if a.outcome.overReached then overReaches + [iteration] else overReaches,
                                 RunLoop(iteration + 1, schedule[1..], a.end))
  {
    var a := RunIteration(iteration, schedule[0].0, schedule[0].1, now);
    var rest := RunLoop(iteration + 1, schedule[1..], a.end);
    hide RunIteration;
    assert overReaches + [] == overReaches;
    assert log + (a.log + rest.log) == log + a.log + rest.log;
    assert overReaches + ([iteration] + rest.overReaches) == overReaches + [iteration] + rest.overReaches;
    assert overReaches + ([] + rest.overReaches) == overReaches + rest.overReaches;
  }

  // ---------------------------------------------------------------------------
  // An independent monitor of the protocol
  // ---------------------------------------------------------------------------

  /** Where the protocol stands: `attempts` counts the children of this iteration. */
  datatype Stage =
    | Between(iteration: nat, attempts: nat)
    | Running(iteration: nat, attempts: nat, since: nat)
    | Terminated(iteration: nat, attempts: nat, at: nat)
    | Killed(iteration: nat, attempts: nat)
    | Exited(iteration: nat, attempts: nat, timedOut: bool)
    | Over
    | Violation

  /** The rules, one event at a time. */
  function Watch(s: Stage, e: Entry): Stage {
    match (s, e.event)
    case (Between(i, n), Spawn(j)) =>
      if j == i && n < ATTEMPTS_PER_ITERATION then Running(i, n + 1, e.at) else Violation
    case (Running(i, n, _), Exit) => Exited(i, n, false)
    case (Running(i, n, since), Term) =>
      if e.at >= since + ITERATION_TIMEOUT_MS then Terminated(i, n, e.at) else Violation
    case (Terminated(i, n, _), Exit) => Exited(i, n, true)
    case (Terminated(i, n, at), Kill) =>
      if e.at >= at + INTERRUPT_GRACE_MS then Killed(i, n) else Violation
    case (Terminated(_, _, _), ThrowOther) => Over
    case (Killed(i, n), Exit) => Exited(i, n, true)
    case (Killed(_, _), ThrowOther) => Over
    case (Exited(i, n, false), Return(_)) => Between(i + 1, 0)
    case (Exited(_, _, false), ThrowOther) => Over
    case (Exited(i, n, true), ThrowTimeout) => if n < ATTEMPTS_PER_ITERATION then Between(i, n) else Over
    case _ => Violation
  }

  function WatchAll(s: Stage, log: seq<Entry>): Stage
    decreases log
  {
    if log == [] then s else WatchAll(Watch(s, log[0]), log[1..])
  }

  lemma {:induction false} WatchConcat(s: Stage, a: seq<Entry>, b: seq<Entry>)
    ensures WatchAll(s, a + b) == WatchAll(WatchAll(s, a), b)
    decreases a
  {
    if a == [] {
      assert a + b == b;
    } else {
      assert (a + b)[1..] == a[1..] + b;
      WatchConcat(Watch(s, a[0]), a[1..], b);
    }
  }

  lemma WatchOne(s: Stage, e: Entry)
    ensures WatchAll(s, [e]) == Watch(s, e)
  {}

  lemma WatchTwo(s: Stage, d: Entry, e: Entry)
    ensures WatchAll(s, [d, e]) == Watch(Watch(s, d), e)
  {
    WatchOne(s, d);
    WatchOne(Watch(s, d), e);
    WatchConcat(s, [d], [e]);
  }

  lemma FinishObeys(c: Child, at: nat, outcome: Outcome, s: Stage, i: nat, n: nat)
    requires outcome != Hung && Watch(s, Entry(at, Exit)) == Exited(i, n, outcome == TimeoutError)
    ensures var a := Finish(c, at, outcome);
            WatchAll(s, a.log) ==
              match a.outcome
              case Hung => Exited(i, n, outcome == TimeoutError)
              case Result(_) => Between(i + 1, 0)
              case TimeoutError => if n < ATTEMPTS_PER_ITERATION then Between(i, n) else Over
              case OtherError => Over
  {
    WatchOne(s, Entry(at, Exit));
    if c.drain.Some? {
      var a := Finish(c, at, outcome);
      WatchTwo(s, a.log[0], a.log[1]);
    }
  }

  /** Where an attempt leaves the protocol. */
  ghost predicate Obeys(s: Stage, a: Attempt, i: nat, n: nat) {
    match a.outcome
    case Hung => WatchAll(s, a.log) != Violation
    case Result(_) => WatchAll(s, a.log) == Between(i + 1, 0)
    case TimeoutError =>
      WatchAll(s, a.log) == if n < ATTEMPTS_PER_ITERATION then Between(i, n) else Over
    case OtherError => WatchAll(s, a.log) == Over
  }

  lemma AfterKillObeys(c: Child, at: nat, i: nat, n: nat)
    ensures Obeys(Killed(i, n), AfterKill(c, at), i, n)
  {
    WatchOne(Killed(i, n), Entry(at, ThrowOther));
    if !c.killRefused && c.exitAfterKill.Some? {
      FinishObeys(c, at + c.exitAfterKill.value, TimeoutError, Killed(i, n), i, n);
    }
  }

  lemma PrependObeys(s: Stage, e: Entry, a: Attempt, i: nat, n: nat)
    requires Obeys(Watch(s, e), a, i, n)
    ensures Obeys(s, Prepend([e], a), i, n)
  {
    WatchOne(s, e);
    WatchConcat(s, [e], a.log);
  }

  lemma AfterTermObeys(c: Child, at: nat, i: nat, n: nat)
    ensures Obeys(Terminated(i, n, at), AfterTerm(c, at), i, n)
  {
    var grace := INTERRUPT_GRACE_MS + c.graceLate;
    WatchOne(Terminated(i, n, at), Entry(at, ThrowOther));
    if !c.termRefused {
      if ExitFirst(c.exitAfterTerm, grace, c.exitWinsTies) {
        FinishObeys(c, at + c.exitAfterTerm.value, TimeoutError, Terminated(i, n, at), i, n);
      } else {
        AfterKillObeys(c, at + grace, i, n);
        PrependObeys(Terminated(i, n, at), Entry(at + grace, Kill), AfterKill(c, at + grace), i, n);
      }
    }
  }

  lemma AttemptObeys(i: nat, c: Child, now: nat, n: nat)
    requires n < ATTEMPTS_PER_ITERATION
    ensures Obeys(Between(i, n), RunAttempt(i, c, now), i, n + 1)
  {
    var deadline := ITERATION_TIMEOUT_MS + c.deadlineLate;
    var s := Running(i, n + 1, now);
    if ExitFirst(c.exit, deadline, c.exitWinsTies) {
      var at := now + c.exit.value;
      FinishObeys(c, at, VerdictOf(c), s, i, n + 1);
      PrependObeys(Between(i, n), Entry(now, Spawn(i)), Finish(c, at, VerdictOf(c)), i, n + 1);
    } else {
      var at := now + deadline;
      AfterTermObeys(c, at, i, n + 1);
      PrependObeys(s, Entry(at, Term), AfterTerm(c, at), i, n + 1);
      PrependObeys(Between(i, n), Entry(now, Spawn(i)), Prepend([Entry(at, Term)], AfterTerm(c, at)),
                   i, n + 1);
    }
  }

  lemma IterationObeys(i: nat, first: Child, second: Child, now: nat)
    ensures var a := RunIteration(i, first, second, now);
            if a.outcome.Result? then WatchAll(Between(i, 0), a.log) == Between(i + 1, 0)
            else WatchAll(Between(i, 0), a.log) != Violation
  {
    var a := RunAttempt(i, first, now);
    AttemptObeys(i, first, now, 0);
    if a.outcome == TimeoutError {
      AttemptObeys(i, second, a.end, 1);
      WatchConcat(Between(i, 0), a.log, RunAttempt(i, second, a.end).log);
    }
    hide RunAttempt;
  }

  /** In every schedule the supervisor keeps every rule of the monitor. */
  lemma {:induction false} EveryRunObeys(i: nat, schedule: Schedule, now: nat)
    ensures WatchAll(Between(i, 0), RunLoop(i, schedule, now).log) != Violation
    decreases schedule
  {
    if schedule != [] {
      var a := RunIteration(i, schedule[0].0, schedule[0].1, now);
      IterationObeys(i, schedule[0].0, schedule[0].1, now);
      hide RunIteration;
      if a.outcome.Result? {
        EveryRunObeys(i + 1, schedule[1..], a.end);
        WatchConcat(Between(i, 0), a.log, RunLoop(i + 1, schedule[1..], a.end).log);
      }
    }
  }

  // ---------------------------------------------------------------------------
  // What the rules give
  // ---------------------------------------------------------------------------

  lemma {:induction false} ViolationStays(log: seq<Entry>)
    ensures WatchAll(Violation, log) == Violation
  {
    if log != [] {
      ViolationStays(log[1..]);
    }
  }

  function Spawns(log: seq<Entry>): nat {
    if log == [] then 0 else (if log[0].event.Spawn? then 1 else 0) + Spawns(log[1..])
  }

  function Count(log: seq<Entry>, event: Event): nat {
    if log == [] then 0 else (if log[0].event == event then 1 else 0) + Count(log[1..], event)
  }

  /** Children alive at a stage; after an error one may have been left behind. */
  predicate MayLive(s: Stage, alive: int) {
    match s
    case Between(_, _) => alive == 0
    case Exited(_, _, _) => alive == 0
    case Over => 0 <= alive <= 1
    case Violation => true
    case _ => alive == 1
  }

  /** Children that one event adds. */
  function Change(e: Event): int {
    if e.Spawn? then 1 else if e == Exit then -1 else 0
  }

  lemma AliveStep(s: Stage, e: Entry, alive: int)
    requires MayLive(s, alive)
    ensures MayLive(Watch(s, e), alive + Change(e.event))
  {}

  lemma {:induction false} AliveTracked(s: Stage, log: seq<Entry>, alive: int)
    requires MayLive(s, alive)
    ensures MayLive(WatchAll(s, log), alive + Spawns(log) - Count(log, Exit))
    decreases log
  {
    if log != [] {
      AliveStep(s, log[0], alive);
      hide MayLive, Watch;
      AliveTracked(Watch(s, log[0]), log[1..], alive + Change(log[0].event));
    }
  }

  /** Attempts of iteration `j` still allowed at a stage. */
  function Allowance(s: Stage, j: nat): nat {
    match s
    case Between(i, n) => Left(i, n, j)
    case Running(i, n, _) => Left(i, n, j)
    case Terminated(i, n, _) => Left(i, n, j)
    case Killed(i, n) => Left(i, n, j)
    case Exited(i, n, _) => Left(i, n, j)
    case _ => 0
  }

  function Left(i: nat, n: nat, j: nat): nat {
    if j < i then 0
    else if j > i then ATTEMPTS_PER_ITERATION
    else if n < ATTEMPTS_PER_ITERATION then ATTEMPTS_PER_ITERATION - n
    else 0
  }

  lemma {:induction false} AllowanceKept(s: Stage, log: seq<Entry>, j: nat)
    requires WatchAll(s, log) != Violation
    ensures Count(log, Spawn(j)) <= Allowance(s, j)
    decreases log
  {
    if log != [] {
      var t := Watch(s, log[0]);
      if t == Violation {
        ViolationStays(log[1..]);
      }
      AllowanceKept(t, log[1..], j);
    }
  }

  lemma PrefixObeys(s: Stage, log: seq<Entry>, k: nat)
    requires k <= |log| && WatchAll(s, log) != Violation
    ensures WatchAll(s, log[..k]) != Violation
    ensures WatchAll(WatchAll(s, log[..k]), log[k..]) != Violation
  {
    assert log == log[..k] + log[k..];
    WatchConcat(s, log[..k], log[k..]);
    ViolationStays(log[k..]);
  }

  lemma WatchNext(s: Stage, log: seq<Entry>, k: nat)
    requires k < |log|
    ensures WatchAll(s, log[..k + 1]) == Watch(WatchAll(s, log[..k]), log[k])
  {
    assert log[..k + 1] == log[..k] + [log[k]];
    WatchConcat(s, log[..k], [log[k]]);
    WatchOne(WatchAll(s, log[..k]), log[k]);
  }

  /** Safety of every schedule: at no point do two children live at once, and no iteration
      starts more than two. */
  lemma NeverTwoChildren(schedule: Schedule, k: nat, j: nat)
    requires k <= |RunLoop(1, schedule, 0).log|
    ensures var log := RunLoop(1, schedule, 0).log;
            && 0 <= Spawns(log[..k]) - Count(log[..k], Exit) <= 1
            && Count(log, Spawn(j)) <= ATTEMPTS_PER_ITERATION
  {
    var log := RunLoop(1, schedule, 0).log;
    EveryRunObeys(1, schedule, 0);
    PrefixObeys(Between(1, 0), log, k);
    AliveTracked(Between(1, 0), log[..k], 0);
    AllowanceKept(Between(1, 0), log, j);
  }

  /** The event before an event, and the time between them, that the protocol demands. */
  predicate Justified(d: Entry, e: Entry) {
    match e.event
    case Spawn(_) => d.event.Return? || d.event == ThrowTimeout
    case Exit => d.event.Spawn? || d.event == Term || d.event == Kill
    case Term => d.event.Spawn? && e.at >= d.at + ITERATION_TIMEOUT_MS
    case Kill => d.event == Term && e.at >= d.at + INTERRUPT_GRACE_MS
    case Return(_) => d.event == Exit
    case ThrowTimeout => d.event == Exit
    case ThrowOther => d.event == Exit || d.event == Term || d.event == Kill
  }

  lemma TwoInARow(s: Stage, d: Entry, e: Entry)
    requires Watch(Watch(s, d), e) != Violation
    ensures Justified(d, e)
  {}

  /** Order of every schedule: a return or a timeout error only after the child's exit, SIGKILL
      only after SIGTERM and an elapsed grace, SIGTERM only after the deadline, a second child
      only after a return or a timeout error. */
  lemma EveryEventJustified(schedule: Schedule, k: nat)
    requires 0 < k < |RunLoop(1, schedule, 0).log|
    ensures var log := RunLoop(1, schedule, 0).log; Justified(log[k - 1], log[k])
  {
    var log, start := RunLoop(1, schedule, 0).log, Between(1, 0);
    EveryRunObeys(1, schedule, 0);
    hide *;
    PrefixObeys(start, log, k + 1);
    WatchNext(start, log, k - 1);
    WatchNext(start, log, k);
    TwoInARow(WatchAll(start, log[..k - 1]), log[k - 1], log[k]);
  }

  /** Iterations never go back: `i` is the current one or a past one. */
  predicate Reached(s: Stage, i: nat) { s.Over? || s.Violation? || s.iteration >= i }

  lemma {:induction false} ReachedStays(s: Stage, log: seq<Entry>, i: nat)
    requires Reached(s, i)
    ensures Reached(WatchAll(s, log), i)
    decreases log
  {
    if log != [] {
      ReachedStays(Watch(s, log[0]), log[1..], i);
    }
  }

  lemma {:induction false} CountZero(log: seq<Entry>, event: Event, k: nat)
    requires Count(log, event) == 0 && k < |log|
    ensures log[k].event != event
  {
    if k > 0 {
      CountZero(log[1..], event, k - 1);
    }
  }

  lemma StageAfterSpawn(start: Stage, log: seq<Entry>, i: nat, a: nat)
    requires a < |log| && WatchAll(start, log) != Violation && log[a].event == Spawn(i)
    ensures Reached(WatchAll(start, log[..a + 1]), i)
  {
    PrefixObeys(start, log, a + 1);
    WatchNext(start, log, a);
    hide WatchAll;
  }

  lemma StageAfterReturn(start: Stage, log: seq<Entry>, i: nat, k: nat)
    requires k < |log| && WatchAll(start, log) != Violation && log[k].event.Return?
    requires Reached(WatchAll(start, log[..k]), i)
    ensures var t := WatchAll(start, log[..k + 1]); t.Between? && t.iteration > i
  {
    PrefixObeys(start, log, k + 1);
    WatchNext(start, log, k);
    hide WatchAll;
  }

  /** The iteration of a later return is `i` or past it, so what follows is past `i`. */
  lemma ReturnPasses(start: Stage, log: seq<Entry>, i: nat, a: nat, k: nat)
    requires a < k < |log| && WatchAll(start, log) != Violation
    requires log[a].event == Spawn(i) && log[k].event.Return?
    ensures var t := WatchAll(start, log[..k + 1]); t.Between? && t.iteration > i
  {
    hide *;
    StageAfterSpawn(start, log, i, a);
    assert log[..k] == log[..a + 1] + log[a + 1..k];
    WatchConcat(start, log[..a + 1], log[a + 1..k]);
    ReachedStays(WatchAll(start, log[..a + 1]), log[a + 1..k], i);
    StageAfterReturn(start, log, i, k);
  }

  lemma NotAgain(start: Stage, log: seq<Entry>, i: nat, a: nat, k: nat, b: nat)
    requires a < k < b < |log| && WatchAll(start, log) != Violation
    requires log[a].event == Spawn(i) && log[k].event.Return?
    ensures log[b].event != Spawn(i)
  {
    ReturnPasses(start, log, i, a, k);
    PrefixObeys(start, log, k + 1);
    AllowanceKept(WatchAll(start, log[..k + 1]), log[k + 1..], i);
    hide WatchAll;
    CountZero(log[k + 1..], Spawn(i), b - k - 1);
  }

  /** A result is never retried away: once iteration `i` has returned, over-reach or not, no
      further child of `i` is started. */
  lemma ResultIsNeverRetried(schedule: Schedule, i: nat, a: nat, k: nat, b: nat)
    requires a < k < b < |RunLoop(1, schedule, 0).log|
    requires RunLoop(1, schedule, 0).log[a].event == Spawn(i)
    requires RunLoop(1, schedule, 0).log[k].event.Return?
    ensures RunLoop(1, schedule, 0).log[b].event != Spawn(i)
  {
    EveryRunObeys(1, schedule, 0);
    hide RunLoop, WatchAll;
    NotAgain(Between(1, 0), RunLoop(1, schedule, 0).log, i, a, k, b);
  }

  /** Only a timeout is retried: a second child of an iteration directly follows a timeout. */
  lemma OnlyTimeoutsAreRetried(schedule: Schedule, i: nat, a: nat, b: nat)
    requires a < b < |RunLoop(1, schedule, 0).log|
    requires RunLoop(1, schedule, 0).log[a].event == Spawn(i)
    requires RunLoop(1, schedule, 0).log[b].event == Spawn(i)
    ensures RunLoop(1, schedule, 0).log[b - 1].event == ThrowTimeout
  {
    hide RunLoop;
    EveryEventJustified(schedule, b);
    if RunLoop(1, schedule, 0).log[b - 1].event.Return? {
      ResultIsNeverRetried(schedule, i, a, b - 1, b);
    }
  }

  lemma {:induction false} CountConcat(a: seq<Entry>, b: seq<Entry>, event: Event)
    ensures Count(a + b, event) == Count(a, event) + Count(b, event)
  {
    if a == [] {
      assert a + b == b;
    } else {
      assert (a + b)[1..] == a[1..] + b;
      CountConcat(a[1..], b, event);
    }
  }

  /** What an attempt of this outcome adds to the over-reaches seen. */
  function Seen(outcome: Outcome): nat { if outcome == Result(true) then 1 else 0 }

  lemma PrependSeen(e: Entry, a: Attempt)
    requires !e.event.Return? && Count(a.log, Return(true)) == Seen(a.outcome)
    ensures Count(Prepend([e], a).log, Return(true)) == Seen(a.outcome)
  {
    assert ([e] + a.log)[1..] == a.log;
  }

  lemma FinishSeen(c: Child, at: nat, outcome: Outcome)
    requires outcome != Hung
    ensures var a := Finish(c, at, outcome); Count(a.log, Return(true)) == Seen(a.outcome)
  {
    var a := Finish(c, at, outcome);
    if c.drain.Some? {
      var last := a.log[1];
      assert a.log[1..] == [last] && [last][1..] == [];
      assert Count([last], Return(true)) == Seen(outcome);
    }
  }

  lemma AttemptSeen(i: nat, c: Child, now: nat)
    ensures var a := RunAttempt(i, c, now); Count(a.log, Return(true)) == Seen(a.outcome)
  {
    var deadline, grace := ITERATION_TIMEOUT_MS + c.deadlineLate, INTERRUPT_GRACE_MS + c.graceLate;
    var spawn, late := Entry(now, Spawn(i)), now + deadline;
    if ExitFirst(c.exit, deadline, c.exitWinsTies) {
      FinishSeen(c, now + c.exit.value, VerdictOf(c));
      PrependSeen(spawn, Finish(c, now + c.exit.value, VerdictOf(c)));
    } else {
      if !c.termRefused && ExitFirst(c.exitAfterTerm, grace, c.exitWinsTies) {
        FinishSeen(c, late + c.exitAfterTerm.value, TimeoutError);
      } else if !c.termRefused {
        if !c.killRefused && c.exitAfterKill.Some? {
          FinishSeen(c, late + grace + c.exitAfterKill.value, TimeoutError);
        }
        PrependSeen(Entry(late + grace, Kill), AfterKill(c, late + grace));
      }
      PrependSeen(Entry(late, Term), AfterTerm(c, late));
      PrependSeen(spawn, Prepend([Entry(late, Term)], AfterTerm(c, late)));
    }
  }

  lemma IterationSeen(i: nat, first: Child, second: Child, now: nat)
    ensures var a := RunIteration(i, first, second, now); Count(a.log, Return(true)) == Seen(a.outcome)
  {
    var a := RunAttempt(i, first, now);
    AttemptSeen(i, first, now);
    AttemptSeen(i, second, a.end);
    hide RunAttempt;
    CountConcat(a.log, RunAttempt(i, second, a.end).log, Return(true));
  }

  /** No over-reach is lost or invented: as many are noted as children returned one. */
  lemma {:induction false} EveryOverReachNoted(i: nat, schedule: Schedule, now: nat)
    ensures var w := RunLoop(i, schedule, now); |w.overReaches| == Count(w.log, Return(true))
    decreases schedule
  {
    if schedule != [] {
      var a := RunIteration(i, schedule[0].0, schedule[0].1, now);
      IterationSeen(i, schedule[0].0, schedule[0].1, now);
      hide RunIteration;
      EveryOverReachNoted(i + 1, schedule[1..], a.end);
      CountConcat(a.log, RunLoop(i + 1, schedule[1..], a.end).log, Return(true));
    }
  }

  // ---------------------------------------------------------------------------
  // Supervision time
  // ---------------------------------------------------------------------------

  /** Timers on time, pipes closed at the exit, and a killed child gone within `x`. */
  predicate Punctual(c: Child, x: nat) {
    && c.deadlineLate == 0 && c.graceLate == 0 && c.drain == Some(0)
    && c.exitAfterKill.Some? && c.exitAfterKill.value <= x
  }

  predicate AllPunctual(schedule: Schedule, x: nat) {
    forall k | 0 <= k < |schedule| :: Punctual(schedule[k].0, x) && Punctual(schedule[k].1, x)
  }

  const ONE_TIMEOUT: nat := ITERATION_TIMEOUT_MS + INTERRUPT_GRACE_MS

  lemma AttemptTime(i: nat, c: Child, now: nat, x: nat)
    requires Punctual(c, x)
    ensures var a := RunAttempt(i, c, now);
            && a.outcome != Hung && a.end <= now + ONE_TIMEOUT + x
            && (a.outcome.Result? ==> a.end <= now + ITERATION_TIMEOUT_MS)
  {}

  lemma IterationTime(i: nat, first: Child, second: Child, now: nat, x: nat)
    requires Punctual(first, x) && Punctual(second, x)
    ensures var a := RunIteration(i, first, second, now);
            && a.outcome != Hung && a.end <= now + 2 * (ONE_TIMEOUT + x)
            && (a.outcome.Result? ==> a.end <= now + ONE_TIMEOUT + x + ITERATION_TIMEOUT_MS)
  {
    AttemptTime(i, first, now, x);
    AttemptTime(i, second, RunAttempt(i, first, now).end, x);
    hide RunAttempt;
  }

  /** `n` iterations that the retry saves. */
  function Saved(n: nat, x: nat): nat { n * (ONE_TIMEOUT + x + ITERATION_TIMEOUT_MS) }

  lemma SavedNext(n: nat, x: nat)
    ensures Saved(n + 1, x) == Saved(n, x) + ONE_TIMEOUT + x + ITERATION_TIMEOUT_MS
    ensures Saved(0, x) == 0
  {}

  /** Supervision comes to an end, and in time linear in the number of iterations. */
  lemma {:induction false} LoopTime(i: nat, schedule: Schedule, now: nat, x: nat)
    requires AllPunctual(schedule, x)
    ensures RunLoop(i, schedule, now).outcome != Hung
    ensures RunLoop(i, schedule, now).end <= now + Saved(|schedule|, x) + INTERRUPT_GRACE_MS + x
    decreases schedule
  {
    hide Saved;
    if schedule == [] {
      SavedNext(0, x);
    } else {
      var a := RunIteration(i, schedule[0].0, schedule[0].1, now);
      IterationTime(i, schedule[0].0, schedule[0].1, now, x);
      SavedNext(|schedule| - 1, x);
      hide RunIteration;
      if a.outcome.Result? {
        LoopTime(i + 1, schedule[1..], a.end, x);
      }
    }
  }

  /** A child that runs until it is killed and then takes `x`. */
  function Stuck(x: nat): Child {
    Child(None, None, Some(x), Some(0), 0, 0, true, false, false, 0, NoResult)
  }

  /** A child that returns a verdict exactly at the deadline. */
  function LastMoment(): Child {
    Child(Some(ITERATION_TIMEOUT_MS), None, Some(0), Some(0), 0, 0, true, false, false, 0, Verdict(false))
  }

  /** Iterations saved by the retry, `saved` of them, and one that fails it. */
  function Slowest(saved: nat, x: nat): Schedule {
    if saved == 0 then [(Stuck(x), Stuck(x))]
    else [(Stuck(x), LastMoment())] + Slowest(saved - 1, x)
  }

  lemma StuckTime(i: nat, x: nat, now: nat)
    ensures var a := RunAttempt(i, Stuck(x), now);
            a.outcome == TimeoutError && a.end == now + ONE_TIMEOUT + x
    ensures var b := RunAttempt(i, LastMoment(), now);
            b.outcome == Result(false) && b.end == now + ITERATION_TIMEOUT_MS
  {}

  lemma SavedByRetry(i: nat, x: nat, now: nat)
    ensures var a := RunIteration(i, Stuck(x), LastMoment(), now);
            a.outcome == Result(false) && a.end == now + ONE_TIMEOUT + x + ITERATION_TIMEOUT_MS
    ensures var b := RunIteration(i, Stuck(x), Stuck(x), now);
            b.outcome == TimeoutError && b.end == now + 2 * (ONE_TIMEOUT + x)
  {
    StuckTime(i, x, now);
    StuckTime(i, x, now + ONE_TIMEOUT + x);
    hide RunAttempt, Stuck, LastMoment;
  }

  lemma {:induction false} SlowestTime(i: nat, saved: nat, now: nat, x: nat)
    ensures |Slowest(saved, x)| == saved + 1 && AllPunctual(Slowest(saved, x), x)
    ensures RunLoop(i, Slowest(saved, x), now).end == now + Saved(saved, x) + 2 * (ONE_TIMEOUT + x)
    decreases saved
  {
    SavedByRetry(i, x, now);
    hide RunIteration, Saved;
    if saved == 0 {
      SavedNext(0, x);
    } else {
      SavedNext(saved - 1, x);
      SlowestTime(i + 1, saved - 1, now + ONE_TIMEOUT + x + ITERATION_TIMEOUT_MS, x);
      assert Slowest(saved, x)[1..] == Slowest(saved - 1, x);
    }
  }

  /** A run that comes to an end, and within the declared test budget. */
  predicate InBudget(run: Whole) { run.outcome != Hung && run.end <= TEST_BUDGET_MS }

  /** Supervision ends within the budget in every schedule exactly when a killed child is gone
      within 20 seconds: a second timeout ends the loop, so at most one iteration uses both. */
  lemma BudgetExact(x: nat)
    ensures (forall schedule: Schedule | |schedule| == ITERATIONS && AllPunctual(schedule, x) ::
               InBudget(RunLoop(1, schedule, 0)))
       <==> x <= 20000
  {
    if x <= 20000 {
      forall schedule: Schedule | |schedule| == ITERATIONS && AllPunctual(schedule, x)
        ensures InBudget(RunLoop(1, schedule, 0))
      {
        LoopTime(1, schedule, 0, x);
      }
    } else {
      SlowestTime(1, 4, 0, x);
    }
    hide RunLoop, Slowest;
  }
}
