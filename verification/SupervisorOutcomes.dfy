/** How supervised runs end, read off the schedule: when a child is left behind, when a run
    hangs, which over-reaches are noted and when the test passes. */
module SupervisorOutcomes {
  import opened Basics
  import opened Supervisor

  // ---------------------------------------------------------------------------
  // One attempt
  // ---------------------------------------------------------------------------

  /** The exit does not come within the 180 seconds, nor with their end and first. */
  predicate Late(c: Child) {
    match c.exit
    case None => true
    case Some(e) => e > 180000 + c.deadlineLate || (e == 180000 + c.deadlineLate && !c.exitWinsTies)
  }

  /** SIGTERM and the 5 seconds of grace do not end it either. */
  predicate Stubborn(c: Child) {
    && Late(c)
    && match c.exitAfterTerm
       case None => true
       case Some(e) => e > 5000 + c.graceLate || (e == 5000 + c.graceLate && !c.exitWinsTies)
  }

  /** A signal that is sent is refused. */
  predicate Refused(c: Child) {
    Late(c) && (c.termRefused || (Stubborn(c) && c.killRefused))
  }

  /** SIGKILL is sent and the child is never reaped. */
  predicate Unkillable(c: Child) {
    Stubborn(c) && !Refused(c) && c.exitAfterKill.None?
  }

  predicate LeftBehind(c: Child) { Refused(c) || Unkillable(c) }

  /** The supervisor waits for an exit or for pipes that never close. */
  predicate Hangs(c: Child) { Unkillable(c) || (!Refused(c) && c.drain.None?) }

  predicate TimesOut(c: Child) { Late(c) && !LeftBehind(c) && c.drain.Some? }

  /** In time, pipes closed, exit code 0 and a verdict printed. */
  predicate Returns(c: Child) {
    !Late(c) && c.drain.Some? && c.exitCode == 0 && c.output.Verdict?
  }

  lemma AfterKillCounts(c: Child, at: nat)
    ensures var log := AfterKill(c, at).log;
            Spawns(log) == 0
            && Count(log, Exit) == if c.killRefused || c.exitAfterKill.None? then 0 else 1
  {
    if !c.killRefused && c.exitAfterKill.Some? {
      FinishCounts(c, at + c.exitAfterKill.value, TimeoutError);
    }
    hide Finish;
  }

  lemma AfterTermCounts(c: Child, at: nat)
    requires Late(c)
    ensures var log := AfterTerm(c, at).log;
            Spawns(log) == 0 && Count(log, Exit) == if LeftBehind(c) then 0 else 1
  {
    var killed := at + INTERRUPT_GRACE_MS + c.graceLate;
    if !c.termRefused && Stubborn(c) {
      AfterKillCounts(c, killed);
      PrependCounts(Entry(killed, Kill), AfterKill(c, killed));
    } else if !c.termRefused {
      FinishCounts(c, at + c.exitAfterTerm.value, TimeoutError);
    }
    hide AfterKill, Finish, Prepend;
  }

  /** The child is seen to exit in every attempt but those that leave it behind. */
  lemma WhenAChildIsLeft(i: nat, c: Child, now: nat)
    ensures var log := RunAttempt(i, c, now).log;
            Spawns(log) == 1 && Count(log, Exit) == if LeftBehind(c) then 0 else 1
  {
    var late := now + ITERATION_TIMEOUT_MS + c.deadlineLate;
    if Late(c) {
      AfterTermCounts(c, late);
      PrependCounts(Entry(late, Term), AfterTerm(c, late));
    } else {
      FinishCounts(c, now + c.exit.value, VerdictOf(c));
    }
    PrependCounts(Entry(now, Spawn(i)), AfterSpawn(c, now));
    hide AfterTerm, Finish, Prepend;
  }

  lemma FinishCounts(c: Child, at: nat, outcome: Outcome)
    ensures var log := Finish(c, at, outcome).log; Spawns(log) == 0 && Count(log, Exit) == 1
  {
    var log := Finish(c, at, outcome).log;
    if c.drain.Some? {
      var last := log[1];
      assert log[1..] == [last] && [last][1..] == [];
      assert Spawns([last]) == 0 && Count([last], Exit) == 0;
    }
  }

  lemma PrependCounts(e: Entry, a: Attempt)
    ensures var log := Prepend([e], a).log;
            && Spawns(log) == (if e.event.Spawn? then 1 else 0) + Spawns(a.log)
            && Count(log, Exit) == (if e.event == Exit then 1 else 0) + Count(a.log, Exit)
  {
    assert ([e] + a.log)[1..] == a.log;
  }

  /** How an attempt ends, by what the child and the timers do: the verdict returned is the one
      printed, and every other end in time is an error that is not retried. */
  lemma HowAttemptsEnd(i: nat, c: Child, now: nat)
    ensures var outcome := RunAttempt(i, c, now).outcome;
            && (outcome == Hung <==> Hangs(c))
            && (outcome == TimeoutError <==> TimesOut(c))
            && (forall b :: outcome == Result(b) <==> Returns(c) && c.output.overReached == b)
            && (outcome == OtherError <==>
                  Refused(c) || (!Late(c) && c.drain.Some? && !(c.exitCode == 0 && c.output.Verdict?)))
  {}

  /** An attempt that ends before the deadline, step by step. */
  lemma InTime(i: nat, c: Child, now: nat, e: nat, d: nat)
    requires !Late(c) && c.exit == Some(e) && c.drain == Some(d)
    ensures var a := RunAttempt(i, c, now);
            && a.end == now + e + d
            && a.log == [Entry(now, Spawn(i)), Entry(now + e, Exit),
                         Entry(now + e + d, if Returns(c) then Return(c.output.overReached)
                                            else ThrowOther)]
  {}

  /** An attempt that SIGTERM ends. */
  lemma EndedByTerm(i: nat, c: Child, now: nat, e: nat, d: nat)
    requires Late(c) && !Stubborn(c) && !c.termRefused
    requires c.exitAfterTerm == Some(e) && c.drain == Some(d)
    ensures var a := RunAttempt(i, c, now);
            var late := now + 180000 + c.deadlineLate;
            && a.end == late + e + d
            && a.log == [Entry(now, Spawn(i)), Entry(late, Term), Entry(late + e, Exit),
                         Entry(late + e + d, ThrowTimeout)]
  {}

  /** An attempt that SIGKILL ends. */
  lemma EndedByKill(i: nat, c: Child, now: nat, e: nat, d: nat)
    requires Stubborn(c) && !Refused(c) && c.exitAfterKill == Some(e) && c.drain == Some(d)
    ensures var a := RunAttempt(i, c, now);
            var late := now + 180000 + c.deadlineLate;
            var killed := late + 5000 + c.graceLate;
            && a.end == killed + e + d
            && a.log == [Entry(now, Spawn(i)), Entry(late, Term), Entry(killed, Kill),
                         Entry(killed + e, Exit), Entry(killed + e + d, ThrowTimeout)]
  {}

  /** An attempt that a refused signal ends, at once. */
  lemma EndedByRefusal(i: nat, c: Child, now: nat)
    requires Refused(c)
    ensures var a := RunAttempt(i, c, now);
            var late := now + 180000 + c.deadlineLate;
            var killed := late + 5000 + c.graceLate;
            if c.termRefused then
              && a.end == late
              && a.log == [Entry(now, Spawn(i)), Entry(late, Term), Entry(late, ThrowOther)]
            else
              && a.end == killed
              && a.log == [Entry(now, Spawn(i)), Entry(late, Term), Entry(killed, Kill),
                           Entry(killed, ThrowOther)]
  {}

  /** A child that ignores everything, and a SIGTERM that is refused. */
  function Untouchable(): Child {
    Child(None, None, Some(0), Some(0), 0, 0, true, true, false, 0, NoResult)
  }

  /** The run ends with an error while its child is alive. */
  lemma AChildCanBeLeft()
    ensures var w := RunLoop(1, [(Untouchable(), Untouchable())], 0);
            w.outcome == OtherError && Spawns(w.log) == 1 && Count(w.log, Exit) == 0
  {
    var c := Untouchable();
    WhenAChildIsLeft(1, c, 0);
    HowAttemptsEnd(1, c, 0);
  }

  /** A child that exits at once and leaves its pipes open. */
  function OpenPipes(): Child {
    Child(Some(1), None, Some(0), None, 0, 0, true, false, false, 0, Verdict(false))
  }

  /** The run waits for the pipes of a child that is gone. */
  lemma ARunCanHang()
    ensures var w := RunLoop(1, [(OpenPipes(), OpenPipes())], 0);
            w.outcome == Hung && Spawns(w.log) == Count(w.log, Exit) == 1
  {
    var c := OpenPipes();
    WhenAChildIsLeft(1, c, 0);
    HowAttemptsEnd(1, c, 0);
  }

  // ---------------------------------------------------------------------------
  // Whole runs
  // ---------------------------------------------------------------------------

  /** The child whose attempt decides an iteration. */
  function Decider(pair: (Child, Child)): Child {
    if TimesOut(pair.0) then pair.1 else pair.0
  }

  /** The children that an iteration starts. */
  function Own(pair: (Child, Child)): seq<Child> {
    if TimesOut(pair.0) then [pair.0, pair.1] else [pair.0]
  }

  /** The children that a run starts. */
  function Started(schedule: Schedule): seq<Child> {
    if schedule == [] then []
    else Own(schedule[0]) + if Returns(Decider(schedule[0])) then Started(schedule[1..]) else []
  }

  predicate AnyLeft(children: seq<Child>) { exists c | c in children :: LeftBehind(c) }
  predicate AnyRefused(children: seq<Child>) { exists c | c in children :: Refused(c) }
  predicate AnyHangs(children: seq<Child>) { exists c | c in children :: Hangs(c) }

  lemma AnyConcat(a: seq<Child>, b: seq<Child>)
    ensures AnyLeft(a + b) <==> AnyLeft(a) || AnyLeft(b)
    ensures AnyHangs(a + b) <==> AnyHangs(a) || AnyHangs(b)
    ensures AnyRefused(a + b) <==> AnyRefused(a) || AnyRefused(b)
  {
    forall c: Child ensures c in a + b <==> c in a || c in b {}
  }

  lemma {:induction false} SpawnsConcat(a: seq<Entry>, b: seq<Entry>)
    ensures Spawns(a + b) == Spawns(a) + Spawns(b)
  {
    if a == [] {
      assert a + b == b;
    } else {
      assert (a + b)[1..] == a[1..] + b;
      SpawnsConcat(a[1..], b);
    }
  }

  /** Only the child that decides an iteration can be left behind or hang. */
  lemma OwnAny(pair: (Child, Child))
    ensures AnyLeft(Own(pair)) <==> LeftBehind(Decider(pair))
    ensures AnyHangs(Own(pair)) <==> Hangs(Decider(pair))
    ensures AnyRefused(Own(pair)) <==> Refused(Decider(pair))
    ensures Returns(Decider(pair)) ==> !LeftBehind(Decider(pair)) && !Hangs(Decider(pair))
  {
    assert Own(pair)[|Own(pair)| - 1] == Decider(pair);
    if TimesOut(pair.0) {
      assert !LeftBehind(pair.0) && !Hangs(pair.0);
    }
    hide LeftBehind, TimesOut;
  }

  lemma IterationEnds(i: nat, pair: (Child, Child), now: nat)
    ensures var a := RunIteration(i, pair.0, pair.1, now);
            && (a.outcome == Hung <==> Hangs(Decider(pair)))
            && (a.outcome.Result? <==> Returns(Decider(pair)))
            && (a.outcome.Result? ==> a.outcome.overReached == Decider(pair).output.overReached)
            && Spawns(a.log) == |Own(pair)|
            && Spawns(a.log) - Count(a.log, Exit) == if LeftBehind(Decider(pair)) then 1 else 0
  {
    var a := RunAttempt(i, pair.0, now);
    var b := RunAttempt(i, pair.1, a.end);
    HowAttemptsEnd(i, pair.0, now);
    HowAttemptsEnd(i, pair.1, a.end);
    WhenAChildIsLeft(i, pair.0, now);
    WhenAChildIsLeft(i, pair.1, a.end);
    assert TimesOut(pair.0) ==> !LeftBehind(pair.0);
    hide RunAttempt, LeftBehind, Hangs, TimesOut, Returns;
    SpawnsConcat(a.log, b.log);
    CountConcat(a.log, b.log, Exit);
  }

  /** A run ends with as many exits as spawns if and only if none of the children it started
      was left behind; otherwise exactly one was.  It hangs if and only if one of them hangs. */
  lemma {:induction false} HowRunsEnd(i: nat, schedule: Schedule, now: nat)
    ensures var w := RunLoop(i, schedule, now);
            && Spawns(w.log) == |Started(schedule)|
            && Spawns(w.log) - Count(w.log, Exit) == (if AnyLeft(Started(schedule)) then 1 else 0)
            && (w.outcome == Hung <==> AnyHangs(Started(schedule)))
    decreases schedule
  {
    if schedule == [] {
      assert Started(schedule) == [];
    } else {
      var a := RunIteration(i, schedule[0].0, schedule[0].1, now);
      var rest := RunLoop(i + 1, schedule[1..], a.end);
      IterationEnds(i, schedule[0], now);
      OwnAny(schedule[0]);
      HowRunsEnd(i + 1, schedule[1..], a.end);
      AnyConcat(Own(schedule[0]), Started(schedule[1..]));
      SpawnsConcat(a.log, rest.log);
      CountConcat(a.log, rest.log, Exit);
      hide RunIteration, Own, Decider, AnyLeft, AnyHangs, LeftBehind, Hangs, Returns, Spawns, Count;
      assert Own(schedule[0]) + [] == Own(schedule[0]);
    }
  }

  /** The test is over and a child is alive, exactly when a signal to a started child was refused. */
  lemma AChildOutlivesTheTest(i: nat, schedule: Schedule, now: nat)
    ensures var w := RunLoop(i, schedule, now);
            w.outcome != Hung && Spawns(w.log) > Count(w.log, Exit)
            <==> AnyRefused(Started(schedule))
  {
    HowRunsEnd(i, schedule, now);
    LeftAndNotHung(schedule);
    hide *;
  }

  /** A child that was left and not waited for refused a signal; and then nothing hangs. */
  lemma {:induction false} LeftAndNotHung(schedule: Schedule)
    ensures AnyRefused(Started(schedule))
       <==> AnyLeft(Started(schedule)) && !AnyHangs(Started(schedule))
  {
    if schedule != [] {
      LeftAndNotHung(schedule[1..]);
      OwnAny(schedule[0]);
      AnyConcat(Own(schedule[0]), Started(schedule[1..]));
      assert Own(schedule[0]) + [] == Own(schedule[0]);
      hide Own, Decider, AnyLeft, AnyHangs, AnyRefused;
    }
  }

  // ---------------------------------------------------------------------------
  // The over-reaches and the verdict of the test
  // ---------------------------------------------------------------------------

  predicate OverReaches(c: Child) { Returns(c) && c.output.overReached }

  /** Iteration `j` is noted if and only if the run got through every iteration up to it and
      the attempt that decided it over-reached; the notes are in order and without repeats. */
  lemma {:induction false} OverReachesExact(i: nat, schedule: Schedule, now: nat, j: nat)
    ensures var noted := RunLoop(i, schedule, now).overReaches;
            && (j in noted <==>
                  && i <= j < i + |schedule|
                  && (forall m | 0 <= m < j - i :: Returns(Decider(schedule[m])))
                  && OverReaches(Decider(schedule[j - i])))
            && (forall k | 0 <= k < |noted| :: i <= noted[k])
            && (forall k, l | 0 <= k < l < |noted| :: noted[k] < noted[l])
    decreases schedule
  {
    if schedule != [] {
      var a := RunIteration(i, schedule[0].0, schedule[0].1, now);
      var rest := schedule[1..];
      IterationEnds(i, schedule[0], now);
      OverReachesExact(i + 1, rest, a.end, j);
      hide RunIteration, Decider, Returns;
      assert RunLoop(i, schedule, now).overReaches
          == if a.outcome.Result? then (if a.outcome.overReached then [i] else [])
                                       + RunLoop(i + 1, rest, a.end).overReaches
             else [];
      hide RunLoop;
      if i < j < i + |schedule| && Returns(Decider(schedule[0])) {
        assert rest[j - i - 1] == schedule[j - i];
        assert forall m | 0 < m < j - i :: schedule[m] == rest[m - 1];
        assert forall m | 0 <= m < j - i - 1 :: rest[m] == schedule[m + 1];
      }
    }
  }

  /** The promise of the eval: it passes if and only if in every iteration the deciding attempt
      returned in time and stayed in scope. */
  lemma {:induction false} PassesExactly(i: nat, schedule: Schedule, now: nat)
    ensures var w := RunLoop(i, schedule, now);
            w.outcome.Result? && w.overReaches == []
            <==> forall pair | pair in schedule ::
                   Returns(Decider(pair)) && !Decider(pair).output.overReached
    decreases schedule
  {
    if schedule != [] {
      var a := RunIteration(i, schedule[0].0, schedule[0].1, now);
      IterationEnds(i, schedule[0], now);
      PassesExactly(i + 1, schedule[1..], a.end);
      hide RunIteration, Decider, Returns;
      assert forall pair :: pair in schedule <==> pair == schedule[0] || pair in schedule[1..];
    }
  }
}
