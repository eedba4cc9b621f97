/** The RPC harness of the heartbeat evals: one pump reads the child's stdout into an append-only
    event log, any number of `waitFor` calls sleep until it is notified.

    JavaScript runs a callback to the next `await` without interruption, so the atomic actions
    are the stretches of code between awaits.  `RpcHarness` is the object and its atomic
    actions; `System` interleaves them in every possible order. */
module RpcHarness {
  import opened Basics
  import opened JsonLines

  datatype Pump = Reading | Finished | Failed

  /** The harness object. A token stands for one `resolve` callback: `waiters` holds those
      that wait for the next notification, `resolved` those that were called. */
  datatype State<E> = State(events: seq<E>, buffered: string, pump: Pump,
                            waiters: set<nat>, resolved: set<nat>, nextToken: nat)

  /** `Array.find`. */
  function Find<E>(events: seq<E>, want: E -> bool): Option<E> {
    if events == [] then None
    else if want(events[0]) then Some(events[0])
    else Find(events[1..], want)
  }

  function Notified<E>(s: State<E>): State<E> {
    s.(resolved := s.resolved + s.waiters, waiters := {})
  }

  /** One turn of the pump: the events of the completed lines are pushed, then the waiters are
      notified, whether or not a line failed to parse. */
  function Delivered<E>(parse: string -> Option<E>, s: State<E>, piece: string, done: bool): State<E>
  {
    var cut := CutLines(s.buffered + piece);
    var o := Strict(parse, cut.lines);
    Notified(s.(events := s.events + o.events,
                buffered := if o.failed then "" else cut.tail,
                pump := if o.failed then Failed else if done then Finished else s.pump))
  }

  datatype PollResult<E> = Match(event: E) | Expired | Sleep(token: nat, wakeAt: int)

  /** One turn of the `waitFor` loop at time `now`. */
  function Polled<E>(s: State<E>, want: E -> bool, deadline: int, now: int)
    : (State<E>, PollResult<E>)
  {
    match Find(s.events, want)
    case Some(e) => (s, Match(e))
    case None =>
      var remaining := deadline - now;
      if remaining <= 0 then (s, Expired)
      else (s.(waiters := s.waiters + {s.nextToken}, nextToken := s.nextToken + 1),
            Sleep(s.nextToken, now + if remaining < 250 then remaining else 250))
  }

  class RpcHarness<E> {
    const parse: string -> Option<E>
    var events: seq<E>
    var buffered: string
    var pump: Pump
    var waiters: set<nat>
    var resolved: set<nat>
    var nextToken: nat

    function View(): State<E>
      reads this
    {
      State(events, buffered, pump, waiters, resolved, nextToken)
    }

    constructor (parse: string -> Option<E>)
      ensures this.parse == parse
      ensures View() == State([], "", Reading, {}, {}, 0)
    {
      this.parse := parse;
      events, buffered, pump := [], "", Reading;
      waiters, resolved, nextToken := {}, {}, 0;
    }

    method Notify()
      modifies this
      ensures View() == Notified(old(View()))
    {
      var todo := waiters;
      while todo != {}
        invariant todo <= waiters
        invariant View() == old(View()).(resolved := resolved)
        invariant resolved + todo == old(resolved) + waiters
        decreases todo
      {
        var resolve :| resolve in todo;
        resolved := resolved + {resolve};
        todo := todo - {resolve};
      }
      waiters := {};
    }

    /** `readEvents` from one `reader.read()` to the next; its `finally` block is the
        notification after a parse failure. */
    method Deliver(piece: string, done: bool)
      requires pump == Reading
      modifies this
      ensures View() == Delivered(parse, old(View()), piece, done)
    {
      hide CutLines, Trim, Strict, IndexOfNewline, Notified, Delivered;
      buffered := buffered + piece;
      ghost var text, before := buffered, events;
      ghost var seen: seq<string> := [];
      StrictNone(parse);
      var newline := IndexOfNewline(buffered);
      while newline >= 0
        invariant newline == IndexOfNewline(buffered)
        invariant CutLines(text) == Cut(seen + CutLines(buffered).lines, CutLines(buffered).tail)
        invariant before <= events
        invariant Strict(parse, seen) == Outcome(events[|before|..], false)
        invariant pump == Reading && waiters == old(waiters) && resolved == old(resolved)
        invariant nextToken == old(nextToken)
        decreases |buffered|
      {
        LineTaken(parse, text, seen, buffered, newline, events[|before|..]);
        var raw := buffered[..newline];
        var line := Trim(raw);
        buffered := buffered[newline + 1..];
        if line != "" {
          match parse(line) {
            case Some(e) => events := events + [e];
            case None =>
              buffered, pump := "", Failed;
              TurnEnds(parse, old(View()), piece, done, events, true);
              Notify();
              return;
          }
        }
        seen := seen + [raw];
        newline := IndexOfNewline(buffered);
      }
      NoLine(buffered);
      assert seen + [] == seen;
      if done {
        pump := Finished;
      }
      TurnEnds(parse, old(View()), piece, done, events, false);
      Notify();
    }

    /** `waitFor` from one await to the next. */
    method Poll(want: E -> bool, deadline: int, now: int) returns (r: PollResult<E>)
      modifies this
      ensures (View(), r) == Polled(old(View()), want, deadline, now)
    {
      match Find(events, want) {
        case Some(e) => return Match(e);
        case None =>
      }
      var remaining := deadline - now;
      if remaining <= 0 {
        return Expired;
      }
      r := Sleep(nextToken, now + if remaining < 250 then remaining else 250);
      waiters := waiters + {nextToken};
      nextToken := nextToken + 1;
    }
  }

  lemma TurnEnds<E>(parse: string -> Option<E>, s: State<E>, piece: string, done: bool,
                    events: seq<E>, failed: bool)
    requires s.events <= events
    requires Strict(parse, CutLines(s.buffered + piece).lines)
          == Outcome(events[|s.events|..], failed)
    ensures Delivered(parse, s, piece, done)
         == Notified(s.(events := events,
                        buffered := if failed then "" else CutLines(s.buffered + piece).tail,
                        pump := if failed then Failed else if done then Finished else s.pump))
  {
    hide CutLines, Strict;
    assert s.events + events[|s.events|..] == events;
  }

  /** The line at the head of the buffer: where the cut goes on, and what the line adds. */
  lemma LineTaken<E>(parse: string -> Option<E>, text: string, seen: seq<string>, buffer: string,
                     newline: nat, events: seq<E>)
    requires newline == IndexOfNewline(buffer)
    requires CutLines(text) == Cut(seen + CutLines(buffer).lines, CutLines(buffer).tail)
    requires Strict(parse, seen) == Outcome(events, false)
    ensures var raw, rest := buffer[..newline], CutLines(buffer[newline + 1..]);
            && CutLines(text) == Cut(seen + [raw] + rest.lines, rest.tail)
            && if Trim(raw) == "" then Strict(parse, seen + [raw]) == Outcome(events, false)
               else if parse(Trim(raw)).None? then Strict(parse, CutLines(text).lines) == Outcome(events, true)
               else Strict(parse, seen + [raw]) == Outcome(events + [parse(Trim(raw)).value], false)
  {
    hide CutLines, Trim, Strict, IndexOfNewline;
    var raw, rest := buffer[..newline], CutLines(buffer[newline + 1..]);
    PopLine(buffer, newline);
    StrictLine(parse, seen, raw);
    StrictConcat(parse, seen + [raw], rest.lines);
    assert seen + ([raw] + rest.lines) == seen + [raw] + rest.lines;
  }

  lemma StrictNone<E>(parse: string -> Option<E>)
    ensures Strict(parse, []) == Outcome([], false)
  {}

  lemma StrictLine<E>(parse: string -> Option<E>, lines: seq<string>, raw: string)
    requires !Strict(parse, lines).failed
    ensures var before := Strict(parse, lines);
            Strict(parse, lines + [raw])
            == if Trim(raw) == "" then before else
               match parse(Trim(raw))
               case Some(e) => Outcome(before.events + [e], false)
               case None => Outcome(before.events, true)
  {
    assert (lines + [raw])[..|lines|] == lines;
  }

  // ---------------------------------------------------------------------------
  // The system: one pump, any number of waiters, every interleaving
  // ---------------------------------------------------------------------------

  /** Where a `waitFor` call stands.  `TimedOut` and `Broken` remember how many events the log
      held at the last check. */
  datatype Status<E> =
    | Ready
    | Sleeping(token: nat, wakeAt: int)
    | Returned(event: E)
    | TimedOut(at: int, seen: nat)
    | Broken(seen: nat)

  datatype Waiter<!E> = Waiter(want: E -> bool, deadline: int, status: Status<E>)

  /** `consumed` is the text delivered so far. */
  datatype System<!E> = System(harness: State<E>, waits: seq<Waiter<E>>, now: int, consumed: string)

  datatype Action<!E> =
    | Tick(elapsed: nat)
    | Start(want: E -> bool, timeout: int)
    | Deliver(piece: string, done: bool)
    | Poll(waiter: nat)
    | Wake(waiter: nat)
    | Break(waiter: nat)

  function WithStatus<E>(s: System<E>, i: nat, status: Status<E>): System<E>
    requires i < |s.waits|
  {
    s.(waits := s.waits[i := s.waits[i].(status := status)])
  }

  /** May this action happen now?  A sleeping call wakes when its token was resolved, when its
      timer is due or when the pump is through; it throws the pump's error when the pump had
      failed before the token could be resolved. */
  predicate Enabled<E>(s: System<E>, a: Action<E>) {
    match a
    case Tick(_) => true
    case Start(_, _) => true
    case Deliver(_, _) => s.harness.pump == Reading
    case Poll(i) => i < |s.waits| && s.waits[i].status == Ready
    case Wake(i) =>
      && i < |s.waits| && s.waits[i].status.Sleeping?
      && (s.waits[i].status.token in s.harness.resolved || s.waits[i].status.wakeAt <= s.now
          || s.harness.pump == Finished)
    case Break(i) =>
      && i < |s.waits| && s.waits[i].status.Sleeping?
      && s.harness.pump == Failed && s.waits[i].status.token !in s.harness.resolved
  }

  function Apply<E>(parse: string -> Option<E>, s: System<E>, a: Action<E>): System<E>
    requires Enabled(s, a)
  {
    match a
    case Tick(elapsed) => s.(now := s.now + elapsed)
    case Start(p, timeout) => s.(waits := s.waits + [Waiter(p, s.now + timeout, Ready)])
    case Deliver(piece, done) =>
      s.(harness := Delivered(parse, s.harness, piece, done), consumed := s.consumed + piece)
    case Poll(i) =>
      var (h, r) := Polled(s.harness, s.waits[i].want, s.waits[i].deadline, s.now);
      var status :=
        match r
        case Match(e) => Returned(e)
        case Expired => TimedOut(s.now, |s.harness.events|)
        case Sleep(token, wakeAt) => Sleeping(token, wakeAt);
      WithStatus(s.(harness := h), i, status)
    case Wake(i) => WithStatus(s, i, Ready)
    case Break(i) => WithStatus(s, i, Broken(|s.harness.events|))
  }

  function Initial<E>(now: int): System<E> {
    System(State([], "", Reading, {}, {}, 0), [], now, "")
  }

  /** The state after a schedule, if every action in it was possible. */
  function Run<E>(parse: string -> Option<E>, now: int, schedule: seq<Action<E>>): Option<System<E>> {
    if schedule == [] then Some(Initial(now)) else
    var n := |schedule| - 1;
    match Run(parse, now, schedule[..n])
    case None => None
    case Some(s) => if Enabled(s, schedule[n]) then Some(Apply(parse, s, schedule[n])) else None
  }

  // ---------------------------------------------------------------------------
  // The invariant
  // ---------------------------------------------------------------------------

  /** The log is the parse of the complete lines delivered so far. */
  ghost predicate LogIsStream<E>(parse: string -> Option<E>, s: System<E>) {
    var cut := CutLines(s.consumed);
    && Strict(parse, cut.lines) == Outcome(s.harness.events, s.harness.pump == Failed)
    && (s.harness.pump != Failed ==> s.harness.buffered == cut.tail)
  }

  ghost predicate TokensKnown<E>(h: State<E>) {
    forall t | t in h.waiters || t in h.resolved :: t < h.nextToken
  }

  ghost predicate WaiterInv<E>(s: System<E>, w: Waiter<E>) {
    var events := s.harness.events;
    match w.status
    case Ready => true
    case Sleeping(token, wakeAt) =>
      && token < s.harness.nextToken && wakeAt <= w.deadline && wakeAt <= s.now + 250
      && (token !in s.harness.resolved ==>
            token in s.harness.waiters && Find(events, w.want) == None)
    case Returned(e) => Find(events, w.want) == Some(e)
    case TimedOut(at, seen) =>
      w.deadline <= at <= s.now && seen <= |events| && Find(events[..seen], w.want) == None
    case Broken(seen) =>
      s.harness.pump == Failed && seen == |events| && Find(events, w.want) == None
  }

  ghost predicate Inv<E>(parse: string -> Option<E>, s: System<E>) {
    && LogIsStream(parse, s)
    && TokensKnown(s.harness)
    && forall i | 0 <= i < |s.waits| :: WaiterInv(s, s.waits[i])
  }

  lemma {:induction false} FindAppend<E>(events: seq<E>, more: seq<E>, p: E -> bool)
    ensures Find(events + more, p)
         == if Find(events, p).Some? then Find(events, p) else Find(more, p)
  {
    if events == [] {
      assert events + more == more;
    } else {
      assert (events + more)[1..] == events[1..] + more;
      FindAppend(events[1..], more, p);
    }
  }

  /** `Find` is the earliest match: what the name of the built-in promises. */
  lemma {:induction false} FindIsEarliest<E>(events: seq<E>, p: E -> bool)
    ensures match Find(events, p)
            case None => forall i | 0 <= i < |events| :: !p(events[i])
            case Some(e) => exists k | 0 <= k < |events| ::
                              events[k] == e && p(e) && forall i | 0 <= i < k :: !p(events[i])
  {
    if events != [] {
      if p(events[0]) {
        assert events[0] == Find(events, p).value;
      } else {
        FindIsEarliest(events[1..], p);
        if Find(events, p).Some? {
          var k :| 0 <= k < |events[1..]| && events[1..][k] == Find(events, p).value
                && p(events[1..][k]) && forall i | 0 <= i < k :: !p(events[1..][i]);
          assert events[k + 1] == events[1..][k];
          assert forall i | 0 < i < k + 1 :: events[i] == events[1..][i - 1];
        } else {
          assert forall i | 0 < i < |events| :: events[i] == events[1..][i - 1];
        }
      }
    }
  }

  lemma DeliverKeepsStream<E>(parse: string -> Option<E>, s: System<E>, piece: string, done: bool)
    requires LogIsStream(parse, s) && s.harness.pump == Reading
    ensures LogIsStream(parse, Apply(parse, s, Action.Deliver(piece, done)))
  {
    hide CutLines, Strict;
    CutConcat(s.consumed, piece);
    StrictConcat(parse, CutLines(s.consumed).lines, CutLines(s.harness.buffered + piece).lines);
  }

  lemma DeliverKeepsWaiter<E>(parse: string -> Option<E>, s: System<E>, piece: string, done: bool,
                              w: Waiter<E>)
    requires s.harness.pump == Reading && WaiterInv(s, w)
    ensures WaiterInv(Apply(parse, s, Action.Deliver(piece, done)), w)
  {
    hide CutLines, Strict;
    var o := Strict(parse, CutLines(s.harness.buffered + piece).lines);
    FindAppend(s.harness.events, o.events, w.want);
    if w.status.TimedOut? {
      assert (s.harness.events + o.events)[..w.status.seen] == s.harness.events[..w.status.seen];
    }
  }

  lemma PollKeepsWaiter<E>(parse: string -> Option<E>, s: System<E>, i: nat, w: Waiter<E>)
    requires Enabled(s, Action.Poll(i)) && WaiterInv(s, w)
    ensures WaiterInv(Apply(parse, s, Action.Poll(i)), w)
  {}

  lemma PollEstablishes<E>(parse: string -> Option<E>, s: System<E>, i: nat)
    requires Enabled(s, Action.Poll(i)) && TokensKnown(s.harness)
    ensures var t := Apply(parse, s, Action.Poll(i));
            TokensKnown(t.harness) && WaiterInv(t, t.waits[i])
  {
    assert s.harness.events[..|s.harness.events|] == s.harness.events;
  }

  lemma DeliverKeepsInv<E>(parse: string -> Option<E>, s: System<E>, piece: string, done: bool)
    requires Inv(parse, s) && Enabled(s, Action.Deliver(piece, done))
    ensures Inv(parse, Apply(parse, s, Action.Deliver(piece, done)))
  {
    DeliverKeepsStream(parse, s, piece, done);
    var t := Apply(parse, s, Action.Deliver(piece, done));
    forall i | 0 <= i < |t.waits| ensures WaiterInv(t, t.waits[i]) {
      DeliverKeepsWaiter(parse, s, piece, done, s.waits[i]);
    }
    hide LogIsStream, WaiterInv, CutLines, Strict;
  }

  lemma PollKeepsInv<E>(parse: string -> Option<E>, s: System<E>, k: nat)
    requires Inv(parse, s) && Enabled(s, Action.Poll(k))
    ensures Inv(parse, Apply(parse, s, Action.Poll(k)))
  {
    PollEstablishes(parse, s, k);
    var t := Apply(parse, s, Action.Poll(k));
    forall i | 0 <= i < |t.waits| ensures WaiterInv(t, t.waits[i]) {
      if i != k {
        PollKeepsWaiter(parse, s, k, s.waits[i]);
        hide WaiterInv;
      }
    }
    assert LogIsStream(parse, t);
    hide LogIsStream, WaiterInv, TokensKnown;
  }

  /** The other actions leave the harness alone and time does not go back. */
  ghost predicate Later<E>(s: System<E>, t: System<E>) {
    t.harness == s.harness && t.consumed == s.consumed && s.now <= t.now
  }

  lemma LaterKeepsWaiter<E>(s: System<E>, t: System<E>, w: Waiter<E>)
    requires Later(s, t) && WaiterInv(s, w)
    ensures WaiterInv(t, w)
  {}

  /** Waking and breaking establish the invariant of the call they change. */
  lemma StatusEstablished<E>(parse: string -> Option<E>, s: System<E>, a: Action<E>, i: nat)
    requires (a == Wake(i) || a == Break(i)) && Enabled(s, a) && WaiterInv(s, s.waits[i])
    ensures WaiterInv(Apply(parse, s, a), Apply(parse, s, a).waits[i])
  {}

  lemma OtherActionsKeepInv<E>(parse: string -> Option<E>, s: System<E>, a: Action<E>)
    requires Inv(parse, s) && Enabled(s, a) && !a.Deliver? && !a.Poll?
    ensures Inv(parse, Apply(parse, s, a))
  {
    var t := Apply(parse, s, a);
    assert Later(s, t) && LogIsStream(parse, t);
    forall i | 0 <= i < |t.waits| ensures WaiterInv(t, t.waits[i]) {
      if i == |s.waits| {
        assert t.waits[i].status == Ready;
      } else {
        LaterKeepsWaiter(s, t, s.waits[i]);
        if a == Wake(i) || a == Break(i) {
          StatusEstablished(parse, s, a, i);
        }
        hide WaiterInv;
      }
    }
    hide LogIsStream, WaiterInv, TokensKnown, Later;
  }

  lemma StepKeepsInv<E>(parse: string -> Option<E>, s: System<E>, a: Action<E>)
    requires Inv(parse, s) && Enabled(s, a)
    ensures Inv(parse, Apply(parse, s, a))
  {
    hide Inv, Enabled, Apply;
    match a
    case Deliver(piece, done) => DeliverKeepsInv(parse, s, piece, done);
    case Poll(i) => PollKeepsInv(parse, s, i);
    case _ => OtherActionsKeepInv(parse, s, a);
  }

  lemma {:induction false} RunKeepsInv<E>(parse: string -> Option<E>, now: int,
                                          schedule: seq<Action<E>>)
    requires Run(parse, now, schedule).Some?
    ensures Inv(parse, Run(parse, now, schedule).value)
  {
    if schedule == [] {
      NoLine("");
      StrictNone(parse);
    } else {
      var n := |schedule| - 1;
      RunKeepsInv(parse, now, schedule[..n]);
      StepKeepsInv(parse, Run(parse, now, schedule[..n]).value, schedule[n]);
    }
  }

  // ---------------------------------------------------------------------------
  // Main results: for every schedule
  // ---------------------------------------------------------------------------

  /** No lost wakeup: at every await point, a sleeping call whose event is in the log has been
      resolved, so it can wake at once, and its next turn returns the earliest match. */
  lemma NoLostWakeup<E>(parse: string -> Option<E>, now: int, schedule: seq<Action<E>>, i: nat)
    requires Run(parse, now, schedule).Some?
    requires var s := Run(parse, now, schedule).value;
             i < |s.waits| && s.waits[i].status.Sleeping?
    ensures var s := Run(parse, now, schedule).value;
            var w := s.waits[i];
            var found := Find(s.harness.events, w.want);
            found.Some? ==>
              && w.status.token in s.harness.resolved
              && Run(parse, now, schedule + [Wake(i), Action.Poll(i)])
                 == Some(WithStatus(s, i, Returned(found.value)))
  {
    var s := Run(parse, now, schedule).value;
    RunKeepsInv(parse, now, schedule);
    assert WaiterInv(s, s.waits[i]);
    WakeThenPoll(parse, s, i);
    RunTwo(parse, now, schedule, Wake(i), Action.Poll(i));
    hide *;
  }

  lemma WakeThenPoll<E>(parse: string -> Option<E>, s: System<E>, i: nat)
    requires i < |s.waits| && s.waits[i].status.Sleeping? && WaiterInv(s, s.waits[i])
    ensures var found := Find(s.harness.events, s.waits[i].want);
            found.Some? ==>
              && s.waits[i].status.token in s.harness.resolved
              && Enabled(s, Wake(i)) && Enabled(Apply(parse, s, Wake(i)), Action.Poll(i))
              && Apply(parse, Apply(parse, s, Wake(i)), Action.Poll(i))
                 == WithStatus(s, i, Returned(found.value))
  {
    var w := s.waits[i];
    if Find(s.harness.events, w.want).Some? {
      var returned := w.(status := Returned(Find(s.harness.events, w.want).value));
      assert s.waits[i := w.(status := Ready)][i := returned] == s.waits[i := returned];
    }
  }

  lemma RunOne<E>(parse: string -> Option<E>, now: int, schedule: seq<Action<E>>, a: Action<E>)
    requires Run(parse, now, schedule).Some?
    ensures var s := Run(parse, now, schedule).value;
            Run(parse, now, schedule + [a]) == if Enabled(s, a) then Some(Apply(parse, s, a)) else None
  {
    hide Enabled, Apply;
    assert (schedule + [a])[..|schedule|] == schedule;
  }

  lemma RunTwo<E>(parse: string -> Option<E>, now: int, schedule: seq<Action<E>>,
                  a: Action<E>, b: Action<E>)
    requires Run(parse, now, schedule).Some?
    ensures var s := Run(parse, now, schedule).value;
            Enabled(s, a) && Enabled(Apply(parse, s, a), b) ==>
              Run(parse, now, schedule + [a, b]) == Some(Apply(parse, Apply(parse, s, a), b))
  {
    hide Enabled, Apply;
    RunOne(parse, now, schedule, a);
    if Enabled(Run(parse, now, schedule).value, a) {
      RunOne(parse, now, schedule + [a], b);
    }
    hide Run;
    assert schedule + [a, b] == schedule + [a] + [b];
  }

  /** How a call ends, in every schedule: a returned event is the earliest match of the whole
      log; a timeout comes at or after the deadline with no match at the last check; the
      pump's error is thrown only when the complete log holds no match. */
  lemma HowCallsEnd<E>(parse: string -> Option<E>, now: int, schedule: seq<Action<E>>, i: nat)
    requires Run(parse, now, schedule).Some? && i < |Run(parse, now, schedule).value.waits|
    ensures var s := Run(parse, now, schedule).value;
            var w, events := s.waits[i], s.harness.events;
            match w.status
            case Returned(e) => exists k | 0 <= k < |events| ::
                events[k] == e && w.want(e) && forall j | 0 <= j < k :: !w.want(events[j])
            case TimedOut(at, seen) =>
                w.deadline <= at && seen <= |events| && forall j | 0 <= j < seen :: !w.want(events[j])
            case Broken(seen) =>
                s.harness.pump == Failed && forall j | 0 <= j < |events| :: !w.want(events[j])
            case _ => true
  {
    var s := Run(parse, now, schedule).value;
    var w, events := s.waits[i], s.harness.events;
    RunKeepsInv(parse, now, schedule);
    assert WaiterInv(s, w);
    FindIsEarliest(events, w.want);
    if w.status.TimedOut? {
      FindIsEarliest(events[..w.status.seen], w.want);
      assert forall j | 0 <= j < w.status.seen :: events[j] == events[..w.status.seen][j];
    }
  }

  lemma {:induction false} PrefixEvents<E>(parse: string -> Option<E>, some: string, rest: string)
    ensures Strict(parse, CutLines(some).lines).events
         <= Strict(parse, CutLines(some + rest).lines).events
  {
    hide CutLines, Strict;
    CutConcat(some, rest);
    StrictConcat(parse, CutLines(some).lines, CutLines(CutLines(some).tail + rest).lines);
  }

  /** The result depends on the stream alone: however the text is cut into chunks and however
      the calls interleave with it, a `waitFor` that returns gives the first match of the
      whole stream.  So the log is never consumed and two calls with one predicate agree. */
  lemma ResultIsOfTheStream<E>(parse: string -> Option<E>, now: int, schedule: seq<Action<E>>,
                               i: nat, rest: string)
    requires Run(parse, now, schedule).Some?
    requires var s := Run(parse, now, schedule).value;
             i < |s.waits| && s.waits[i].status.Returned?
    ensures var s := Run(parse, now, schedule).value;
            Find(Strict(parse, CutLines(s.consumed + rest).lines).events, s.waits[i].want)
            == Some(s.waits[i].status.event)
  {
    var s := Run(parse, now, schedule).value;
    var w := s.waits[i];
    RunKeepsInv(parse, now, schedule);
    assert WaiterInv(s, w);
    PrefixEvents(parse, s.consumed, rest);
    var all := Strict(parse, CutLines(s.consumed + rest).lines).events;
    var events := s.harness.events;
    assert all == events + all[|events|..];
    FindAppend(events, all[|events|..], w.want);
  }

  /** Round trip: messages framed as `send` frames them and delivered under any chunking and
      any schedule are in the log, all of them and in order, and the buffer is empty. */
  lemma SentMessagesArrive<E(!new)>(parse: string -> Option<E>, stringify: E -> string,
                                    now: int, schedule: seq<Action<E>>, messages: seq<E>)
    requires Codec(parse, stringify)
    requires Run(parse, now, schedule).Some?
    requires Run(parse, now, schedule).value.consumed == Frame(stringify, messages)
    ensures var h := Run(parse, now, schedule).value.harness;
            h.events == messages && h.buffered == "" && h.pump != Failed
  {
    RunKeepsInv(parse, now, schedule);
    FrameReadsBack(parse, stringify, messages);
  }

  /** Chunking independence of the strict reader: the log and the carry-over buffer are those
      of the text delivered so far, and the buffer holds no newline. */
  lemma LogOfAnyChunking<E>(parse: string -> Option<E>, now: int, schedule: seq<Action<E>>)
    requires Run(parse, now, schedule).Some?
    ensures var s := Run(parse, now, schedule).value;
            var o := Strict(parse, CutLines(s.consumed).lines);
            && s.harness.events == o.events && (s.harness.pump == Failed <==> o.failed)
            && (!o.failed ==> s.harness.buffered == CutLines(s.consumed).tail
                              && NEWLINE !in s.harness.buffered)
  {
    RunKeepsInv(parse, now, schedule);
    TailHasNoNewline(Run(parse, now, schedule).value.consumed);
  }

  // ---------------------------------------------------------------------------
  // What one turn does, in every schedule
  // ---------------------------------------------------------------------------

  /** A turn of a waiting call: it returns the earliest match if there is one, throws the timeout
      error if there is none and its deadline is reached, and otherwise registers a fresh token
      and sleeps for 250 ms or the rest of its time.  Nothing else changes. */
  lemma LookExact<E>(parse: string -> Option<E>, now: int, schedule: seq<Action<E>>, i: nat)
    requires Run(parse, now, schedule).Some?
    requires var s := Run(parse, now, schedule).value; i < |s.waits| && s.waits[i].status == Ready
    ensures Run(parse, now, schedule + [Action.Poll(i)]).Some?
    ensures var s := Run(parse, now, schedule).value;
            var t := Run(parse, now, schedule + [Action.Poll(i)]).value;
            var events, w, left := s.harness.events, s.waits[i], s.waits[i].deadline - s.now;
            && |t.waits| == |s.waits| && t.now == s.now && t.consumed == s.consumed
            && (forall j | 0 <= j < |s.waits| && j != i :: t.waits[j] == s.waits[j])
            && t.waits[i].want == w.want && t.waits[i].deadline == w.deadline
            && (forall k | 0 <= k < |events| && w.want(events[k])
                           && (forall j | 0 <= j < k :: !w.want(events[j])) ::
                  t.waits[i].status == Returned(events[k]) && t.harness == s.harness)
            && ((forall k | 0 <= k < |events| :: !w.want(events[k])) ==>
                  if left <= 0 then
                    t.waits[i].status == TimedOut(s.now, |events|) && t.harness == s.harness
                  else
                    exists token: nat ::
                      && token !in s.harness.waiters && token !in s.harness.resolved
                      && t.waits[i].status == Sleeping(token, s.now + if left < 250 then left else 250)
                      && t.harness == s.harness.(waiters := s.harness.waiters + {token},
                                                 nextToken := t.harness.nextToken))
  {
    var s := Run(parse, now, schedule).value;
    RunKeepsInv(parse, now, schedule);
    assert TokensKnown(s.harness);
    hide *;
    RunOne(parse, now, schedule, Action.Poll(i));
    FindIsEarliest(s.harness.events, s.waits[i].want);
    CanPoll(s, i);
    LookOnce(parse, s, i);
    FindIsThere(s.harness.events, s.waits[i].want);
  }

  lemma CanPoll<E>(s: System<E>, i: nat)
    requires i < |s.waits| && s.waits[i].status == Ready
    ensures Enabled(s, Action.Poll(i))
  {}

  lemma FindIsThere<E>(events: seq<E>, p: E -> bool)
    ensures forall k | 0 <= k < |events| && p(events[k]) && (forall j | 0 <= j < k :: !p(events[j])) ::
              Find(events, p) == Some(events[k])
    ensures (forall k | 0 <= k < |events| :: !p(events[k])) ==> Find(events, p) == None
  {
    FindIsEarliest(events, p);
    forall k | 0 <= k < |events| && p(events[k]) && (forall j | 0 <= j < k :: !p(events[j]))
      ensures Find(events, p) == Some(events[k])
    {
      var m :| 0 <= m < |events| && Find(events, p) == Some(events[m]) && p(events[m])
            && forall j | 0 <= j < m :: !p(events[j]);
      assert m == k;
    }
  }

  lemma LookOnce<E>(parse: string -> Option<E>, s: System<E>, i: nat)
    requires TokensKnown(s.harness) && Enabled(s, Action.Poll(i))
    ensures var t := Apply(parse, s, Action.Poll(i));
            var left, found := s.waits[i].deadline - s.now, Find(s.harness.events, s.waits[i].want);
            && |t.waits| == |s.waits| && t.now == s.now && t.consumed == s.consumed
            && (forall j | 0 <= j < |s.waits| && j != i :: t.waits[j] == s.waits[j])
            && t.waits[i].want == s.waits[i].want && t.waits[i].deadline == s.waits[i].deadline
            && (found.Some? ==> t.waits[i].status == Returned(found.value) && t.harness == s.harness)
            && (found.None? && left <= 0 ==>
                  t.waits[i].status == TimedOut(s.now, |s.harness.events|) && t.harness == s.harness)
            && (found.None? && left > 0 ==>
                  exists token: nat ::
                    && token !in s.harness.waiters && token !in s.harness.resolved
                    && t.waits[i].status == Sleeping(token, s.now + if left < 250 then left else 250)
                    && t.harness == s.harness.(waiters := s.harness.waiters + {token},
                                               nextToken := t.harness.nextToken))
  {
    hide Find;
    assert s.harness.nextToken !in s.harness.waiters && s.harness.nextToken !in s.harness.resolved;
  }

  /** A turn of the pump: it fails exactly when some line delivered so far does not parse, else
      it is through exactly when the stream is; and every waiter is resolved, none is kept. */
  lemma DeliveryExact<E>(parse: string -> Option<E>, now: int, schedule: seq<Action<E>>,
                         piece: string, done: bool)
    requires Run(parse, now, schedule).Some?
    requires Run(parse, now, schedule).value.harness.pump == Reading
    ensures Run(parse, now, schedule + [Action.Deliver(piece, done)]).Some?
    ensures var s := Run(parse, now, schedule).value;
            var t := Run(parse, now, schedule + [Action.Deliver(piece, done)]).value;
            var text := s.consumed + piece;
            && t.consumed == text && t.now == s.now && t.waits == s.waits
            && t.harness.pump == (if exists l | l in CutLines(text).lines :: !Sound(parse, l) then Failed
                                  else if done then Finished else Reading)
            && t.harness.waiters == {}
            && t.harness.resolved == s.harness.resolved + s.harness.waiters
            && s.harness.events <= t.harness.events
  {
    var s := Run(parse, now, schedule).value;
    RunOne(parse, now, schedule, Action.Deliver(piece, done));
    RunKeepsInv(parse, now, schedule);
    RunKeepsInv(parse, now, schedule + [Action.Deliver(piece, done)]);
    FailsExactly(parse, CutLines(s.consumed + piece).lines);
    hide CutLines, Strict, Run, Inv, Sound;
    var t := Apply(parse, s, Action.Deliver(piece, done));
    assert LogIsStream(parse, t);
  }

  /** A new call is ready to look, and its deadline is the timeout from now. */
  lemma StartExact<E>(parse: string -> Option<E>, now: int, schedule: seq<Action<E>>,
                      want: E -> bool, timeout: int)
    requires Run(parse, now, schedule).Some?
    ensures var s := Run(parse, now, schedule).value;
            Run(parse, now, schedule + [Start(want, timeout)])
            == Some(s.(waits := s.waits + [Waiter(want, s.now + timeout, Ready)]))
  {
    RunOne(parse, now, schedule, Start(want, timeout));
  }

  // ---------------------------------------------------------------------------
  // How often a waiting call looks
  // ---------------------------------------------------------------------------

  /** Actions that neither deliver a chunk nor move call `i`. */
  predicate Quiet<E>(actions: seq<Action<E>>, i: nat) {
    forall k | 0 <= k < |actions| :: Still(actions[k], i)
  }

  predicate Still<E>(a: Action<E>, i: nat) {
    match a
    case Deliver(_, _) => false
    case Poll(j) => j != i
    case Wake(j) => j != i
    case Break(j) => j != i
    case _ => true
  }

  function Elapsed<E>(actions: seq<Action<E>>): nat {
    if actions == [] then 0 else
    var n := |actions| - 1;
    Elapsed(actions[..n]) + if actions[n].Tick? then actions[n].elapsed else 0
  }

  /** Call `i` of `t` sleeps since `s` on a token that is not resolved, until `wakeAt`. */
  ghost predicate Asleep<E>(s: System<E>, t: System<E>, i: nat, wakeAt: int, elapsed: nat) {
    && i < |t.waits| && t.waits[i].status == Sleeping(s.harness.nextToken, wakeAt)
    && t.harness.nextToken > s.harness.nextToken
    && s.harness.nextToken !in t.harness.resolved && t.harness.pump == s.harness.pump
    && t.now == s.now + elapsed
  }

  lemma WakesOnTime<E>(s: System<E>, t: System<E>, i: nat, pause: int, elapsed: nat)
    requires Asleep(s, t, i, s.now + pause, elapsed) && s.harness.pump == Reading
    ensures Enabled(t, Wake(i)) <==> elapsed >= pause
  {}

  lemma AsleepStep<E>(parse: string -> Option<E>, s: System<E>, t: System<E>, i: nat, wakeAt: int,
                      elapsed: nat, a: Action<E>)
    requires Asleep(s, t, i, wakeAt, elapsed) && Enabled(t, a) && Still(a, i)
    ensures Asleep(s, Apply(parse, t, a), i, wakeAt, elapsed + if a.Tick? then a.elapsed else 0)
  {}

  lemma {:induction false} AsleepAfter<E>(parse: string -> Option<E>, now: int,
                                          schedule: seq<Action<E>>, s: System<E>, i: nat,
                                          wakeAt: int, quiet: seq<Action<E>>)
    requires Run(parse, now, schedule).Some?
    requires Asleep(s, Run(parse, now, schedule).value, i, wakeAt, 0)
    requires Quiet(quiet, i) && Run(parse, now, schedule + quiet).Some?
    ensures Asleep(s, Run(parse, now, schedule + quiet).value, i, wakeAt, Elapsed(quiet))
    decreases quiet
  {
    if quiet == [] {
      assert schedule + quiet == schedule;
    } else {
      var n := |quiet| - 1;
      assert (schedule + quiet)[..|schedule| + n] == schedule + quiet[..n];
      assert Still(quiet[n], i);
      hide Asleep, Enabled, Apply;
      AsleepAfter(parse, now, schedule, s, i, wakeAt, quiet[..n]);
      AsleepStep(parse, s, Run(parse, now, schedule + quiet[..n]).value, i, wakeAt,
                 Elapsed(quiet[..n]), quiet[n]);
    }
  }

  /** A call that has looked in vain and has time left. */
  ghost predicate LooksInVain<E>(s: System<E>, i: nat) {
    && i < |s.waits| && s.waits[i].status == Ready
    && Find(s.harness.events, s.waits[i].want) == None && s.now < s.waits[i].deadline
  }

  lemma FallsAsleep<E>(parse: string -> Option<E>, s: System<E>, i: nat)
    requires TokensKnown(s.harness) && LooksInVain(s, i)
    ensures var left := s.waits[i].deadline - s.now;
            && Enabled(s, Action.Poll(i))
            && Asleep(s, Apply(parse, s, Action.Poll(i)), i, s.now + (if left < 250 then left else 250), 0)
  {}

  lemma VainPoll<E>(parse: string -> Option<E>, now: int, schedule: seq<Action<E>>, i: nat)
    requires Run(parse, now, schedule).Some? && LooksInVain(Run(parse, now, schedule).value, i)
    ensures var s := Run(parse, now, schedule).value;
            var left := s.waits[i].deadline - s.now;
            var t := Run(parse, now, schedule + [Action.Poll(i)]);
            t.Some? && Asleep(s, t.value, i, s.now + (if left < 250 then left else 250), 0)
  {
    var s := Run(parse, now, schedule).value;
    RunKeepsInv(parse, now, schedule);
    assert TokensKnown(s.harness);
    hide *;
    FallsAsleep(parse, s, i);
    RunOne(parse, now, schedule, Action.Poll(i));
  }

  /** A chunk that arrives wakes every sleeping call, whether it brings events or not. */
  lemma DeliveryWakes<E>(parse: string -> Option<E>, now: int, schedule: seq<Action<E>>, i: nat,
                         piece: string, done: bool)
    requires Run(parse, now, schedule + [Action.Deliver(piece, done)]).Some?
    requires Run(parse, now, schedule).Some?
    requires var s := Run(parse, now, schedule).value;
             i < |s.waits| && s.waits[i].status.Sleeping?
    ensures Enabled(Run(parse, now, schedule + [Action.Deliver(piece, done)]).value, Wake(i))
  {
    var s := Run(parse, now, schedule).value;
    RunKeepsInv(parse, now, schedule);
    assert WaiterInv(s, s.waits[i]);
    RunOne(parse, now, schedule, Action.Deliver(piece, done));
    assert s.harness.pump == Reading;
    hide *;
    DeliveryResolves(parse, s, i, piece, done);
  }

  lemma DeliveryResolves<E>(parse: string -> Option<E>, s: System<E>, i: nat, piece: string, done: bool)
    requires i < |s.waits| && s.waits[i].status.Sleeping? && WaiterInv(s, s.waits[i])
    requires s.harness.pump == Reading
    ensures Enabled(Apply(parse, s, Action.Deliver(piece, done)), Wake(i))
  {
    hide CutLines, Strict, Find;
  }

  /** While the pump reads, and as long as it delivers nothing, a call that looked in
      vain looks again exactly when 250 ms or the rest of its time are over. */
  lemma TurnsAreSpaced<E>(parse: string -> Option<E>, now: int, schedule: seq<Action<E>>, i: nat,
                          quiet: seq<Action<E>>)
    requires Run(parse, now, schedule).Some? && LooksInVain(Run(parse, now, schedule).value, i)
    requires Run(parse, now, schedule).value.harness.pump == Reading
    requires Quiet(quiet, i) && Run(parse, now, schedule + [Action.Poll(i)] + quiet).Some?
    ensures var s := Run(parse, now, schedule).value;
            var left := s.waits[i].deadline - s.now;
            Enabled(Run(parse, now, schedule + [Action.Poll(i)] + quiet).value, Wake(i))
            <==> Elapsed(quiet) >= if left < 250 then left else 250
  {
    var s := Run(parse, now, schedule).value;
    var left := s.waits[i].deadline - s.now;
    VainPoll(parse, now, schedule, i);
    var pause := if left < 250 then left else 250;
    hide *;
    AsleepAfter(parse, now, schedule + [Action.Poll(i)], s, i, s.now + pause, quiet);
    WakesOnTime(s, Run(parse, now, schedule + [Action.Poll(i)] + quiet).value, i, pause, Elapsed(quiet));
  }

  /** `n` turns of call `i`. */
  function Turns<E>(i: nat, n: nat): seq<Action<E>> {
    if n == 0 then [] else Turns(i, n - 1) + [Action.Poll(i), Wake(i)]
  }

  /** Once the stream has ended the sleep is void: a call that finds nothing turns any number of
      times without time passing, and every turn leaves one more waiter that is never notified. */
  lemma {:induction false} FinishedPumpSpins<E>(parse: string -> Option<E>, now: int,
                                                schedule: seq<Action<E>>, i: nat, n: nat)
    requires Run(parse, now, schedule).Some? && LooksInVain(Run(parse, now, schedule).value, i)
    requires Run(parse, now, schedule).value.harness.pump == Finished
    ensures var s := Run(parse, now, schedule).value;
            var t := Run(parse, now, schedule + Turns(i, n));
            && t.Some? && t.value.now == s.now && LooksInVain(t.value, i)
            && t.value.harness.pump == Finished && t.value.waits[i] == s.waits[i]
            && t.value.harness.resolved == s.harness.resolved
            && |t.value.harness.waiters| == |s.harness.waiters| + n
  {
    if n == 0 {
      assert schedule + Turns(i, n) == schedule;
    } else {
      var before := schedule + Turns(i, n - 1);
      FinishedPumpSpins(parse, now, schedule, i, n - 1);
      assert schedule + Turns(i, n) == before + [Action.Poll(i), Wake(i)];
      RunKeepsInv(parse, now, before);
      SpinOnce(parse, Run(parse, now, before).value, i);
      RunTwo(parse, now, before, Action.Poll(i), Wake(i));
      hide *;
    }
  }

  lemma SpinOnce<E>(parse: string -> Option<E>, s: System<E>, i: nat)
    requires Inv(parse, s) && LooksInVain(s, i) && s.harness.pump == Finished
    ensures Enabled(s, Action.Poll(i)) && Enabled(Apply(parse, s, Action.Poll(i)), Wake(i))
    ensures var t := Apply(parse, Apply(parse, s, Action.Poll(i)), Wake(i));
            && t.now == s.now && LooksInVain(t, i) && t.harness.pump == Finished
            && t.waits[i] == s.waits[i] && t.harness.resolved == s.harness.resolved
            && |t.harness.waiters| == |s.harness.waiters| + 1
  {
    hide LogIsStream, WaiterInv;
    assert s.harness.nextToken !in s.harness.waiters;
  }
}
