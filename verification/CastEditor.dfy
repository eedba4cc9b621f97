/** The asciinema editor of scripts/edit-cast.ts: drop a head and a tail window, cap idle gaps,
    change the speed, round to milliseconds.  Times are real numbers. */
module CastEditor {

  /** A cast line after the header: seconds since the line before, and what it carries. */
  datatype Event = Event(delta: real, kind: string, data: string)

  /** A delta in the output.  Dividing by a speed of zero gives no finite number, which is
      written as `null`. */
  datatype Written = Seconds(s: real) | Null
  datatype Line = Line(delta: Written, kind: string, data: string)

  datatype Options = Options(dropHead: real, dropTail: real, maxGap: real, speed: real)

  /** `Number(x.toFixed(3))`: the nearest multiple of 0.001, the larger of two in magnitude;
      numbers from 1e21 on are left as they are. */
  function Round3(x: real): real {
    if x < 0.0 then -RoundUp3(-x) else RoundUp3(x)
  }

  const HUGE: real := 1000000000000000000000.0

  function RoundUp3(x: real): real {
    if x >= HUGE then x else (x * 1000.0 + 0.5).Floor as real / 1000.0
  }

  function Total(events: seq<Event>): real {
    if events == [] then 0.0 else Total(events[..|events| - 1]) + events[|events| - 1].delta
  }

  /** Absolute time of event `i` in the source. */
  function TimeAt(events: seq<Event>, i: nat): real
    requires i < |events|
  {
    Total(events[..i + 1])
  }

  /** The capped delta of an event that is not the first kept one. */
  function Capped(delta: real, maxGap: real): real {
    if delta > maxGap then maxGap else delta
  }

  function PerSpeed(seconds: real, speed: real): real
    requires speed != 0.0
  {
    seconds / speed
  }

  function Scaled(delta: real, o: Options): Written {
    if o.speed == 0.0 then Null else Seconds(PerSpeed(Capped(delta, o.maxGap), o.speed))
  }

  function WriteDelta(w: Written): Written {
    match w
    case Seconds(s) => Seconds(Round3(s))
    case Null => Null
  }

  /** The output line of event `i` when the first kept event is `first`. */
  function LineOf(events: seq<Event>, o: Options, first: nat, i: nat): Line
    requires i < |events|
  {
    var delta := if i == first then Seconds(0.0) else Scaled(events[i].delta, o);
    Line(WriteDelta(delta), events[i].kind, events[i].data)
  }

  function Lines(events: seq<Event>, o: Options, first: nat, end: nat): (out: seq<Line>)
    requires first <= end <= |events|
    ensures |out| == end - first
  {
    seq(end - first, k requires 0 <= k < end - first => LineOf(events, o, first, first + k))
  }

  predicate InHead(events: seq<Event>, o: Options, i: nat)
    requires i < |events|
  {
    TimeAt(events, i) < o.dropHead
  }

  predicate InTail(events: seq<Event>, o: Options, i: nat)
    requires i < |events|
  {
    o.dropTail > 0.0 && TimeAt(events, i) > Total(events) - o.dropTail
  }

  /** The kept run: it starts behind the leading events of the head window and ends before the
      first later event of the tail window. */
  ghost predicate Window(events: seq<Event>, o: Options, first: nat, end: nat) {
    && first <= end <= |events|
    && (forall i | 0 <= i < first :: InHead(events, o, i))
    && (first < |events| ==> !InHead(events, o, first))
    && (forall i | first <= i < end :: !InTail(events, o, i))
    && (end < |events| ==> InTail(events, o, end))
  }

  /** The output is the kept run, line by line. */
  ghost predicate IsEdit(events: seq<Event>, o: Options, out: seq<Line>) {
    exists first: nat, end: nat :: Window(events, o, first, end) && out == Lines(events, o, first, end)
  }

  /** There is only one such run, and so one output. */
  lemma EditIsUnique(events: seq<Event>, o: Options, x: seq<Line>, y: seq<Line>)
    requires IsEdit(events, o, x) && IsEdit(events, o, y)
    ensures x == y
  {
    var i: nat, j: nat :| Window(events, o, i, j) && x == Lines(events, o, i, j);
    var m: nat, n: nat :| Window(events, o, m, n) && y == Lines(events, o, m, n);
    hide InHead, InTail, LineOf;
    assert i == m;
    assert j == n;
  }

  /** When an event comes: the deltas up to and including its own. */
  function Arrival(events: seq<Event>, i: nat): real
    requires i < |events|
  {
    events[i].delta + if i == 0 then 0.0 else Arrival(events, i - 1)
  }

  lemma {:induction false} TimeIsArrival(events: seq<Event>, i: nat)
    requires i < |events|
    ensures TimeAt(events, i) == Arrival(events, i)
  {
    TimeNext(events, i);
    if i > 0 {
      TimeIsArrival(events, i - 1);
      TimeBefore(events, i);
    }
    assert events[..0] == [];
  }

  lemma TotalIsArrival(events: seq<Event>)
    ensures Total(events) == if events == [] then 0.0 else Arrival(events, |events| - 1)
  {
    if events != [] {
      TimeIsArrival(events, |events| - 1);
      assert events[..|events|] == events;
    }
  }

  /** The output in the terms of the input: which events are kept, that kind and data are
      theirs, and what becomes of each delta. */
  lemma EditExact(events: seq<Event>, o: Options, out: seq<Line>) returns (first: nat, end: nat)
    requires IsEdit(events, o, out)
    ensures first <= end <= |events| && |out| == end - first
    ensures forall i | 0 <= i < first :: Arrival(events, i) < o.dropHead
    ensures first < |events| ==> Arrival(events, first) >= o.dropHead
    ensures forall i | first <= i < end ::
              o.dropTail <= 0.0 || Arrival(events, i) <= Arrival(events, |events| - 1) - o.dropTail
    ensures end < |events| ==>
              o.dropTail > 0.0 && Arrival(events, end) > Arrival(events, |events| - 1) - o.dropTail
    ensures forall k | 0 <= k < |out| ::
              out[k].kind == events[first + k].kind && out[k].data == events[first + k].data
    ensures out != [] ==> out[0].delta == Seconds(0.0)
    ensures forall k | 0 < k < |out| ::
              out[k].delta == if o.speed == 0.0 then Null
                              else if events[first + k].delta <= o.maxGap
                              then Seconds(Round3(events[first + k].delta / o.speed))
                              else Seconds(Round3(o.maxGap / o.speed))
  {
    first, end :| Window(events, o, first, end) && out == Lines(events, o, first, end);
    WindowExact(events, o, first, end);
    hide Window;
    forall k | 0 <= k < |out| ensures out[k] == LineOf(events, o, first, first + k) {
      LineExact(events, o, first, first + k);
    }
    hide *;
    forall k | 0 <= k < |out|
      ensures out[k].kind == events[first + k].kind && out[k].data == events[first + k].data
      ensures k == 0 ==> out[k].delta == Seconds(0.0)
      ensures k > 0 ==> out[k].delta == if o.speed == 0.0 then Null
                                        else if events[first + k].delta <= o.maxGap
                                        then Seconds(Round3(events[first + k].delta / o.speed))
                                        else Seconds(Round3(o.maxGap / o.speed))
    {
      LineExact(events, o, first, first + k);
    }
  }

  lemma WindowExact(events: seq<Event>, o: Options, first: nat, end: nat)
    requires Window(events, o, first, end)
    ensures first <= end <= |events|
    ensures forall i | 0 <= i < first :: Arrival(events, i) < o.dropHead
    ensures first < |events| ==> Arrival(events, first) >= o.dropHead
    ensures forall i | first <= i < end ::
              o.dropTail <= 0.0 || Arrival(events, i) <= Arrival(events, |events| - 1) - o.dropTail
    ensures end < |events| ==>
              o.dropTail > 0.0 && Arrival(events, end) > Arrival(events, |events| - 1) - o.dropTail
  {
    forall i: nat | i < |events|
      ensures InHead(events, o, i) <==> Arrival(events, i) < o.dropHead
      ensures InTail(events, o, i)
         <==> o.dropTail > 0.0 && Arrival(events, i) > Arrival(events, |events| - 1) - o.dropTail
    {
      WindowsByArrival(events, o, i);
    }
    hide InHead, InTail, Arrival;
  }

  lemma WindowsByArrival(events: seq<Event>, o: Options, i: nat)
    requires i < |events|
    ensures InHead(events, o, i) <==> Arrival(events, i) < o.dropHead
    ensures InTail(events, o, i)
       <==> o.dropTail > 0.0 && Arrival(events, i) > Arrival(events, |events| - 1) - o.dropTail
  {
    TotalIsArrival(events);
    TimeIsArrival(events, i);
    hide Total, TimeAt, Arrival;
  }

  lemma LineExact(events: seq<Event>, o: Options, first: nat, i: nat)
    requires i < |events|
    ensures var line := LineOf(events, o, first, i);
            && line.kind == events[i].kind && line.data == events[i].data
            && line.delta == if i == first then Seconds(0.0)
                             else if o.speed == 0.0 then Null
                             else if events[i].delta <= o.maxGap
                             then Seconds(Round3(events[i].delta / o.speed))
                             else Seconds(Round3(o.maxGap / o.speed))
  {
    RoundZero();
    hide Round3;
  }

  lemma TimeNext(events: seq<Event>, i: nat)
    requires i < |events|
    ensures TimeAt(events, i) == Total(events[..i]) + events[i].delta
  {
    assert events[..i + 1][..i] == events[..i];
  }

  method TotalDuration(events: seq<Event>) returns (total: real)
    ensures total == Total(events)
  {
    total := 0.0;
    for i := 0 to |events|
      invariant total == Total(events[..i])
    {
      TimeNext(events, i);
      total := total + events[i].delta;
    }
    assert events[..|events|] == events;
  }

  /** The editing loop; the header line is passed through and not modelled. */
  method EditCast(events: seq<Event>, o: Options) returns (out: seq<Line>)
    ensures IsEdit(events, o, out)
  {
    var totalDuration := TotalDuration(events);
    var tailCutoff := totalDuration - o.dropTail;
    out := [];
    var absIn := 0.0;
    var droppedHead := false;
    ghost var first: nat, end: nat := 0, 0;
    for i := 0 to |events|
      invariant absIn == Total(events[..i])
      invariant if droppedHead then first < i && end == i else first == end == i && out == []
      invariant forall j | 0 <= j < first :: InHead(events, o, j)
      invariant droppedHead ==> !InHead(events, o, first)
      invariant forall j | first <= j < end :: !InTail(events, o, j)
      invariant out == Lines(events, o, first, end)
    {
      TimeNext(events, i);
      var delta := Seconds(events[i].delta);
      absIn := absIn + events[i].delta;
      if !droppedHead && absIn < o.dropHead {
        first, end := i + 1, i + 1;
        continue;
      }
      if o.dropTail > 0.0 && absIn > tailCutoff {
        break;
      }
      if !droppedHead {
        droppedHead := true;
        delta := Seconds(0.0);
      } else {
        if delta.s > o.maxGap {
          delta := Seconds(o.maxGap);
        }
        delta := if o.speed == 0.0 then Null else Seconds(PerSpeed(delta.s, o.speed));
      }
      ghost var before := Lines(events, o, first, i);
      out := out + [Line(WriteDelta(delta), events[i].kind, events[i].data)];
      end := i + 1;
      assert Lines(events, o, first, end) == before + [LineOf(events, o, first, i)];
    }
  }

  // ---------------------------------------------------------------------------
  // The window
  // ---------------------------------------------------------------------------

  ghost predicate NoNegativeDelta(events: seq<Event>) {
    forall i | 0 <= i < |events| :: events[i].delta >= 0.0
  }

  lemma {:induction false} TimeGrows(events: seq<Event>, i: nat, j: nat)
    requires NoNegativeDelta(events) && i <= j < |events|
    ensures TimeAt(events, i) <= TimeAt(events, j)
  {
    if i < j {
      TimeGrows(events, i, j - 1);
      TimeNext(events, j);
    }
  }

  /** With deltas that are not negative, the kept events are exactly those outside both
      windows: `[first, end)` is the set, not just a run inside it. */
  lemma KeptExactly(events: seq<Event>, o: Options, first: nat, end: nat, i: nat)
    requires NoNegativeDelta(events) && Window(events, o, first, end) && i < |events|
    ensures first <= i < end <==> !InHead(events, o, i) && !InTail(events, o, i)
  {
    if first <= i {
      TimeGrows(events, first, i);
    }
    if end <= i {
      TimeGrows(events, end, i);
    }
  }

  // ---------------------------------------------------------------------------
  // Contraction
  // ---------------------------------------------------------------------------

  /** The output distance between events `i` and `j` before rounding. */
  function OutDistance(events: seq<Event>, o: Options, i: nat, j: nat): real
    requires i <= j < |events| && o.speed != 0.0
  {
    if i == j then 0.0
    else OutDistance(events, o, i, j - 1) + PerSpeed(Capped(events[j].delta, o.maxGap), o.speed)
  }

  lemma QuotientGrows(a: real, b: real, c: real)
    requires a <= b && c > 0.0
    ensures PerSpeed(a, c) <= PerSpeed(b, c)
  {
    assert (b - a) / c >= 0.0;
  }

  lemma SumOfQuotients(a: real, b: real, c: real)
    requires c > 0.0
    ensures PerSpeed(a, c) + PerSpeed(b, c) == PerSpeed(a + b, c)
    ensures PerSpeed(0.0, c) == 0.0
  {}

  /** Editing only shortens: between any two kept events at most the source distance over the
      speed, and at most the cap over the speed for every gap. */
  lemma {:induction false} Contraction(events: seq<Event>, o: Options, i: nat, j: nat)
    requires i <= j < |events| && o.speed > 0.0
    ensures OutDistance(events, o, i, j) <= PerSpeed(TimeAt(events, j) - TimeAt(events, i), o.speed)
    ensures OutDistance(events, o, i, j) <= PerSpeed(Gaps(j - i, o.maxGap), o.speed)
  {
    hide PerSpeed, TimeAt, Capped, Gaps;
    if i == j {
      SumOfQuotients(0.0, 0.0, o.speed);
      OneMoreGap(0, o.maxGap);
    } else {
      var delta, before := events[j].delta, TimeAt(events, j - 1) - TimeAt(events, i);
      var n: nat := j - 1 - i;
      Contraction(events, o, i, j - 1);
      TimeNext(events, j);
      TimeBefore(events, j);
      CappedBounds(delta, o.maxGap);
      QuotientGrows(Capped(delta, o.maxGap), delta, o.speed);
      QuotientGrows(Capped(delta, o.maxGap), o.maxGap, o.speed);
      SumOfQuotients(before, delta, o.speed);
      SumOfQuotients(Gaps(n, o.maxGap), o.maxGap, o.speed);
      OneMoreGap(n, o.maxGap);
      assert TimeAt(events, j) - TimeAt(events, i) == before + delta;
    }
  }

  lemma TimeBefore(events: seq<Event>, j: nat)
    requires 0 < j < |events|
    ensures TimeAt(events, j - 1) == Total(events[..j])
  {}

  lemma CappedBounds(delta: real, maxGap: real)
    ensures Capped(delta, maxGap) <= delta && Capped(delta, maxGap) <= maxGap
  {}

  /** `n` gaps of the capped length. */
  function Gaps(n: nat, maxGap: real): real { n as real * maxGap }

  lemma OneMoreGap(n: nat, maxGap: real)
    ensures Gaps(n + 1, maxGap) == Gaps(n, maxGap) + maxGap
    ensures Gaps(0, maxGap) == 0.0
  {}

  // ---------------------------------------------------------------------------
  // Rounding
  // ---------------------------------------------------------------------------

  lemma RoundingError(x: real)
    ensures -0.0005 <= Round3(x) - x <= 0.0005
  {
    var y := if x < 0.0 then -x else x;
    if y < HUGE {
      var n := (y * 1000.0 + 0.5).Floor;
      assert n as real <= y * 1000.0 + 0.5 < n as real + 1.0;
    }
  }

  /** The written number is a whole number of milliseconds and the nearest one; of two it is the
      larger in magnitude.  Numbers too large for that are left alone. */
  lemma RoundExact(x: real)
    ensures if -HUGE < x < HUGE then
              && IsMultiple(Round3(x)) && -0.0005 <= Round3(x) - x <= 0.0005
              && (x >= 0.0 ==> Round3(x) - x > -0.0005) && (x <= 0.0 ==> Round3(x) - x < 0.0005)
            else Round3(x) == x
  {
    RoundingError(x);
    if -HUGE < x < HUGE {
      RoundedIsMultiple(x);
      var y := if x < 0.0 then -x else x;
      var n := (y * 1000.0 + 0.5).Floor;
      assert n as real <= y * 1000.0 + 0.5 < n as real + 1.0;
    }
  }

  /** A written delta as a number; arithmetic takes `null` for zero. */
  function AsNumber(w: Written): real { if w.Null? then 0.0 else w.s }

  /** What the written deltas add up to. */
  function WrittenTotal(out: seq<Line>): real {
    if out == [] then 0.0
    else WrittenTotal(out[..|out| - 1]) + AsNumber(out[|out| - 1].delta)
  }

  /** Rounding moves the total by at most half a millisecond for every event but the first. */
  lemma {:induction false} TotalRoundingError(events: seq<Event>, o: Options, first: nat, end: nat)
    requires first < end <= |events| && o.speed != 0.0
    ensures var out := Lines(events, o, first, end);
            var error := WrittenTotal(out) - OutDistance(events, o, first, end - 1);
            var bound := 0.0005 * (end - first - 1) as real;
            -bound <= error <= bound
    decreases end
  {
    var out := Lines(events, o, first, end);
    if end == first + 1 {
      assert out[..0] == [] && out[0] == LineOf(events, o, first, first);
      RoundZero();
    } else {
      assert out[|out| - 1] == LineOf(events, o, first, end - 1);
      TotalRoundingError(events, o, first, end - 1);
      assert out[..|out| - 1] == Lines(events, o, first, end - 1);
      RoundingError(PerSpeed(Capped(events[end - 1].delta, o.maxGap), o.speed));
      hide PerSpeed, Capped, Round3;
    }
  }

  // ---------------------------------------------------------------------------
  // Idempotence
  // ---------------------------------------------------------------------------

  /** Reading the output back as events. */
  function Reread(out: seq<Line>): seq<Event> {
    seq(|out|, i requires 0 <= i < |out| =>
          Event(AsNumber(out[i].delta), out[i].kind, out[i].data))
  }

  predicate IsMultiple(x: real) { (x * 1000.0).Floor as real == x * 1000.0 }

  lemma RoundedIsMultiple(x: real)
    requires -HUGE < x < HUGE
    ensures IsMultiple(Round3(x))
  {
    var y := if x < 0.0 then -x else x;
    var n := (y * 1000.0 + 0.5).Floor;
    assert (RoundUp3(y) * 1000.0) == n as real;
    assert (n as real).Floor == n && (-(n as real)).Floor == -n;
  }

  lemma MultipleIsFixed(x: real)
    requires IsMultiple(x)
    ensures Round3(x) == x
  {
    var y := if x < 0.0 then -x else x;
    var n := (x * 1000.0).Floor;
    assert (y * 1000.0 + 0.5).Floor == if x < 0.0 then -n else n;
  }

  lemma FloorMonotone(x: real, y: real)
    requires x <= y
    ensures x.Floor <= y.Floor
  {}

  lemma ThousandthsMonotone(m: int, n: int)
    requires m <= n
    ensures m as real / 1000.0 <= n as real / 1000.0
  {}

  lemma RoundUpMonotone(x: real, y: real)
    requires 0.0 <= x <= y
    ensures 0.0 <= RoundUp3(x) <= RoundUp3(y)
  {
    FloorMonotone(0.5, x * 1000.0 + 0.5);
    ThousandthsMonotone(0, (x * 1000.0 + 0.5).Floor);
    if y < HUGE {
      FloorMonotone(x * 1000.0 + 0.5, y * 1000.0 + 0.5);
      ThousandthsMonotone((x * 1000.0 + 0.5).Floor, (y * 1000.0 + 0.5).Floor);
    } else if x < HUGE {
      FloorMonotone(x * 1000.0 + 0.5, HUGE * 1000.0 + 0.5);
      ThousandthsMonotone((x * 1000.0 + 0.5).Floor, (HUGE * 1000.0 + 0.5).Floor);
      assert (HUGE * 1000.0 + 0.5).Floor as real == HUGE * 1000.0;
    }
  }

  lemma RoundMonotone(x: real, y: real)
    requires x <= y
    ensures Round3(x) <= Round3(y)
  {
    if 0.0 <= x {
      RoundUpMonotone(x, y);
    } else if y < 0.0 {
      RoundUpMonotone(-y, -x);
    } else {
      RoundUpMonotone(0.0, -x);
      RoundUpMonotone(0.0, y);
    }
  }

  /** Capping and rounding twice is capping and rounding once, for any cap. */
  lemma CapRoundTwice(delta: real, maxGap: real)
    ensures var r := Round3(Capped(delta, maxGap)); Round3(Capped(r, maxGap)) == r
  {
    var c := Capped(delta, maxGap);
    var r := Round3(c);
    if -HUGE < c < HUGE {
      RoundedIsMultiple(c);
      MultipleIsFixed(r);
      if r > maxGap {
        RoundMonotone(c, maxGap);
        RoundMonotone(maxGap, r);
      }
    }
  }

  /** A second pass without drops and at speed 1 changes nothing, whatever the cap and
      whatever the deltas. */
  lemma SecondPassIsIdentity(events: seq<Event>, o: Options, once: seq<Line>, twice: seq<Line>)
    requires o.dropHead == 0.0 && o.dropTail == 0.0 && o.speed == 1.0
    requires IsEdit(events, o, once) && IsEdit(Reread(once), o, twice)
    ensures twice == once
  {
    var first: nat, end: nat :| Window(events, o, first, end) && once == Lines(events, o, first, end);
    if once != [] {
      FirstIsZero(events, o, first, end);
      WholeWindow(events, o, first, end);
      EditIsUnique(Reread(once), o, once, twice);
    } else {
      assert Reread(once) == [];
    }
  }

  /** The second pass keeps every line and rewrites it as it is. */
  lemma WholeWindow(events: seq<Event>, o: Options, first: nat, end: nat)
    requires o.dropHead == 0.0 && o.dropTail == 0.0 && o.speed == 1.0
    requires first < end <= |events|
    requires TimeAt(Reread(Lines(events, o, first, end)), 0) == 0.0
    ensures IsEdit(Reread(Lines(events, o, first, end)), o, Lines(events, o, first, end))
  {
    var out := Lines(events, o, first, end);
    var second := Reread(out);
    forall i | 0 <= i < |out| ensures LineOf(second, o, 0, i) == out[i] {
      RewrittenLine(events, o, first, end, i);
    }
    hide LineOf, TimeAt, Reread;
    assert !InHead(second, o, 0) && Window(second, o, 0, |second|);
    assert Lines(second, o, 0, |second|) == out;
  }

  lemma FirstIsZero(events: seq<Event>, o: Options, first: nat, end: nat)
    requires first < end <= |events|
    ensures TimeAt(Reread(Lines(events, o, first, end)), 0) == 0.0
  {
    var out := Lines(events, o, first, end);
    var second := Reread(out);
    RoundZero();
    assert out[0] == LineOf(events, o, first, first);
    assert second[0].delta == AsNumber(out[0].delta) == 0.0;
    TimeNext(second, 0);
    assert second[..0] == [];
  }

  lemma RoundZero()
    ensures Round3(0.0) == 0.0
  {
    assert (0.0 * 1000.0 + 0.5).Floor == 0;
  }

  lemma RewrittenLine(events: seq<Event>, o: Options, first: nat, end: nat, i: nat)
    requires o.speed == 1.0 && first + i < end <= |events|
    ensures var out := Lines(events, o, first, end);
            LineOf(Reread(out), o, 0, i) == out[i]
  {
    var out, x := Lines(events, o, first, end), events[first + i].delta;
    assert out[i] == LineOf(events, o, first, first + i);
    assert Reread(out)[i] == Event(AsNumber(out[i].delta), out[i].kind, out[i].data);
    CapRoundTwice(x, o.maxGap);
    RoundZero();
    DivideByOne(Capped(x, o.maxGap));
    DivideByOne(Capped(Round3(Capped(x, o.maxGap)), o.maxGap));
    hide Round3, Capped, PerSpeed;
  }

  lemma DivideByOne(x: real)
    ensures PerSpeed(x, 1.0) == x
  {}
}
