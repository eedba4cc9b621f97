/** Newline-delimited JSON: how the evals cut a stream into lines and lines into events.

    Text is what the decoder delivers.  `parse` stands for `JSON.parse` (None: it throws) and
    `stringify` for `JSON.stringify`. */
module JsonLines {
  import opened Basics

  // ---------------------------------------------------------------------------
  // String operations of the source
  // ---------------------------------------------------------------------------

  const NEWLINE: char := '\n'

  /** White space and line terminators, as `trim` removes them. */
  predicate IsSpace(c: char) {
    || c == ' ' || '\U{09}' <= c <= '\U{0D}' || c == '\U{A0}' || c == '\U{1680}'
    || '\U{2000}' <= c <= '\U{200A}' || c == '\U{2028}' || c == '\U{2029}' || c == '\U{202F}'
    || c == '\U{205F}' || c == '\U{3000}' || c == '\U{FEFF}'
  }

  function TrimStart(s: string): string {
    if s != "" && IsSpace(s[0]) then TrimStart(s[1..]) else s
  }

  function TrimEnd(s: string): string {
    if s != "" && IsSpace(s[|s| - 1]) then TrimEnd(s[..|s| - 1]) else s
  }

  function Trim(s: string): string { TrimEnd(TrimStart(s)) }

  predicate AllSpace(s: string) { forall c | c in s :: IsSpace(c) }

  /** The characters `trim` removes, by their code points. */
  lemma SpacesAre(c: char)
    ensures IsSpace(c) <==>
              c as int in {0x9, 0xA, 0xB, 0xC, 0xD, 0x20, 0xA0, 0x1680, 0x2000, 0x2001, 0x2002, 0x2003,
                           0x2004, 0x2005, 0x2006, 0x2007, 0x2008, 0x2009, 0x200A, 0x2028, 0x2029,
                           0x202F, 0x205F, 0x3000, 0xFEFF}
  {}

  lemma {:induction false} TrimStartExact(s: string) returns (before: string)
    ensures s == before + TrimStart(s) && AllSpace(before)
    ensures TrimStart(s) != "" ==> !IsSpace(TrimStart(s)[0])
  {
    if s != "" && IsSpace(s[0]) {
      var rest := TrimStartExact(s[1..]);
      before := [s[0]] + rest;
      assert s == [s[0]] + s[1..];
    } else {
      before := "";
    }
  }

  lemma {:induction false} TrimEndExact(s: string) returns (after: string)
    ensures s == TrimEnd(s) + after && AllSpace(after)
    ensures TrimEnd(s) != "" ==> !IsSpace(TrimEnd(s)[|TrimEnd(s)| - 1])
  {
    if s != "" && IsSpace(s[|s| - 1]) {
      var rest := TrimEndExact(s[..|s| - 1]);
      after := rest + [s[|s| - 1]];
      assert s == s[..|s| - 1] + [s[|s| - 1]];
    } else {
      after := "";
    }
  }

  /** Trimming removes space at both ends and leaves none there. */
  lemma TrimExact(s: string) returns (before: string, after: string)
    ensures s == before + Trim(s) + after && AllSpace(before) && AllSpace(after)
    ensures Trim(s) != "" ==> !IsSpace(Trim(s)[0]) && !IsSpace(Trim(s)[|Trim(s)| - 1])
    ensures Trim(s) == "" <==> AllSpace(s)
  {
    before := TrimStartExact(s);
    var middle := TrimStart(s);
    after := TrimEndExact(middle);
    assert s == before + Trim(s) + after;
    if Trim(s) != "" {
      assert middle[0] == Trim(s)[0];
      assert Trim(s)[0] in s;
    }
  }

  /** `indexOf("\n")`. */
  function IndexOfNewline(s: string): (i: int)
    ensures i == -1 ==> NEWLINE !in s
    ensures i != -1 ==> 0 <= i < |s| && s[i] == NEWLINE && NEWLINE !in s[..i]
  {
    if s == "" then -1
    else if s[0] == NEWLINE then 0
    else
      var i := IndexOfNewline(s[1..]);
      assert s == [s[0]] + s[1..];
      if i == -1 then -1 else i + 1
  }

  // ---------------------------------------------------------------------------
  // Lines
  // ---------------------------------------------------------------------------

  /** The newline-terminated lines of a text and what follows the last newline. */
  datatype Cut = Cut(lines: seq<string>, tail: string)

  function CutLines(s: string): Cut
    decreases |s|
  {
    var i := IndexOfNewline(s);
    if i == -1 then Cut([], s)
    else
      var rest := CutLines(s[i + 1..]);
      Cut([s[..i]] + rest.lines, rest.tail)
  }

  function Concat(chunks: seq<string>): string {
    if chunks == [] then "" else Concat(chunks[..|chunks| - 1]) + chunks[|chunks| - 1]
  }

  lemma NewlineAt(a: string, b: string)
    requires NEWLINE !in a
    ensures IndexOfNewline(a + [NEWLINE] + b) == |a|
  {
    var s := a + [NEWLINE] + b;
    assert s[|a|] == NEWLINE && s[..|a|] == a;
  }

  lemma CutFirstLine(a: string, b: string)
    requires NEWLINE !in a
    ensures CutLines(a + [NEWLINE] + b)
         == Cut([a] + CutLines(b).lines, CutLines(b).tail)
  {
    NewlineAt(a, b);
    assert (a + [NEWLINE] + b)[..|a|] == a;
    assert (a + [NEWLINE] + b)[|a| + 1..] == b;
  }

  lemma NoLine(s: string)
    requires NEWLINE !in s
    ensures CutLines(s) == Cut([], s)
  {}

  lemma FirstNewline(s: string) returns (line: string, rest: string)
    requires NEWLINE in s
    ensures s == line + [NEWLINE] + rest && NEWLINE !in line
    ensures CutLines(s) == Cut([line] + CutLines(rest).lines, CutLines(rest).tail)
  {
    var i := IndexOfNewline(s);
    line, rest := s[..i], s[i + 1..];
  }

  /** Cutting can stop anywhere and go on with the tail: the law that makes chunks invisible. */
  lemma {:induction false} CutConcat(a: string, b: string)
    ensures CutLines(a + b).lines == CutLines(a).lines + CutLines(CutLines(a).tail + b).lines
    ensures CutLines(a + b).tail == CutLines(CutLines(a).tail + b).tail
    decreases |a|
  {
    hide CutLines;
    if NEWLINE in a {
      var line, rest := FirstNewline(a);
      assert a + b == line + [NEWLINE] + (rest + b);
      CutFirstLine(line, rest + b);
      CutConcat(rest, b);
    } else {
      NoLine(a);
    }
  }

  lemma {:induction false} TailHasNoNewline(s: string)
    ensures NEWLINE !in CutLines(s).tail
    decreases |s|
  {
    hide CutLines;
    if NEWLINE in s {
      var line, rest := FirstNewline(s);
      TailHasNoNewline(rest);
    } else {
      NoLine(s);
    }
  }

  function Join(lines: seq<string>): string {
    if lines == [] then "" else lines[0] + [NEWLINE] + Join(lines[1..])
  }

  /** The cut is the only way to read a text as newline-free lines and a newline-free tail. */
  lemma {:induction false} CutIsUnique(lines: seq<string>, tail: string)
    requires NEWLINE !in tail && forall l | l in lines :: NEWLINE !in l
    ensures CutLines(Join(lines) + tail) == Cut(lines, tail)
  {
    if lines == [] {
      assert Join(lines) + tail == tail;
    } else {
      assert Join(lines) + tail == lines[0] + [NEWLINE] + (Join(lines[1..]) + tail);
      CutFirstLine(lines[0], Join(lines[1..]) + tail);
      CutIsUnique(lines[1..], tail);
    }
  }

  lemma {:induction false} JoinCut(s: string)
    ensures Join(CutLines(s).lines) + CutLines(s).tail == s
    decreases |s|
  {
    hide CutLines;
    if NEWLINE in s {
      var line, rest := FirstNewline(s);
      JoinCut(rest);
      assert CutLines(s).lines[1..] == CutLines(rest).lines;
    } else {
      NoLine(s);
    }
  }

  // ---------------------------------------------------------------------------
  // Events
  // ---------------------------------------------------------------------------

  /** The tolerant readers: blank lines and lines that do not parse are skipped. */
  function Keep<E>(parse: string -> Option<E>, lines: seq<string>): seq<E> {
    if lines == [] then []
    else Keep(parse, lines[..|lines| - 1]) + KeepLine(parse, lines[|lines| - 1])
  }

  function KeepLine<E>(parse: string -> Option<E>, raw: string): seq<E> {
    var line := Trim(raw);
    if line == "" then [] else
    match parse(line)
    case Some(e) => [e]
    case None => []
  }

  datatype Outcome<E> = Outcome(events: seq<E>, failed: bool)

  /** The strict reader: a non-blank line that does not parse ends it. */
  function Strict<E>(parse: string -> Option<E>, lines: seq<string>): Outcome<E> {
    if lines == [] then Outcome([], false)
    else
      var before := Strict(parse, lines[..|lines| - 1]);
      var line := Trim(lines[|lines| - 1]);
      if before.failed || line == "" then before else
      match parse(line)
      case Some(e) => Outcome(before.events + [e], false)
      case None => Outcome(before.events, true)
  }

  lemma {:induction false} KeepConcat<E>(parse: string -> Option<E>, a: seq<string>, b: seq<string>)
    ensures Keep(parse, a + b) == Keep(parse, a) + Keep(parse, b)
    decreases b
  {
    if b == [] {
      assert a + b == a;
    } else {
      assert (a + b)[..|a + b| - 1] == a + b[..|b| - 1];
      KeepConcat(parse, a, b[..|b| - 1]);
    }
  }

  lemma {:induction false} StrictConcat<E>(parse: string -> Option<E>, a: seq<string>, b: seq<string>)
    ensures var x, y := Strict(parse, a), Strict(parse, b);
            Strict(parse, a + b)
            == if x.failed then x else Outcome(x.events + y.events, y.failed)
    decreases b
  {
    if b == [] {
      assert a + b == a;
    } else {
      assert (a + b)[..|a + b| - 1] == a + b[..|b| - 1];
      StrictConcat(parse, a, b[..|b| - 1]);
    }
  }

  /** The two readers agree up to the first bad line. */
  lemma {:induction false} StrictIsKeep<E>(parse: string -> Option<E>, lines: seq<string>)
    ensures var o := Strict(parse, lines);
            if o.failed then o.events <= Keep(parse, lines) else o.events == Keep(parse, lines)
  {
    if lines != [] {
      StrictIsKeep(parse, lines[..|lines| - 1]);
    }
  }

  /** A line the strict reader gets over: blank, or it parses. */
  ghost predicate Sound<E>(parse: string -> Option<E>, raw: string) {
    AllSpace(raw) || parse(Trim(raw)).Some?
  }

  lemma StrictSnoc<E>(parse: string -> Option<E>, lines: seq<string>, raw: string)
    ensures var before := Strict(parse, lines);
            Strict(parse, lines + [raw])
            == if before.failed || AllSpace(raw) then before
               else if parse(Trim(raw)).Some? then Outcome(before.events + [parse(Trim(raw)).value], false)
               else Outcome(before.events, true)
    ensures Strict(parse, lines + [raw]).failed <==> Strict(parse, lines).failed || !Sound(parse, raw)
  {
    var before, after := TrimExact(raw);
    assert (lines + [raw])[..|lines|] == lines;
    hide Trim, AllSpace, IsSpace;
  }

  /** The strict reader fails exactly at a line that is neither blank nor parses. */
  lemma {:induction false} FailsExactly<E>(parse: string -> Option<E>, lines: seq<string>)
    ensures Strict(parse, lines).failed <==> exists l | l in lines :: !Sound(parse, l)
  {
    if lines != [] {
      var n := |lines| - 1;
      FailsExactly(parse, lines[..n]);
      StrictSnoc(parse, lines[..n], lines[n]);
      assert lines == lines[..n] + [lines[n]];
      hide Strict, Sound;
      assert !Strict(parse, lines[..n]).failed || Strict(parse, lines).failed;
      if !Sound(parse, lines[n]) {
        assert lines[n] in lines;
      }
      forall l | l in lines && !Sound(parse, l) ensures l == lines[n] || l in lines[..n] {}
    }
  }

  /** The events of the sound lines, one for each that is not blank. */
  ghost predicate EventsOf<E>(parse: string -> Option<E>, lines: seq<string>, events: seq<E>) {
    var texts := NotBlank(lines);
    |events| == |texts| && forall k | 0 <= k < |texts| :: parse(Trim(texts[k])) == Some(events[k])
  }

  function NotBlank(lines: seq<string>): seq<string> {
    if lines == [] then []
    else (if AllSpace(lines[0]) then [] else [lines[0]]) + NotBlank(lines[1..])
  }

  lemma NotBlankOne(raw: string)
    ensures NotBlank([raw]) == if AllSpace(raw) then [] else [raw]
  {
    hide AllSpace;
    assert [raw][1..] == [];
  }

  lemma {:induction false} NotBlankSnoc(lines: seq<string>, raw: string)
    ensures NotBlank(lines + [raw]) == NotBlank(lines) + (if AllSpace(raw) then [] else [raw])
  {
    hide AllSpace;
    if lines == [] {
      assert [raw][1..] == [] && [] + [raw] == [raw];
      NotBlankOne(raw);
    } else {
      var whole := lines + [raw];
      assert whole[0] == lines[0] && whole[1..] == lines[1..] + [raw];
      NotBlankSnoc(lines[1..], raw);
    }
  }

  /** The strict reader keeps the events of the lines before the first bad one, all and in
      order. */
  lemma {:induction false} StrictEvents<E>(parse: string -> Option<E>, lines: seq<string>, n: nat)
    requires n <= |lines| && forall k | 0 <= k < n :: Sound(parse, lines[k])
    requires n < |lines| ==> !Sound(parse, lines[n])
    ensures EventsOf(parse, lines[..n], Strict(parse, lines).events)
    decreases |lines|
  {
    if lines != [] {
      var m := |lines| - 1;
      assert lines == lines[..m] + [lines[m]];
      StrictSnoc(parse, lines[..m], lines[m]);
      FailsExactly(parse, lines[..m]);
      if n < m {
        assert lines[..m][n] == lines[n] && lines[..m][..n] == lines[..n];
        StrictEvents(parse, lines[..m], n);
      } else {
        StrictEvents(parse, lines[..m], m);
        assert lines[..m][..m] == lines[..m];
        NotBlankSnoc(lines[..m], lines[m]);
        assert forall l | l in lines[..m] :: Sound(parse, l);
        assert n == |lines| ==> lines[..n] == lines;
        hide Strict, Trim, AllSpace, NotBlank;
      }
    }
  }

  /** The tolerant readers keep the events of the lines that parse: as the strict reader does on
      those lines alone. */
  lemma {:induction false} KeepExact<E>(parse: string -> Option<E>, lines: seq<string>)
    ensures var good := Good(parse, lines);
            Strict(parse, good) == Outcome(Keep(parse, lines), false) && |Keep(parse, lines)| == |good|
  {
    if lines != [] {
      var n := |lines| - 1;
      KeepExact(parse, lines[..n]);
      var before, after := TrimExact(lines[n]);
      StrictSnoc(parse, Good(parse, lines[..n]), lines[n]);
      assert Good(parse, lines[..n]) + [] == Good(parse, lines[..n]);
      hide Strict, Trim, AllSpace;
    }
  }

  function Good<E>(parse: string -> Option<E>, lines: seq<string>): seq<string> {
    if lines == [] then [] else
    var raw := lines[|lines| - 1];
    Good(parse, lines[..|lines| - 1])
    + if !AllSpace(raw) && parse(Trim(raw)).Some? then [raw] else []
  }

  // ---------------------------------------------------------------------------
  // The tolerant loops
  // ---------------------------------------------------------------------------

  lemma ConcatNext(chunks: seq<string>, i: nat)
    requires i < |chunks|
    ensures Concat(chunks[..i + 1]) == Concat(chunks[..i]) + chunks[i]
  {
    assert chunks[..i + 1][..i] == chunks[..i];
  }

  lemma PopLine(s: string, i: nat)
    requires i == IndexOfNewline(s)
    ensures CutLines(s)
         == Cut([s[..i]] + CutLines(s[i + 1..]).lines, CutLines(s[i + 1..]).tail)
  {
    hide IndexOfNewline;
  }

  /** One read of the pump in `drainJsonLines`: the inner loop over complete lines. */
  method DrainBuffer<E>(parse: string -> Option<E>, text: string)
    returns (events: seq<E>, buffer: string)
    ensures events == Keep(parse, CutLines(text).lines)
    ensures buffer == CutLines(text).tail
  {
    hide Trim, CutLines, IndexOfNewline, Keep;
    KeepNone(parse);
    events, buffer := [], text;
    var nl := IndexOfNewline(buffer);
    ghost var seen: seq<string> := [];
    assert seen + CutLines(buffer).lines == CutLines(text).lines;
    while nl != -1
      invariant nl == IndexOfNewline(buffer)
      invariant CutLines(text).lines == seen + CutLines(buffer).lines
      invariant CutLines(text).tail == CutLines(buffer).tail
      invariant events == Keep(parse, seen)
      decreases |buffer|
    {
      PopLine(buffer, nl);
      var line := Trim(buffer[..nl]);
      KeepNext(parse, seen, buffer[..nl]);
      seen := seen + [buffer[..nl]];
      buffer := buffer[nl + 1..];
      if line != "" {
        match parse(line) {
          case Some(e) => events := events + [e];
          case None =>
        }
      }
      nl := IndexOfNewline(buffer);
    }
    NoLine(buffer);
    assert seen + [] == seen;
  }

  lemma KeepNone<E>(parse: string -> Option<E>)
    ensures Keep(parse, []) == []
  {}

  lemma KeepNext<E>(parse: string -> Option<E>, lines: seq<string>, raw: string)
    ensures Keep(parse, lines + [raw]) == Keep(parse, lines) + KeepLine(parse, raw)
  {
    assert (lines + [raw])[..|lines|] == lines;
  }

  /** Chunking does not matter: whatever the split, the events of the complete lines. */
  method DrainJsonLines<E>(parse: string -> Option<E>, chunks: seq<string>) returns (events: seq<E>)
    ensures events == Keep(parse, CutLines(Concat(chunks)).lines)
  {
    events := [];
    var buffer := "";
    for i := 0 to |chunks|
      invariant events == Keep(parse, CutLines(Concat(chunks[..i])).lines)
      invariant buffer == CutLines(Concat(chunks[..i])).tail
    {
      ConcatNext(chunks, i);
      CutConcat(Concat(chunks[..i]), chunks[i]);
      KeepConcat(parse, CutLines(Concat(chunks[..i])).lines, CutLines(buffer + chunks[i]).lines);
      var more;
      more, buffer := DrainBuffer(parse, buffer + chunks[i]);
      events := events + more;
    }
    assert chunks[..|chunks|] == chunks;
  }

  /** `split("\n")`. */
  function Split(s: string): seq<string> {
    CutLines(s).lines + [CutLines(s).tail]
  }

  method ParseJsonLines<E>(parse: string -> Option<E>, stdout: string) returns (events: seq<E>)
    ensures events == Keep(parse, Split(stdout))
  {
    events := [];
    var lines := Split(stdout);
    for i := 0 to |lines|
      invariant events == Keep(parse, lines[..i])
    {
      assert lines[..i + 1][..i] == lines[..i];
      var line := Trim(lines[i]);
      if line == "" {
        continue;
      }
      match parse(line) {
        case Some(e) => events := events + [e];
        case None =>
      }
    }
    assert lines[..|lines|] == lines;
  }

  /** Streaming and batch agree but for the one event an unterminated last line may add; they
      agree outright exactly when that line is blank or does not parse. */
  lemma BatchAddsTheTail<E>(parse: string -> Option<E>, chunks: seq<string>)
    ensures var text := Concat(chunks);
            var streamed, batch := Keep(parse, CutLines(text).lines), Keep(parse, Split(text));
            var last := Trim(CutLines(text).tail);
            if last != "" && parse(last).Some? then batch == streamed + [parse(last).value]
            else batch == streamed
  {
    var cut := CutLines(Concat(chunks));
    KeepNext(parse, cut.lines, cut.tail);
  }

  // ---------------------------------------------------------------------------
  // Framing
  // ---------------------------------------------------------------------------

  /** What the round trip needs of JSON: printing then parsing is the identity, and printed
      text is newline-free, not empty, and has no space at its ends for `trim` to take. */
  ghost predicate Prints<E>(parse: string -> Option<E>, stringify: E -> string, e: E) {
    var line := stringify(e);
    parse(line) == Some(e) && NEWLINE !in line && Trim(line) == line != ""
  }

  ghost predicate Codec<E(!new)>(parse: string -> Option<E>, stringify: E -> string) {
    forall e: E :: Prints(parse, stringify, e)
  }

  /** What `send` writes for a sequence of messages. */
  function Frame<E>(stringify: E -> string, messages: seq<E>): string {
    if messages == [] then ""
    else Frame(stringify, messages[..|messages| - 1]) + stringify(messages[|messages| - 1]) + [NEWLINE]
  }

  lemma StrictNext<E>(parse: string -> Option<E>, lines: seq<string>, line: string, e: E)
    requires Trim(line) == line != "" && parse(line) == Some(e) && !Strict(parse, lines).failed
    ensures Strict(parse, lines + [line]) == Outcome(Strict(parse, lines).events + [e], false)
  {
    assert (lines + [line])[..|lines|] == lines;
  }

  lemma CutNextLine(text: string, line: string)
    requires CutLines(text).tail == "" && NEWLINE !in line
    ensures CutLines(text + line + [NEWLINE]) == Cut(CutLines(text).lines + [line], "")
  {
    hide CutLines;
    assert text + line + [NEWLINE] == text + (line + [NEWLINE]);
    CutConcat(text, line + [NEWLINE]);
    assert "" + (line + [NEWLINE]) == line + [NEWLINE] + "";
    CutFirstLine(line, "");
    NoLine("");
  }

  ghost predicate ReadsBack<E>(parse: string -> Option<E>, text: string, messages: seq<E>) {
    && Strict(parse, CutLines(text).lines) == Outcome(messages, false)
    && CutLines(text).tail == ""
  }

  lemma ReadsBackNext<E>(parse: string -> Option<E>, stringify: E -> string, text: string,
                         messages: seq<E>, last: E)
    requires ReadsBack(parse, text, messages) && Prints(parse, stringify, last)
    ensures ReadsBack(parse, text + stringify(last) + [NEWLINE], messages + [last])
  {
    hide CutLines, Trim, Strict;
    CutNextLine(text, stringify(last));
    StrictNext(parse, CutLines(text).lines, stringify(last), last);
  }

  /** Framed messages read back as themselves, with nothing left over. */
  lemma {:induction false} FrameReadsBack<E(!new)>(parse: string -> Option<E>, stringify: E -> string,
                                                   messages: seq<E>)
    requires Codec(parse, stringify)
    ensures ReadsBack(parse, Frame(stringify, messages), messages)
  {
    if messages == [] {
      NoLine("");
      assert Frame(stringify, messages) == "";
    } else {
      var before, last := messages[..|messages| - 1], messages[|messages| - 1];
      assert Prints(parse, stringify, last);
      hide Codec, Prints, ReadsBack;
      FrameReadsBack(parse, stringify, before);
      ReadsBackNext(parse, stringify, Frame(stringify, before), before, last);
      assert before + [last] == messages;
    }
  }
}
