/** `waitForFirstEvent` of evals/memory-multi-cli-lock.eval.ts: which event a loop finds that looks
    at one line for each chunk it reads. */
module FirstEvent {
  import opened Basics
  import opened JsonLines

  datatype First<E> = Found(event: E) | ParseError | NotFound

  function ParseFirst<E>(parse: string -> Option<E>, line: string): First<E> {
    match parse(line)
    case Some(e) => Found(e)
    case None => ParseError
  }

  /** `waitForFirstEvent` over the chunks read before the stream ends or the time is up.  It
      takes at most one line off the buffer per chunk. */
  method WaitForFirstEvent<E>(parse: string -> Option<E>, chunks: seq<string>) returns (r: First<E>)
    ensures r == FirstEvent(parse, "", chunks)
  {
    var buffer := "";
    for i := 0 to |chunks|
      invariant FirstEvent(parse, "", chunks) == FirstEvent(parse, buffer, chunks[i..])
    {
      assert chunks[i..][1..] == chunks[i + 1..];
      buffer := buffer + chunks[i];
      var nl := IndexOfNewline(buffer);
      if nl != -1 {
        var line := Trim(buffer[..nl]);
        if line != "" {
          return ParseFirst(parse, line);
        }
        buffer := buffer[nl + 1..];
      }
    }
    return NotFound;
  }

  function FirstEvent<E>(parse: string -> Option<E>, buffer: string, chunks: seq<string>): First<E>
    decreases chunks
  {
    if chunks == [] then NotFound else
    var text := buffer + chunks[0];
    var nl := IndexOfNewline(text);
    if nl == -1 then FirstEvent(parse, text, chunks[1..])
    else if Trim(text[..nl]) != "" then ParseFirst(parse, Trim(text[..nl]))
    else FirstEvent(parse, text[nl + 1..], chunks[1..])
  }

  /** What a caller expects: the first non-blank complete line, parsed. */
  function FirstLine<E>(parse: string -> Option<E>, lines: seq<string>): First<E> {
    if lines == [] then NotFound
    else if Trim(lines[0]) != "" then ParseFirst(parse, Trim(lines[0]))
    else FirstLine(parse, lines[1..])
  }

  function ConcatFrom(buffer: string, chunks: seq<string>): string
    decreases chunks
  {
    if chunks == [] then buffer else ConcatFrom(buffer + chunks[0], chunks[1..])
  }

  lemma {:induction false} ConcatFromIsConcat(buffer: string, done: seq<string>, chunks: seq<string>)
    requires buffer == Concat(done)
    ensures ConcatFrom(buffer, chunks) == Concat(done + chunks)
    decreases chunks
  {
    if chunks == [] {
      assert done + chunks == done;
    } else {
      assert (done + [chunks[0]])[..|done|] == done;
      ConcatFromIsConcat(buffer + chunks[0], done + [chunks[0]], chunks[1..]);
      assert done + chunks == (done + [chunks[0]]) + chunks[1..];
    }
  }

  lemma {:induction false} ConcatFromSplit(a: string, b: string, chunks: seq<string>)
    ensures ConcatFrom(a + b, chunks) == a + ConcatFrom(b, chunks)
    decreases chunks
  {
    if chunks != [] {
      assert (a + b) + chunks[0] == a + (b + chunks[0]);
      ConcatFromSplit(a, b + chunks[0], chunks[1..]);
    }
  }

  /** The line taken off the buffer is the first line of the whole stream. */
  lemma TakenLine(text: string, nl: nat, rest: seq<string>)
    requires nl == IndexOfNewline(text)
    ensures CutLines(ConcatFrom(text, rest)).lines
         == [text[..nl]] + CutLines(ConcatFrom(text[nl + 1..], rest)).lines
  {
    hide CutLines, ConcatFrom, IndexOfNewline;
    var after := ConcatFrom(text[nl + 1..], rest);
    assert text == text[..nl + 1] + text[nl + 1..];
    ConcatFromSplit(text[..nl + 1], text[nl + 1..], rest);
    assert text[..nl + 1] + after == text[..nl] + [NEWLINE] + after;
    CutFirstLine(text[..nl], after);
  }

  lemma {:induction false} BlankStream<E>(parse: string -> Option<E>, buffer: string,
                                          chunks: seq<string>)
    requires forall l | l in CutLines(ConcatFrom(buffer, chunks)).lines :: Trim(l) == ""
    ensures FirstEvent(parse, buffer, chunks) == NotFound
    decreases chunks
  {
    if chunks != [] {
      var text, rest := buffer + chunks[0], chunks[1..];
      var nl := IndexOfNewline(text);
      if nl == -1 {
        BlankStream(parse, text, rest);
      } else {
        TakenLine(text, nl, rest);
        BlankStream(parse, text[nl + 1..], rest);
      }
    }
  }

  lemma {:induction false} EventFirst<E>(parse: string -> Option<E>, buffer: string,
                                         chunks: seq<string>)
    requires NEWLINE !in buffer
    requires var lines := CutLines(ConcatFrom(buffer, chunks)).lines;
             lines != [] && Trim(lines[0]) != ""
    ensures FirstEvent(parse, buffer, chunks)
         == ParseFirst(parse, Trim(CutLines(ConcatFrom(buffer, chunks)).lines[0]))
    decreases chunks
  {
    if chunks != [] {
      var text, rest := buffer + chunks[0], chunks[1..];
      var nl := IndexOfNewline(text);
      if nl == -1 {
        EventFirst(parse, text, rest);
      } else {
        TakenLine(text, nl, rest);
      }
    }
  }

  lemma {:induction false} AllBlank<E>(parse: string -> Option<E>, lines: seq<string>)
    requires forall l | l in lines :: Trim(l) == ""
    ensures FirstLine(parse, lines) == NotFound
  {
    if lines != [] {
      AllBlank(parse, lines[1..]);
    }
  }

  lemma {:induction false} NotAllBlank<E>(parse: string -> Option<E>, lines: seq<string>, l: string)
    requires l in lines && Trim(l) != ""
    ensures FirstLine(parse, lines) != NotFound
  {
    if Trim(lines[0]) == "" {
      NotAllBlank(parse, lines[1..], l);
    }
  }

  /** `waitForFirstEvent` is independent of the chunking exactly for the streams whose first
      line is not blank (or that hold no event at all): one leading blank line is enough for
      an event that is already in the buffer to be missed. */
  lemma FirstEventExact<E>(parse: string -> Option<E>, text: string)
    ensures var lines := CutLines(text).lines;
            (forall chunks: seq<string> | Concat(chunks) == text ::
               FirstEvent(parse, "", chunks) == FirstLine(parse, lines))
            <==> (lines == [] || Trim(lines[0]) != "" || forall l | l in lines :: Trim(l) == "")
  {
    var lines := CutLines(text).lines;
    hide CutLines, Trim, FirstEvent, Concat;
    if lines == [] || Trim(lines[0]) != "" || forall l | l in lines :: Trim(l) == "" {
      forall chunks: seq<string> | Concat(chunks) == text
        ensures FirstEvent(parse, "", chunks) == FirstLine(parse, lines)
      {
        FirstEventRight(parse, text, chunks, lines);
      }
    } else {
      var l :| l in lines && Trim(l) != "";
      NotAllBlank(parse, lines, l);
      OneChunk(parse, text);
    }
  }

  /** A chunk with a blank line and then an event: the event is there and is not found. */
  lemma BlankLineHidesAnEvent<E>(parse: string -> Option<E>)
    ensures FirstEvent(parse, "", ["\nx\n"]) == NotFound
    ensures FirstLine(parse, CutLines("\nx\n").lines) == ParseFirst(parse, "x")
  {
    TwoShortLines();
    ShortTrims();
    hide *;
    FirstOfTwo(parse, "", "x");
    OneChunk(parse, "\nx\n");
  }

  /** How many lines are taken: at most one for each chunk, and none that is not complete. */
  function Taken(chunks: seq<string>): nat {
    if chunks == [] then 0 else
    var lines, before := |CutLines(Concat(chunks)).lines|, Taken(chunks[..|chunks| - 1]);
    if lines <= before then lines else before + 1
  }

  lemma {:induction false} CutAfterLines(lines: seq<string>, s: string)
    requires forall l | l in lines :: NEWLINE !in l
    ensures CutLines(Join(lines) + s) == Cut(lines + CutLines(s).lines, CutLines(s).tail)
  {
    hide CutLines;
    if lines == [] {
      assert Join(lines) + s == s;
    } else {
      assert Join(lines) + s == lines[0] + [NEWLINE] + (Join(lines[1..]) + s);
      CutFirstLine(lines[0], Join(lines[1..]) + s);
      CutAfterLines(lines[1..], s);
      assert lines == [lines[0]] + lines[1..];
    }
  }

  lemma {:induction false} JoinSnoc(lines: seq<string>, line: string)
    ensures Join(lines + [line]) == Join(lines) + line + [NEWLINE]
  {
    if lines == [] {
      assert [line][1..] == [];
    } else {
      assert (lines + [line])[1..] == lines[1..] + [line];
      JoinSnoc(lines[1..], line);
    }
  }

  lemma TakenNext(chunks: seq<string>, chunk: string)
    ensures var lines := |CutLines(Concat(chunks + [chunk])).lines|;
            Taken(chunks + [chunk]) == if lines <= Taken(chunks) then lines else Taken(chunks) + 1
  {
    assert (chunks + [chunk])[..|chunks|] == chunks;
  }

  lemma {:induction false} FirstAfterBlanks<E>(parse: string -> Option<E>, blanks: seq<string>,
                                               more: seq<string>)
    requires forall l | l in blanks :: Trim(l) == ""
    ensures FirstLine(parse, blanks + more) == FirstLine(parse, more)
  {
    hide Trim;
    if blanks == [] {
      assert blanks + more == more;
    } else {
      assert (blanks + more)[1..] == blanks[1..] + more;
      FirstAfterBlanks(parse, blanks[1..], more);
    }
  }

  /** Where the loop stands after `done`: it took these lines, all blank, and holds the rest. */
  ghost predicate Stands(done: seq<string>, taken: seq<string>, buffer: string) {
    && Concat(done) == Join(taken) + buffer && |taken| == Taken(done)
    && forall l | l in taken :: NEWLINE !in l && Trim(l) == ""
  }

  /** One more chunk: its lines come behind those taken, and the first one is taken if any. */
  lemma StandsNext(done: seq<string>, taken: seq<string>, buffer: string, chunk: string)
    requires Stands(done, taken, buffer)
    ensures CutLines(Concat(done + [chunk])).lines == taken + CutLines(buffer + chunk).lines
    ensures if IndexOfNewline(buffer + chunk) == -1
            then Stands(done + [chunk], taken, buffer + chunk)
            else Taken(done + [chunk]) == |taken| + 1
  {
    hide Concat, Taken, Trim, CutLines, IndexOfNewline, Join;
    ConcatSnoc(done, chunk);
    TakenNext(done, chunk);
    CutAfterLines(taken, buffer + chunk);
    assert Concat(done + [chunk]) == Join(taken) + (buffer + chunk);
    var nl := IndexOfNewline(buffer + chunk);
    if nl == -1 {
      NoLine(buffer + chunk);
    } else {
      PopLine(buffer + chunk, nl);
    }
  }

  lemma StandsPast(done: seq<string>, taken: seq<string>, buffer: string, chunk: string, nl: nat)
    requires Stands(done, taken, buffer) && nl == IndexOfNewline(buffer + chunk)
    requires Trim((buffer + chunk)[..nl]) == ""
    ensures Stands(done + [chunk], taken + [(buffer + chunk)[..nl]], (buffer + chunk)[nl + 1..])
  {
    hide Concat, Taken, Trim, CutLines, IndexOfNewline, Join;
    var text := buffer + chunk;
    StandsNext(done, taken, buffer, chunk);
    ConcatSnoc(done, chunk);
    JoinPops(taken, text, nl);
    assert Concat(done + [chunk]) == Join(taken) + text;
    assert forall l | l in taken + [text[..nl]] :: l in taken || l == text[..nl];
  }

  lemma JoinPops(lines: seq<string>, text: string, nl: nat)
    requires nl < |text| && text[nl] == NEWLINE
    ensures Join(lines) + text == Join(lines + [text[..nl]]) + text[nl + 1..]
  {
    JoinSnoc(lines, text[..nl]);
    hide Join;
    assert text == text[..nl] + [NEWLINE] + text[nl + 1..];
  }

  lemma ConcatSnoc(chunks: seq<string>, chunk: string)
    ensures Concat(chunks + [chunk]) == Concat(chunks) + chunk
  {
    assert (chunks + [chunk])[..|chunks|] == chunks;
  }

  lemma GrowOnce(done: seq<string>, chunk: string)
    ensures Taken(done) <= |CutLines(Concat(done)).lines| ==>
              Taken(done) <= Taken(done + [chunk]) <= |CutLines(Concat(done + [chunk])).lines|
    ensures CutLines(Concat(done)).lines <= CutLines(Concat(done + [chunk])).lines
  {
    hide Taken, Concat, CutLines;
    TakenNext(done, chunk);
    ConcatSnoc(done, chunk);
    CutConcat(Concat(done), chunk);
  }

  lemma {:induction false} TakenIsComplete(done: seq<string>)
    ensures Taken(done) <= |CutLines(Concat(done)).lines|
  {
    hide CutLines, Concat;
    if done != [] {
      TakenIsComplete(done[..|done| - 1]);
    }
  }

  lemma {:induction false} LinesOnlyGrow(done: seq<string>, rest: seq<string>)
    ensures Taken(done) <= Taken(done + rest) <= |CutLines(Concat(done + rest)).lines|
    ensures CutLines(Concat(done)).lines <= CutLines(Concat(done + rest)).lines
    decreases rest
  {
    hide Taken, Concat, CutLines;
    if rest == [] {
      TakenIsComplete(done);
      assert done + rest == done;
    } else {
      var n := |rest| - 1;
      LinesOnlyGrow(done, rest[..n]);
      GrowOnce(done + rest[..n], rest[n]);
      assert done + rest == done + rest[..n] + [rest[n]];
    }
  }

  lemma FirstEventNext<E>(parse: string -> Option<E>, buffer: string, rest: seq<string>)
    requires rest != []
    ensures var text := buffer + rest[0];
            var nl := IndexOfNewline(text);
            FirstEvent(parse, buffer, rest)
            == if nl == -1 then FirstEvent(parse, text, rest[1..])
               else if Trim(text[..nl]) == "" then FirstEvent(parse, text[nl + 1..], rest[1..])
               else ParseFirst(parse, Trim(text[..nl]))
  {
    hide IndexOfNewline, Trim, ParseFirst;
  }

  lemma NothingMore<E>(parse: string -> Option<E>, done: seq<string>, taken: seq<string>, buffer: string)
    requires Stands(done, taken, buffer)
    ensures Taken(done) <= |CutLines(Concat(done)).lines|
    ensures FirstLine(parse, CutLines(Concat(done)).lines[..Taken(done)]) == NotFound
  {
    hide Taken, Concat, CutLines, Trim, Join;
    TakenIsComplete(done);
    CutAfterLines(taken, buffer);
    assert CutLines(Concat(done)).lines[..|taken|] == taken;
    AllBlank(parse, taken);
  }

  lemma {:induction false} FirstFrom<E>(parse: string -> Option<E>, done: seq<string>,
                                        taken: seq<string>, buffer: string, rest: seq<string>)
    requires Stands(done, taken, buffer)
    ensures Taken(done + rest) <= |CutLines(Concat(done + rest)).lines|
    ensures FirstEvent(parse, buffer, rest)
         == FirstLine(parse, CutLines(Concat(done + rest)).lines[..Taken(done + rest)])
    decreases rest
  {
    hide *;
    if rest == [] {
      assert done + rest == done;
      NothingMore(parse, done, taken, buffer);
      NoChunk(parse, buffer);
    } else {
      var text, next := buffer + rest[0], done + [rest[0]];
      var nl := IndexOfNewline(text);
      FirstEventNext(parse, buffer, rest);
      StandsNext(done, taken, buffer, rest[0]);
      assert done + rest == next + rest[1..];
      if nl == -1 {
        FirstFrom(parse, next, taken, text, rest[1..]);
      } else if Trim(text[..nl]) == "" {
        StandsPast(done, taken, buffer, rest[0], nl);
        FirstFrom(parse, next, taken + [text[..nl]], text[nl + 1..], rest[1..]);
      } else {
        StandsBlank(done, taken, buffer);
        FoundHere(parse, taken, text, nl, next, rest[1..]);
      }
    }
  }

  lemma NoChunk<E>(parse: string -> Option<E>, buffer: string)
    ensures FirstEvent(parse, buffer, []) == NotFound
  {}

  lemma StandsBlank(done: seq<string>, taken: seq<string>, buffer: string)
    requires Stands(done, taken, buffer)
    ensures forall l | l in taken :: Trim(l) == ""
  {
    hide Trim;
  }

  lemma FoundHere<E>(parse: string -> Option<E>, taken: seq<string>, text: string, nl: nat,
                     next: seq<string>, rest: seq<string>)
    requires nl == IndexOfNewline(text) && Trim(text[..nl]) != ""
    requires forall l | l in taken :: Trim(l) == ""
    requires CutLines(Concat(next)).lines == taken + CutLines(text).lines
    requires Taken(next) == |taken| + 1
    ensures Taken(next + rest) <= |CutLines(Concat(next + rest)).lines|
    ensures FirstLine(parse, CutLines(Concat(next + rest)).lines[..Taken(next + rest)])
         == ParseFirst(parse, Trim(text[..nl]))
  {
    hide *;
    LinesOnlyGrow(next, rest);
    PopLine(text, nl);
    var lines := CutLines(Concat(next + rest)).lines[..Taken(next + rest)];
    assert lines[..|taken|] == taken && lines[|taken|] == text[..nl];
    assert lines == taken + lines[|taken|..];
    FirstAfterBlanks(parse, taken, lines[|taken|..]);
    FirstLineIs(parse, lines[|taken|..]);
  }

  /** What the loop answers under every chunking: the first event of the lines it took, where it
      takes at most one line for each chunk it read. */
  lemma FirstOfTaken<E>(parse: string -> Option<E>, chunks: seq<string>)
    ensures Taken(chunks) <= |CutLines(Concat(chunks)).lines|
    ensures FirstEvent(parse, "", chunks)
         == FirstLine(parse, CutLines(Concat(chunks)).lines[..Taken(chunks)])
  {
    assert Join([]) + "" == "";
    assert Stands([], [], "");
    FirstFrom(parse, [], [], "", chunks);
    assert [] + chunks == chunks;
  }

  /** A newline-free start adds no line. */
  lemma LinesOf(start: string, s: string)
    requires NEWLINE !in start
    ensures |CutLines(start + s).lines| == |CutLines(s).lines|
  {
    hide CutLines;
    if NEWLINE in s {
      var line, rest := FirstNewline(s);
      assert start + s == (start + line) + [NEWLINE] + rest;
      CutFirstLine(start + line, rest);
    } else {
      NoLine(s);
      NoLine(start + s);
    }
  }

  /** When no chunk holds more than one newline nothing is missed. */
  lemma OneLineEach<E>(parse: string -> Option<E>, chunks: seq<string>)
    requires forall c | c in chunks :: |CutLines(c).lines| <= 1
    ensures FirstEvent(parse, "", chunks) == FirstLine(parse, CutLines(Concat(chunks)).lines)
  {
    FirstOfTaken(parse, chunks);
    AllTaken(chunks);
    hide *;
    assert CutLines(Concat(chunks)).lines[..Taken(chunks)] == CutLines(Concat(chunks)).lines;
  }

  lemma {:induction false} AllTaken(chunks: seq<string>)
    requires forall c | c in chunks :: |CutLines(c).lines| <= 1
    ensures Taken(chunks) == |CutLines(Concat(chunks)).lines|
  {
    hide CutLines;
    if chunks == [] {
      NoLine("");
    } else {
      var n := |chunks| - 1;
      var text := Concat(chunks[..n]);
      AllTaken(chunks[..n]);
      CutConcat(text, chunks[n]);
      TailHasNoNewline(text);
      LinesOf(CutLines(text).tail, chunks[n]);
      assert chunks[n] in chunks;
    }
  }

  /** The answer on a list of lines: nothing when all are blank, else the first that is not,
      parsed. */
  lemma {:induction false} FirstLineExact<E>(parse: string -> Option<E>, lines: seq<string>)
    ensures FirstLine(parse, lines) == NotFound <==> forall l | l in lines :: AllSpace(l)
    ensures forall k | 0 <= k < |lines| && !AllSpace(lines[k]) && (forall j | 0 <= j < k :: AllSpace(lines[j])) ::
              FirstLine(parse, lines) == match parse(Trim(lines[k]))
                                         case Some(e) => Found(e)
                                         case None => ParseError
  {
    if lines != [] {
      var before, after := TrimExact(lines[0]);
      FirstLineExact(parse, lines[1..]);
      hide Trim, AllSpace;
      assert forall l :: l in lines <==> l == lines[0] || l in lines[1..];
      forall k | 0 <= k < |lines| && !AllSpace(lines[k]) && (forall j | 0 <= j < k :: AllSpace(lines[j]))
        ensures FirstLine(parse, lines) == match parse(Trim(lines[k]))
                                           case Some(e) => Found(e)
                                           case None => ParseError
      {
        if k > 0 {
          assert lines[1..][k - 1] == lines[k];
          assert forall j | 0 <= j < k - 1 :: lines[1..][j] == lines[j + 1];
        }
      }
    }
  }

  lemma TwoShortLines()
    ensures CutLines("\nx\n") == Cut(["", "x"], "")
  {
    hide CutLines, IndexOfNewline;
    NoLine("");
    assert "x" + [NEWLINE] + "" == "x\n" && "" + [NEWLINE] + "x\n" == "\nx\n";
    CutFirstLine("x", "");
    CutFirstLine("", "x\n");
  }

  lemma ShortTrims()
    ensures Trim("") == "" && Trim("x") == "x"
  {}

  lemma FirstOfTwo<E>(parse: string -> Option<E>, blank: string, line: string)
    requires Trim(blank) == "" && Trim(line) != ""
    ensures FirstLine(parse, [blank, line]) == ParseFirst(parse, Trim(line))
  {
    hide Trim;
    assert [blank, line][1..] == [line];
  }

  lemma FirstEventRight<E>(parse: string -> Option<E>, text: string, chunks: seq<string>,
                           lines: seq<string>)
    requires Concat(chunks) == text && lines == CutLines(text).lines
    requires lines == [] || Trim(lines[0]) != "" || forall l | l in lines :: Trim(l) == ""
    ensures FirstEvent(parse, "", chunks) == FirstLine(parse, lines)
  {
    hide CutLines, Trim, FirstEvent, FirstLine, ConcatFrom;
    ConcatFromIsConcat("", [], chunks);
    assert [] + chunks == chunks;
    hide *;
    if lines != [] && Trim(lines[0]) != "" {
      EventFirst(parse, "", chunks);
      FirstLineIs(parse, lines);
    } else {
      AllBlank(parse, lines);
      BlankStream(parse, "", chunks);
    }
  }

  lemma FirstLineIs<E>(parse: string -> Option<E>, lines: seq<string>)
    requires lines != [] && Trim(lines[0]) != ""
    ensures FirstLine(parse, lines) == ParseFirst(parse, Trim(lines[0]))
  {}

  lemma OneConcat(text: string)
    ensures Concat([text]) == text
  {
    assert [text][..0] == [];
  }

  lemma OneChunk<E>(parse: string -> Option<E>, text: string)
    requires CutLines(text).lines != [] && Trim(CutLines(text).lines[0]) == ""
    ensures Concat([text]) == text && FirstEvent(parse, "", [text]) == NotFound
  {
    var nl := IndexOfNewline(text);
    hide Trim, CutLines, IndexOfNewline, FirstEvent;
    OneConcat(text);
    assert [text][..0] == [] && "" + text == text && [text][1..] == [];
    if nl == -1 {
      NoLine(text);
    }
    PopLine(text, nl);
    FirstEventNext(parse, "", [text]);
    NoChunk(parse, text[nl + 1..]);
  }
}
