# Verified model of the eval harnesses and scripts

The repository's evals and scripts hold a handful of self-contained algorithms that everything
else leans on.  This project models them in Dafny and proves what they are for.

| file | system part |
|---|---|
| `Basics.dfy` | an optional value, and choosing from a set |
| `Words.dfy`, `Checksum.dfy`, `CrcPolynomial.dfy` | the table-driven CRC-32, the bit-serial register it speeds up, and the polynomial division that register performs |
| `Png.dfy` | the PNG encoder, with a strict reader as its inverse |
| `JsonLines.dfy` | newline-delimited JSON: cutting a stream into lines and lines into events |
| `FirstEvent.dfy` | waiting for the first event of a stream, one line looked at per chunk |
| `RpcHarness.dfy` | the RPC harness: one pump, an append-only event log, any number of waiting calls, every interleaving |
| `Occurrences.dfy` | the greedy substring counter |
| `CastEditor.dfy` | the asciinema editor |
| `Sorting.dfy`, `MemoryDump.dfy` | the built-in stable sort; the argument parser and the query of the memory dump |
| `Percentile.dfy` | the nearest-rank percentile |
| `Supervisor.dfy`, `SupervisorOutcomes.dfy` | the attempt supervisor: deadline, SIGTERM, grace, SIGKILL, one retry; how its runs end |

Code that the source writes as loops and field updates is a method or a class here, proved
against a specification function; the main results are lemmas about that function.  32-bit
words are numbers below 2^32 with a bitwise exclusive or defined in `Words.dfy`; `x >>> 8` is
division by 256 and `x & 0xff` is the remainder.  In `crc32` the register is a signed number
between two steps; its bit pattern is the unsigned number used here.

## What is proved

* **CRC-32.** The fast form equals the bit-serial form on every message (`Checksum.Crc32`), the
  bit-serial form is the complemented remainder of section 3.4 of RFC 2083
  (`CrcPolynomial.CrcIsRemainder`), two messages of one length collide exactly when their
  difference is a multiple of the generator, and every burst of up to 32 bits is detected.
* **PNG.** Reader and writer are inverse in both directions; the file of `buildRedPng` reads
  back to IHDR, IDAT, IEND and a solid red picture.
* **Streams.** Chunking is invisible to the pump, the log and every `waitFor`; there is no lost
  wakeup in any interleaving; a returned event is the earliest match of the whole stream.
* **Supervisor.** An independent monitor of the protocol accepts the log of every schedule; from
  it follow that two children never live at once, that only a timeout is retried, and the
  order and spacing of signals.  The test passes exactly when every deciding attempt stays in
  scope; when a child is left alive, when a run hangs and when it keeps to the budget are
  if-and-only-if theorems over all schedules.
* **Editor, parser, query, counter, percentile.** Each has its defining theorem: the kept set,
  contraction, idempotence; accepted and rejected command lines, print and parse; exact top-k;
  optimality; the order statistic.

The results about runs are stated with specification functions.  For each of these a lemma says
in plain terms what it computes: `LookExact` and `DeliveryExact` for a turn of a call and of the
pump, `StrictEvents` and `TrimExact` for lines, `FirstOfTaken` for the first event, `EditExact`
for the editor, `SwitchFlags` to `OtherArguments` for the parser, `MatchesExactly` for the query,
`HowAttemptsEnd`, `InTime` and the three `EndedBy` lemmas for an attempt, `FileExact` and
`BitsExact` for the bytes.

## What the code does that a reader might not expect

* `waitForFirstEvent` takes at most one line off its buffer per chunk.  When the first line is
  blank, an event that is already buffered can be missed, as
  `FirstEvent.BlankLineHidesAnEvent` shows.  `FirstEvent.FirstEventExact` says for which texts the
  answer is independent of the chunking: those whose first line is not blank and those with no
  event at all.
* Once the child's output has ended, the wait of `waitFor` is void: `Promise.race` settles on
  the finished pump.  A call that finds nothing looks again without time passing, any number of
  times before its deadline, and each look leaves a waiter that nobody notifies
  (`RpcHarness.FinishedPumpSpins`); while the pump reads, looks are spaced
  (`RpcHarness.TurnsAreSpaced`, `RpcHarness.DeliveryWakes`).
* `buildRedPng` and `pngChunk` check that numbers fit 32 bits, not the limits of RFC 2083: a
  length or dimension of at most 2^31 - 1, and no dimension of zero.  `Png.RedPictureExact` says
  that the file is a valid picture exactly within these limits.
* The editor's second pass changes nothing for every cap, not only for caps that are whole
  milliseconds (`CastEditor.SecondPassIsIdentity`).
* `--limit 0.5` is accepted, being positive, and becomes a limit of 0: no row is selected
  exactly when the last `--limit` is below 1 or nothing matches (`MemoryDump.LimitIsZero`).
* The budget of five iterations covers a killed child that needs up to 20 seconds to go.  A
  second timeout of one iteration ends the loop, so only the last iteration can use both
  attempts in full (`Supervisor.BudgetExact`).
* When a signal is refused with an error other than ESRCH, the supervisor stops with that error
  and does not wait for the child.  `SupervisorOutcomes.AChildCanBeLeft` gives such a run, and
  `SupervisorOutcomes.AChildOutlivesTheTest` says that a run ends with a child alive exactly
  when a signal to a child it started was refused.
* The supervisor waits without a deadline for a killed child and for open pipes.  It hangs
  exactly when a child it started is never reaped after SIGKILL, or keeps its pipes open
  without a refused signal (`SupervisorOutcomes.ARunCanHang`, `SupervisorOutcomes.HowRunsEnd`).

## Model

| member | source | states |
|---|---|---|
| Checksum.CrcTable | evals/rpc.eval.ts:66-74 | every entry of the filled table is eight single-bit steps of its index |
| Checksum.Crc32 | evals/rpc.eval.ts:76-80 | the byte-at-a-time loop returns, for every buffer, the value of the bit-serial register with all-ones preset and final complement |
| Checksum.ByteStep | evals/rpc.eval.ts:78 | one table lookup and shift does what feeding the eight bits of a byte does, for every register |
| CrcPolynomial.BitsExact | evals/rpc.eval.ts:78 | the message bits are the bits of each byte from the lowest up, byte after byte |
| Checksum.StepsXor | evals/rpc.eval.ts:70 | any number of register steps is linear over exclusive or |
| CrcPolynomial.GeneratorTail | evals/rpc.eval.ts:70 | the constant 0xedb88320 is the generator polynomial listed in section 3.4 of RFC 2083, reflected |
| CrcPolynomial.Division | evals/rpc.eval.ts:66-80 | message times x^32 plus the preset equals quotient times generator plus the register, for every message and register |
| CrcPolynomial.RemainderIsUnique | evals/rpc.eval.ts:66-80 | two divisions of one polynomial by the generator with 32-bit remainders have the same quotient and remainder |
| CrcPolynomial.CrcIsRemainder | evals/rpc.eval.ts:76-80 | 32 bits are the remainder of dividing the preset message, times x^32, by the generator if and only if they are the complemented CRC |
| CrcPolynomial.CollisionsAreMultiples | evals/rpc.eval.ts:76-80 | two messages of one length have the same CRC if and only if they are equal or their bit difference is a multiple of the generator |
| CrcPolynomial.BurstDetected | evals/rpc.eval.ts:76-80 | different messages of one length whose differing bits lie in a window of 32 consecutive bits have different CRCs |
| Png.WriteUInt32BE | evals/rpc.eval.ts:41-42 | writes four big-endian bytes at the offset and nothing else, or refuses a value of 2^32 or more and leaves the buffer |
| Png.BigEndian | evals/rpc.eval.ts:41-42 | the four bytes are the digits of the number to base 256, the most significant first |
| Png.PngChunk | evals/rpc.eval.ts:57-64 | returns length, type, data and the CRC of type and data, or a range error exactly when the length needs more than 32 bits |
| Png.FillScanlines | evals/rpc.eval.ts:27-38 | for every size all writes are in bounds, every offset is written exactly once and in order, and every byte is determined: each scanline a filter byte 0 and red pixels |
| Png.ScanlinesAreRed | evals/rpc.eval.ts:27-38 | unfiltering the scanlines gives an image of the given width and height with every pixel (220, 30, 30) |
| Png.BuildRedPng | evals/rpc.eval.ts:26-55 | the bytes before base64 are signature, IHDR, IDAT with the deflated scanlines and an empty IEND, or a range error exactly when a number does not fit |
| Png.FileExact | evals/rpc.eval.ts:48-64 | the file byte for byte: the eight signature bytes, then each chunk as its length, type, data and CRC of type and data, with the types and the header codes as numbers |
| Png.ReaderInvertsWriter | evals/rpc.eval.ts:48-64 | the strict reader yields a chunk list if and only if the bytes are the signature and the encodings of these chunks, none of them over the length limit |
| Png.RedPngReadsBack | evals/rpc.eval.ts:26-55 | the file is read to its last byte into IHDR, IDAT and an empty IEND exactly when the payload keeps the length limit, and the header is sound, with the size as both dimensions, exactly when the size is from 1 to 2^31 - 1 |
| Png.RedPictureExact | evals/rpc.eval.ts:26-55 | the whole file decodes to a picture if and only if size and payload keep the limits of the standard, and the picture is solid red of that size |
| Png.BurstInChunkRejected | evals/rpc.eval.ts:57-64 | a chunk whose type or data was changed within 32 consecutive bits is rejected by its stored CRC |
| JsonLines.CutConcat | evals/task-rpc-heartbeat.eval.ts:193-204 | cutting a text into lines can stop anywhere and continue from the carried-over tail |
| JsonLines.CutIsUnique | evals/task-rpc-heartbeat.eval.ts:198-204 | the lines and tail found are the only way to read a text as newline-terminated lines and a newline-free rest |
| JsonLines.JoinCut | evals/task-rpc-heartbeat.eval.ts:198-204 | nothing is lost: lines and tail put together are the text |
| JsonLines.StrictIsKeep | evals/memory-multi-cli-lock.eval.ts:207-213 | the strict and the tolerant reader agree up to the first line that does not parse |
| JsonLines.TrimExact | evals/task-rpc-heartbeat.eval.ts:200 | a text is space, its trimmed form, and space; the trimmed form has no space at its ends and is empty if and only if all is space |
| JsonLines.SpacesAre | evals/task-rpc-heartbeat.eval.ts:200 | the characters that count as space, by code point |
| JsonLines.FailsExactly | evals/task-rpc-heartbeat.eval.ts:202 | the strict reader fails if and only if some complete line is neither blank nor parses |
| JsonLines.StrictEvents | evals/task-rpc-heartbeat.eval.ts:199-204 | its events are the parses of the non-blank lines before the first bad one, all and in order |
| JsonLines.KeepExact | evals/memory-multi-cli-lock.eval.ts:207-213 | the tolerant readers keep one event for each non-blank line that parses, in order |
| JsonLines.DrainBuffer | evals/memory-multi-cli-lock.eval.ts:203-215 | the inner loop emits the events of the complete lines and keeps the unterminated rest |
| JsonLines.DrainJsonLines | evals/memory-multi-cli-lock.eval.ts:191-220 | under every chunking, the events of the complete lines of the whole stream, bad lines skipped |
| JsonLines.ParseJsonLines | evals/memory-multi-cli-lock.eval.ts:252-264 | the events of all pieces between newlines, the last one included |
| JsonLines.BatchAddsTheTail | evals/memory-multi-cli-lock.eval.ts:191-264 | batch is streaming plus the one event of an unterminated last line, exactly when that line is not blank and parses |
| FirstEvent.WaitForFirstEvent | evals/memory-multi-cli-lock.eval.ts:138-172 | the loop over chunks computes the function that FirstOfTaken and FirstLineExact characterise |
| FirstEvent.FirstOfTaken | evals/memory-multi-cli-lock.eval.ts:147-168 | for every chunking the answer is that of the first n complete lines of the stream, where each chunk raises n by at most one and never past the complete lines |
| FirstEvent.FirstLineExact | evals/memory-multi-cli-lock.eval.ts:158-166 | on a list of lines the answer is nothing if and only if all are blank, else the first that is not, parsed, or the parse error |
| FirstEvent.OneLineEach | evals/memory-multi-cli-lock.eval.ts:147-168 | when no chunk holds more than one newline, the answer is that of all complete lines |
| FirstEvent.FirstEventExact | evals/memory-multi-cli-lock.eval.ts:157-166 | the answer is the first non-blank complete line under every chunking if and only if the first line is not blank or all are, or there is none |
| FirstEvent.BlankLineHidesAnEvent | evals/memory-multi-cli-lock.eval.ts:156-166 | for a chunk with a blank line before an event the loop finds nothing, though the event is a complete line |
| JsonLines.FrameReadsBack | evals/task-rpc-heartbeat.eval.ts:155-158 | messages printed and newline-terminated are read back as themselves with nothing left over |
| RpcHarness.RpcHarness.constructor | evals/task-rpc-heartbeat.eval.ts:145-153 | a new harness has an empty log, an empty buffer and no waiter |
| RpcHarness.RpcHarness.Notify | evals/task-rpc-heartbeat.eval.ts:214-217 | every registered waiter is resolved and the set is emptied; nothing else changes |
| RpcHarness.RpcHarness.Deliver | evals/task-rpc-heartbeat.eval.ts:195-211 | one turn of the pump pushes the events of the completed lines, keeps the rest and notifies, also when a line fails to parse |
| RpcHarness.RpcHarness.Poll | evals/task-rpc-heartbeat.eval.ts:164-179 | one turn of a waiting call: earliest match, timeout, or registration and a sleep of at most 250 ms |
| RpcHarness.FindIsEarliest | evals/task-rpc-heartbeat.eval.ts:166-167 | the lookup gives the earliest match of the log, and none only when nothing matches |
| RpcHarness.StepKeepsInv | evals/task-rpc-heartbeat.eval.ts:144-218 | every atomic action keeps the invariant of log, buffer, waiters and calls |
| RpcHarness.RunKeepsInv | evals/task-lost-resume-rpc.eval.ts:230-301 | the invariant holds after every schedule of pump, timers and any number of calls |
| RpcHarness.NoLostWakeup | evals/task-rpc-heartbeat.eval.ts:160-217 | in every interleaving a sleeping call whose event is in the log has been resolved, and its next turn returns the earliest match |
| RpcHarness.HowCallsEnd | evals/task-rpc-heartbeat.eval.ts:160-180 | a call returns the earliest match of the log, times out only at or after its deadline with no match at the last check, and throws the pump's error only when the log holds no match |
| RpcHarness.LookExact | evals/task-rpc-heartbeat.eval.ts:165-178 | in every schedule a turn of a ready call returns the earliest match, throws the timeout error when nothing matches and the deadline is reached, and else registers a fresh waiter and sleeps for 250 ms or the rest of its time; nothing else changes |
| RpcHarness.StartExact | evals/task-rpc-heartbeat.eval.ts:160-164 | a call starts ready to look, with its deadline the timeout from now |
| RpcHarness.ResultIsOfTheStream | evals/task-rpc-heartbeat.eval.ts:160-180 | the event a call returns is the first match of the whole stream, so it depends neither on chunking nor on schedule and is not consumed |
| RpcHarness.LogOfAnyChunking | evals/task-rpc-heartbeat.eval.ts:190-212 | after every schedule the log is the parse of the complete lines delivered and the buffer their newline-free rest; the pump has failed exactly when a line did not parse |
| RpcHarness.DeliveryExact | evals/task-rpc-heartbeat.eval.ts:195-216 | in every schedule a turn of the pump ends failed if and only if a delivered line is bad, else finished if and only if the stream is; every waiter is resolved, none is kept, and no event is taken from the log |
| RpcHarness.SentMessagesArrive | evals/task-rpc-heartbeat.eval.ts:155-212 | messages framed as `send` does are all in the log, in order, under every chunking and schedule |
| RpcHarness.TurnsAreSpaced | evals/task-rpc-heartbeat.eval.ts:172-178 | while the pump reads and delivers nothing, a call that found nothing can look again if and only if 250 ms or the rest of its time are over, whatever else happens |
| RpcHarness.DeliveryWakes | evals/task-rpc-heartbeat.eval.ts:196-216 | every delivered chunk wakes every sleeping call, in every schedule |
| RpcHarness.FinishedPumpSpins | evals/task-rpc-heartbeat.eval.ts:165-178 | after the stream has ended a call that finds nothing can look any number of times while no time passes, and each look adds a waiter |
| Occurrences.IndexOf | evals/memory-reflect.eval.ts:84 | the first occurrence at or after a position, or -1 when there is none |
| Occurrences.CountOccurrences | evals/memory-reflect.eval.ts:79-89 | terminates and returns the largest size of any set of non-overlapping occurrences, and 0 for an empty needle |
| Occurrences.GreedyStep | evals/memory-reflect.eval.ts:84-87 | no set of non-overlapping occurrences beats taking the leftmost one and the best of the rest |
| CastEditor.TotalDuration | scripts/edit-cast.ts:31-32 | the loop returns the sum of all deltas |
| CastEditor.EditCast | scripts/edit-cast.ts:33-52 | the output is one contiguous run of the input, bounded by the head and tail windows, kind and data unchanged, each delta zeroed, capped, scaled and rounded |
| CastEditor.EditExact | scripts/edit-cast.ts:35-52 | the output in terms of the input: the bounds of the kept run in arrival times, kind and data of each line those of its event, the first delta 0, every other the rounded quotient of the delta, or of the cap if that is less, and the speed |
| CastEditor.EditIsUnique | scripts/edit-cast.ts:35-52 | the two windows leave one output, so the edit is a function of events and options |
| CastEditor.KeptExactly | scripts/edit-cast.ts:42-43 | with non-negative deltas an event is kept if and only if it is in neither window |
| CastEditor.Contraction | scripts/edit-cast.ts:45-50 | between any two kept events the unrounded output distance is at most the source distance over the speed and at most the number of gaps times the cap over the speed |
| CastEditor.RoundingError | scripts/edit-cast.ts:51 | rounding moves a delta by at most half a millisecond |
| CastEditor.RoundExact | scripts/edit-cast.ts:51 | rounding gives the nearest whole number of milliseconds, of two the larger in magnitude |
| CastEditor.TotalRoundingError | scripts/edit-cast.ts:51-55 | the written total differs from the exact one by at most half a millisecond for every event but the first |
| CastEditor.CapRoundTwice | scripts/edit-cast.ts:48-51 | capping and rounding a delta twice is doing it once, for every delta and cap |
| CastEditor.SecondPassIsIdentity | scripts/edit-cast.ts:35-52 | without drops and at speed 1 a second pass changes no event, for every input and cap |
| MemoryDump.ParseArgs | scripts/dump-memory.ts:94-167 | the cursor loop computes the parser function on every argv and ends |
| MemoryDump.AcceptsExactly | scripts/dump-memory.ts:94-167 | a command line is accepted with some options if and only if it is a sequence of known flags with valid values that sets them in order |
| MemoryDump.RejectsExactly | scripts/dump-memory.ts:104-165 | it gives up with help, an unknown option, a missing or a bad value if and only if that stands first behind valid settings |
| MemoryDump.SwitchFlags | scripts/dump-memory.ts:156-161 | `--pretty` and `--stats` set their option and take one argument |
| MemoryDump.PathFlags | scripts/dump-memory.ts:116-121 | `--db` and `--out` set the resolved path that follows |
| MemoryDump.CollectingFlags | scripts/dump-memory.ts:136-149 | `--session` and `--tag` add the argument that follows |
| MemoryDump.WordFlags | scripts/dump-memory.ts:122-146 | `--kind` and `--priority` accept exactly their three words and fail on any other |
| MemoryDump.TimeFlags | scripts/dump-memory.ts:130-135 | `--since` and `--until` set the parsed time or fail |
| MemoryDump.LimitFlag | scripts/dump-memory.ts:150-155 | `--limit` sets the whole part of a finite positive number and fails on anything else |
| MemoryDump.OtherArguments | scripts/dump-memory.ts:105-115 | `-h` and `--help` ask for help, a flag at the end lacks its value, any other argument is unknown |
| MemoryDump.ParsedIsExplained | scripts/dump-memory.ts:95-161 | scalar flags take the last value, sessions and priorities are collected, tags accumulate in order |
| MemoryDump.OrderOfFlagsIrrelevant | scripts/dump-memory.ts:94-167 | two command lines with the same values for each flag, in the same order per flag, parse alike |
| MemoryDump.PrintParse | scripts/dump-memory.ts:94-167 | any printable options written as flags in any order parse back to themselves |
| MemoryDump.EveryOptionsHasACommandLine | scripts/dump-memory.ts:94-167 | such a command line exists for all printable options |
| MemoryDump.RowMatches | scripts/dump-memory.ts:169-184 | the early returns and the tag loop decide the match predicate |
| MemoryDump.MatchesExactly | scripts/dump-memory.ts:169-184 | a row is refused if and only if the kind differs, it is too old or too new, its session or priority is not among those given, or a tag is missing; an option not given refuses nothing |
| MemoryDump.FilterConcat | scripts/dump-memory.ts:197 | the filter goes through the rows in their order |
| MemoryDump.FilterKeeps | scripts/dump-memory.ts:169-197 | every matching row is kept as often as it occurs, and no other |
| MemoryDump.SelectIsTopK | scripts/dump-memory.ts:197-200 | the rows are newest first, of the matching rows and min(limit, matches) in number, and no omitted matching row is newer than an included one |
| MemoryDump.LimitOnlyExtends | scripts/dump-memory.ts:199-200 | raising or dropping the limit only adds rows at the end; rows of one time keep their order |
| MemoryDump.LimitIsZero | scripts/dump-memory.ts:150-155 | for every accepted command line the limit is 0 if and only if the last `--limit` is below 1, and no row is selected if and only if that holds or none matches |
| Sorting.SortKeepsPromises | scripts/dump-memory.ts:199 | the sort function keeps the two promises of the built-in, order and stability, and the elements |
| Sorting.Determined | evals/model-routing-classifier.eval.ts:72 | order and stability leave only one result |
| Percentile.NearestRank | evals/model-routing-classifier.eval.ts:71-75 | the least member with at least ceil(p * n) values at most it, with the rank clamped to 1..n for other p |
| Percentile.NearestRankExact | evals/model-routing-classifier.eval.ts:71-75 | for a fraction the rank is the integer r with p * n <= r < p * n + 1, and 1 or n below and above; an empty list gives nothing |
| Percentile.PermutationInvariant | evals/model-routing-classifier.eval.ts:71-75 | the order of the values does not matter |
| Percentile.MonotoneInFraction | evals/model-routing-classifier.eval.ts:71-75 | a larger fraction never gives a smaller value |
| Supervisor.Supervisor.Race | evals/state-machine-agent-stays-in-state-scope.eval.ts:80-83 | model of the built-in race between an exit and a timer: the earlier one settles it, a tie goes either way, time moves to it |
| Supervisor.Supervisor.RunAttemptProcess | evals/state-machine-agent-stays-in-state-scope.eval.ts:68-105 | log, end time and outcome of one attempt for every behaviour of the child, refused signals and unclosed pipes included |
| Supervisor.Supervisor.RunWithOneTimeoutRetry | evals/state-machine-agent-stays-in-state-scope.eval.ts:58-66 | a second attempt is made after a timeout error and only then |
| Supervisor.Supervisor.RunTest | evals/state-machine-agent-stays-in-state-scope.eval.ts:40-51 | the iteration loop: its whole log, end time, over-reaches and outcome |
| Supervisor.EveryRunObeys | evals/state-machine-agent-stays-in-state-scope.eval.ts:36-113 | the log of every schedule passes the protocol monitor |
| Supervisor.NeverTwoChildren | evals/state-machine-agent-stays-in-state-scope.eval.ts:58-105 | at every point of every schedule at most one child lives, and an iteration starts at most two |
| Supervisor.EveryEventJustified | evals/state-machine-agent-stays-in-state-scope.eval.ts:78-105 | returns and timeout errors directly follow the exit, SIGKILL follows SIGTERM by at least the grace, SIGTERM follows the spawn by at least the deadline |
| Supervisor.ResultIsNeverRetried | evals/state-machine-agent-stays-in-state-scope.eval.ts:58-66 | after an iteration has returned, over-reach or not, no child of it is started |
| Supervisor.OnlyTimeoutsAreRetried | evals/state-machine-agent-stays-in-state-scope.eval.ts:58-66 | a second child of an iteration directly follows a timeout error |
| Supervisor.EveryOverReachNoted | evals/state-machine-agent-stays-in-state-scope.eval.ts:46-50 | the number of notes is the number of over-reaching returns in the log; which iterations they are is stated by OverReachesExact |
| Supervisor.LoopTime | evals/state-machine-agent-stays-in-state-scope.eval.ts:41-42 | when timers are on time, pipes close at the exit and killed children go within x, the run does not hang and ends within a bound linear in the number of iterations |
| Supervisor.BudgetExact | evals/state-machine-agent-stays-in-state-scope.eval.ts:54 | under the same conditions five iterations come to an end within the declared budget in every schedule if and only if a killed child goes within 20 seconds |
| SupervisorOutcomes.WhenAChildIsLeft | evals/state-machine-agent-stays-in-state-scope.eval.ts:78-113 | an attempt starts one child and sees its exit, unless a signal to it is refused or it is never reaped after SIGKILL |
| SupervisorOutcomes.HowAttemptsEnd | evals/state-machine-agent-stays-in-state-scope.eval.ts:78-104 | in the fields of the child, exactly when an attempt hangs, times out, returns which verdict, or fails: a result if and only if the exit is in time, the pipes close, the code is 0 and that verdict was printed |
| SupervisorOutcomes.InTime | evals/state-machine-agent-stays-in-state-scope.eval.ts:80-104 | log and end time of an attempt that exits before the deadline |
| SupervisorOutcomes.EndedByTerm | evals/state-machine-agent-stays-in-state-scope.eval.ts:80-88 | log and end time of an attempt that SIGTERM ends, from the 180 seconds and the child's times |
| SupervisorOutcomes.EndedByKill | evals/state-machine-agent-stays-in-state-scope.eval.ts:80-88 | the same for an attempt that SIGKILL ends after 5 seconds of grace |
| SupervisorOutcomes.EndedByRefusal | evals/state-machine-agent-stays-in-state-scope.eval.ts:81-113 | the same for an attempt that a refused signal ends at once |
| SupervisorOutcomes.AChildCanBeLeft | evals/state-machine-agent-stays-in-state-scope.eval.ts:81-113 | a run that ends with an error, one child started and none seen to exit |
| SupervisorOutcomes.ARunCanHang | evals/state-machine-agent-stays-in-state-scope.eval.ts:91 | a run that never ends although its only child was seen to exit |
| SupervisorOutcomes.HowRunsEnd | evals/state-machine-agent-stays-in-state-scope.eval.ts:41-105 | in every schedule a run has as many exits as spawns if and only if no child it started was left behind, otherwise one fewer; it hangs if and only if one of them hangs |
| SupervisorOutcomes.AChildOutlivesTheTest | evals/state-machine-agent-stays-in-state-scope.eval.ts:41-113 | a run ends with a child alive if and only if a signal to a child it started was refused |
| SupervisorOutcomes.OverReachesExact | evals/state-machine-agent-stays-in-state-scope.eval.ts:41-51 | an iteration is noted if and only if all before it returned and its deciding attempt returned an over-reach; the notes are strictly increasing |
| SupervisorOutcomes.PassesExactly | evals/state-machine-agent-stays-in-state-scope.eval.ts:40-52 | the test passes if and only if in every iteration the deciding attempt returned in time and stayed in scope |

## Left out

- deflate and inflate are functions with inflate(deflate(x)) = x; base64 and the compressed format are not modelled.
- Arithmetic of the editor and the percentile is over real numbers; binary floating point, infinities and not-a-number arguments are not modelled.
- The cast header, blank-line filtering, flag lookup and console output of the editor are not modelled.
- JSON text is a parse and a stringify function; for the round trip they are required to invert each other and stringified text to be newline-free and without white space at its ends. Decoding bytes to text and the request id `send` adds are not modelled.
- RpcHarness.RpcHarness.Deliver: works on decoded text; `reader.read()` failing is not modelled.
- FirstEvent.WaitForFirstEvent: takes the chunks that arrive before the stream ends or the time is up; its clock is not modelled.
- Clocks are numbers that do not go back; a predicate that throws is not modelled.
- `killGroup`, `waitForFile`, stderr and process start of the harnesses are not modelled.
- MemoryDump.PrintParse: takes the printing of times and limits as a parameter, with parsing as its inverse; date syntax, `Number` and path resolution are parameters of the parser.
- The dump's database access, JSON output, help text and statistics are not modelled.
- The child process, its pipes and the runtime's own test timeout are inputs of the supervisor; looking for the result line in the child's output is one field of its schedule.
- `expectedRoutes`, `classifierInputTokens` and the scorecard of the classifier eval are left out: single expressions and bookkeeping.
- Whatever a model, a judge or a rubric decides is not modelled.
