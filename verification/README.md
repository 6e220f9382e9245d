# Brainfuck interpreters, modelled in Dafny

The repository holds two Brainfuck interpreters written in Python.

- `brainfuck_optimized.py`: the class `BrainfuckInterpreter`. It filters the
  source down to the eight commands and precomputes a bracket map, failing on
  unmatched brackets. Its `run` loop executes one command per iteration on a
  byte tape that grows at either end. `clear` resets the run state.
- `brainfuck.py`: the function `brainfuck_to_python`. It uses the same tape
  and cell rules. It finds the partner of a `[` over a zero cell by scanning
  forward, and it loops back through a stack of open `[` positions. At a `]`
  over a nonzero cell it tries two shortcuts: the clear loop `[-]`/`[+]`
  (`clear_cell`) and a multiply loop (`multiply_loop`).

The model has these parts:

- `Tokenizer`: the command filter shared by both interpreters.
- `Tape`: byte cells with modulo-256 arithmetic.
- `Semantics`: the reference meaning of one iteration of the run loop, with
  `[` and `]` jumping through a bracket table. `Exec` runs a bounded number
  of iterations.
- `JumpResolver`: bracket nesting and matching, and `build_bracket_map`.
  The imperative scan is proved to succeed exactly on well-formed code, and
  then to yield the one correct table.
- `JumpTableEngine`: the class `BrainfuckInterpreter` with its mutable
  fields. `Run` is proved to be `Exec` of the reference semantics.
- `LoopIdioms`: the clear and multiply shortcuts. `multiply_loop` is an
  imperative walk that records a dictionary of per-cell changes and then
  applies them. Both shortcuts are proved sound: each is equal to running the
  loop step by step.
- `RescanEngine`: `brainfuck_to_python` with the shortcuts corrected. On
  well-formed code it is proved never to fail, and to stop in the state the
  reference semantics reaches.
- `AsWritten`: the main loop of `brainfuck.py` as written, with its `]`
  branch and `multiply_loop`, and proved inputs on which they go wrong (see
  Findings). The walk of lines 10-25 cannot run as written, since `pc` is
  unbound there. It is modelled as it would run once `pc` were bound to the
  loop body, starting just past the `[`. The apply loop of lines 26-28 is
  modelled exactly as written.
- `AsWrittenAgrees`: the partner of the code as written. In well-formed
  code none of whose loops is a clear loop or passes the literal multiply
  test, each iteration as written is one reference step, and a run as
  written is the reference run.

Both interpreters take the input as bytes and produce the output as bytes.
A run is bounded by a `fuel` count of loop iterations.

## Model

| member | source | states |
|---|---|---|
| Tokenizer.Filter | brainfuck_optimized.py:3 | the code holds only the eight command characters, each taken from the text, and is no longer than the text |
| Tokenizer.FilterSingle | brainfuck.py:30 | a single character survives exactly when it is one of the eight commands |
| Tokenizer.FilterAppend | brainfuck.py:30 | filtering keeps order: the commands of a concatenation are the commands of the first part followed by those of the second |
| Tokenizer.FilterKeepsCommandCounts | brainfuck.py:30 | every command occurs in the code as often as in the text, so no command is dropped |
| Tokenizer.FilterKeepsPrograms | brainfuck_optimized.py:3 | text made only of commands passes through unchanged |
| Tokenizer.FilterIdempotent | brainfuck_optimized.py:3 | filtering filtered code changes nothing |
| Tape.Inc | brainfuck.py:50-51 | `+` adds one to the cell and wraps 255 to 0 |
| Tape.Dec | brainfuck.py:52-53 | `-` takes one from the cell and wraps 0 to 255, as Python's floored `%` does |
| Tape.Zeros | brainfuck.py:31 | a fresh tape of `n` cells that are all zero |
| Semantics.Initial | brainfuck_optimized.py:4-10 | a fresh run: pc, pointer and input cursor at 0, empty output, `n` zero cells |
| Semantics.Effect | brainfuck_optimized.py:34-54 | `>` appends a zero cell when it runs off the end; `<` at cell 0 inserts a zero cell in front and stays at 0; `+`/`-` change only the current cell, with wrap-around; `,` stores the next input byte or 0 once the input is used up; `.` appends exactly the current cell to the output; nothing else touches the input cursor or the output |
| Semantics.Step | brainfuck_optimized.py:55-65 | one iteration is the command's effect followed by `pc += 1`; a `[` over a zero cell or a `]` over a nonzero one first jumps to its table entry |
| Semantics.JumpForward | brainfuck_optimized.py:55-57 | a `[` over a zero cell resumes just past its matching `]` |
| Semantics.JumpBackward | brainfuck_optimized.py:58-60 | a `]` over a nonzero cell resumes just past its matching `[` |
| Semantics.StepLanding | brainfuck_optimized.py:55-65 | with a correct table, every jump lands just past the partner bracket, every other step advances by one, and `pc` never passes the end of the code |
| Semantics.JumpTarget | brainfuck_optimized.py:57-60 | the table entry of every bracket is its matching partner |
| Semantics.TableCovers | brainfuck_optimized.py:57-60 | a correct table has an entry for every bracket, so the two lookups never fail |
| Semantics.Exec | brainfuck_optimized.py:31-65 | the pointer stays on the tape however many iterations run |
| Semantics.ExecMonotone | brainfuck_optimized.py:31-65 | a run only grows the tape, consumes input in order without passing its end, and only appends to the output |
| Semantics.ExecAdd | brainfuck_optimized.py:31 | `a` iterations followed by `b` more are `a + b` iterations |
| Semantics.ExecOne | brainfuck_optimized.py:31-32 | one iteration from a running state is one step |
| Semantics.ExecSnoc | brainfuck_optimized.py:31-32 | one more iteration after `n` is one more step |
| Semantics.ExecPadding | brainfuck_optimized.py:31-65 | two states that differ only in zero cells past the end of the shorter tape stay so for any number of iterations: same `pc`, pointer, input cursor and output |
| Semantics.TapeLengthIrrelevant | brainfuck_optimized.py:72-77 | runs from fresh states over zero tapes of any two lengths keep the same `pc`, pointer, input cursor and output, and tapes that agree but for trailing zeros; so a run after `clear` prints what a run of a fresh interpreter prints |
| Semantics.PlusPlusDot | brainfuck_optimized.py:43-48 | `++.` prints the byte 2 and halts after three iterations |
| Semantics.CommaDot | brainfuck_optimized.py:47-52 | `,.` prints the first input byte and consumes exactly one |
| Semantics.HaltedRunsAgree | brainfuck_optimized.py:31 | once `pc` leaves the code the loop is over: every halting run of a state ends in the same state, whatever bound reached it |
| JumpResolver.OpenShape | brainfuck_optimized.py:17-21 | the stack of open `[` positions holds as many entries as the nesting depth, in increasing order, each a `[` at its own depth that is still open |
| JumpResolver.CloseMatchesTop | brainfuck_optimized.py:20-22 | in code whose prefixes never close more than they open, a `]` pops exactly its matching `[` |
| JumpResolver.OpenAcrossLoop | brainfuck_optimized.py:17-23 | a matched loop leaves the stack of open `[` as it found it |
| JumpResolver.MatchUniqueClose | brainfuck_optimized.py:22 | a `[` has at most one matching `]` |
| JumpResolver.MatchUniqueOpen | brainfuck_optimized.py:23 | a `]` has at most one matching `[` |
| JumpResolver.CloseExists | brainfuck_optimized.py:17-26 | in well-formed code every `[` has a matching `]` |
| JumpResolver.Partner | brainfuck_optimized.py:17-23 | in well-formed code every bracket has its matching partner |
| JumpResolver.JumpTableOf | brainfuck_optimized.py:13-28 | well-formed code has a correct bracket table |
| JumpResolver.JumpTableSymmetric | brainfuck_optimized.py:22-23 | the table is an involution without fixed points: a bracket's partner maps back to it |
| JumpResolver.JumpTableUnique | brainfuck_optimized.py:13-28 | code has at most one correct bracket table |
| JumpResolver.ScanUnmatchedClose | brainfuck_optimized.py:21 | a `]` met with an empty stack closes more than was opened, so the code is not well-formed |
| JumpResolver.ScanDone | brainfuck_optimized.py:25-28 | after the scan the code is well-formed exactly when the stack is empty, and then the map built is a correct table |
| JumpResolver.BuildBracketMap | brainfuck_optimized.py:13-28 | succeeds exactly on well-formed code, and then returns the correct table; otherwise it reports either the first `]` that closes more than was opened (the failing `pop`) or the positions of the still-open `[` (the `ValueError`) |
| JumpTableEngine.BrainfuckInterpreter.constructor | brainfuck_optimized.py:2-11 | the object holds the filtered code, the input and the bracket map, and its run state is a fresh tape of `tape_size` zero cells |
| JumpTableEngine.BrainfuckInterpreter.Create | brainfuck_optimized.py:2-11 | construction succeeds exactly when the filtered source is well-formed; it yields a new valid object over the filtered code in the initial state |
| JumpTableEngine.BrainfuckInterpreter.Cycle | brainfuck_optimized.py:31-65 | one iteration of the loop changes the fields exactly as the reference step does and keeps the object invariant |
| JumpTableEngine.BrainfuckInterpreter.Run | brainfuck_optimized.py:30-67 | the new run state is the reference semantics run from the old one, and the result is the output so far |
| JumpTableEngine.BrainfuckInterpreter.Clear | brainfuck_optimized.py:72-77 | the run state becomes a fresh start over a zero tape of the current length, grown or not (by `Semantics.TapeLengthIrrelevant`, a later run then prints what a fresh interpreter's run prints) |
| LoopIdioms.Classify | brainfuck.py:75-78 | the clear shortcut is chosen exactly for `[-]` and `[+]`; the multiply shortcut exactly for other loops that pass the multiply test; a shortcut is only ever taken for a bracketed body without I/O or nested loops |
| LoopIdioms.WalkAt | brainfuck.py:8-24 | the dictionary the walk builds holds, per cell, the net change one pass of the body makes to it; a missing key means no change |
| LoopIdioms.WalkInside | brainfuck.py:8-24 | a body that stays on the tape only records cells of the tape |
| LoopIdioms.MultiplyByZero | brainfuck.py:6-7 | over a zero counter the multiply shortcut changes nothing |
| LoopIdioms.MultiplyLoop | brainfuck.py:5-28 | the imperative walk and the apply loop leave the counter at 0 and add the counter's old value times each cell's per-pass change to that cell, modulo 256 |
| LoopIdioms.CountdownIsMultiply | brainfuck.py:26-28 | a counter that loses one per pass reaches zero after exactly as many passes as its value, and those passes add up to the multiply shortcut's result |
| LoopIdioms.LoopExits | brainfuck_optimized.py:58-60 | a loop of straight passes whose counter first reaches zero after `k` passes leaves just past its `]` with `k` times each pass's changes on the tape |
| LoopIdioms.MultiplyLoopSound | brainfuck.py:78-80 | from the `]` of a multiply loop, stepping through every pass and the final test reaches the same state as the shortcut |
| LoopIdioms.ClearLoopSound | brainfuck.py:75-77 | from the `]` of `[-]` or `[+]`, stepping through every pass reaches the state past the `]` with the cell cleared and nothing else changed |
| LoopIdioms.DeltaAppend | brainfuck.py:8-24 | the per-cell change of a concatenated body is the change of the first part plus that of the second, shifted by where the first leaves the pointer |
| RescanEngine.ScanForward | brainfuck.py:63-70 | the forward scan stops exactly at the matching `]`; it runs off the end of the code (an `IndexError`) exactly when there is none, which never happens in well-formed code |
| RescanEngine.TopMatches | brainfuck.py:73-84 | in well-formed code, the stack top at a `]` is that `]`'s matching `[` |
| RescanEngine.EmptyStackIllFormed | brainfuck.py:82-84 | a `]` can meet an empty stack only in code that is not well-formed |
| RescanEngine.Command | brainfuck.py:41-61 | the six commands other than brackets act as the reference effect, then `pc += 1` |
| RescanEngine.SkipOver | brainfuck.py:63-70 | a `[` over a zero cell moves `pc` alone, to just past its partner `]`, keeping the stack invariant; it fails exactly when the `[` has no partner |
| RescanEngine.OpenBracket | brainfuck.py:62-72 | over a nonzero cell a `[` pushes its position and enters the loop; over a zero cell it lands past its partner `]` or fails, and only when that `[` has no partner; in well-formed code it never fails and does what one reference step does |
| RescanEngine.ClearShortcut | brainfuck.py:75-77 | `clear_cell` zeroes the cell, pops the `[` and leaves the loop; in well-formed code that is the same state as every pass of `[-]`/`[+]` run step by step |
| RescanEngine.MultiplyShortcut | brainfuck.py:78-80 | the corrected `multiply_loop` adds the counter times each cell's net change per pass, clears the counter, pops the `[` and leaves the loop; in well-formed code that is the same state as every pass of the loop run step by step |
| RescanEngine.LoopBack | brainfuck.py:74-82 | a `]` over a nonzero cell, on any code: a clear loop zeroes the cell and leaves, a multiply loop that fits the tape gets the multiply effect and leaves, both popping the `[`; any other loop resumes just past the `[` on top of the stack, which stays; in well-formed code each is reference steps |
| RescanEngine.CloseBracket | brainfuck.py:73-84 | a `]` fails exactly when the stack is empty, over a zero cell as over a nonzero one, which never happens in well-formed code; over a zero cell it pops and moves on; otherwise it is reference steps |
| RescanEngine.Cycle | brainfuck.py:38-86 | one iteration of the main loop keeps the stack invariant, and in well-formed code it never fails and is one or more reference steps |
| RescanEngine.RunLoop | brainfuck.py:31-88 | in well-formed code the main loop never fails and stops in the state the reference semantics reaches; a successful run has halted or used up its bound |
| RescanEngine.BrainfuckToPython | brainfuck.py:30-88 | on well-formed filtered source the run succeeds and its state (its output is the returned text) is that of the reference semantics with the bracket table from a 30000-cell tape, the same run as the class interpreter's |
| RescanEngine.EnginesAgree | brainfuck.py:30-88 | on well-formed code, a halted run of the class interpreter with any correct bracket map and a halted run of the rescanning interpreter from the same tape end in the same state with the same output |
| AsWritten.ScanAsWritten | brainfuck.py:63-70 | the forward scan as written, on success, stops at a `]` later in the code |
| AsWritten.ScanAsWrittenMatches | brainfuck.py:63-70 | started inside a `[` with the right count of brackets open, the scan as written stops at that `[`'s partner, and fails with `IndexError` only when there is none |
| AsWritten.ScanAsWrittenFindsPartner | brainfuck.py:63-70 | from a `[`, the scan as written returns exactly its partner `]`, and fails with `IndexError` exactly when the `[` has no partner |
| AsWritten.CloseAsWritten | brainfuck.py:73-84 | as written, a `]` on an empty stack fails; over a nonzero cell, the step fails with `UnboundLocalError` exactly when the loop passes the multiply test and is not `[-]`/`[+]`; the clear shortcut pops the `[` and resumes just past it, inside the loop, with the cell at 0; over a zero cell it pops the `[` and moves on; any other loop resumes just past the `[` on top of the stack, which stays |
| AsWritten.StepAsWritten | brainfuck.py:38-86 | one iteration as written keeps the frame sane, and the six non-bracket commands act as the reference effect |
| AsWritten.RunAsWritten | brainfuck.py:38-86 | a run as written that succeeds leaves a sane frame |
| AsWrittenAgrees.StepAsWrittenIsStep | brainfuck.py:38-86 | in well-formed code none of whose loops takes a shortcut, with the stack holding the open `[`, an iteration as written never fails, is one reference step, and keeps the stack holding the open `[` |
| AsWrittenAgrees.RunAsWrittenIsExec | brainfuck.py:31-86 | in such code a run as written never fails and ends in the state of the reference run with the same bound |
| AsWritten.ClearReentersBody | brainfuck.py:75-77 | `++[-]` run as written fails with `IndexError` within seven iterations, where the loop should end with the cell at 0 |
| AsWritten.MultiplyGuardCrashes | brainfuck.py:73-79 | in any sane frame, whatever lies beneath the loop's `[` on the stack, a `]` whose loop passes the literal multiply test and is not `[-]`/`[+]` fails with `UnboundLocalError` when reached over a nonzero counter |
| AsWritten.HelloLoopGuard | brainfuck.py:91 | the first loop of the demo program spans positions 10 to 41, passes the literal multiply test and is no clear loop |
| AsWritten.HelloWorldCrashes | brainfuck.py:73-79 | in the demo program, an iteration as written at its first loop's `]` (position 41), with only that loop's `[` open and a nonzero counter, fails with `UnboundLocalError` |
| AsWritten.HelloWorldRun | brainfuck.py:31-92 | the demo program run as written on a tape of at least five cells: 41 iterations reach the first loop's `]` with the counter at 9 and nothing printed, and the 42nd fails with `UnboundLocalError` |
| AsWritten.HelloLoopMultiplies | brainfuck.py:91 | the demo's first loop is a multiply loop that adds 7, 10, 3 and 1 times the counter to the next four cells |
| AsWritten.Record | brainfuck.py:15-24 | recording a change keeps the existing keys in their order |
| AsWritten.Recorded | brainfuck.py:10-25 | the walk, once `pc` is bound to the loop body, drops no entry and keeps the first key first, as a dictionary keeps insertion order |
| AsWritten.RecordLookup | brainfuck.py:15-24 | recording `d` at a key adds `d` to that key's value and to no other |
| AsWritten.RecordedIsWalk | brainfuck.py:8-25 | read as a dictionary, the walk as written records what the corrected walk records: per cell, the net change of one pass |
| AsWritten.ApplyAsWritten | brainfuck.py:26-28 | the apply loop as written, on success, keeps the tape length and leaves the counter at 0 |
| AsWritten.ZeroCounterApply | brainfuck.py:26-27 | over a zero counter the apply loop as written changes nothing |
| AsWritten.CounterFirstLosesProduct | brainfuck.py:26-27 | for any multiply-loop body that starts with `-`, the apply loop as written only clears the counter and adds nothing to any other cell |
| AsWritten.LiveCounterRead | brainfuck.py:26-27 | on `[->>+<<]` with a counter of 3, the apply loop as written leaves the target at 0, where the loop puts 3 there |
| AsWritten.NoWrapAround | brainfuck.py:27 | on `[>>++<<-]` with a counter of 200, the apply loop as written stores 400 in a cell, where the loop leaves 144 |
| AsWritten.GuardAdmitsOutput | brainfuck.py:78 | the literal multiply test admits `[>>.<<-]`, which has output in its body; the corrected test refuses it |
| AsWritten.GuardAdmitsDrift | brainfuck.py:78 | the literal multiply test admits `[>>+<-<<]`, whose pointer drifts each pass; the corrected test refuses it |
| AsWritten.GuardAdmitsDoubleStep | brainfuck.py:78 | the literal multiply test admits `[>>+<<--]`, which takes two off its counter per pass; the corrected test refuses it |

## Left out

- `print_debug_info` and the `debug` flag of `run` (brainfuck_optimized.py:62-63, 69-70): they only print to the console.
- The demo lines that build and print a run (brainfuck_optimized.py:80-82, brainfuck.py:90-92): console output. The demo program itself is modelled as a constant, for the crash proof.
- `chr` and `ord`: input and output are modelled as bytes. An input character whose code point is above 255, which `,` would store as a cell value above 255, is not modelled.
- Non-termination: both run loops take a `fuel` bound on iterations, and a program that does not halt simply uses up its bound.
- The field `self.stack` (brainfuck_optimized.py:9) is never used by the class and is not modelled.
- `whitespace_interpreter.py` is not part of this model.
- Python exceptions are modelled as error values. `JumpResolver.BracketError` covers the failing `pop` and the `ValueError`. `RescanEngine.RunError` covers the `IndexError` of a scan that runs off the code or of a `]` on an empty stack. `AsWritten.Crash` covers the exceptions of the code as written.
- The code of `brainfuck.py` as written is modelled by functions on values (module `AsWritten`), not as an imperative loop. Its purpose is to exhibit the findings below.
- JumpTableEngine.BrainfuckInterpreter.constructor: requires a tape of at least one cell, because the model keeps the pointer on the tape at all times. The source accepts `tape_size=0`. A `<` then inserts a cell and puts the pointer on it; a `>` appends a cell but leaves the pointer one past the end, where each further `>` keeps it. The source fails with `IndexError` only when a command reads or writes the current cell while the pointer is off the tape. Runs from an empty tape are not modelled.
- JumpTableEngine.BrainfuckInterpreter.Create: requires a tape of at least one cell, for the same reason.
- RescanEngine.BrainfuckToPython: on code that is not well-formed it only states that a successful run has halted or used up its bound. It does not state at which command the `IndexError` is raised.
- RescanEngine.LoopBack: uses the corrected multiply test, and takes the multiply shortcut only when every cell the body visits is on the current tape. Otherwise it falls back to looping. The source applies offsets that can fall off the tape.

## Findings

| source | as written | input that shows it | evidently intended | confidence | as-written member | corrected member |
|---|---|---|---|---|---|---|
| brainfuck.py:77 | after `clear_cell`, `pc = stack.pop()` resumes just past the `[`, inside the loop, with the `[` already popped | `++[-]`: the cell is cleared, the `-` wraps it to 255, and the `]` then fails with `IndexError` on the empty stack | leave the loop: continue past the `]` with the cell at 0 | high (proved, not executed) | AsWritten.ClearReentersBody | RescanEngine.ClearShortcut |
| brainfuck.py:10-25 | `pc += 1` inside `multiply_loop` makes `pc` local to it, so `code[pc]` raises `UnboundLocalError` whenever the counter is nonzero | the demo program at brainfuck.py:91: its first loop passes the multiply test and its `]` is first reached with the counter at 9 | walk the loop body from `stack[-1] + 1`, just past the `[`, up to its `]`; merely sharing the caller's `pc` would not do, since the call is made with `pc` on the `]` and the walk would end at once | high (proved, not executed) | AsWritten.HelloWorldRun | LoopIdioms.MultiplyLoop |
| brainfuck.py:26-27 | once the walk of lines 10-25 is fixed to start past the `[` (as written, line 10 raises first), each offset is applied with `tape[pointer]` read anew after the counter's own entry may have zeroed it, and without `% 256` | `[->>+<<]` with a counter of 3 leaves the target at 0 instead of 3; `[>>++<<-]` with a counter of 200 stores 400 instead of 144 | read the counter once, skip its own entry, and reduce each cell modulo 256 | medium (proved on the walk as it would run once fixed; not executed) | AsWritten.CounterFirstLosesProduct | LoopIdioms.MultiplyLoop |
| brainfuck.py:78 | the multiply test only counts `>` and `<` in the loop text | `[>>.<<-]`, `[>>+<-<<]` and `[>>+<<--]` all pass it, though none of them is a multiply loop | also require a body of moves and increments that returns the pointer and takes one off the counter per pass | high (proved, not executed) | AsWritten.GuardAdmitsDrift | LoopIdioms.Classify |
