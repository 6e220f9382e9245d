/**
 * The rescanning engine of brainfuck.py, `brainfuck_to_python`: the tape,
 * cell and I/O rules of the jump-table engine, but a `[` on a zero cell finds
 * its partner by counting nesting while scanning forward, a `]` loops back
 * through a stack of open loop starts, and two loop shortcuts may be taken at
 * a `]` with a nonzero cell. The shortcuts here are the corrected ones; the
 * code as written is in module AsWritten.
 */
module RescanEngine {
  import opened Wrappers
  import opened Tokenizer
  import opened Tape
  import opened JumpResolver
  import opened Semantics
  import opened LoopIdioms

  /** The tape length `brainfuck_to_python` starts with. */
  const TapeSize: nat := 30000

  /** The two ways a run ends in an IndexError. */
  datatype RunError =
    | ScanRanOff(open: nat)    // the forward scan from the `[` at `open` reads past the end
    | EmptyStack(close: nat)   // the `]` at `close` reads or pops an empty stack

  /** The forward scan from the `[` at `start` over a zero cell: count nesting
      until it drops back to zero. It stops exactly at the partner `]`, and
      runs off the end (an IndexError) exactly when there is none. */
  method ScanForward(code: string, start: nat) returns (r: Option<nat>)
    requires start < |code| && code[start] == '['
    ensures r.Some? ==> Matches(code, start, r.value)
    ensures r.None? ==> forall q :: !Matches(code, start, q)
    ensures WellFormed(code) ==> r.Some?
  {
    var openBrackets := 1;
    var pc := start;
    while openBrackets != 0
      invariant start <= pc < |code| && openBrackets >= 0
      invariant openBrackets == Depth(code, pc + 1) - Depth(code, start)
      invariant forall k :: start < k <= pc ==> Depth(code, k) > Depth(code, start)
      decreases |code| - pc
    {
      if pc + 1 == |code| {
        NoClose(code, start);
        return None;
      }
      pc := pc + 1;
      if code[pc] == '[' {
        openBrackets := openBrackets + 1;
      } else if code[pc] == ']' {
        openBrackets := openBrackets - 1;
      }
    }
    return Some(pc);
  }

  /** If the nesting stays above the level of the `[` at `start` to the end
      of the code, that `[` has no partner and the code is not well formed. */
  lemma NoClose(code: string, start: nat)
    requires start < |code| && forall k :: start < k <= |code| ==> Depth(code, k) > Depth(code, start)
    ensures forall q :: !Matches(code, start, q)
    ensures !WellFormed(code)
  {
    assert Depth(code, |code|) > Depth(code, start);
  }

  /** The engine's invariant between iterations: the pointer on the tape,
      the cursors in range, the stacked `[` in increasing order and behind
      `pc`, and in well-formed
      code the stack is the list of `[` still open before `pc`. */
  ghost predicate Running(code: string, input: seq<Byte>, m: Machine, stack: seq<nat>) {
    && OnTape(m) && m.pc <= |code| && m.inPos <= |input|
    && (forall i :: 0 <= i < |stack| ==> stack[i] < m.pc)
    && (forall i, j :: 0 <= i < j < |stack| ==> stack[i] < stack[j])
    && (WellFormed(code) ==> stack == Open(code, m.pc))
  }

  /** `brainfuck_to_python`, bounded by `fuel` iterations of its main loop.
      In well-formed code it never fails, and the state it stops in (its
      `output` is the returned text) is the state the reference semantics
      reaches with the bracket table after `steps` steps: the same run as the
      jump-table engine, the shortcuts only skipping steps. */
  method BrainfuckToPython(source: string, input: seq<Byte>, fuel: nat) returns (r: Result<Machine, RunError>, ghost steps: nat)
    ensures WellFormed(Filter(source)) ==> r.Success?
    ensures WellFormed(Filter(source)) ==>
      r.Success? && r.value == Exec(Filter(source), JumpTableOf(Filter(source)), input, Initial(TapeSize), steps)
    ensures r.Success? ==> Halted(Filter(source), r.value) || steps >= fuel
  {
    var code := Filter(source);
    ghost var jm: map<nat, nat> := map[];
    if WellFormed(code) {
      jm := JumpTableOf(code);
    }
    r, steps := RunLoop(code, jm, input, fuel);
  }

  /** On well-formed code the two engines agree: the jump-table engine runs
      over any table `bm` of the code, this one over `JumpTableOf(code)`, and
      once both have halted they are in the same state, so they have printed
      the same output, whatever number of steps each took. */
  lemma EnginesAgree(code: string, bm: map<nat, nat>, input: seq<Byte>, n: nat, a: nat, b: nat)
    requires WellFormed(code) && IsJumpTable(code, bm) && n > 0
    requires Halted(code, Exec(code, bm, input, Initial(n), a))
    requires Halted(code, Exec(code, JumpTableOf(code), input, Initial(n), b))
    ensures Exec(code, bm, input, Initial(n), a) == Exec(code, JumpTableOf(code), input, Initial(n), b)
    ensures Exec(code, bm, input, Initial(n), a).output == Exec(code, JumpTableOf(code), input, Initial(n), b).output
  {
    JumpTableUnique(code, bm, JumpTableOf(code));
    TableCovers(code, bm);
    HaltedRunsAgree(code, bm, input, Initial(n), a, b);
  }

  /** The `while pc < len(code)` loop of `brainfuck_to_python` over the
      filtered code, from a fresh tape of `TapeSize` cells. */
  method RunLoop(code: string, ghost jm: map<nat, nat>, input: seq<Byte>, fuel: nat) returns (r: Result<Machine, RunError>, ghost steps: nat)
    requires WellFormed(code) ==> IsJumpTable(code, jm)
    ensures WellFormed(code) ==> r.Success?
    ensures WellFormed(code) ==>
      r.Success? && CoversBrackets(code, jm) && r.value == Exec(code, jm, input, Initial(TapeSize), steps)
    ensures r.Success? ==> Halted(code, r.value) || steps >= fuel
  {
    // the locals pc, pointer, tape, input_pointer and output
    var m := Initial(TapeSize);
    var stack: seq<nat> := [];
    var n := 0;
    steps := 0;
    StartRunning(code, input, m);
    while m.pc < |code| && n < fuel
      invariant Running(code, input, m, stack) && n <= fuel && n <= steps
      invariant WellFormed(code) ==> CoversBrackets(code, jm) && m == Exec(code, jm, input, Initial(TapeSize), steps)
      decreases fuel - n
    {
      var failure, m', stack', k := Cycle(code, jm, input, m, stack);
      if failure.Some? {
        return Failure(failure.value), steps;
      }
      if WellFormed(code) {
        RunOn(code, jm, input, Initial(TapeSize), steps, m, k, m');
      }
      m, stack, steps, n := m', stack', steps + k, n + 1;
    }
    return Success(m), steps;
  }

  /** `k` more steps from the state reached after `steps` steps. */
  lemma RunOn(code: string, jm: map<nat, nat>, input: seq<Byte>, start: Machine, steps: nat, m: Machine, k: nat, m': Machine)
    requires CoversBrackets(code, jm) && OnTape(start)
    requires m == Exec(code, jm, input, start, steps) && m' == Exec(code, jm, input, m, k)
    ensures m' == Exec(code, jm, input, start, steps + k)
  {
    ExecAdd(code, jm, input, start, steps, k);
  }

  /** One iteration of the main loop: `k` steps of the reference semantics. */
  method Cycle(code: string, ghost jm: map<nat, nat>, input: seq<Byte>, m: Machine, stack: seq<nat>)
    returns (failure: Option<RunError>, m': Machine, stack': seq<nat>, ghost k: nat)
    requires Running(code, input, m, stack) && m.pc < |code|
    requires WellFormed(code) ==> IsJumpTable(code, jm)
    ensures failure.None? ==> Running(code, input, m', stack') && k >= 1
    ensures WellFormed(code) ==> failure.None?
    ensures WellFormed(code) ==>
      failure.None? && CoversBrackets(code, jm) && m' == Exec(code, jm, input, m, k)
  {
    var command := code[m.pc];
    if command == '[' {
      failure, m', stack', k := OpenBracket(code, jm, input, m, stack);
    } else if command == ']' {
      failure, m', stack', k := CloseBracket(code, jm, input, m, stack);
    } else {
      m' := Command(code, input, m);
      failure, stack', k := None, stack, 1;
      if WellFormed(code) {
        JumpTarget(code, jm, m.pc);
        ExecOne(code, jm, input, m);
      }
    }
  }

  /** The six commands other than brackets, then `pc += 1`. */
  method Command(code: string, input: seq<Byte>, m: Machine) returns (m': Machine)
    requires OnTape(m) && m.pc < |code| && !IsBracket(code[m.pc])
    ensures m' == Effect(code[m.pc], input, m).(pc := m.pc + 1)
  {
    var pc, pointer, tape, inputPointer, output := m.pc, m.pointer, m.tape, m.inPos, m.output;
    var command := code[pc];
    if command == '>' {
      pointer := pointer + 1;
      if pointer >= |tape| {
        tape := tape + [0];
      }
    } else if command == '<' {
      var moved: int := pointer - 1;
      if moved < 0 {
        tape := [0] + tape;
        moved := 0;
      }
      pointer := moved;
    } else if command == '+' {
      tape := tape[pointer := (tape[pointer] as int + 1) % 256];
    } else if command == '-' {
      tape := tape[pointer := (tape[pointer] as int - 1) % 256];
    } else if command == '.' {
      output := output + [tape[pointer]];
    } else if command == ',' {
      if inputPointer < |input| {
        tape := tape[pointer := input[inputPointer]];
        inputPointer := inputPointer + 1;
      } else {
        tape := tape[pointer := 0];
      }
    }
    pc := pc + 1;
    m' := Machine(pc, pointer, tape, inputPointer, output);
  }

  /** `[`: over a zero cell scan forward to the partner and resume past it;
      otherwise push its position. */
  method OpenBracket(code: string, ghost jm: map<nat, nat>, input: seq<Byte>, m: Machine, stack: seq<nat>)
    returns (failure: Option<RunError>, m': Machine, stack': seq<nat>, ghost k: nat)
    requires Running(code, input, m, stack) && m.pc < |code| && code[m.pc] == '['
    requires WellFormed(code) ==> IsJumpTable(code, jm)
    ensures failure.None? ==> Running(code, input, m', stack') && k >= 1
    // only `pc` moves: over a zero cell past the partner `]`, otherwise into the loop
    ensures failure.None? ==> m' == m.(pc := m'.pc)
    ensures failure.None? && m.tape[m.pointer] == 0 ==>
      stack' == stack && m'.pc > 0 && Matches(code, m.pc, m'.pc - 1)
    ensures m.tape[m.pointer] != 0 ==> failure.None? && m'.pc == m.pc + 1 && stack' == stack + [m.pc]
    // the scan fails exactly when it runs off the code: the `[` has no partner
    ensures failure.Some? ==>
      failure.value == ScanRanOff(m.pc) && m.tape[m.pointer] == 0 && forall q :: !Matches(code, m.pc, q)
    ensures WellFormed(code) ==> failure.None?
    ensures WellFormed(code) ==>
      failure.None? && CoversBrackets(code, jm) && m' == Exec(code, jm, input, m, k)
  {
    var pc := m.pc;
    k := 1;
    if m.tape[m.pointer] == 0 {
      failure, m' := SkipOver(code, input, m, stack);
      stack' := stack;
      if WellFormed(code) {
        CloseExists(code, m.pc);
        SkipLands(code, jm, input, m, m');
      }
    } else {
      failure := None;
      m', stack' := m.(pc := m.pc + 1), stack + [pc];
      PushRunning(code, input, m, stack);
      if WellFormed(code) {
        TableCovers(code, jm);
        EnterLands(code, jm, input, m);
      }
    }
  }

  /** The zero-cell half of `OpenBracket`: scan to the partner `]` and jump
      past it, leaving the stack alone; without a partner the scan runs off
      the code. */
  method SkipOver(code: string, input: seq<Byte>, m: Machine, stack: seq<nat>)
    returns (failure: Option<RunError>, m': Machine)
    requires Running(code, input, m, stack) && m.pc < |code| && code[m.pc] == '[' && m.tape[m.pointer] == 0
    ensures failure.None? ==> Running(code, input, m', stack)
    ensures failure.None? ==> m'.pc > 0 && Matches(code, m.pc, m'.pc - 1) && m' == m.(pc := m'.pc)
    ensures failure.Some? ==> failure.value == ScanRanOff(m.pc) && forall q :: !Matches(code, m.pc, q)
  {
    var close := ScanForward(code, m.pc);
    if close.None? {
      failure, m' := Some(ScanRanOff(m.pc)), m;
    } else {
      var q := close.value;
      failure, m' := None, m.(pc := q + 1);
      SkipLanding(code, input, m, stack, q, m');
    }
  }


  /** Skipping the loop from `[` at `m.pc` to its `]` at `q` is the reference
      step, and leaves the stack of open `[` as it was. */
  lemma SkipLands(code: string, jm: map<nat, nat>, input: seq<Byte>, m: Machine, m': Machine)
    requires WellFormed(code) && IsJumpTable(code, jm) && OnTape(m) && m.pc < |code| && m.tape[m.pointer] == 0
    requires m'.pc > 0 && Matches(code, m.pc, m'.pc - 1) && m' == m.(pc := m'.pc)
    ensures CoversBrackets(code, jm)
    ensures Exec(code, jm, input, m, 1) == m'
  {
    var q := m'.pc - 1;
    JumpTarget(code, jm, m.pc);
    var t := jm[m.pc];
    MatchUniqueClose(code, m.pc, t, q);
    ExecOne(code, jm, input, m);
    assert Jumps(code, m) && Effect(code[m.pc], input, m) == m;
    var s := Step(code, jm, input, m);
    assert s.pc == t + 1 == m'.pc;
    assert s == m.(pc := s.pc);
  }

  /** Entering the loop at `[` is the reference step, and opens one more `[`. */
  lemma EnterLands(code: string, jm: map<nat, nat>, input: seq<Byte>, m: Machine)
    requires CoversBrackets(code, jm) && OnTape(m) && m.pc < |code| && code[m.pc] == '[' && m.tape[m.pointer] != 0
    ensures Exec(code, jm, input, m, 1) == m.(pc := m.pc + 1)
  {
    ExecOne(code, jm, input, m);
    assert !Jumps(code, m);
  }

  /** `]`: over a nonzero cell loop back, possibly through a shortcut; over
      a zero cell pop the `[` of the loop just left. */
  method CloseBracket(code: string, ghost jm: map<nat, nat>, input: seq<Byte>, m: Machine, stack: seq<nat>)
    returns (failure: Option<RunError>, m': Machine, stack': seq<nat>, ghost k: nat)
    requires Running(code, input, m, stack) && m.pc < |code| && code[m.pc] == ']'
    requires WellFormed(code) ==> IsJumpTable(code, jm)
    ensures failure.None? ==> Running(code, input, m', stack') && k >= 1
    // it fails exactly on an empty stack, over a zero cell as over a nonzero one
    ensures failure.Some? <==> |stack| == 0
    ensures failure.Some? ==> failure.value == EmptyStack(m.pc)
    ensures |stack| > 0 && m.tape[m.pointer] == 0 ==> m' == m.(pc := m.pc + 1) && stack' == stack[..|stack| - 1]
    ensures WellFormed(code) ==> failure.None?
    ensures WellFormed(code) ==>
      failure.None? && CoversBrackets(code, jm) && m' == Exec(code, jm, input, m, k)
  {
    if |stack| == 0 {
      EmptyStackIllFormed(code, m.pc, stack);
      failure, m', stack', k := Some(EmptyStack(m.pc)), m, stack, 1;
      return;
    }
    failure := None;
    if m.tape[m.pointer] != 0 {
      m', stack', k := LoopBack(code, jm, input, m, stack);
    } else {
      stack' := stack[..|stack| - 1];
      m' := m.(pc := m.pc + 1);
      k := 1;
      PopRunning(code, input, m, stack, m');
      if WellFormed(code) {
        TableCovers(code, jm);
        LeaveLands(code, jm, input, m);
      }
    }
  }

  /** `]` over a nonzero cell, with the loop text `code[top..pc + 1]`: the
      clear shortcut, the multiply shortcut when the loop is one the
      shortcut is sound for, or back to just past the `[` on top of the stack. */
  method LoopBack(code: string, ghost jm: map<nat, nat>, input: seq<Byte>, m: Machine, stack: seq<nat>)
    returns (m': Machine, stack': seq<nat>, ghost k: nat)
    requires Running(code, input, m, stack) && m.pc < |code| && code[m.pc] == ']' && |stack| > 0
    requires WellFormed(code) ==> IsJumpTable(code, jm)
    requires m.tape[m.pointer] != 0
    ensures Running(code, input, m', stack') && k >= 1
    // on any code, well-formed or not: a clear loop zeroes the cell and a
    // multiply loop the shortcut fits adds its multiples, both leaving the
    // loop with its `[` popped; any other loop jumps back just past the `[`
    // on top of the stack, which stays
    ensures IsClearLoop(code[stack[|stack| - 1]..m.pc + 1]) ==>
      stack' == stack[..|stack| - 1] && m' == m.(pc := m.pc + 1, tape := m.tape[m.pointer := 0])
    ensures (&& !IsClearLoop(code[stack[|stack| - 1]..m.pc + 1])
             && IsMultiplyLoop(code[stack[|stack| - 1]..m.pc + 1])
             && Fits(Body(code, stack[|stack| - 1], m.pc), m.pointer, |m.tape|)) ==>
      && stack' == stack[..|stack| - 1]
      && m' == Machine(m.pc + 1, m.pointer, MultiplyEffect(m.tape, m.pointer, Body(code, stack[|stack| - 1], m.pc)), m.inPos, m.output)
    ensures (&& !IsClearLoop(code[stack[|stack| - 1]..m.pc + 1])
             && !(IsMultiplyLoop(code[stack[|stack| - 1]..m.pc + 1]) && Fits(Body(code, stack[|stack| - 1], m.pc), m.pointer, |m.tape|))) ==>
      stack' == stack && m' == m.(pc := stack[|stack| - 1] + 1)
    ensures WellFormed(code) ==>
      CoversBrackets(code, jm) && m' == Exec(code, jm, input, m, k)
  {
    var pc, top := m.pc, stack[|stack| - 1];
    var span := code[top..pc + 1];
    var kind := Classify(span);
    if kind == Clearing {
      m', stack', k := ClearShortcut(code, jm, input, m, stack);
    } else if kind == Multiplying && Fits(Body(code, top, pc), m.pointer, |m.tape|) {
      m', stack', k := MultiplyShortcut(code, jm, input, m, stack);
    } else {
      pc := top;
      m' := m.(pc := pc + 1);
      stack', k := stack, 1;
      BackRunning(code, input, m, stack, m');
      if WellFormed(code) {
        CloseStack(code, m.pc, stack);
        BackLands(code, jm, input, m, top);
      }
    }
  }

  /** `clear_cell` for `[-]` and `[+]`, then past the `]` with the `[` popped. */
  method ClearShortcut(code: string, ghost jm: map<nat, nat>, input: seq<Byte>, m: Machine, stack: seq<nat>)
    returns (m': Machine, stack': seq<nat>, ghost k: nat)
    requires Running(code, input, m, stack) && m.pc < |code| && code[m.pc] == ']' && |stack| > 0
    requires WellFormed(code) ==> IsJumpTable(code, jm)
    requires IsClearLoop(code[stack[|stack| - 1]..m.pc + 1])
    ensures Running(code, input, m', stack') && k >= 1
    ensures stack' == stack[..|stack| - 1] && m' == m.(pc := m.pc + 1, tape := m.tape[m.pointer := 0])
    ensures WellFormed(code) ==>
      CoversBrackets(code, jm) && m' == Exec(code, jm, input, m, k)
  {
    var top := stack[|stack| - 1];
    var tape := m.tape[m.pointer := 0];
    stack' := stack[..|stack| - 1];
    m' := m.(pc := m.pc + 1, tape := tape);
    k := 2 * ClearPasses(code[top + 1], m.tape[m.pointer]) + 1;
    PopRunning(code, input, m, stack, m');
    if WellFormed(code) {
      ClearLoopSound(code, jm, input, m, top);
    }
  }

  /** The corrected `multiply_loop`, then past the `]` with the `[` popped. */
  method MultiplyShortcut(code: string, ghost jm: map<nat, nat>, input: seq<Byte>, m: Machine, stack: seq<nat>)
    returns (m': Machine, stack': seq<nat>, ghost k: nat)
    requires Running(code, input, m, stack) && m.pc < |code| && code[m.pc] == ']' && |stack| > 0
    requires WellFormed(code) ==> IsJumpTable(code, jm)
    requires IsMultiplyLoop(code[stack[|stack| - 1]..m.pc + 1])
    requires Fits(Body(code, stack[|stack| - 1], m.pc), m.pointer, |m.tape|)
    ensures Running(code, input, m', stack') && k >= 1
    ensures stack' == stack[..|stack| - 1]
    ensures m' == Machine(m.pc + 1, m.pointer, MultiplyEffect(m.tape, m.pointer, Body(code, stack[|stack| - 1], m.pc)), m.inPos, m.output)
    ensures WellFormed(code) ==>
      CoversBrackets(code, jm) && m' == Exec(code, jm, input, m, k)
  {
    var q, top := m.pc, stack[|stack| - 1];
    var body := Body(code, top, q);
    SpanBody(code, top, q);
    var tape := MultiplyLoop(m.tape, m.pointer, body);
    stack' := stack[..|stack| - 1];
    m' := Machine(q + 1, m.pointer, tape, m.inPos, m.output);
    k := Laps(m.tape[m.pointer], q - top) + 1;
    MultiplyLands(code, jm, input, m, stack, top, q, m', k);
  }

  /** Past the `]` of a multiply loop with its effect on the tape: the
      invariant holds, and the reference run reaches the same state. */
  lemma MultiplyLands(code: string, jm: map<nat, nat>, input: seq<Byte>, m: Machine, stack: seq<nat>, p: nat, q: nat, m': Machine, k: nat)
    requires Running(code, input, m, stack) && q == m.pc && q < |code| && code[q] == ']'
    requires |stack| > 0 && p == stack[|stack| - 1]
    requires WellFormed(code) ==> IsJumpTable(code, jm)
    requires IsMultiplyLoop(code[p..q + 1]) && Fits(Body(code, p, q), m.pointer, |m.tape|)
    requires m' == Machine(q + 1, m.pointer, MultiplyEffect(m.tape, m.pointer, Body(code, p, q)), m.inPos, m.output)
    requires k == Laps(m.tape[m.pointer], q - p) + 1
    ensures Running(code, input, m', stack[..|stack| - 1])
    ensures WellFormed(code) ==> CoversBrackets(code, jm) && m' == Exec(code, jm, input, m, k)
  {
    PopRunning(code, input, m, stack, m');
    if WellFormed(code) {
      TopMatches(code, input, m, stack);
      MultiplySkips(code, jm, input, m, p, q, m', k);
    }
  }

  /** `MultiplyLoopSound` for the loop from `p` to `q`, in the terms the
      shortcut computes. */
  lemma MultiplySkips(code: string, jm: map<nat, nat>, input: seq<Byte>, m: Machine, p: nat, q: nat, m': Machine, k: nat)
    requires IsJumpTable(code, jm) && OnTape(m) && m.pc == q && p < q < |code| && Matches(code, p, q)
    requires IsMultiplyLoop(code[p..q + 1]) && Fits(Body(code, p, q), m.pointer, |m.tape|)
    requires m' == Machine(q + 1, m.pointer, MultiplyEffect(m.tape, m.pointer, Body(code, p, q)), m.inPos, m.output)
    requires k == Laps(m.tape[m.pointer], q - p) + 1
    ensures CoversBrackets(code, jm) && m' == Exec(code, jm, input, m, k)
  {
    MultiplyLoopSound(code, jm, input, m, p, q);
  }

  /** Under well-formed code the `[` on top of the stack matches the `]` at `m.pc`. */
  lemma TopMatches(code: string, input: seq<Byte>, m: Machine, stack: seq<nat>)
    requires WellFormed(code) && Running(code, input, m, stack) && m.pc < |code| && code[m.pc] == ']'
    ensures |stack| > 0 && Matches(code, stack[|stack| - 1], m.pc)
  {
    CloseStack(code, m.pc, stack);
  }

  /** The invariant holds at the start, with nothing on the stack. */
  lemma StartRunning(code: string, input: seq<Byte>, m: Machine)
    requires OnTape(m) && m.pc == 0 && m.inPos == 0
    ensures Running(code, input, m, [])
  {
    assert Open(code, 0) == [];
  }

  /** Skipping a loop to just past its `]` keeps the invariant: the loop
      opens and closes as many `[` as it holds. */
  lemma SkipRunning(code: string, input: seq<Byte>, m: Machine, stack: seq<nat>, q: nat)
    requires Running(code, input, m, stack) && m.pc < |code| && Matches(code, m.pc, q)
    ensures Running(code, input, m.(pc := q + 1), stack)
  {
    if WellFormed(code) {
      OpenAcrossLoop(code, m.pc, q);
    }
  }

  /** The state past the partner `]` at `q`, in the terms `SkipOver` states it. */
  lemma SkipLanding(code: string, input: seq<Byte>, m: Machine, stack: seq<nat>, q: nat, m': Machine)
    requires Running(code, input, m, stack) && m.pc < |code| && Matches(code, m.pc, q) && m' == m.(pc := q + 1)
    ensures Running(code, input, m', stack)
    ensures m'.pc > 0 && Matches(code, m.pc, m'.pc - 1) && m' == m.(pc := m'.pc)
  {
    SkipRunning(code, input, m, stack, q);
    assert m'.pc - 1 == q;
  }

  /** Pushing the `[` at `m.pc` and moving past it keeps the invariant. */
  lemma PushRunning(code: string, input: seq<Byte>, m: Machine, stack: seq<nat>)
    requires Running(code, input, m, stack) && m.pc < |code| && code[m.pc] == '['
    ensures Running(code, input, m.(pc := m.pc + 1), stack + [m.pc])
  {
    if WellFormed(code) {
      OpenStep(code, m.pc);
    }
  }

  /** Popping at a `]` and moving past it keeps the invariant. */
  lemma PopRunning(code: string, input: seq<Byte>, m: Machine, stack: seq<nat>, m': Machine)
    requires Running(code, input, m, stack) && m.pc < |code| && code[m.pc] == ']' && |stack| > 0
    requires OnTape(m') && m'.pc == m.pc + 1 && m'.inPos == m.inPos
    ensures Running(code, input, m', stack[..|stack| - 1])
  {
    if WellFormed(code) {
      CloseStack(code, m.pc, stack);
    }
  }

  /** Going back to just past the `[` on top of the stack keeps the invariant. */
  lemma BackRunning(code: string, input: seq<Byte>, m: Machine, stack: seq<nat>, m': Machine)
    requires Running(code, input, m, stack) && m.pc < |code| && code[m.pc] == ']' && |stack| > 0
    requires OnTape(m') && m'.pc == stack[|stack| - 1] + 1 && m'.inPos == m.inPos
    ensures Running(code, input, m', stack)
  {
    if WellFormed(code) {
      CloseStack(code, m.pc, stack);
    }
  }

  /** In well-formed code a `]` always finds its `[` on the stack. */
  lemma EmptyStackIllFormed(code: string, q: nat, stack: seq<nat>)
    requires q < |code| && code[q] == ']' && |stack| == 0
    requires WellFormed(code) ==> stack == Open(code, q)
    ensures !WellFormed(code)
  {
    if WellFormed(code) {
      CloseMatchesTop(code, q);
    }
  }

  /** In well-formed code the top of the stack at a `]` is its partner;
      popping it gives the stack past the `]`, and the stack without the pop
      is the one just past the `[`. */
  lemma CloseStack(code: string, q: nat, stack: seq<nat>)
    requires WellFormed(code) && q < |code| && code[q] == ']' && stack == Open(code, q)
    ensures |stack| > 0 && Matches(code, stack[|stack| - 1], q)
    ensures stack[..|stack| - 1] == Open(code, q + 1)
    ensures stack == Open(code, stack[|stack| - 1] + 1)
  {
    CloseMatchesTop(code, q);
    OpenStep(code, q);
    var top := stack[|stack| - 1];
    OpenStep(code, top);
  }

  /** Going back from `]` to just past its `[` is the reference step. */
  lemma BackLands(code: string, jm: map<nat, nat>, input: seq<Byte>, m: Machine, p: nat)
    requires IsJumpTable(code, jm) && OnTape(m) && m.tape[m.pointer] != 0 && Matches(code, p, m.pc)
    ensures CoversBrackets(code, jm)
    ensures Exec(code, jm, input, m, 1) == m.(pc := p + 1)
  {
    ClosePartner(code, jm, p, m.pc);
    JumpBack(code, jm, input, m, p, m.pc);
  }

  /** Leaving the loop at a `]` over a zero cell is the reference step. */
  lemma LeaveLands(code: string, jm: map<nat, nat>, input: seq<Byte>, m: Machine)
    requires CoversBrackets(code, jm) && OnTape(m) && m.pc < |code| && code[m.pc] == ']' && m.tape[m.pointer] == 0
    ensures Exec(code, jm, input, m, 1) == m.(pc := m.pc + 1)
  {
    LeaveLoop(code, jm, input, m);
  }
}
