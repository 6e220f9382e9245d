/**
 * The partner of the literal main loop of brainfuck.py: wherever neither
 * shortcut of its `]` branch fires, an iteration as written is one step of
 * the reference semantics, and a run as written is the reference run.
 */
module AsWrittenAgrees {
  import opened Wrappers
  import opened Tape
  import opened JumpResolver
  import opened Semantics
  import opened LoopIdioms
  import opened AsWritten
  import RescanEngine

  /** No loop of the code is one the `]` branch as written would shortcut:
      neither a clear loop nor one that passes the multiply test. */
  ghost predicate TakesNoShortcut(code: string) {
    forall p, q {:trigger Span(code, p, q)} :: Matches(code, p, q) ==> !IsClearLoop(Span(code, p, q)) && !LiteralMultiplyGuard(Span(code, p, q))
  }

  /** The loop text from the `[` at `p` to the `]` at `q`. */
  function Span(code: string, p: nat, q: nat): string
    requires p <= q < |code|
  {
    code[p..q + 1]
  }

  /** In well-formed code, with the stack holding the `[` still open, an
      iteration as written that takes no shortcut succeeds and is one step of
      the reference semantics, and the stack again holds the `[` still open. */
  lemma StepAsWrittenIsStep(code: string, jm: map<nat, nat>, input: seq<Byte>, f: Frame)
    requires IsJumpTable(code, jm) && WellFormed(code) && TakesNoShortcut(code)
    requires RescanEngine.Running(code, input, f.m, f.stack) && f.m.pc < |code|
    ensures CoversBrackets(code, jm)
    ensures StepAsWritten(code, input, f).Success?
    ensures StepAsWritten(code, input, f).value.m == Step(code, jm, input, f.m)
    ensures RescanEngine.Running(code, input, StepAsWritten(code, input, f).value.m, StepAsWritten(code, input, f).value.stack)
  {
    var c := code[f.m.pc];
    if c == '[' && f.m.tape[f.m.pointer] == 0 {
      SkipAsWrittenIsStep(code, jm, input, f);
    } else if c == ']' {
      CloseAsWrittenIsStep(code, jm, input, f);
    } else {
      MoveAsWrittenIsStep(code, jm, input, f);
    }
  }

  /** `[` over a nonzero cell and the six other commands: one step on. */
  lemma MoveAsWrittenIsStep(code: string, jm: map<nat, nat>, input: seq<Byte>, f: Frame)
    requires IsJumpTable(code, jm) && WellFormed(code)
    requires RescanEngine.Running(code, input, f.m, f.stack) && f.m.pc < |code|
    requires code[f.m.pc] != ']' && (code[f.m.pc] == '[' ==> f.m.tape[f.m.pointer] != 0)
    ensures CoversBrackets(code, jm)
    ensures StepAsWritten(code, input, f).Success?
    ensures StepAsWritten(code, input, f).value.m == Step(code, jm, input, f.m)
    ensures RescanEngine.Running(code, input, StepAsWritten(code, input, f).value.m, StepAsWritten(code, input, f).value.stack)
  {
    var m := f.m;
    TableCovers(code, jm);
    if code[m.pc] == '[' {
      RescanEngine.EnterLands(code, jm, input, m);
      ExecOne(code, jm, input, m);
      RescanEngine.PushRunning(code, input, m, f.stack);
    } else {
      OpenStep(code, m.pc);
    }
  }

  /** `[` over a zero cell: the scan as written lands past the partner `]`. */
  lemma SkipAsWrittenIsStep(code: string, jm: map<nat, nat>, input: seq<Byte>, f: Frame)
    requires IsJumpTable(code, jm) && WellFormed(code)
    requires RescanEngine.Running(code, input, f.m, f.stack) && f.m.pc < |code|
    requires code[f.m.pc] == '[' && f.m.tape[f.m.pointer] == 0
    ensures CoversBrackets(code, jm)
    ensures StepAsWritten(code, input, f).Success?
    ensures StepAsWritten(code, input, f).value.m == Step(code, jm, input, f.m)
    ensures RescanEngine.Running(code, input, StepAsWritten(code, input, f).value.m, StepAsWritten(code, input, f).value.stack)
  {
    var m := f.m;
    CloseExists(code, m.pc);
    var q: nat :| Matches(code, m.pc, q);
    ScanAsWrittenFindsPartner(code, m.pc);
    assert ScanAsWritten(code, m.pc, 1) == Success(q);
    var m' := m.(pc := q + 1);
    SkipTakes(code, input, f, q);
    assert m'.pc - 1 == q && m' == m.(pc := m'.pc);
    RescanEngine.SkipLands(code, jm, input, m, m');
    ExecOne(code, jm, input, m);
    RescanEngine.SkipRunning(code, input, m, f.stack, q);
  }

  /** The iteration at a `[` over a zero cell whose scan stops at `q`. */
  lemma SkipTakes(code: string, input: seq<Byte>, f: Frame, q: nat)
    requires Sane(code, f) && f.m.pc < |code| && code[f.m.pc] == '[' && f.m.tape[f.m.pointer] == 0
    requires ScanAsWritten(code, f.m.pc, 1) == Success(q)
    ensures StepAsWritten(code, input, f) == Success(Frame(f.m.(pc := q + 1), f.stack))
  {
  }

  /** `]` of a loop that takes no shortcut: leave over a zero cell, back
      just past the partner `[` otherwise. */
  lemma CloseAsWrittenIsStep(code: string, jm: map<nat, nat>, input: seq<Byte>, f: Frame)
    requires IsJumpTable(code, jm) && WellFormed(code) && TakesNoShortcut(code)
    requires RescanEngine.Running(code, input, f.m, f.stack) && f.m.pc < |code| && code[f.m.pc] == ']'
    ensures CoversBrackets(code, jm)
    ensures StepAsWritten(code, input, f).Success?
    ensures StepAsWritten(code, input, f).value.m == Step(code, jm, input, f.m)
    ensures RescanEngine.Running(code, input, StepAsWritten(code, input, f).value.m, StepAsWritten(code, input, f).value.stack)
  {
    if f.m.tape[f.m.pointer] == 0 {
      LeaveAsWrittenIsStep(code, jm, input, f);
    } else {
      BackAsWrittenIsStep(code, jm, input, f);
    }
  }

  /** `]` over a zero cell: one step past it, with the `[` popped. */
  lemma LeaveAsWrittenIsStep(code: string, jm: map<nat, nat>, input: seq<Byte>, f: Frame)
    requires IsJumpTable(code, jm) && WellFormed(code)
    requires RescanEngine.Running(code, input, f.m, f.stack) && f.m.pc < |code| && code[f.m.pc] == ']'
    requires f.m.tape[f.m.pointer] == 0
    ensures CoversBrackets(code, jm)
    ensures StepAsWritten(code, input, f).Success?
    ensures StepAsWritten(code, input, f).value.m == Step(code, jm, input, f.m)
    ensures RescanEngine.Running(code, input, StepAsWritten(code, input, f).value.m, StepAsWritten(code, input, f).value.stack)
  {
    var m, stack := f.m, f.stack;
    TableCovers(code, jm);
    RescanEngine.TopMatches(code, input, m, stack);
    var m' := m.(pc := m.pc + 1);
    LeaveTakes(code, input, f);
    ExecOne(code, jm, input, m);
    RescanEngine.LeaveLands(code, jm, input, m);
    RescanEngine.PopRunning(code, input, m, stack, m');
  }

  /** `]` over a nonzero cell of a loop that takes no shortcut: one step
      back just past its partner `[`. */
  lemma BackAsWrittenIsStep(code: string, jm: map<nat, nat>, input: seq<Byte>, f: Frame)
    requires IsJumpTable(code, jm) && WellFormed(code) && TakesNoShortcut(code)
    requires RescanEngine.Running(code, input, f.m, f.stack) && f.m.pc < |code| && code[f.m.pc] == ']'
    requires f.m.tape[f.m.pointer] != 0
    ensures CoversBrackets(code, jm)
    ensures StepAsWritten(code, input, f).Success?
    ensures StepAsWritten(code, input, f).value.m == Step(code, jm, input, f.m)
    ensures RescanEngine.Running(code, input, StepAsWritten(code, input, f).value.m, StepAsWritten(code, input, f).value.stack)
  {
    var m, stack := f.m, f.stack;
    TableCovers(code, jm);
    RescanEngine.TopMatches(code, input, m, stack);
    var top := stack[|stack| - 1];
    var m' := m.(pc := top + 1);
    BackTakes(code, input, f, top);
    ExecOne(code, jm, input, m);
    RescanEngine.BackLands(code, jm, input, m, top);
    RescanEngine.BackRunning(code, input, m, stack, m');
  }

  /** The iteration at a `]` over a zero cell, with an open `[` to pop. */
  lemma LeaveTakes(code: string, input: seq<Byte>, f: Frame)
    requires Sane(code, f) && f.m.pc < |code| && code[f.m.pc] == ']' && |f.stack| > 0 && f.m.tape[f.m.pointer] == 0
    ensures StepAsWritten(code, input, f) == Success(Frame(f.m.(pc := f.m.pc + 1), f.stack[..|f.stack| - 1]))
  {
    assert StepAsWritten(code, input, f) == CloseAsWritten(code, f);
  }

  /** The iteration at a `]` over a nonzero cell, with `top` on top of the
      stack, when the loop takes no shortcut. */
  lemma BackTakes(code: string, input: seq<Byte>, f: Frame, top: nat)
    requires Sane(code, f) && f.m.pc < |code| && code[f.m.pc] == ']' && |f.stack| > 0 && top == f.stack[|f.stack| - 1]
    requires f.m.tape[f.m.pointer] != 0 && TakesNoShortcut(code) && Matches(code, top, f.m.pc)
    ensures StepAsWritten(code, input, f) == Success(Frame(f.m.(pc := top + 1), f.stack))
  {
    assert !IsClearLoop(Span(code, top, f.m.pc)) && !LiteralMultiplyGuard(Span(code, top, f.m.pc));
    assert StepAsWritten(code, input, f) == CloseAsWritten(code, f);
  }

  /** The partner of `RunAsWritten`: on well-formed code none of whose loops
      takes a shortcut, the main loop as written never fails and runs exactly
      the reference semantics, iteration for step. */
  lemma {:induction false} RunAsWrittenIsExec(code: string, jm: map<nat, nat>, input: seq<Byte>, f: Frame, fuel: nat)
    requires IsJumpTable(code, jm) && WellFormed(code) && TakesNoShortcut(code)
    requires RescanEngine.Running(code, input, f.m, f.stack)
    ensures CoversBrackets(code, jm)
    ensures RunAsWritten(code, input, f, fuel).Success?
    ensures RunAsWritten(code, input, f, fuel).value.m == Exec(code, jm, input, f.m, fuel)
    decreases fuel
  {
    TableCovers(code, jm);
    if fuel > 0 && f.m.pc < |code| {
      StepAsWrittenIsStep(code, jm, input, f);
      var g := StepAsWritten(code, input, f).value;
      RunAsWrittenIsExec(code, jm, input, g, fuel - 1);
    }
  }
}
