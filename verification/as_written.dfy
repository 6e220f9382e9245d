/**
 * The `]` branch and `multiply_loop` of brainfuck.py as the source has
 * them, beside the corrected engine, with inputs on which the two part ways:
 * the clear shortcut re-enters the loop body, `multiply_loop` cannot read
 * `pc`, its offsets are applied with a live read of the counter and no
 * wrap-around, and the multiply test admits loops it cannot shortcut.
 */
module AsWritten {
  import opened Wrappers
  import opened Tape
  import opened JumpResolver
  import opened Semantics
  import opened LoopIdioms

  /** The Python exceptions the literal code raises. */
  datatype Crash =
    | IndexError         // `stack[-1]` or `stack.pop()` on an empty list, or `code[pc]` past the end
    | UnboundLocalError  // `multiply_loop` reads `pc`, which its own `pc += 1` makes a local

  /** The locals of the main loop: the machine state and the stack of open `[`. */
  datatype Frame = Frame(m: Machine, stack: seq<nat>)

  /** `multiply_loop` as written. Python makes a name local to a function
      when the function assigns it anywhere in its body, and `multiply_loop`
      has `pc += 1` and no `nonlocal pc`; so `pc` is a local that nothing has
      bound when the `while code[pc] != ']'` test first reads it. Over a zero
      counter the function returns before that read; otherwise the read fails
      with `UnboundLocalError`, whatever the code and the offsets would be. */
  function MultiplyLoopAsWritten(tape: seq<Byte>, pointer: nat): (r: Result<seq<Byte>, Crash>)
    requires pointer < |tape|
    ensures r.Success? <==> tape[pointer] == 0
    ensures r.Success? ==> r.value == tape
    ensures r.Failure? ==> r.error == UnboundLocalError
  {
    if tape[pointer] == 0 then Success(tape) else Failure(UnboundLocalError)
  }

  /** The forward scan of `[` over a zero cell as written: `code[pc]` past
      the end raises `IndexError`; `open` counts the brackets still open. */
  function ScanAsWritten(code: string, pc: nat, open: nat): (r: Result<nat, Crash>)
    requires pc < |code| && open > 0
    ensures r.Success? ==> pc < r.value < |code| && code[r.value] == ']'
    decreases |code| - pc
  {
    if pc + 1 >= |code| then Failure(IndexError)
    else
      var open' := if code[pc + 1] == '[' then open + 1 else if code[pc + 1] == ']' then open - 1 else open;
      if open' == 0 then Success(pc + 1) else ScanAsWritten(code, pc + 1, open')
  }

  /** The scan as written counts what `Depth` counts: started inside the `[`
      at `p` with `open` brackets still open, it stops at that `[`'s partner
      `]` if there is one, and fails with `IndexError` exactly when there is
      none. */
  lemma {:induction false} ScanAsWrittenMatches(code: string, p: nat, pc: nat, open: nat)
    requires p <= pc < |code| && code[p] == '[' && open > 0
    requires open == Depth(code, pc + 1) - Depth(code, p)
    requires forall k :: p < k <= pc ==> Depth(code, k) > Depth(code, p)
    ensures ScanAsWritten(code, pc, open).Success? ==> Matches(code, p, ScanAsWritten(code, pc, open).value)
    ensures ScanAsWritten(code, pc, open).Failure? ==>
      ScanAsWritten(code, pc, open).error == IndexError && forall q :: !Matches(code, p, q)
    decreases |code| - pc
  {
    if pc + 1 < |code| {
      assert Depth(code, pc + 2) == Depth(code, pc + 1) + Nesting(code[pc + 1]);
      var open' := if code[pc + 1] == '[' then open + 1 else if code[pc + 1] == ']' then open - 1 else open;
      if open' != 0 {
        ScanAsWrittenMatches(code, p, pc + 1, open');
      }
    }
  }

  /** From the `[` itself, with one bracket open: the scan as written returns
      exactly the partner `]`, and fails exactly when the `[` has none. */
  lemma ScanAsWrittenFindsPartner(code: string, p: nat)
    requires p < |code| && code[p] == '['
    ensures forall q: nat :: ScanAsWritten(code, p, 1) == Success(q) <==> Matches(code, p, q)
    ensures ScanAsWritten(code, p, 1).Failure? <==> forall q :: !Matches(code, p, q)
    ensures ScanAsWritten(code, p, 1).Failure? ==> ScanAsWritten(code, p, 1).error == IndexError
  {
    assert Depth(code, p + 1) == Depth(code, p) + 1;
    ScanAsWrittenMatches(code, p, p, 1);
    forall q: nat | Matches(code, p, q)
      ensures ScanAsWritten(code, p, 1) == Success(q)
    {
      MatchUniqueClose(code, p, q, ScanAsWritten(code, p, 1).value);
    }
  }

  /** The `]` branch as written, `pc += 1` included. */
  function CloseAsWritten(code: string, f: Frame): (r: Result<Frame, Crash>)
    requires OnTape(f.m) && f.m.pc < |code| && code[f.m.pc] == ']'
    requires forall i :: 0 <= i < |f.stack| ==> f.stack[i] < f.m.pc
    // an empty stack fails, on a zero cell as on a nonzero one
    ensures |f.stack| == 0 ==> r == Failure(IndexError)
    // over a zero cell the loop is left and its `[` popped, as in the corrected engine
    ensures |f.stack| > 0 && f.m.tape[f.m.pointer] == 0 ==>
      r == Success(Frame(f.m.(pc := f.m.pc + 1), f.stack[..|f.stack| - 1]))
    // a loop that is neither a clear loop nor passes the multiply test jumps
    // back just past the `[` on top of the stack, which stays
    ensures |f.stack| > 0 && f.m.tape[f.m.pointer] != 0 ==>
      var span := code[f.stack[|f.stack| - 1]..f.m.pc + 1];
      (!IsClearLoop(span) && !LiteralMultiplyGuard(span) ==>
        r == Success(Frame(f.m.(pc := f.stack[|f.stack| - 1] + 1), f.stack)))
    // the multiply test, reached over a nonzero cell, always fails
    ensures |f.stack| > 0 && f.m.tape[f.m.pointer] != 0 ==>
      var span := code[f.stack[|f.stack| - 1]..f.m.pc + 1];
      (!IsClearLoop(span) && LiteralMultiplyGuard(span) <==> r == Failure(UnboundLocalError))
    // the clear shortcut resumes just past the popped `[`, inside the loop
    ensures |f.stack| > 0 && f.m.tape[f.m.pointer] != 0 && IsClearLoop(code[f.stack[|f.stack| - 1]..f.m.pc + 1]) ==>
      r.Success? && r.value.m.pc == f.stack[|f.stack| - 1] + 1 && r.value.stack == f.stack[..|f.stack| - 1]
      && r.value.m.tape == f.m.tape[f.m.pointer := 0]
  {
    var m, stack := f.m, f.stack;
    if |stack| == 0 then Failure(IndexError)
    else
      var top := stack[|stack| - 1];
      var span := code[top..m.pc + 1];
      if m.tape[m.pointer] == 0 then Success(Frame(m.(pc := m.pc + 1), stack[..|stack| - 1]))
      else if IsClearLoop(span) then
        Success(Frame(m.(pc := top + 1, tape := m.tape[m.pointer := 0]), stack[..|stack| - 1]))
      else if LiteralMultiplyGuard(span) then
        // the counter is nonzero here, so `multiply_loop` fails
        Failure(MultiplyLoopAsWritten(m.tape, m.pointer).error)
      else Success(Frame(m.(pc := top + 1), stack))
  }

  /** Whether a frame is one the main loop can be in: pointer on the tape,
      every open `[` before `pc`. */
  predicate Sane(code: string, f: Frame) {
    && OnTape(f.m) && f.m.pc <= |code|
    && (forall i :: 0 <= i < |f.stack| ==> f.stack[i] < f.m.pc)
    && (forall i, j :: 0 <= i < j < |f.stack| ==> f.stack[i] < f.stack[j])
  }

  /** One iteration of the main loop of `brainfuck_to_python` as written. */
  function StepAsWritten(code: string, input: seq<Byte>, f: Frame): (r: Result<Frame, Crash>)
    requires Sane(code, f) && f.m.pc < |code|
    ensures r.Success? ==> Sane(code, r.value) && r.value.m.pc > 0
    // the six commands other than brackets are the reference effect
    ensures !IsBracket(code[f.m.pc]) ==>
      r == Success(Frame(Effect(code[f.m.pc], input, f.m).(pc := f.m.pc + 1), f.stack))
  {
    var m := f.m;
    var c := code[m.pc];
    if c == '[' then
      if m.tape[m.pointer] == 0 then
        match ScanAsWritten(code, m.pc, 1)
        case Failure(e) => Failure(e)
        case Success(q) => Success(Frame(m.(pc := q + 1), f.stack))
      else Success(Frame(m.(pc := m.pc + 1), f.stack + [m.pc]))
    else if c == ']' then CloseAsWritten(code, f)
    else Success(Frame(Effect(c, input, m).(pc := m.pc + 1), f.stack))
  }

  /** At most `fuel` iterations of the main loop as written. */
  function RunAsWritten(code: string, input: seq<Byte>, f: Frame, fuel: nat): (r: Result<Frame, Crash>)
    requires Sane(code, f)
    ensures r.Success? ==> Sane(code, r.value)
    decreases fuel
  {
    if fuel == 0 || f.m.pc >= |code| then Success(f)
    else
      match StepAsWritten(code, input, f)
      case Failure(e) => Failure(e)
      case Success(g) => RunAsWritten(code, input, g, fuel - 1)
  }

  // ---------------------------------------------------------------------
  // Line 77: the clear shortcut pops the `[` and resumes inside the loop.

  /** The program `++[-]`. */
  const ClearDemo: string := "++[-]"

  /** The first two iterations of `++[-]`, the two `+`, raise the cell to 2. */
  lemma ClearDemoIncrements(input: seq<Byte>, n: nat, k: nat)
    requires n > 0
    ensures RunAsWritten(ClearDemo, input, Frame(Initial(n), []), k + 2)
         == RunAsWritten(ClearDemo, input, Frame(Machine(2, 0, Zeros(n)[0 := 2], 0, []), []), k)
  {
    var t0 := Zeros(n);
    var f0 := Frame(Initial(n), []);
    var f1 := Frame(Machine(1, 0, t0[0 := 1], 0, []), []);
    var f2 := Frame(Machine(2, 0, t0[0 := 2], 0, []), []);
    assert StepAsWritten(ClearDemo, input, f0) == Success(f1);
    assert StepAsWritten(ClearDemo, input, f1) == Success(f2) by {
      assert t0[0 := 1][0 := 2] == t0[0 := 2];
    }
    assert RunAsWritten(ClearDemo, input, f1, k + 1) == RunAsWritten(ClearDemo, input, f2, k);
  }

  /** The next two: the `[` over a cell of 2 is entered, and the `-` runs. */
  lemma ClearDemoEnters(input: seq<Byte>, n: nat, k: nat)
    requires n > 0
    ensures RunAsWritten(ClearDemo, input, Frame(Machine(2, 0, Zeros(n)[0 := 2], 0, []), []), k + 2)
         == RunAsWritten(ClearDemo, input, Frame(Machine(4, 0, Zeros(n)[0 := 1], 0, []), [2]), k)
  {
    var t0 := Zeros(n);
    var f2 := Frame(Machine(2, 0, t0[0 := 2], 0, []), []);
    var f3 := Frame(Machine(3, 0, t0[0 := 2], 0, []), [2]);
    var f4 := Frame(Machine(4, 0, t0[0 := 1], 0, []), [2]);
    assert ClearDemo[2] == '[' && ClearDemo[3] == '-';
    assert t0[0 := 2][0] == 2;
    assert StepAsWritten(ClearDemo, input, f2) == Success(f3) by {
      assert [] + [2] == [2];
    }
    assert StepAsWritten(ClearDemo, input, f3) == Success(f4) by {
      assert t0[0 := 2][0 := 1] == t0[0 := 1];
    }
    assert RunAsWritten(ClearDemo, input, f3, k + 1) == RunAsWritten(ClearDemo, input, f4, k);
  }

  /** At the `]` with the cell at 1, the clear shortcut zeroes the cell and
      resumes at the `-`, which wraps the cell to 255. */
  lemma ClearDemoReenters(input: seq<Byte>, n: nat, k: nat)
    requires n > 0
    ensures RunAsWritten(ClearDemo, input, Frame(Machine(4, 0, Zeros(n)[0 := 1], 0, []), [2]), k + 2)
         == RunAsWritten(ClearDemo, input, Frame(Machine(4, 0, Zeros(n)[0 := 255], 0, []), []), k)
  {
    var t0 := Zeros(n);
    var f4 := Frame(Machine(4, 0, t0[0 := 1], 0, []), [2]);
    var f5 := Frame(Machine(3, 0, t0[0 := 0], 0, []), []);
    var f6 := Frame(Machine(4, 0, t0[0 := 255], 0, []), []);
    assert ClearDemo[2..5] == "[-]" && ClearDemo[4] == ']' && ClearDemo[3] == '-';
    assert t0[0 := 1][0] == 1;
    assert StepAsWritten(ClearDemo, input, f4) == Success(f5) by {
      assert t0[0 := 1][0 := 0] == t0[0 := 0];
    }
    assert StepAsWritten(ClearDemo, input, f5) == Success(f6) by {
      assert t0[0 := 0][0 := 255] == t0[0 := 255];
    }
    assert RunAsWritten(ClearDemo, input, f5, k + 1) == RunAsWritten(ClearDemo, input, f6, k);
  }

  /** Back at the `]`, now over 255 and with the stack empty, `stack[-1]`
      fails. */
  lemma ClearDemoFails(input: seq<Byte>, n: nat)
    requires n > 0
    ensures RunAsWritten(ClearDemo, input, Frame(Machine(4, 0, Zeros(n)[0 := 255], 0, []), []), 1)
         == Failure(IndexError)
  {
    assert ClearDemo[4] == ']';
  }

  /** As written, `++[-]` clears the cell at its `]`, resumes at the `-`,
      which wraps the cell to 255, and then fails on the `]` with the stack
      already empty, where the loop should have ended with the cell at 0. */
  lemma ClearReentersBody(input: seq<Byte>, n: nat)
    requires n > 0
    ensures RunAsWritten(ClearDemo, input, Frame(Initial(n), []), 7) == Failure(IndexError)
  {
    ClearDemoIncrements(input, n, 5);
    ClearDemoEnters(input, n, 3);
    ClearDemoReenters(input, n, 1);
    ClearDemoFails(input, n);
  }

  // ---------------------------------------------------------------------
  // Lines 10 and 25: `multiply_loop` cannot read `pc`; the demo program
  // reaches it at its first `]`.

  /** The body of the first loop of the demo program. */
  const HelloBody: string := ">+++++++" + ">++++++++++" + ">+++>+<<<<-"

  /** The first loop of the demo program. */
  const HelloLoop: string := "[" + HelloBody + "]"

  /** The "Hello world" program brainfuck.py runs when loaded. */
  const HelloWorld: string :=
    "++++++++++" + HelloLoop + ">++.>+.+++++++..+++.>++.<<+++++++++++++++.>.+++.------.--------.>+.>."

  /** The first loop spans positions 10 to 41 of the demo program. */
  lemma HelloLoopAt()
    ensures |HelloWorld| > 42 && HelloWorld[10..42] == HelloLoop
    ensures HelloWorld[10] == '[' && HelloWorld[41] == ']'
  {
    var a := "++++++++++";
    var c := ">++.>+.+++++++..+++.>++.<<+++++++++++++++.>.+++.------.--------.>+.>.";
    assert (a + HelloLoop + c)[|a|..|a| + |HelloLoop|] == HelloLoop;
  }

  /** The `>` and `<` in the three pieces of the body. */
  lemma HelloCountsA()
    ensures multiset(">+++++++")['>'] == 1 && multiset(">+++++++")['<'] == 0
  {
  }

  lemma HelloCountsB()
    ensures multiset(">++++++++++")['>'] == 1 && multiset(">++++++++++")['<'] == 0
  {
  }

  lemma HelloCountsC()
    ensures multiset(">+++>+<<<<-")['>'] == 2 && multiset(">+++>+<<<<-")['<'] == 4
  {
  }

  /** A count over five pieces is the sum of the pieces' counts. */
  lemma CountPieces(a: string, b: string, c: string, d: string, e: string, x: char)
    ensures Count(a + (b + c + d) + e, x) == Count(a, x) + Count(b, x) + Count(c, x) + Count(d, x) + Count(e, x)
  {
    assert multiset(a + (b + c + d) + e) == multiset(a) + multiset(b) + multiset(c) + multiset(d) + multiset(e);
  }

  /** Brackets around three pieces with one, one and two `>` and with four
      `<` in the last one give four of each. */
  lemma BracketedCounts(a: string, b: string, c: string)
    requires Count(a, '>') == 1 && Count(b, '>') == 1 && Count(c, '>') == 2
    requires Count(a, '<') == 0 && Count(b, '<') == 0 && Count(c, '<') == 4
    ensures Count("[" + (a + b + c) + "]", '>') == 4 && Count("[" + (a + b + c) + "]", '<') == 4
  {
    CountPieces("[", a, b, c, "]", '>');
    CountPieces("[", a, b, c, "]", '<');
  }

  /** The loop has four `>` and four `<`. */
  lemma HelloLoopCounts()
    ensures Count(HelloLoop, '>') == 4 && Count(HelloLoop, '<') == 4
  {
    var a, b, c := ">+++++++", ">++++++++++", ">+++>+<<<<-";
    HelloCountsA();
    HelloCountsB();
    HelloCountsC();
    BracketedCounts(a, b, c);
    assert HelloLoop == "[" + (a + b + c) + "]";
  }

  /** The first loop of the demo passes the literal multiply test and is
      not `[-]` or `[+]`, so the first time its `]` is reached over a
      nonzero counter, as written, the program stops with `UnboundLocalError`. */
  lemma HelloWorldCrashes(input: seq<Byte>, m: Machine)
    requires OnTape(m) && m.pc == 41 && m.tape[m.pointer] != 0
    ensures |HelloWorld| > 42 && StepAsWritten(HelloWorld, input, Frame(m, [10])) == Failure(UnboundLocalError)
  {
    HelloLoopGuard();
    LoneLoopCrashes(HelloWorld, input, m, 10, HelloLoop);
  }

  /** `MultiplyGuardCrashes` for a frame whose stack holds only the loop's `[`. */
  lemma LoneLoopCrashes(code: string, input: seq<Byte>, m: Machine, top: nat, span: string)
    requires OnTape(m) && top < m.pc < |code| && code[top..m.pc + 1] == span
    requires span[|span| - 1] == ']' && m.tape[m.pointer] != 0
    requires LiteralMultiplyGuard(span) && !IsClearLoop(span)
    ensures StepAsWritten(code, input, Frame(m, [top])) == Failure(UnboundLocalError)
  {
    MultiplyGuardCrashes(code, input, Frame(m, [top]), span);
  }

  /** The loop text of the demo, as the `]` branch slices it, passes the
      literal test and is not `[-]` or `[+]`. */
  lemma HelloLoopGuard()
    ensures 41 < |HelloWorld| && HelloWorld[10..42] == HelloLoop && HelloLoop[|HelloLoop| - 1] == ']'
    ensures LiteralMultiplyGuard(HelloLoop) && !IsClearLoop(HelloLoop)
  {
    HelloLoopAt();
    HelloLoopCounts();
    assert |HelloLoop| == 32 && HelloLoop[31] == ']';
  }

  /** Whenever the `]` of a loop that passes the literal multiply test, and
      is not `[-]` or `[+]`, is reached over a nonzero counter with the
      loop's `[` on top of the stack (whatever lies beneath it), the step as
      written fails with `UnboundLocalError`. */
  lemma MultiplyGuardCrashes(code: string, input: seq<Byte>, f: Frame, span: string)
    requires Sane(code, f) && f.m.pc < |code| && |f.stack| > 0
    requires code[f.stack[|f.stack| - 1]..f.m.pc + 1] == span
    requires span[|span| - 1] == ']' && f.m.tape[f.m.pointer] != 0
    requires LiteralMultiplyGuard(span) && !IsClearLoop(span)
    ensures StepAsWritten(code, input, f) == Failure(UnboundLocalError)
  {
    assert code[f.m.pc] == span[|span| - 1];
  }

  /** What the first piece of the body, `>+++++++`, does on its own. */
  lemma HelloPieceA()
    ensures Offset(">+++++++", 8) == 1 && Delta(">+++++++", 0) == 0 && Delta(">+++++++", 1) == 7
  {
    assert DeltaUpTo(">+++++++", 8, 0) == 0 && DeltaUpTo(">+++++++", 8, 1) == 7;
  }

  lemma HelloPieceAElsewhere()
    ensures Delta(">+++++++", 2) == 0 && Delta(">+++++++", 3) == 0 && Delta(">+++++++", 4) == 0
  {
    assert DeltaUpTo(">+++++++", 8, 2) == 0 && DeltaUpTo(">+++++++", 8, 3) == 0;
    assert DeltaUpTo(">+++++++", 8, 4) == 0;
  }

  /** What the second piece, `>++++++++++`, does on its own. */
  lemma HelloPieceB()
    ensures Offset(">++++++++++", 11) == 1 && Delta(">++++++++++", 1) == 10
  {
    assert DeltaUpTo(">++++++++++", 6, 1) == 5;
    assert DeltaUpTo(">++++++++++", 11, 1) == 10;
  }

  lemma HelloPieceBElsewhere()
    ensures Delta(">++++++++++", -1) == 0 && Delta(">++++++++++", 0) == 0
    ensures Delta(">++++++++++", 2) == 0 && Delta(">++++++++++", 3) == 0
  {
    assert DeltaUpTo(">++++++++++", 11, -1) == 0 && DeltaUpTo(">++++++++++", 11, 0) == 0;
    assert DeltaUpTo(">++++++++++", 11, 2) == 0 && DeltaUpTo(">++++++++++", 11, 3) == 0;
  }

  /** What the third piece, `>+++>+<<<<-`, does on its own. */
  lemma HelloPieceC()
    ensures Offset(">+++>+<<<<-", 11) == -2 && Delta(">+++>+<<<<-", -2) == -1
    ensures Delta(">+++>+<<<<-", 1) == 3 && Delta(">+++>+<<<<-", 2) == 1
  {
    assert DeltaUpTo(">+++>+<<<<-", 11, -2) == -1;
    HelloPieceCCells();
  }

  lemma HelloPieceCCells()
    ensures Delta(">+++>+<<<<-", 1) == 3 && Delta(">+++>+<<<<-", 2) == 1
  {
    assert DeltaUpTo(">+++>+<<<<-", 11, 1) == 3;
    assert DeltaUpTo(">+++>+<<<<-", 11, 2) == 1;
  }

  lemma HelloPieceCElsewhere()
    ensures Delta(">+++>+<<<<-", -1) == 0 && Delta(">+++>+<<<<-", 0) == 0
  {
    assert DeltaUpTo(">+++>+<<<<-", 11, -1) == 0 && DeltaUpTo(">+++>+<<<<-", 11, 0) == 0;
  }

  /** The body returns the pointer, takes one off the counter per pass and
      adds 7, 10, 3 and 1 to the next four cells. */
  lemma HelloBodyEffect()
    ensures IsStraight(HelloBody) && Offset(HelloBody, |HelloBody|) == 0
    ensures Delta(HelloBody, 0) == -1 && Delta(HelloBody, 1) == 7 && Delta(HelloBody, 2) == 10
    ensures Delta(HelloBody, 3) == 3 && Delta(HelloBody, 4) == 1
  {
    var a, b, c := ">+++++++", ">++++++++++", ">+++>+<<<<-";
    HelloPieceA();
    HelloPieceAElsewhere();
    HelloPieceB();
    HelloPieceBElsewhere();
    HelloPieceC();
    HelloPieceCElsewhere();
    HelloPiecesStraight();
    HelloPiecesCombine(a, b, c);
    assert HelloBody == a + b + c;
  }

  /** The three pieces are pointer moves and increments only. */
  lemma HelloPiecesStraight()
    ensures IsStraight(">+++++++") && IsStraight(">++++++++++") && IsStraight(">+++>+<<<<-")
  {
  }

  /** Three pieces that do what those of the demo's body do make a body
      that does what the demo's body does. */
  lemma HelloPiecesCombine(a: string, b: string, c: string)
    requires IsStraight(a) && IsStraight(b) && IsStraight(c)
    requires Offset(a, |a|) == 1 && Offset(b, |b|) == 1 && Offset(c, |c|) == -2
    requires Delta(a, 0) == 0 && Delta(a, 1) == 7 && Delta(a, 2) == 0 && Delta(a, 3) == 0 && Delta(a, 4) == 0
    requires Delta(b, -1) == 0 && Delta(b, 0) == 0 && Delta(b, 1) == 10 && Delta(b, 2) == 0 && Delta(b, 3) == 0
    requires Delta(c, -2) == -1 && Delta(c, -1) == 0 && Delta(c, 0) == 0 && Delta(c, 1) == 3 && Delta(c, 2) == 1
    ensures IsStraight(a + b + c) && Offset(a + b + c, |a + b + c|) == 0
    ensures Delta(a + b + c, 0) == -1 && Delta(a + b + c, 1) == 7 && Delta(a + b + c, 2) == 10
    ensures Delta(a + b + c, 3) == 3 && Delta(a + b + c, 4) == 1
  {
    ThreePieces(a, b, c, 0);
    ThreePieces(a, b, c, 1);
    ThreePieces(a, b, c, 2);
    ThreePieces(a, b, c, 3);
    ThreePieces(a, b, c, 4);
  }

  /** A body read in three pieces: straight if they are, its offset and
      per-pass changes the sums of theirs. */
  lemma ThreePieces(a: string, b: string, c: string, o: int)
    requires IsStraight(a) && IsStraight(b) && IsStraight(c)
    ensures IsStraight(a + b + c)
    ensures Offset(a + b + c, |a + b + c|) == Offset(a, |a|) + Offset(b, |b|) + Offset(c, |c|)
    ensures Delta(a + b + c, o) ==
      Delta(a, o) + Delta(b, o - Offset(a, |a|)) + Delta(c, o - Offset(a, |a|) - Offset(b, |b|))
  {
    OffsetAppend(a, b, |b|);
    OffsetAppend(a + b, c, |c|);
    DeltaAppend(a, b, o);
    DeltaAppend(a + b, c, o);
    forall i | 0 <= i < |a + b + c|
      ensures IsStraightCommand((a + b + c)[i])
    {
      if i < |a| {
        assert (a + b + c)[i] == a[i];
      } else if i < |a| + |b| {
        assert (a + b + c)[i] == b[i - |a|];
      } else {
        assert (a + b + c)[i] == c[i - |a| - |b|];
      }
    }
  }

  /** The same loop, as corrected, is a multiply loop the engine shortcuts,
      adding 7, 10, 3 and 1 times the counter to the next four cells. */
  lemma HelloLoopMultiplies()
    ensures IsMultiplyLoop(HelloLoop) && HelloLoop[1..|HelloLoop| - 1] == HelloBody
    ensures Delta(HelloBody, 1) == 7 && Delta(HelloBody, 2) == 10
    ensures Delta(HelloBody, 3) == 3 && Delta(HelloBody, 4) == 1
  {
    HelloLoopCounts();
    HelloBodyEffect();
    assert HelloLoop[1..|HelloLoop| - 1] == HelloBody;
  }

  // ---------------------------------------------------------------------
  // The demo run as written: ten `+`, the `[` entered, one pass of the
  // body, and the crash at the `]` with the counter at 9.

  /** A straight command run as written is `Moved`, while the pointer stays
      on the tape. */
  lemma MovedIsEffect(input: seq<Byte>, e: Machine, c: char)
    requires OnTape(e) && IsStraightCommand(c) && 0 <= e.pointer + Shift(c) < |e.tape|
    ensures Effect(c, input, e).(pc := e.pc + 1) == Moved(e, c)
  {
  }

  /** One successful iteration spends one unit of fuel: `k` is `j + 1`. */
  lemma RunOneStep(code: string, input: seq<Byte>, f: Frame, g: Frame, k: nat, j: nat)
    requires Sane(code, f) && f.m.pc < |code|
    requires StepAsWritten(code, input, f) == Success(g) && k == j + 1
    ensures Sane(code, g)
    ensures RunAsWritten(code, input, f, k) == RunAsWritten(code, input, g, j)
  {
    assert k - 1 == j;
    assert RunAsWritten(code, input, f, k) == RunAsWritten(code, input, g, j);
  }

  /** `frames` is a run as written: every frame sane, and each but the last
      one successful iteration away from the next. */
  predicate IsRun(code: string, input: seq<Byte>, frames: seq<Frame>) {
    && |frames| > 0
    && (forall j :: 0 <= j < |frames| ==> Sane(code, frames[j]))
    && (forall j :: 0 <= j < |frames| - 1 ==>
          frames[j].m.pc < |code| && StepAsWritten(code, input, frames[j]) == Success(frames[j + 1]))
  }

  /** The main loop as written goes along a run one frame per iteration,
      from frame `i` to the last. */
  lemma {:induction false} RunAlong(code: string, input: seq<Byte>, frames: seq<Frame>, i: nat, k: nat, r: nat)
    requires IsRun(code, input, frames) && i < |frames| && k == |frames| - 1 - i + r
    ensures RunAsWritten(code, input, frames[i], k) == RunAsWritten(code, input, frames[|frames| - 1], r)
    decreases |frames| - i
  {
    if i < |frames| - 1 {
      var j := k - 1;
      RunAlong(code, input, frames, i + 1, j, r);
      RunOneStep(code, input, frames[i], frames[i + 1], k, j);
    } else {
      assert k == r && frames[i] == frames[|frames| - 1];
    }
  }

  /** A whole run from `f` to `g`, `k` being its length plus the fuel `j`
      left at `g`. */
  lemma RunFromTo(code: string, input: seq<Byte>, frames: seq<Frame>, f: Frame, g: Frame, k: nat, j: nat)
    requires IsRun(code, input, frames) && frames[0] == f && frames[|frames| - 1] == g
    requires k == |frames| - 1 + j
    ensures Sane(code, f) && Sane(code, g)
    ensures RunAsWritten(code, input, f, k) == RunAsWritten(code, input, g, j)
  {
    RunAlong(code, input, frames, 0, k, j);
  }

  /** Two runs, the second one iteration after the end of the first, run on
      from the start of the first to the end of the second. */
  lemma RunsChain(code: string, input: seq<Byte>, a: seq<Frame>, b: seq<Frame>, k: nat, r: nat)
    requires IsRun(code, input, a) && IsRun(code, input, b)
    requires a[|a| - 1].m.pc < |code| && StepAsWritten(code, input, a[|a| - 1]) == Success(b[0])
    requires k == |a| + |b| - 1 + r
    ensures Sane(code, a[0]) && Sane(code, b[|b| - 1])
    ensures RunAsWritten(code, input, a[0], k) == RunAsWritten(code, input, b[|b| - 1], r)
  {
    var j := |b| - 1 + r;
    RunFromTo(code, input, a, a[0], a[|a| - 1], k, j + 1);
    RunOneStep(code, input, a[|a| - 1], b[0], j + 1, j);
    RunFromTo(code, input, b, b[0], b[|b| - 1], j, r);
    var x, y := RunAsWritten(code, input, a[0], k), RunAsWritten(code, input, a[|a| - 1], j + 1);
    var z, w := RunAsWritten(code, input, b[0], j), RunAsWritten(code, input, b[|b| - 1], r);
    assert x == y == z == w;
  }

  /** Command `i` of a straight stretch is one iteration that moves to the next command. */
  lemma StraightStep(code: string, input: seq<Byte>, m: Machine, s: seq<nat>, q: nat, i: nat, e: Machine)
    requires Sane(code, Frame(m, s)) && m.pc <= q <= |code|
    requires IsStraight(code[m.pc..q]) && Fits(code[m.pc..q], m.pointer, |m.tape|) && i < q - m.pc
    requires e == Advance(m, code[m.pc..q], i)
    ensures Sane(code, Frame(e, s)) && e.pc < |code|
    ensures StepAsWritten(code, input, Frame(e, s)) == Success(Frame(Advance(m, code[m.pc..q], i + 1), s))
  {
    var body := code[m.pc..q];
    var c := body[i];
    assert code[e.pc] == c && IsStraightCommand(c);
    AdvanceMoved(m, body, i + 1);
    MovedIsEffect(input, e, c);
  }

  /** Whether the pointer, at `at` before command `i`, stays within `n`
      cells from there to the end of the body. */
  function StaysWithin(body: string, i: nat, at: int, n: nat): bool
    requires i <= |body|
    decreases |body| - i
  {
    0 <= at < n && (i == |body| || StaysWithin(body, i + 1, at + Shift(body[i]), n))
  }

  lemma {:induction false} StaysWithinFits(body: string, ptr: nat, n: nat, i: nat)
    requires i <= |body| && StaysWithin(body, i, ptr + Offset(body, i), n)
    ensures forall j :: i <= j <= |body| ==> 0 <= ptr + Offset(body, j) < n
    decreases |body| - i
  {
    if i < |body| {
      StaysWithinFits(body, ptr, n, i + 1);
    }
  }

  /** The ten `+` in front of the loop: no moves, and 10 added to cell 0. */
  lemma HelloPrefix(n: nat)
    requires n > 0
    ensures IsStraight("++++++++++") && Fits("++++++++++", 0, n)
    ensures Offset("++++++++++", 10) == 0 && DeltaUpTo("++++++++++", 10, 0) == 10
  {
    var pre := "++++++++++";
    assert Offset(pre, 5) == 0 && DeltaUpTo(pre, 5, 0) == 5;
    assert StaysWithin(pre, 5, 0, 1);
    assert StaysWithin(pre, 0, 0, 1);
    StaysWithinFits(pre, 0, 1, 0);
  }

  /** One pass of the demo's loop body visits cells 0 to 4 only. */
  lemma HelloBodyFits(n: nat)
    requires n >= 5
    ensures Fits(HelloBody, 0, n)
  {
    var a, b, c := ">+++++++", ">++++++++++", ">+++>+<<<<-";
    HelloPiecesFit();
    HelloPieceA();
    HelloPieceB();
    FitsAppend(a, b, 0, 5);
    OffsetAppend(a, b, |b|);
    FitsAppend(a + b, c, 0, 5);
    assert HelloBody == a + b + c;
  }

  /** Each of the three pieces stays on cells 0 to 4 from where the one
      before it leaves the pointer. */
  lemma HelloPiecesFit()
    ensures Fits(">+++++++", 0, 5) && Fits(">++++++++++", 1, 5) && Fits(">+++>+<<<<-", 2, 5)
  {
    var a, b, c := ">+++++++", ">++++++++++", ">+++>+<<<<-";
    assert StaysWithin(a, 0, 0, 5);
    StaysWithinFits(a, 0, 5, 0);
    HelloPieceFitsB();
    HelloPieceFitsC();
  }

  lemma HelloPieceFitsB()
    ensures Fits(">++++++++++", 1, 5)
  {
    var b := ">++++++++++";
    assert StaysWithin(b, 5, 2, 5);
    assert StaysWithin(b, 0, 1, 5);
    StaysWithinFits(b, 1, 5, 0);
  }

  lemma HelloPieceFitsC()
    ensures Fits(">+++>+<<<<-", 2, 5)
  {
    var c := ">+++>+<<<<-";
    assert StaysWithin(c, 5, 4, 5);
    assert StaysWithin(c, 0, 2, 5);
    StaysWithinFits(c, 2, 5, 0);
  }

  /** The body fits from where `a` leaves the pointer, so `a + b` fits. */
  lemma FitsAppend(a: string, b: string, ptr: nat, n: nat)
    requires Fits(a, ptr, n) && 0 <= ptr + Offset(a, |a|) && Fits(b, ptr + Offset(a, |a|), n)
    ensures Fits(a + b, ptr, n)
  {
    forall i | 0 <= i <= |a + b|
      ensures 0 <= ptr + Offset(a + b, i) < n
    {
      if i <= |a| {
        OffsetPrefix(a, b, i);
      } else {
        OffsetAppend(a, b, i - |a|);
      }
    }
  }

  /** Where the demo's two straight stretches sit in it. */
  lemma HelloWorldSlices()
    ensures |HelloWorld| > 42 && HelloWorld[0..10] == "++++++++++" && HelloWorld[10] == '['
    ensures HelloWorld[11..41] == HelloBody
  {
    HelloLoopAt();
    assert HelloWorld[11..41] == HelloWorld[10..42][1..31];
    assert HelloLoop[1..31] == HelloBody;
  }

  /** A run as written through a straight stretch `code[m.pc..q]` that fits
      on the tape takes one iteration per command, the stack untouched, and
      ends in the state `Advance` describes: the pointer moved by the
      stretch's offset, each cell changed by the stretch's net change to it,
      and nothing else touched. */
  lemma StraightRun(code: string, input: seq<Byte>, m: Machine, s: seq<nat>, q: nat, x: nat) returns (frames: seq<Frame>)
    requires Sane(code, Frame(m, s)) && m.pc <= q <= |code| && x < |m.tape|
    requires IsStraight(code[m.pc..q]) && Fits(code[m.pc..q], m.pointer, |m.tape|)
    ensures IsRun(code, input, frames) && |frames| == q - m.pc + 1 && frames[0] == Frame(m, s)
    ensures frames[q - m.pc] == Frame(Advance(m, code[m.pc..q], q - m.pc), s)
    ensures var m' := frames[q - m.pc].m;
      && frames[q - m.pc].stack == s && m'.pc == q && m'.inPos == m.inPos && m'.output == m.output
      && m'.pointer == m.pointer + Offset(code[m.pc..q], q - m.pc) && |m'.tape| == |m.tape|
      && m'.tape[x] == (m.tape[x] + DeltaUpTo(code[m.pc..q], q - m.pc, x - m.pointer)) % 256
  {
    var body := code[m.pc..q];
    assert |body| == q - m.pc;
    frames := StraightFrames(code, input, m, s, q);
    AdvanceAll(m, body, x);
  }

  /** The frames of `StraightRun`: one per command of the stretch, each the
      state `Advance` describes, and a run as written. */
  lemma StraightFrames(code: string, input: seq<Byte>, m: Machine, s: seq<nat>, q: nat) returns (frames: seq<Frame>)
    requires Sane(code, Frame(m, s)) && m.pc <= q <= |code|
    requires IsStraight(code[m.pc..q]) && Fits(code[m.pc..q], m.pointer, |m.tape|)
    ensures IsRun(code, input, frames) && |frames| == q - m.pc + 1 && frames[0] == Frame(m, s)
    ensures frames[q - m.pc] == Frame(Advance(m, code[m.pc..q], q - m.pc), s)
  {
    var body := code[m.pc..q];
    assert |body| == q - m.pc;
    AdvanceNone(m, body);
    frames := seq(|body| + 1, j requires 0 <= j <= |body| => Frame(Advance(m, body, j), s));
    forall j | 0 <= j < |frames| - 1
      ensures Sane(code, frames[j]) && frames[j].m.pc < |code|
      ensures StepAsWritten(code, input, frames[j]) == Success(frames[j + 1])
    {
      StraightStep(code, input, m, s, q, j, frames[j].m);
    }
    assert Sane(code, frames[|body|]);
  }

  /** `Advance` over none of a stretch is no change. */
  lemma AdvanceNone(m: Machine, body: string)
    requires Fits(body, m.pointer, |m.tape|)
    ensures Advance(m, body, 0) == m
  {
    AddScaledNone(m.tape, m.pointer, body, 1);
  }

  /** `Advance` over all of a stretch changes cell `x` by the stretch's net
      change to it. */
  lemma AdvanceAll(m: Machine, body: string, x: nat)
    requires Fits(body, m.pointer, |m.tape|) && x < |m.tape|
    ensures Advance(m, body, |body|).tape[x] == (m.tape[x] + DeltaUpTo(body, |body|, x - m.pointer)) % 256
  {
    AddScaledAt(m.tape, m.pointer, body, |body|, 1, x);
  }

  /** A `[` over a nonzero cell is entered: its position is pushed. */
  lemma EnterStep(code: string, input: seq<Byte>, m: Machine, s: seq<nat>)
    requires Sane(code, Frame(m, s)) && m.pc < |code| && code[m.pc] == '[' && m.tape[m.pointer] != 0
    ensures Sane(code, Frame(m.(pc := m.pc + 1), s + [m.pc]))
    ensures StepAsWritten(code, input, Frame(m, s)) == Success(Frame(m.(pc := m.pc + 1), s + [m.pc]))
  {
  }

  /** The ten `+` of the demo, run as written from the initial state: ten
      iterations to the `[`, with 10 in cell 0. */
  lemma HelloBefore(input: seq<Byte>, n: nat) returns (before: seq<Frame>)
    requires n >= 5
    ensures IsRun(HelloWorld, input, before) && |before| == 11 && before[0] == Frame(Initial(n), [])
    ensures var m := before[10].m;
      && before[10].stack == [] && m.pc == 10 && m.pointer == 0 && |m.tape| == n
      && m.tape[0] == 10 && m.output == []
  {
    HelloWorldSlices();
    HelloPrefix(n);
    before := StraightRun(HelloWorld, input, Initial(n), [], 10, 0);
  }

  /** One pass of the demo's loop body, run as written from just inside the
      `[`: thirty iterations to the `]`, with the counter down to 9. */
  lemma HelloInside(input: seq<Byte>, n: nat, mp: Machine) returns (inside: seq<Frame>)
    requires n >= 5 && mp.pc == 10 && mp.pointer == 0 && |mp.tape| == n && mp.tape[0] == 10 && mp.output == []
    ensures IsRun(HelloWorld, input, inside) && |inside| == 31 && inside[0] == Frame(mp.(pc := 11), [10])
    ensures var m := inside[30].m;
      && inside[30].stack == [10] && m.pc == 41 && m.pointer == 0 && m.tape[0] == 9 && m.output == []
  {
    HelloWorldSlices();
    HelloBodyFits(n);
    HelloBodyEffect();
    assert |HelloBody| == 30;
    inside := StraightRun(HelloWorld, input, mp.(pc := 11), [10], 41, 0);
  }

  /** The demo program as written, on a tape of at least five cells: the
      first 41 iterations run the ten `+`, enter the loop and make one pass
      of its body, reaching the `]` with the counter at 9; the 42nd then
      fails with `UnboundLocalError`, before anything is printed. */
  lemma HelloWorldRun(input: seq<Byte>, n: nat)
    requires n >= 5
    ensures var f := RunAsWritten(HelloWorld, input, Frame(Initial(n), []), 41);
      && f.Success? && f.value.stack == [10] && f.value.m.pc == 41
      && f.value.m.pointer == 0 && f.value.m.tape[0] == 9 && f.value.m.output == []
    ensures RunAsWritten(HelloWorld, input, Frame(Initial(n), []), 42) == Failure(UnboundLocalError)
  {
    HelloWorldSlices();
    var before := HelloBefore(input, n);
    var mp := before[10].m;
    assert before[10] == Frame(mp, []);
    EnterStep(HelloWorld, input, mp, []);
    assert [] + [10] == [10];
    var inside := HelloInside(input, n, mp);
    RunsChain(HelloWorld, input, before, inside, 41, 0);
    RunsChain(HelloWorld, input, before, inside, 42, 1);
    var mq := inside[30].m;
    assert inside[30] == Frame(mq, [10]);
    HelloWorldCrashes(input, mq);
    var a := RunAsWritten(HelloWorld, input, Frame(Initial(n), []), 41);
    assert a == RunAsWritten(HelloWorld, input, Frame(mq, [10]), 0) == Success(Frame(mq, [10]));
    var b := RunAsWritten(HelloWorld, input, Frame(Initial(n), []), 42);
    assert b == RunAsWritten(HelloWorld, input, Frame(mq, [10]), 1) == Failure(UnboundLocalError);
  }

  // ---------------------------------------------------------------------
  // Lines 26-28: were the walk fixed to start past the `[`, the offsets
  // would still be applied with a live read of the counter and without
  // `% 256`.

  /** `offsets[temp_pointer] += d`, with a dictionary kept as its entries in
      insertion order. */
  function Record(offsets: seq<(int, int)>, at: int, d: int): (r: seq<(int, int)>)
    ensures |r| >= |offsets|
    ensures forall i :: 0 <= i < |offsets| ==> r[i].0 == offsets[i].0
  {
    if |offsets| == 0 then [(at, d)]
    else if offsets[0].0 == at then [(at, offsets[0].1 + d)] + offsets[1..]
    else [offsets[0]] + Record(offsets[1..], at, d)
  }

  /** Lines 10-25 as they would run once `pc` were bound to the loop's body,
      the walk starting at `stack[-1] + 1`, just past the `[`: the entries
      `offsets` holds after the body from `i` on, entered with the pointer at
      `at`. (Merely sharing the caller's `pc` would not do: the call is made
      with `pc` on the `]`, so the `while` test would end the walk at once.)
      The source's walk, `while code[pc] != ']'`, stops at the first `]` it
      meets, whether that closes this loop or a nested one; here the walk
      covers all of `body`, so the two agree only on a body without
      brackets, which is every body the multiply shortcut is sound for.
      No entry is dropped, and the first key stays first, as a dictionary
      keeps its insertion order. */
  function Recorded(body: string, i: nat, at: int, offsets: seq<(int, int)>): (r: seq<(int, int)>)
    requires i <= |body|
    ensures |r| >= |offsets|
    ensures |offsets| > 0 ==> r[0].0 == offsets[0].0
    decreases |body| - i
  {
    if i == |body| then offsets
    else
      var c := body[i];
      var offsets' := if c == '+' || c == '-' then Record(offsets, at, Bump(c)) else offsets;
      Recorded(body, i + 1, at + Shift(c), offsets')
  }

  /** Lines 26-28: `tape[offset] += tape[pointer] * value` for each entry in
      order, reading the counter anew each time and never reducing modulo
      256, then `tape[pointer] = 0`; Python's negative indices count from
      the end. */
  function ApplyAsWritten(tape: seq<int>, pointer: nat, entries: seq<(int, int)>): (r: Result<seq<int>, Crash>)
    requires pointer < |tape|
    ensures r.Success? ==> |r.value| == |tape| && r.value[pointer] == 0
    decreases |entries|
  {
    if |entries| == 0 then Success(tape[pointer := 0])
    else
      var (offset, value) := entries[0];
      var index := if offset < 0 then offset + |tape| else offset;
      if !(0 <= index < |tape|) then Failure(IndexError)
      else ApplyAsWritten(tape[index := tape[index] + tape[pointer] * value], pointer, entries[1..])
  }

  /** The cells of a byte tape as Python ints. */
  function Ints(tape: seq<Byte>): (r: seq<int>)
    ensures |r| == |tape| && forall i :: 0 <= i < |tape| ==> r[i] == tape[i]
  {
    seq(|tape|, i requires 0 <= i < |tape| => tape[i] as int)
  }

  /** The value a dictionary kept as its entries holds for key `x`, a
      missing key counting as 0. */
  function Lookup(entries: seq<(int, int)>, x: int): int
    decreases |entries|
  {
    if |entries| == 0 then 0
    else if entries[0].0 == x then entries[0].1
    else Lookup(entries[1..], x)
  }

  /** Recording `d` at `at` adds `d` to that key's value and to no other. */
  lemma {:induction false} RecordLookup(offsets: seq<(int, int)>, at: int, d: int, x: int)
    ensures Lookup(Record(offsets, at, d), x) == Lookup(offsets, x) + (if x == at then d else 0)
    decreases |offsets|
  {
    if |offsets| > 0 && offsets[0].0 != at {
      RecordLookup(offsets[1..], at, d, x);
      assert Record(offsets, at, d)[1..] == Record(offsets[1..], at, d);
    }
  }

  /** The walk from command `i` on adds to each cell's entry the net change
      the rest of the body makes to that cell. */
  lemma {:induction false} RecordedLookup(body: string, pointer: int, i: nat, offsets: seq<(int, int)>, x: int)
    requires i <= |body|
    ensures Lookup(Recorded(body, i, pointer + Offset(body, i), offsets), x)
         == Lookup(offsets, x) + Delta(body, x - pointer) - DeltaUpTo(body, i, x - pointer)
    decreases |body| - i
  {
    if i < |body| {
      var c := body[i];
      var at := pointer + Offset(body, i);
      var offsets' := if c == '+' || c == '-' then Record(offsets, at, Bump(c)) else offsets;
      if c == '+' || c == '-' {
        RecordLookup(offsets, at, Bump(c), x);
      }
      assert at + Shift(c) == pointer + Offset(body, i + 1);
      RecordedLookup(body, pointer, i + 1, offsets', x);
    }
  }

  /** Read as a dictionary, the entries the walk of lines 8-25 records are
      those of the corrected walk: per cell, the net change of one pass. */
  lemma RecordedIsWalk(body: string, pointer: int, x: int)
    ensures Lookup(Recorded(body, 0, pointer, []), x)
         == (if x in Walk(body, pointer, |body|) then Walk(body, pointer, |body|)[x] else 0)
    ensures Lookup(Recorded(body, 0, pointer, []), x) == Delta(body, x - pointer)
  {
    RecordedLookup(body, pointer, 0, [], x);
    WalkAt(body, pointer, |body|, x);
  }

  /** Every key names a cell of a tape of `n` cells. */
  predicate KeysOn(entries: seq<(int, int)>, n: nat) {
    forall k :: 0 <= k < |entries| ==> 0 <= entries[k].0 < n
  }

  /** Recording at a cell of the tape keeps every key on the tape. */
  lemma {:induction false} RecordKeysOn(offsets: seq<(int, int)>, at: int, d: int, n: nat)
    requires KeysOn(offsets, n) && 0 <= at < n
    ensures KeysOn(Record(offsets, at, d), n)
    decreases |offsets|
  {
    if |offsets| > 0 && offsets[0].0 != at {
      RecordKeysOn(offsets[1..], at, d, n);
    }
  }

  /** A body that stays on the tape records only cells of the tape. */
  lemma {:induction false} RecordedKeysOn(body: string, pointer: nat, n: nat, i: nat, offsets: seq<(int, int)>)
    requires i <= |body| && Fits(body, pointer, n) && KeysOn(offsets, n)
    ensures KeysOn(Recorded(body, i, pointer + Offset(body, i), offsets), n)
    decreases |body| - i
  {
    if i < |body| {
      var c := body[i];
      var at := pointer + Offset(body, i);
      var offsets' := if c == '+' || c == '-' then Record(offsets, at, Bump(c)) else offsets;
      if c == '+' || c == '-' {
        RecordKeysOn(offsets, at, Bump(c), n);
      }
      assert at + Shift(c) == pointer + Offset(body, i + 1);
      RecordedKeysOn(body, pointer, n, i + 1, offsets');
    }
  }

  /** Over a zero counter, the apply loop only clears the counter again. */
  lemma {:induction false} ZeroCounterApply(tape: seq<int>, pointer: nat, entries: seq<(int, int)>)
    requires pointer < |tape| && tape[pointer] == 0 && KeysOn(entries, |tape|)
    ensures ApplyAsWritten(tape, pointer, entries) == Success(tape)
    decreases |entries|
  {
    if |entries| == 0 {
      assert tape[pointer := 0] == tape;
    } else {
      var (offset, value) := entries[0];
      assert 0 <= offset < |tape|;
      assert tape[offset := tape[offset] + tape[pointer] * value] == tape;
      ZeroCounterApply(tape, pointer, entries[1..]);
    }
  }

  /** As written, a loop body that starts by taking one off its counter
      multiplies nothing: the counter's entry comes first, so the counter
      is zero before any other cell reads it, and of the whole loop only
      the clearing of the counter remains. */
  lemma CounterFirstLosesProduct(tape: seq<Byte>, pointer: nat, body: string)
    requires pointer < |tape| && |body| > 0 && body[0] == '-'
    requires Fits(body, pointer, |tape|) && Delta(body, 0) == -1
    ensures ApplyAsWritten(Ints(tape), pointer, Recorded(body, 0, pointer, [])) == Success(Ints(tape)[pointer := 0])
  {
    var entries := Recorded(body, 0, pointer, []);
    assert Offset(body, 1) == 0;
    assert entries == Recorded(body, 1, pointer + Offset(body, 1), [(pointer, -1)]);
    RecordedLookup(body, pointer, 0, [], pointer);
    assert entries[0] == (pointer, -1);
    RecordedKeysOn(body, pointer, |tape|, 0, []);
    var t := Ints(tape);
    var t1 := t[pointer := t[pointer] + t[pointer] * -1];
    assert t1 == t[pointer := 0];
    ZeroCounterApply(t1, pointer, entries[1..]);
  }

  /** A bracketed straight body that passes the literal test, brings the
      pointer back and takes one off the counter is a multiply loop. */
  lemma Bracketed(span: string, body: string)
    requires span == "[" + body + "]" && LiteralMultiplyGuard(span) && IsStraight(body)
    requires Offset(body, |body|) == 0 && Delta(body, 0) == -1
    ensures IsMultiplyLoop(span)
  {
    assert span[1..|span| - 1] == body;
  }

  /** `[->>+<<]` is a multiply loop: it moves one unit of the counter two
      cells to the right per pass. */
  lemma LiveCounterLoop()
    ensures IsMultiplyLoop("[->>+<<]")
  {
    LiveCounterBody();
    LiveCounterGuard();
    Bracketed("[->>+<<]", "->>+<<");
  }

  /** The body of `[->>+<<]` brings the pointer back and takes one off the
      counter. */
  lemma LiveCounterBody()
    ensures IsStraight("->>+<<") && Offset("->>+<<", 6) == 0 && Delta("->>+<<", 0) == -1
  {
    assert DeltaUpTo("->>+<<", 6, 0) == -1;
  }

  /** `[->>+<<]` passes the literal test. */
  lemma LiveCounterGuard()
    ensures Count("[->>+<<]", '>') == 2 && Count("[->>+<<]", '<') == 2
  {
  }

  /** With a counter of 3 the multiply loop `[->>+<<]` leaves 3 in the
      target. */
  lemma LiveCounterEffect()
    ensures MultiplyEffect([3, 0, 0], 0, "->>+<<") == [0, 0, 3]
  {
    assert DeltaUpTo("->>+<<", 6, 1) == 0 && DeltaUpTo("->>+<<", 6, 2) == 1;
    MultiplyEffectAt([3, 0, 0], 0, "->>+<<", 0);
    MultiplyEffectAt([3, 0, 0], 0, "->>+<<", 1);
    MultiplyEffectAt([3, 0, 0], 0, "->>+<<", 2);
  }

  /** The entries `[->>+<<]` records: the counter's own first. */
  lemma LiveCounterRecorded()
    ensures Recorded("->>+<<", 0, 0, []) == [(0, -1), (2, 1)]
  {
    var b := "->>+<<";
    var e1: seq<(int, int)> := [(0, -1)];
    var e2: seq<(int, int)> := [(0, -1), (2, 1)];
    assert Record([], 0, -1) == e1;
    assert Record(e1, 2, 1) == e2 by {
      assert Record([], 2, 1) == [(2, 1)];
    }
    assert Recorded(b, 6, 0, e2) == e2;
    assert Recorded(b, 5, 1, e2) == e2;
    assert Recorded(b, 4, 2, e2) == e2;
    assert Recorded(b, 3, 2, e1) == e2;
    assert Recorded(b, 2, 1, e1) == e2;
    assert Recorded(b, 1, 0, e1) == e2;
  }

  /** Applying those entries to a counter of 3 zeroes the counter first. */
  lemma LiveCounterApplied()
    ensures ApplyAsWritten(Ints([3, 0, 0]), 0, [(0, -1), (2, 1)]) == Success([0, 0, 0])
  {
    var e2: seq<(int, int)> := [(0, -1), (2, 1)];
    assert Ints([3, 0, 0]) == [3, 0, 0];
    assert ApplyAsWritten([0, 0, 0], 0, []) == Success([0, 0, 0]) by {
      assert [0, 0, 0][0 := 0] == [0, 0, 0];
    }
    assert ApplyAsWritten([0, 0, 0], 0, e2[1..]) == Success([0, 0, 0]) by {
      assert [0, 0, 0][2 := 0 + 0 * 1] == [0, 0, 0];
    }
    assert [3, 0, 0][0 := 3 + 3 * -1] == [0, 0, 0];
  }

  /** `[->>+<<]` decrements its counter first, so the counter's own entry
      comes first and zeroes the counter before the target reads it: with
      a counter of 3 the target stays 0, where the loop puts 3 there. */
  lemma LiveCounterRead()
    ensures Recorded("->>+<<", 0, 0, []) == [(0, -1), (2, 1)]
    ensures ApplyAsWritten(Ints([3, 0, 0]), 0, [(0, -1), (2, 1)]) == Success([0, 0, 0])
    ensures IsMultiplyLoop("[->>+<<]") && MultiplyEffect([3, 0, 0], 0, "->>+<<") == [0, 0, 3]
  {
    LiveCounterRecorded();
    LiveCounterApplied();
    LiveCounterLoop();
    LiveCounterEffect();
  }

  /** `[>>++<<-]` is a multiply loop adding twice the counter two cells to
      the right. */
  lemma NoWrapLoop()
    ensures IsMultiplyLoop("[>>++<<-]")
  {
    NoWrapBody();
    NoWrapGuard();
    Bracketed("[>>++<<-]", ">>++<<-");
  }

  /** The body of `[>>++<<-]` brings the pointer back and takes one off the
      counter. */
  lemma NoWrapBody()
    ensures IsStraight(">>++<<-") && Offset(">>++<<-", 7) == 0 && Delta(">>++<<-", 0) == -1
  {
    assert DeltaUpTo(">>++<<-", 7, 0) == -1;
  }

  /** `[>>++<<-]` passes the literal test. */
  lemma NoWrapGuard()
    ensures Count("[>>++<<-]", '>') == 2 && Count("[>>++<<-]", '<') == 2
  {
  }

  /** With a counter of 200 the multiply loop `[>>++<<-]` leaves
      (2 * 200) % 256 = 144 in the target. */
  lemma NoWrapEffect()
    ensures MultiplyEffect([200, 0, 0], 0, ">>++<<-") == [0, 0, 144]
  {
    assert DeltaUpTo(">>++<<-", 7, 1) == 0 && DeltaUpTo(">>++<<-", 7, 2) == 2;
    MultiplyEffectAt([200, 0, 0], 0, ">>++<<-", 0);
    MultiplyEffectAt([200, 0, 0], 0, ">>++<<-", 1);
    MultiplyEffectAt([200, 0, 0], 0, ">>++<<-", 2);
  }

  /** The entries `[>>++<<-]` records: the target's first. */
  lemma NoWrapRecorded()
    ensures Recorded(">>++<<-", 0, 0, []) == [(2, 2), (0, -1)]
  {
    var b := ">>++<<-";
    var e1: seq<(int, int)> := [(2, 1)];
    var e2: seq<(int, int)> := [(2, 2)];
    var e3: seq<(int, int)> := [(2, 2), (0, -1)];
    assert Record([], 2, 1) == e1;
    assert Record(e1, 2, 1) == e2;
    assert Record(e2, 0, -1) == e3 by {
      assert Record([], 0, -1) == [(0, -1)];
    }
    assert Recorded(b, 7, 0, e3) == e3;
    assert Recorded(b, 6, 0, e2) == e3;
    assert Recorded(b, 5, 1, e2) == e3;
    assert Recorded(b, 4, 2, e2) == e3;
    assert Recorded(b, 3, 2, e1) == e3;
    assert Recorded(b, 2, 2, []) == e3;
    assert Recorded(b, 1, 1, []) == e3;
  }

  /** Applying those entries to a counter of 200 puts 400 in the target. */
  lemma NoWrapApplied()
    ensures ApplyAsWritten(Ints([200, 0, 0]), 0, [(2, 2), (0, -1)]) == Success([0, 0, 400])
  {
    var e3: seq<(int, int)> := [(2, 2), (0, -1)];
    assert Ints([200, 0, 0]) == [200, 0, 0];
    assert ApplyAsWritten([0, 0, 400], 0, []) == Success([0, 0, 400]) by {
      assert [0, 0, 400][0 := 0] == [0, 0, 400];
    }
    assert ApplyAsWritten([200, 0, 400], 0, e3[1..]) == Success([0, 0, 400]) by {
      assert [200, 0, 400][0 := 200 + 200 * -1] == [0, 0, 400];
    }
    assert [200, 0, 0][2 := 0 + 200 * 2] == [200, 0, 400];
  }

  /** `[>>++<<-]` with a counter of 200 leaves 400 in the target, which is
      no byte; the loop leaves (2 * 200) % 256 = 144. */
  lemma NoWrapAround()
    ensures Recorded(">>++<<-", 0, 0, []) == [(2, 2), (0, -1)]
    ensures ApplyAsWritten(Ints([200, 0, 0]), 0, [(2, 2), (0, -1)]) == Success([0, 0, 400])
    ensures IsMultiplyLoop("[>>++<<-]") && MultiplyEffect([200, 0, 0], 0, ">>++<<-") == [0, 0, 144]
  {
    NoWrapRecorded();
    NoWrapApplied();
    NoWrapLoop();
    NoWrapEffect();
  }

  // ---------------------------------------------------------------------
  // Line 78: the literal multiply test admits loops the shortcut gets wrong.

  /** The literal test admits a loop with output. */
  lemma OutputGuard()
    ensures Count("[>>.<<-]", '>') == 2 && Count("[>>.<<-]", '<') == 2
  {
  }

  /** The literal test admits a loop that leaves the pointer one cell to
      the left. */
  lemma DriftGuard()
    ensures Count("[>>+<-<<]", '>') == 2 && Count("[>>+<-<<]", '<') == 3
  {
  }

  /** The literal test admits a loop that takes two off the counter per
      pass. */
  lemma DoubleStepGuard()
    ensures Count("[>>+<<--]", '>') == 2 && Count("[>>+<<--]", '<') == 2
  {
  }

  /** The corrected test refuses the loop with output: its body is not
      straight. */
  lemma GuardAdmitsOutput()
    ensures LiteralMultiplyGuard("[>>.<<-]") && !IsMultiplyLoop("[>>.<<-]")
  {
    OutputGuard();
    var a := "[>>.<<-]";
    assert a[1..|a| - 1][2] == '.';
  }

  /** The corrected test refuses the loop that drifts: its body does not
      bring the pointer back. */
  lemma GuardAdmitsDrift()
    ensures LiteralMultiplyGuard("[>>+<-<<]") && !IsMultiplyLoop("[>>+<-<<]")
  {
    DriftGuard();
    var b := "[>>+<-<<]";
    assert b[1..|b| - 1] == ">>+<-<<";
    assert Offset(">>+<-<<", 7) == -1;
  }

  /** The corrected test refuses the loop that counts down by two: its body
      does not take exactly one off the counter. */
  lemma GuardAdmitsDoubleStep()
    ensures LiteralMultiplyGuard("[>>+<<--]") && !IsMultiplyLoop("[>>+<<--]")
  {
    DoubleStepGuard();
    var c := "[>>+<<--]";
    assert c[1..|c| - 1] == ">>+<<--";
    assert DeltaUpTo(">>+<<--", 7, 0) == -2;
  }
}
