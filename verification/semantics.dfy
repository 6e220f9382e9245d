/**
 * Reference semantics of one fetch-decode-execute step, shared by both
 * engines: the body of the `while self.pc < len(self.code)` loop of
 * `BrainfuckInterpreter.run`, with `[` and `]` jumping through a jump table.
 */
module Semantics {
  import opened Tape
  import opened JumpResolver

  /** The run state: program counter, pointer, tape, input cursor and output. */
  datatype Machine = Machine(pc: nat, pointer: nat, tape: seq<Byte>, inPos: nat, output: seq<Byte>)

  /** The state a fresh engine starts from, with a tape of `n` zero cells. */
  function Initial(n: nat): (m: Machine)
    ensures m.pc == 0 && m.pointer == 0 && m.inPos == 0 && m.output == []
    ensures |m.tape| == n && forall i :: 0 <= i < n ==> m.tape[i] == 0
  {
    Machine(0, 0, Zeros(n), 0, [])
  }

  /** A state the step function can run on: the pointer is on the tape. */
  predicate OnTape(m: Machine) {
    m.pointer < |m.tape|
  }

  /** What a command does to the tape, the pointer and the I/O state; `[` and
      `]` only read the current cell. */
  function Effect(c: char, input: seq<Byte>, m: Machine): (m': Machine)
    requires OnTape(m)
    ensures m'.pc == m.pc
    // the pointer stays on the tape, which grows by one zero cell at the end
    // that is overrun and otherwise keeps its cells
    ensures OnTape(m')
    ensures c == '>' ==>
      m'.pointer == m.pointer + 1 && m'.tape == if m.pointer + 1 == |m.tape| then m.tape + [0] else m.tape
    ensures c == '<' ==>
      if m.pointer == 0 then m'.pointer == 0 && m'.tape == [0] + m.tape
      else m'.pointer == m.pointer - 1 && m'.tape == m.tape
    // `+`, `-` and `,` write the current cell only
    ensures c in {'+', '-', ','} ==>
      m'.pointer == m.pointer && |m'.tape| == |m.tape|
      && forall i :: 0 <= i < |m.tape| && i != m.pointer ==> m'.tape[i] == m.tape[i]
    ensures c == '+' ==> m'.tape[m.pointer] == if m.tape[m.pointer] == 255 then 0 else m.tape[m.pointer] + 1
    ensures c == '-' ==> m'.tape[m.pointer] == if m.tape[m.pointer] == 0 then 255 else m.tape[m.pointer] - 1
    ensures c !in {'>', '<', '+', '-', ','} ==> m'.pointer == m.pointer && m'.tape == m.tape
    // `,` reads the next input byte, or 0 once the input is exhausted
    ensures c == ',' ==>
      if m.inPos < |input| then m'.tape[m.pointer] == input[m.inPos] && m'.inPos == m.inPos + 1
      else m'.tape[m.pointer] == 0 && m'.inPos == m.inPos
    ensures c != ',' ==> m'.inPos == m.inPos
    ensures m.inPos <= |input| ==> m'.inPos <= |input|
    // `.` appends exactly the current cell; nothing else writes output
    ensures m'.output == if c == '.' then m.output + [m.tape[m.pointer]] else m.output
  {
    var cell := m.tape[m.pointer];
    if c == '>' then
      if m.pointer + 1 >= |m.tape| then m.(pointer := m.pointer + 1, tape := m.tape + [0])
      else m.(pointer := m.pointer + 1)
    else if c == '<' then
      if m.pointer == 0 then m.(tape := [0] + m.tape)
      else m.(pointer := m.pointer - 1)
    else if c == '+' then m.(tape := m.tape[m.pointer := Inc(cell)])
    else if c == '-' then m.(tape := m.tape[m.pointer := Dec(cell)])
    else if c == '.' then m.(output := m.output + [cell])
    else if c == ',' then
      if m.inPos < |input| then m.(tape := m.tape[m.pointer := input[m.inPos]], inPos := m.inPos + 1)
      else m.(tape := m.tape[m.pointer := 0])
    else m
  }

  /** Every bracket of the code has an entry in the table. */
  predicate CoversBrackets(code: string, jm: map<nat, nat>) {
    forall p {:trigger IsBracket(code[p])} :: 0 <= p < |code| && IsBracket(code[p]) ==> p in jm
  }

  /** Whether the command at `pc` jumps: `[` on a zero cell, `]` on a nonzero one. */
  predicate Jumps(code: string, m: Machine)
    requires m.pc < |code| && OnTape(m)
  {
    (code[m.pc] == '[' && m.tape[m.pointer] == 0) || (code[m.pc] == ']' && m.tape[m.pointer] != 0)
  }

  /** One step of the loop body, `pc += 1` included: the command's effect, then
      the jump through the table of `[` on a zero cell and of `]` on a
      nonzero cell. */
  function Step(code: string, jm: map<nat, nat>, input: seq<Byte>, m: Machine): (m': Machine)
    requires CoversBrackets(code, jm) && m.pc < |code| && OnTape(m)
    ensures OnTape(m') && 0 < m'.pc
    ensures m' == Effect(code[m.pc], input, m).(pc := m'.pc)
    ensures Jumps(code, m) ==> IsBracket(code[m.pc]) && m'.pc == jm[m.pc] + 1
    ensures !Jumps(code, m) ==> m'.pc == m.pc + 1
  {
    var target := if Jumps(code, m) then assert IsBracket(code[m.pc]); jm[m.pc] else m.pc;
    Effect(code[m.pc], input, m).(pc := target + 1)
  }

  /** `[` on a zero cell resumes one past the position its table entry names. */
  lemma JumpForward(code: string, jm: map<nat, nat>, input: seq<Byte>, m: Machine)
    requires CoversBrackets(code, jm) && m.pc < |code| && OnTape(m)
    requires code[m.pc] == '[' && m.tape[m.pointer] == 0
    requires m.pc in jm && Matches(code, m.pc, jm[m.pc])
    ensures Matches(code, m.pc, Step(code, jm, input, m).pc - 1)
  {
    assert Jumps(code, m);
  }

  /** `]` on a nonzero cell resumes one past the position its table entry names. */
  lemma JumpBackward(code: string, jm: map<nat, nat>, input: seq<Byte>, m: Machine)
    requires CoversBrackets(code, jm) && m.pc < |code| && OnTape(m)
    requires code[m.pc] == ']' && m.tape[m.pointer] != 0
    requires m.pc in jm && Matches(code, jm[m.pc], m.pc)
    ensures Matches(code, Step(code, jm, input, m).pc - 1, m.pc)
  {
    assert Jumps(code, m);
  }

  /** With a correct table, `[` on a zero cell resumes one past its `]`, `]`
      on a nonzero cell resumes one past its `[`, and every other step
      advances by one; `pc` never passes the end of the code. */
  lemma StepLanding(code: string, jm: map<nat, nat>, input: seq<Byte>, m: Machine)
    requires IsJumpTable(code, jm) && m.pc < |code| && OnTape(m)
    ensures CoversBrackets(code, jm)
    ensures code[m.pc] == '[' && m.tape[m.pointer] == 0 ==>
      Matches(code, m.pc, Step(code, jm, input, m).pc - 1)
    ensures code[m.pc] == ']' && m.tape[m.pointer] != 0 ==>
      Matches(code, Step(code, jm, input, m).pc - 1, m.pc)
    ensures !Jumps(code, m) ==> Step(code, jm, input, m).pc == m.pc + 1
    ensures Step(code, jm, input, m).pc <= |code|
  {
    JumpTarget(code, jm, m.pc);
    if code[m.pc] == '[' && m.tape[m.pointer] == 0 {
      JumpForward(code, jm, input, m);
    } else if code[m.pc] == ']' && m.tape[m.pointer] != 0 {
      JumpBackward(code, jm, input, m);
    } else {
      assert !Jumps(code, m);
    }
  }

  /** A correct table has an entry for every bracket. */
  lemma TableCovers(code: string, jm: map<nat, nat>)
    requires IsJumpTable(code, jm)
    ensures CoversBrackets(code, jm)
  {
  }

  /** The table entry of a bracket is its partner. */
  lemma JumpTarget(code: string, jm: map<nat, nat>, p: nat)
    requires IsJumpTable(code, jm) && p < |code|
    ensures CoversBrackets(code, jm)
    ensures IsBracket(code[p]) ==> p in jm
    ensures code[p] == '[' ==> Matches(code, p, jm[p])
    ensures code[p] == ']' ==> Matches(code, jm[p], p)
  {
  }

  /** Run at most `fuel` steps, stopping when `pc` leaves the code. */
  function Exec(code: string, jm: map<nat, nat>, input: seq<Byte>, m: Machine, fuel: nat): (m': Machine)
    requires CoversBrackets(code, jm) && OnTape(m)
    ensures OnTape(m')
    decreases fuel
  {
    if fuel == 0 || m.pc >= |code| then m
    else Exec(code, jm, input, Step(code, jm, input, m), fuel - 1)
  }

  /** A run only ever grows the tape, consumes input in order and appends
      output: what was printed is never taken back. */
  lemma {:induction false} ExecMonotone(code: string, jm: map<nat, nat>, input: seq<Byte>, m: Machine, fuel: nat)
    requires CoversBrackets(code, jm) && OnTape(m)
    ensures |m.tape| <= |Exec(code, jm, input, m, fuel).tape|
    ensures m.inPos <= Exec(code, jm, input, m, fuel).inPos
    ensures m.inPos <= |input| ==> Exec(code, jm, input, m, fuel).inPos <= |input|
    ensures m.output <= Exec(code, jm, input, m, fuel).output
    decreases fuel
  {
    if fuel > 0 && m.pc < |code| {
      var s := Step(code, jm, input, m);
      ExecMonotone(code, jm, input, s, fuel - 1);
      assert Exec(code, jm, input, m, fuel) == Exec(code, jm, input, s, fuel - 1);
    }
  }

  /** A halted state is final. */
  predicate Halted(code: string, m: Machine) {
    m.pc >= |code|
  }

  /** Running `a` steps and then `b` more is running `a + b` steps. */
  lemma {:induction false} ExecAdd(code: string, jm: map<nat, nat>, input: seq<Byte>, m: Machine, a: nat, b: nat)
    requires CoversBrackets(code, jm) && OnTape(m)
    ensures Exec(code, jm, input, m, a + b) == Exec(code, jm, input, Exec(code, jm, input, m, a), b)
    decreases a
  {
    if a > 0 && m.pc < |code| {
      var s := Step(code, jm, input, m);
      var k := a - 1;
      ExecAdd(code, jm, input, s, k, b);
      assert a + b - 1 == k + b;
      assert Exec(code, jm, input, m, a + b) == Exec(code, jm, input, s, k + b);
      assert Exec(code, jm, input, m, a) == Exec(code, jm, input, s, k);
    } else if a == 0 {
      assert Exec(code, jm, input, m, a) == m;
    } else {
      assert Exec(code, jm, input, m, a) == m;
      assert Exec(code, jm, input, m, b) == m;
      assert Exec(code, jm, input, m, a + b) == m;
    }
  }

  /** A run of one step from a running state is one call of `Step`. */
  lemma ExecOne(code: string, jm: map<nat, nat>, input: seq<Byte>, m: Machine)
    requires CoversBrackets(code, jm) && OnTape(m) && m.pc < |code|
    ensures Exec(code, jm, input, m, 1) == Step(code, jm, input, m)
  {
    assert Exec(code, jm, input, Step(code, jm, input, m), 0) == Step(code, jm, input, m);
  }

  /** One more step after `n` steps is one more call of `Step`. */
  lemma ExecSnoc(code: string, jm: map<nat, nat>, input: seq<Byte>, m: Machine, n: nat)
    requires CoversBrackets(code, jm) && OnTape(m) && Exec(code, jm, input, m, n).pc < |code|
    ensures Exec(code, jm, input, m, n + 1) == Step(code, jm, input, Exec(code, jm, input, m, n))
  {
    ExecAdd(code, jm, input, m, n, 1);
  }

  /** Once halted, further fuel changes nothing: every halting run of a state
      ends in the same final state, whatever fuel reached it. */
  lemma {:induction false} HaltedRunsAgree(code: string, jm: map<nat, nat>, input: seq<Byte>, m: Machine, a: nat, b: nat)
    requires CoversBrackets(code, jm) && OnTape(m)
    requires Halted(code, Exec(code, jm, input, m, a)) && Halted(code, Exec(code, jm, input, m, b))
    ensures Exec(code, jm, input, m, a) == Exec(code, jm, input, m, b)
    decreases a
  {
    if a > 0 && b > 0 && m.pc < |code| {
      HaltedRunsAgree(code, jm, input, Step(code, jm, input, m), a - 1, b - 1);
    }
  }

  /** Two states that differ at most in zero cells trailing the shorter tape. */
  predicate SameButPadding(a: Machine, b: Machine) {
    && a.pc == b.pc && a.pointer == b.pointer && a.inPos == b.inPos && a.output == b.output
    && (forall i :: 0 <= i < |a.tape| && i < |b.tape| ==> a.tape[i] == b.tape[i])
    && (forall i :: |b.tape| <= i < |a.tape| ==> a.tape[i] == 0)
    && (forall i :: |a.tape| <= i < |b.tape| ==> b.tape[i] == 0)
  }

  /** A command cannot tell trailing zero cells from cells not yet made. */
  lemma EffectPadding(c: char, input: seq<Byte>, a: Machine, b: Machine)
    requires OnTape(a) && OnTape(b) && SameButPadding(a, b)
    ensures SameButPadding(Effect(c, input, a), Effect(c, input, b))
  {
    var a', b' := Effect(c, input, a), Effect(c, input, b);
    if c == '<' && a.pointer == 0 {
      forall i | 0 <= i < |a'.tape| && i < |b'.tape|
        ensures a'.tape[i] == b'.tape[i]
      {
        if i > 0 {
          assert a'.tape[i] == a.tape[i - 1] && b'.tape[i] == b.tape[i - 1];
        }
      }
      forall i | |b'.tape| <= i < |a'.tape|
        ensures a'.tape[i] == 0
      {
        assert a'.tape[i] == a.tape[i - 1];
      }
      forall i | |a'.tape| <= i < |b'.tape|
        ensures b'.tape[i] == 0
      {
        assert b'.tape[i] == b.tape[i - 1];
      }
    }
  }

  /** One step keeps two runs the same but for padding. */
  lemma StepPadding(code: string, jm: map<nat, nat>, input: seq<Byte>, a: Machine, b: Machine)
    requires CoversBrackets(code, jm) && a.pc < |code| && OnTape(a) && OnTape(b) && SameButPadding(a, b)
    ensures SameButPadding(Step(code, jm, input, a), Step(code, jm, input, b))
  {
    EffectPadding(code[a.pc], input, a, b);
    assert Jumps(code, a) == Jumps(code, b);
  }

  /** Runs from two states that are the same but for padding stay so. */
  lemma {:induction false} ExecPadding(code: string, jm: map<nat, nat>, input: seq<Byte>, a: Machine, b: Machine, fuel: nat)
    requires CoversBrackets(code, jm) && OnTape(a) && OnTape(b) && SameButPadding(a, b)
    ensures SameButPadding(Exec(code, jm, input, a, fuel), Exec(code, jm, input, b, fuel))
    decreases fuel
  {
    if fuel > 0 && a.pc < |code| {
      StepPadding(code, jm, input, a, b);
      ExecPadding(code, jm, input, Step(code, jm, input, a), Step(code, jm, input, b), fuel - 1);
    }
  }

  /** The starting tape length does not matter, as long as there is a cell:
      runs from `n` and from `n'` zero cells stop at the same command with
      the same pointer, input cursor and output, and their tapes differ at
      most in trailing zero cells. So a `clear` that keeps a grown tape,
      followed by a run, prints what a fresh engine prints. */
  lemma TapeLengthIrrelevant(code: string, jm: map<nat, nat>, input: seq<Byte>, n: nat, n': nat, fuel: nat)
    requires CoversBrackets(code, jm) && n > 0 && n' > 0
    ensures var a, b := Exec(code, jm, input, Initial(n), fuel), Exec(code, jm, input, Initial(n'), fuel);
      && a.output == b.output && a.pc == b.pc && a.pointer == b.pointer && a.inPos == b.inPos
      && (forall i :: 0 <= i < |a.tape| && i < |b.tape| ==> a.tape[i] == b.tape[i])
      && (forall i :: |b.tape| <= i < |a.tape| ==> a.tape[i] == 0)
      && (forall i :: |a.tape| <= i < |b.tape| ==> b.tape[i] == 0)
  {
    ExecPadding(code, jm, input, Initial(n), Initial(n'), fuel);
  }

  /** `++.` prints the byte 2 and halts after three iterations. */
  lemma PlusPlusDot(input: seq<Byte>, n: nat)
    requires n > 0
    ensures Exec("++.", map[], input, Initial(n), 3).output == [2]
    ensures Exec("++.", map[], input, Initial(n), 3).pc == 3
  {
    var code: string, jm: map<nat, nat> := "++.", map[];
    var m0 := Initial(n);
    var m1 := Step(code, jm, input, m0);
    var m2 := Step(code, jm, input, m1);
    var m3 := Step(code, jm, input, m2);
    assert m1.pc == 1 && m1.tape[0] == 1 && m1.output == [];
    assert m2.pc == 2 && m2.tape[0] == 2 && m2.output == [];
    assert m3.pc == 3 && m3.output == [2];
    assert Exec(code, jm, input, m2, 1) == m3;
    assert Exec(code, jm, input, m1, 2) == m3;
  }

  /** `,.` echoes the first input byte. */
  lemma CommaDot(input: seq<Byte>, n: nat)
    requires n > 0 && |input| > 0
    ensures Exec(",.", map[], input, Initial(n), 2).output == [input[0]]
    ensures Exec(",.", map[], input, Initial(n), 2).inPos == 1
  {
    var code: string, jm: map<nat, nat> := ",.", map[];
    assert |code| == 2 && code[0] == ',' && code[1] == '.';
    var m0 := Initial(n);
    assert m0.pointer == 0 && m0.inPos == 0 < |input|;
    var m1 := Step(code, jm, input, m0);
    assert m1.pc == 1 && m1.pointer == 0;
    assert m1.tape[0] == input[0] && m1.inPos == 1 && m1.output == [];
    var m2 := Step(code, jm, input, m1);
    assert m2.pc == 2 && m2.output == [input[0]];
    assert Exec(code, jm, input, m1, 1) == m2;
  }
}
