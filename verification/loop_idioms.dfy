/**
 * The two loop shortcuts of brainfuck.py, taken at a `]` whose cell is
 * nonzero: the clear loop (`[-]`, `[+]`) and the multiply loop (a
 * straight-line body that moves the pointer back to where it started,
 * adds multiples of the counter cell to other cells and decrements the
 * counter by one). Their effect is proved equal to running the loop
 * command by command in the reference semantics.
 */
module LoopIdioms {
  import opened Tape
  import opened JumpResolver
  import opened Semantics

  /** How a command moves the pointer. */
  function Shift(c: char): int {
    if c == '>' then 1 else if c == '<' then -1 else 0
  }

  /** How a command changes the current cell, before wrap-around. */
  function Bump(c: char): int {
    if c == '+' then 1 else if c == '-' then -1 else 0
  }

  /** The pointer offset after the first `i` commands of a loop body. */
  function Offset(body: string, i: nat): int
    requires i <= |body|
  {
    if i == 0 then 0 else Offset(body, i - 1) + Shift(body[i - 1])
  }

  /** The net change the first `i` commands make to the cell at offset `o`. */
  function DeltaUpTo(body: string, i: nat, o: int): int
    requires i <= |body|
  {
    if i == 0 then 0
    else DeltaUpTo(body, i - 1, o) + (if Offset(body, i - 1) == o then Bump(body[i - 1]) else 0)
  }

  /** The net change one pass of the body makes to the cell at offset `o`:
      the value the source's `offsets` dictionary holds for that cell. */
  function Delta(body: string, o: int): int
  {
    DeltaUpTo(body, |body|, o)
  }

  /** A pointer move or an increment. */
  predicate IsStraightCommand(c: char) {
    c == '>' || c == '<' || c == '+' || c == '-'
  }

  /** A body of pointer moves and increments only: no I/O and no brackets. */
  predicate IsStraight(body: string) {
    forall i :: 0 <= i < |body| ==> IsStraightCommand(body[i])
  }

  /** Every pointer position the body visits, starting at `ptr`, is on a tape
      of `n` cells, so one pass neither grows the tape nor moves the cells. */
  predicate Fits(body: string, ptr: nat, n: nat) {
    forall i :: 0 <= i <= |body| ==> 0 <= ptr + Offset(body, i) < n
  }

  /** The tape after adding `k` times the per-pass changes of the first `i`
      commands, each cell modulo 256. */
  function AddScaled(tape: seq<Byte>, ptr: nat, body: string, i: nat, k: int): (t: seq<Byte>)
    requires i <= |body|
    ensures |t| == |tape|
  {
    seq(|tape|, x requires 0 <= x < |tape| => (tape[x] + k * DeltaUpTo(body, i, x - ptr)) % 256)
  }

  /** One cell of `AddScaled`. */
  lemma AddScaledAt(tape: seq<Byte>, ptr: nat, body: string, i: nat, k: int, x: nat)
    requires i <= |body| && x < |tape|
    ensures AddScaled(tape, ptr, body, i, k)[x] == (tape[x] + k * DeltaUpTo(body, i, x - ptr)) % 256
  {
  }

  /** Adding zero times changes nothing. */
  lemma AddScaledZero(tape: seq<Byte>, ptr: nat, body: string, i: nat)
    requires i <= |body|
    ensures AddScaled(tape, ptr, body, i, 0) == tape
  {
    forall x | 0 <= x < |tape|
      ensures AddScaled(tape, ptr, body, i, 0)[x] == tape[x]
    {
      AddScaledAt(tape, ptr, body, i, 0, x);
    }
  }

  /** Adding `k - 1` times and then once more is adding `k` times. */
  lemma AddScaledSucc(tape: seq<Byte>, ptr: nat, body: string, i: nat, k: nat)
    requires i <= |body| && k > 0
    ensures AddScaled(AddScaled(tape, ptr, body, i, k - 1), ptr, body, i, 1) == AddScaled(tape, ptr, body, i, k)
  {
    var s := AddScaled(tape, ptr, body, i, k - 1);
    forall x | 0 <= x < |tape|
      ensures AddScaled(s, ptr, body, i, 1)[x] == AddScaled(tape, ptr, body, i, k)[x]
    {
      var d := DeltaUpTo(body, i, x - ptr);
      AddScaledAt(tape, ptr, body, i, k - 1, x);
      AddScaledAt(s, ptr, body, i, 1, x);
      AddScaledAt(tape, ptr, body, i, k, x);
      ModAdd(tape[x] + (k - 1) * d, d);
      MulPred(k, d);
    }
  }

  /** The state after the first `i` commands of a straight body entered at `m`. */
  function Advance(m: Machine, body: string, i: nat): (m': Machine)
    requires i <= |body| && Fits(body, m.pointer, |m.tape|)
    ensures OnTape(m') && m'.pc == m.pc + i && |m'.tape| == |m.tape|
  {
    m.(pc := m.pc + i, pointer := m.pointer + Offset(body, i), tape := AddScaled(m.tape, m.pointer, body, i, 1))
  }

  /** The state one straight command later, the pointer staying on the tape. */
  function Moved(e: Machine, c: char): (e': Machine)
    requires OnTape(e) && 0 <= e.pointer + Shift(c) < |e.tape|
    ensures OnTape(e')
  {
    e.(pc := e.pc + 1, pointer := e.pointer + Shift(c),
       tape := if Bump(c) == 0 then e.tape else e.tape[e.pointer := (e.tape[e.pointer] + Bump(c)) % 256])
  }

  /** A straight command that keeps the pointer on the tape is `Moved`. */
  lemma StraightEffect(code: string, jm: map<nat, nat>, input: seq<Byte>, e: Machine, c: char)
    requires CoversBrackets(code, jm) && OnTape(e) && e.pc < |code| && code[e.pc] == c && IsStraightCommand(c)
    requires 0 <= e.pointer + Shift(c) < |e.tape|
    ensures Step(code, jm, input, e) == Moved(e, c)
  {
  }

  /** One more command of the body is one more `Moved`. */
  lemma AdvanceMoved(m: Machine, body: string, i: nat)
    requires 0 < i <= |body| && Fits(body, m.pointer, |m.tape|) && IsStraightCommand(body[i - 1])
    ensures 0 <= Advance(m, body, i - 1).pointer + Shift(body[i - 1]) < |Advance(m, body, i - 1).tape|
    ensures Moved(Advance(m, body, i - 1), body[i - 1]) == Advance(m, body, i)
  {
    var e := Advance(m, body, i - 1);
    var c := body[i - 1];
    assert 0 <= m.pointer + Offset(body, i) < |m.tape|;
    var s := Moved(e, c);
    var a := Advance(m, body, i);
    forall x | 0 <= x < |m.tape|
      ensures s.tape[x] == a.tape[x]
    {
      AddScaledAt(m.tape, m.pointer, body, i - 1, 1, x);
      AddScaledAt(m.tape, m.pointer, body, i, 1, x);
      ModAdd(m.tape[x] + DeltaUpTo(body, i - 1, x - m.pointer), Bump(c));
    }
    assert s.tape == a.tape;
  }

  /** No commands yet: nothing has been added to the tape. */
  lemma AddScaledNone(tape: seq<Byte>, ptr: nat, body: string, k: int)
    ensures AddScaled(tape, ptr, body, 0, k) == tape
  {
    forall x | 0 <= x < |tape|
      ensures AddScaled(tape, ptr, body, 0, k)[x] == tape[x]
    {
      AddScaledAt(tape, ptr, body, 0, k, x);
    }
  }

  /** If the first `i - 1` commands of the body ran as `Advance` says, so did
      the first `i`. */
  lemma BodyStep(code: string, jm: map<nat, nat>, input: seq<Byte>, m: Machine, q: nat, i: nat)
    requires CoversBrackets(code, jm) && OnTape(m)
    requires m.pc <= q <= |code| && IsStraight(code[m.pc..q]) && Fits(code[m.pc..q], m.pointer, |m.tape|)
    requires 0 < i <= q - m.pc
    requires Exec(code, jm, input, m, i - 1) == Advance(m, code[m.pc..q], i - 1)
    ensures Exec(code, jm, input, m, i) == Advance(m, code[m.pc..q], i)
  {
    var body := code[m.pc..q];
    var j := i - 1;
    var c := body[j];
    var e := Advance(m, body, j);
    assert e.pc == m.pc + j && code[e.pc] == c && IsStraightCommand(c);
    ExecSnoc(code, jm, input, m, j);
    assert j + 1 == i;
    AdvanceMoved(m, body, i);
    StraightEffect(code, jm, input, e, c);
  }

  /** Running the first `i` commands of a straight body that fits on the tape
      moves the pointer by their offset and adds their changes to the cells,
      leaving the I/O state alone. */
  lemma {:induction false} BodyPrefix(code: string, jm: map<nat, nat>, input: seq<Byte>, m: Machine, q: nat, i: nat)
    requires CoversBrackets(code, jm) && OnTape(m)
    requires m.pc <= q <= |code| && IsStraight(code[m.pc..q]) && Fits(code[m.pc..q], m.pointer, |m.tape|)
    requires i <= q - m.pc
    ensures Exec(code, jm, input, m, i) == Advance(m, code[m.pc..q], i)
    decreases i
  {
    if i == 0 {
      AddScaledNone(m.tape, m.pointer, code[m.pc..q], 1);
    } else {
      BodyPrefix(code, jm, input, m, q, i - 1);
      BodyStep(code, jm, input, m, q, i);
    }
  }

  /** The loop body between the brackets at `p` and `q`. */
  function Body(code: string, p: nat, q: nat): string
    requires p < q <= |code|
  {
    code[p + 1..q]
  }

  /** The conditions under which one pass of the loop at `p`..`q` is pure
      arithmetic: a straight body that returns the pointer to where it
      started and stays on the tape. */
  predicate ArithmeticLoop(code: string, jm: map<nat, nat>, p: nat, q: nat, m: Machine)
  {
    && p < q < |code| && code[q] == ']' && q in jm && jm[q] == p
    && IsStraight(Body(code, p, q))
    && Offset(Body(code, p, q), |Body(code, p, q)|) == 0
    && Fits(Body(code, p, q), m.pointer, |m.tape|)
  }

  /** The `]` at `q` with a nonzero cell jumps back to just past its `[`. */
  lemma JumpBack(code: string, jm: map<nat, nat>, input: seq<Byte>, m: Machine, p: nat, q: nat)
    requires CoversBrackets(code, jm) && OnTape(m) && m.pc == q < |code| && code[q] == ']'
    requires q in jm && jm[q] == p && m.tape[m.pointer] != 0
    ensures Exec(code, jm, input, m, 1) == m.(pc := p + 1)
  {
    assert Jumps(code, m);
  }

  /** With a correct table, the `]` of a matched pair jumps to its `[`. */
  lemma ClosePartner(code: string, jm: map<nat, nat>, p: nat, q: nat)
    requires IsJumpTable(code, jm) && Matches(code, p, q)
    ensures CoversBrackets(code, jm) && q in jm && jm[q] == p
  {
    JumpTarget(code, jm, q);
    MatchUniqueOpen(code, jm[q], p, q);
  }

  /** A whole pass of a body that brings the pointer back only changes the tape. */
  lemma AdvanceWhole(s: Machine, body: string)
    requires Fits(body, s.pointer, |s.tape|) && Offset(body, |body|) == 0
    ensures Advance(s, body, |body|) == s.(pc := s.pc + |body|, tape := AddScaled(s.tape, s.pointer, body, |body|, 1))
  {
  }

  /** From the `]` at `q` with a nonzero cell, one jump back and one pass of
      the body return to `q` with the pass's changes added to the tape. */
  lemma Round(code: string, jm: map<nat, nat>, input: seq<Byte>, m: Machine, p: nat, q: nat)
    requires CoversBrackets(code, jm) && OnTape(m) && m.pc == q && ArithmeticLoop(code, jm, p, q, m)
    requires m.tape[m.pointer] != 0
    ensures Exec(code, jm, input, m, q - p) == m.(tape := AddScaled(m.tape, m.pointer, Body(code, p, q), |Body(code, p, q)|, 1))
  {
    var body := Body(code, p, q);
    JumpBack(code, jm, input, m, p, q);
    var s := m.(pc := p + 1);
    ExecAdd(code, jm, input, m, 1, q - p - 1);
    assert code[s.pc..q] == body;
    BodyPrefix(code, jm, input, s, q, q - p - 1);
    AdvanceWhole(s, body);
  }

  /** The counter cell after `j` passes that each change it by `d`. */
  function CellAfter(c: Byte, d: int, j: nat): Byte {
    (c + j * d) % 256
  }

  /** The number of steps of `k` passes of `len` steps each. */
  function Laps(k: nat, len: nat): nat
  {
    if k == 0 then 0 else Laps(k - 1, len) + len
  }

  lemma {:induction false} LapsIsProduct(k: nat, len: nat)
    ensures Laps(k, len) == k * len
  {
    if k > 0 {
      LapsIsProduct(k - 1, len);
      MulPred(k, len);
    }
  }

  /** The counter cell after `k` passes. */
  lemma CounterAfter(tape: seq<Byte>, ptr: nat, body: string, k: nat)
    requires ptr < |tape|
    ensures AddScaled(tape, ptr, body, |body|, k)[ptr] == CellAfter(tape[ptr], Delta(body, 0), k)
  {
    AddScaledAt(tape, ptr, body, |body|, k, ptr);
    assert DeltaUpTo(body, |body|, ptr - ptr) == Delta(body, 0);
  }

  /** `k` passes in a row, each starting from a nonzero counter, add `k`
      times the per-pass changes to the tape. */
  lemma {:induction false} Rounds(code: string, jm: map<nat, nat>, input: seq<Byte>, m: Machine, p: nat, q: nat, k: nat)
    requires CoversBrackets(code, jm) && OnTape(m) && m.pc == q && ArithmeticLoop(code, jm, p, q, m)
    requires forall j :: 0 <= j < k ==> CellAfter(m.tape[m.pointer], Delta(Body(code, p, q), 0), j) != 0
    ensures Exec(code, jm, input, m, Laps(k, q - p)) == m.(tape := AddScaled(m.tape, m.pointer, Body(code, p, q), |Body(code, p, q)|, k))
    decreases k
  {
    var body := Body(code, p, q);
    var n := |body|;
    if k == 0 {
      AddScaledZero(m.tape, m.pointer, body, n);
    } else {
      Rounds(code, jm, input, m, p, q, k - 1);
      var e := m.(tape := AddScaled(m.tape, m.pointer, body, n, k - 1));
      CounterAfter(m.tape, m.pointer, body, k - 1);
      assert ArithmeticLoop(code, jm, p, q, e);
      Round(code, jm, input, e, p, q);
      AddScaledSucc(m.tape, m.pointer, body, n, k);
      var r: nat := q - p;
      var done := Laps(k - 1, r);
      assert Laps(k, r) == done + r;
      assert Exec(code, jm, input, m, done) == e;
      ExecAdd(code, jm, input, m, done, r);
    }
  }

  /** At the `]` with a zero counter the loop is left: one step to just past it. */
  lemma LeaveLoop(code: string, jm: map<nat, nat>, input: seq<Byte>, m: Machine)
    requires CoversBrackets(code, jm) && OnTape(m) && m.pc < |code| && code[m.pc] == ']'
    requires m.tape[m.pointer] == 0
    ensures Exec(code, jm, input, m, 1) == m.(pc := m.pc + 1)
  {
    assert !Jumps(code, m);
  }

  /** A loop whose counter reaches zero for the first time after `k` passes
      runs `k` passes and one last test of the `]`. */
  lemma LoopExits(code: string, jm: map<nat, nat>, input: seq<Byte>, m: Machine, p: nat, q: nat, k: nat)
    requires CoversBrackets(code, jm) && OnTape(m) && m.pc == q && ArithmeticLoop(code, jm, p, q, m)
    requires forall j :: 0 <= j < k ==> CellAfter(m.tape[m.pointer], Delta(Body(code, p, q), 0), j) != 0
    requires CellAfter(m.tape[m.pointer], Delta(Body(code, p, q), 0), k) == 0
    ensures Exec(code, jm, input, m, Laps(k, q - p) + 1)
         == m.(pc := q + 1, tape := AddScaled(m.tape, m.pointer, Body(code, p, q), |Body(code, p, q)|, k))
  {
    var body := Body(code, p, q);
    Rounds(code, jm, input, m, p, q, k);
    var e := m.(tape := AddScaled(m.tape, m.pointer, body, |body|, k));
    CounterAfter(m.tape, m.pointer, body, k);
    LeaveLoop(code, jm, input, e);
    ExecAdd(code, jm, input, m, Laps(k, q - p), 1);
  }

  /** `str.count(c)` for one character. */
  function Count(s: string, c: char): nat {
    multiset(s)[c]
  }

  /** The clear-loop test: the loop text is literally `[-]` or `[+]`. */
  predicate IsClearLoop(span: string) {
    span == "[-]" || span == "[+]"
  }

  /** The multiply-loop test as the source writes it: more than one `>` and
      more than one `<` in the loop text. */
  predicate LiteralMultiplyGuard(span: string) {
    Count(span, '>') > 1 && Count(span, '<') > 1
  }

  /** The multiply-loop test with what makes the shortcut sound added: the
      literal test, and a straight body that brings the pointer back and
      takes exactly one off the counter per pass. */
  predicate IsMultiplyLoop(span: string) {
    && LiteralMultiplyGuard(span)
    && |span| >= 2 && span[0] == '[' && span[|span| - 1] == ']'
    && IsStraight(span[1..|span| - 1])
    && Offset(span[1..|span| - 1], |span| - 2) == 0
    && Delta(span[1..|span| - 1], 0) == -1
  }

  /** Which shortcut a loop text takes at its `]`, checked in the order the source checks them. */
  datatype LoopKind = Clearing | Multiplying | Generic

  function Classify(span: string): (k: LoopKind)
    ensures k == Clearing <==> IsClearLoop(span)
    ensures k == Multiplying <==> !IsClearLoop(span) && IsMultiplyLoop(span)
    // a shortcut is only ever taken for a bracketed loop without I/O or nested loops
    ensures k != Generic ==>
      |span| >= 2 && span[0] == '[' && span[|span| - 1] == ']' && IsStraight(span[1..|span| - 1])
  {
    if IsClearLoop(span) then Clearing
    else if IsMultiplyLoop(span) then Multiplying
    else Generic
  }

  /** The loop text `code[p..q + 1]` is the body between two brackets. */
  lemma SpanBody(code: string, p: nat, q: nat)
    requires p < q < |code|
    ensures |code[p..q + 1]| == q - p + 1 && |code[p..q + 1]| - 2 == |Body(code, p, q)|
    ensures code[p..q + 1][1..|code[p..q + 1]| - 1] == Body(code, p, q)
  {
    var span := code[p..q + 1];
    var inner := span[1..|span| - 1];
    forall i | 0 <= i < q - p - 1
      ensures inner[i] == Body(code, p, q)[i]
    {
      assert inner[i] == span[i + 1] == code[p + 1 + i];
    }
  }

  /** The multiply shortcut's result: the counter value times each cell's
      per-pass change is added to that cell, modulo 256, and the counter is
      cleared. */
  function MultiplyEffect(tape: seq<Byte>, ptr: nat, body: string): (t: seq<Byte>)
    requires ptr < |tape|
    ensures |t| == |tape|
  {
    seq(|tape|, x requires 0 <= x < |tape| =>
      if x == ptr then 0 else (tape[x] + tape[ptr] * Delta(body, x - ptr)) % 256)
  }

  /** One cell of `MultiplyEffect`. */
  lemma MultiplyEffectAt(tape: seq<Byte>, ptr: nat, body: string, x: nat)
    requires ptr < |tape| && x < |tape|
    ensures MultiplyEffect(tape, ptr, body)[x] ==
      if x == ptr then 0 else (tape[x] + tape[ptr] * Delta(body, x - ptr)) % 256
  {
  }

  /** A counter that loses one per pass is zero after as many passes as its
      value, and then the passes have added exactly `MultiplyEffect`. */
  lemma CountdownIsMultiply(tape: seq<Byte>, ptr: nat, body: string)
    requires ptr < |tape| && Delta(body, 0) == -1
    ensures forall j :: 0 <= j < tape[ptr] ==> CellAfter(tape[ptr], Delta(body, 0), j) != 0
    ensures CellAfter(tape[ptr], Delta(body, 0), tape[ptr]) == 0
    ensures AddScaled(tape, ptr, body, |body|, tape[ptr]) == MultiplyEffect(tape, ptr, body)
  {
    var c := tape[ptr];
    forall x | 0 <= x < |tape|
      ensures AddScaled(tape, ptr, body, |body|, c)[x] == MultiplyEffect(tape, ptr, body)[x]
    {
      AddScaledAt(tape, ptr, body, |body|, c, x);
      MultiplyEffectAt(tape, ptr, body, x);
    }
  }

  /** The dictionary after adding `d` at key `at`, a missing key counting as 0. */
  function Bumped(offsets: map<int, int>, at: int, d: int): map<int, int> {
    if d == 0 then offsets else offsets[at := (if at in offsets then offsets[at] else 0) + d]
  }

  /** The walk's dictionary after the first `i` commands, entered at `pointer`. */
  function Walk(body: string, pointer: int, i: nat): map<int, int>
    requires i <= |body|
  {
    if i == 0 then map[]
    else Bumped(Walk(body, pointer, i - 1), pointer + Offset(body, i - 1), Bump(body[i - 1]))
  }

  /** The walk records per cell its net change so far, a cell without a key
      being unchanged. */
  lemma {:induction false} WalkAt(body: string, pointer: int, i: nat, x: int)
    requires i <= |body|
    ensures (if x in Walk(body, pointer, i) then Walk(body, pointer, i)[x] else 0) == DeltaUpTo(body, i, x - pointer)
  {
    if i > 0 {
      WalkAt(body, pointer, i - 1, x);
    }
  }

  /** The walk only records cells the body visits, which are on the tape. */
  lemma {:induction false} WalkInside(body: string, pointer: nat, n: nat, i: nat, x: int)
    requires i <= |body| && Fits(body, pointer, n)
    ensures x in Walk(body, pointer, i) ==> 0 <= x < n
  {
    if i > 0 {
      WalkInside(body, pointer, n, i - 1, x);
      assert 0 <= pointer + Offset(body, i - 1) < n;
    }
  }

  /** The apply loop's progress: the cells whose keys are done hold their
      new value, all others their old one. */
  ghost predicate Applied(t: seq<Byte>, tape: seq<Byte>, offsets: map<int, int>, pending: set<int>, value: int) {
    && |t| == |tape|
    && forall x :: 0 <= x < |tape| ==>
         t[x] == if x in offsets && x !in pending then (tape[x] + value * offsets[x]) % 256 else tape[x]
  }

  /** Applying the change of one more pending key keeps `Applied`. */
  lemma ApplyNext(t: seq<Byte>, tape: seq<Byte>, offsets: map<int, int>, pending: set<int>, value: int, x: int)
    requires Applied(t, tape, offsets, pending, value) && x in pending && pending <= offsets.Keys
    requires 0 <= x < |t|
    ensures Applied(t[x := (t[x] + value * offsets[x]) % 256], tape, offsets, pending - {x}, value)
  {
  }

  /** The multiply shortcut as the engine runs it, the corrected form of
      `multiply_loop`: walk the body once, recording per visited cell (keyed
      by its absolute position) the net change of one pass; then add the
      counter value, read once beforehand, times each change to its cell,
      modulo 256, and clear the counter. */
  method MultiplyLoop(tape: seq<Byte>, pointer: nat, body: string) returns (t: seq<Byte>)
    requires pointer < |tape| && IsStraight(body) && Fits(body, pointer, |tape|)
    ensures t == MultiplyEffect(tape, pointer, body)
  {
    if tape[pointer] == 0 {
      MultiplyByZero(tape, pointer, body);
      return tape;
    }
    var tempPointer: int := pointer;
    var offsets: map<int, int> := map[];
    var i := 0;
    while i < |body|
      invariant i <= |body| && tempPointer == pointer + Offset(body, i)
      invariant offsets == Walk(body, pointer, i)
    {
      var c := body[i];
      if c == '>' {
        tempPointer := tempPointer + 1;
      } else if c == '<' {
        tempPointer := tempPointer - 1;
      } else if c == '+' {
        if tempPointer in offsets {
          offsets := offsets[tempPointer := offsets[tempPointer] + 1];
        } else {
          offsets := offsets[tempPointer := 1];
        }
      } else if c == '-' {
        if tempPointer in offsets {
          offsets := offsets[tempPointer := offsets[tempPointer] - 1];
        } else {
          offsets := offsets[tempPointer := -1];
        }
      }
      i := i + 1;
    }
    var value := tape[pointer];
    t := tape;
    var pending := offsets.Keys;
    while pending != {}
      invariant pending <= offsets.Keys && offsets == Walk(body, pointer, |body|)
      invariant Applied(t, tape, offsets, pending, value)
      decreases |pending|
    {
      MemberUnlessEmpty(pending);
      var x :| x in pending;
      WalkInside(body, pointer, |tape|, |body|, x);
      ApplyNext(t, tape, offsets, pending, value, x);
      t := t[x := (t[x] + value * offsets[x]) % 256];
      pending := pending - {x};
    }
    MultiplyApplied(t, tape, offsets, pointer, body);
    t := t[pointer := 0];
  }

  /** A set of dictionary keys is empty or has a key to visit next. */
  lemma MemberUnlessEmpty(s: set<int>)
    ensures s == {} || exists y :: y in s
  {
    if forall y :: y !in s {
      assert s == {};
    }
  }

  /** Once every key is applied, clearing the counter gives `MultiplyEffect`. */
  lemma MultiplyApplied(t: seq<Byte>, tape: seq<Byte>, offsets: map<int, int>, pointer: nat, body: string)
    requires pointer < |tape| && offsets == Walk(body, pointer, |body|)
    requires Applied(t, tape, offsets, {}, tape[pointer])
    ensures t[pointer := 0] == MultiplyEffect(tape, pointer, body)
  {
    forall x | 0 <= x < |tape|
      ensures t[pointer := 0][x] == MultiplyEffect(tape, pointer, body)[x]
    {
      MultiplyEffectAt(tape, pointer, body, x);
      if x != pointer {
        WalkAt(body, pointer, |body|, x);
        AppliedAt(t, tape, offsets, pointer, body, x);
      }
    }
  }

  /** A cell other than the counter holds its `MultiplyEffect` value once
      every key is applied, given that its key holds the cell's net change. */
  lemma AppliedAt(t: seq<Byte>, tape: seq<Byte>, offsets: map<int, int>, pointer: nat, body: string, x: nat)
    requires pointer < |tape| && x < |tape|
    requires (if x in offsets then offsets[x] else 0) == Delta(body, x - pointer)
    requires Applied(t, tape, offsets, {}, tape[pointer])
    ensures t[x] == (tape[x] + tape[pointer] * Delta(body, x - pointer)) % 256
  {
    assert t[x] == if x in offsets then (tape[x] + tape[pointer] * offsets[x]) % 256 else tape[x];
  }

  /** With a zero counter the multiply shortcut changes nothing. */
  lemma MultiplyByZero(tape: seq<Byte>, ptr: nat, body: string)
    requires ptr < |tape| && tape[ptr] == 0
    ensures MultiplyEffect(tape, ptr, body) == tape
  {
    forall x | 0 <= x < |tape|
      ensures MultiplyEffect(tape, ptr, body)[x] == tape[x]
    {
      MultiplyEffectAt(tape, ptr, body, x);
    }
  }

  /** A multiply loop run from its `]` leaves after as many passes as the
      counter's value, with `MultiplyEffect` on the tape. */
  lemma MultiplyPasses(code: string, jm: map<nat, nat>, input: seq<Byte>, m: Machine, p: nat, q: nat)
    requires CoversBrackets(code, jm) && OnTape(m) && m.pc == q && ArithmeticLoop(code, jm, p, q, m)
    requires Delta(Body(code, p, q), 0) == -1
    ensures Exec(code, jm, input, m, Laps(m.tape[m.pointer], q - p) + 1)
         == m.(pc := q + 1, tape := MultiplyEffect(m.tape, m.pointer, Body(code, p, q)))
  {
    CountdownIsMultiply(m.tape, m.pointer, Body(code, p, q));
    LoopExits(code, jm, input, m, p, q, m.tape[m.pointer]);
  }

  /** The loop text of a multiply loop at `p`..`q` makes it an arithmetic loop
      whose counter loses one per pass. */
  lemma MultiplyLoopShape(code: string, jm: map<nat, nat>, m: Machine, p: nat, q: nat)
    requires IsJumpTable(code, jm) && Matches(code, p, q)
    requires IsMultiplyLoop(code[p..q + 1]) && Fits(Body(code, p, q), m.pointer, |m.tape|)
    ensures CoversBrackets(code, jm) && ArithmeticLoop(code, jm, p, q, m) && Delta(Body(code, p, q), 0) == -1
  {
    SpanBody(code, p, q);
    ClosePartner(code, jm, p, q);
  }

  /** The multiply shortcut is sound: from the `]` of a multiply loop with a
      counter `c`, the reference semantics reaches, after `c` passes and the
      final test, the state past the `]` whose tape is `MultiplyEffect`, with
      the I/O state untouched. */
  lemma MultiplyLoopSound(code: string, jm: map<nat, nat>, input: seq<Byte>, m: Machine, p: nat, q: nat)
    requires IsJumpTable(code, jm) && OnTape(m) && m.pc == q && p < q < |code| && Matches(code, p, q)
    requires IsMultiplyLoop(code[p..q + 1]) && Fits(Body(code, p, q), m.pointer, |m.tape|)
    ensures CoversBrackets(code, jm)
    ensures Exec(code, jm, input, m, Laps(m.tape[m.pointer], q - p) + 1)
         == m.(pc := q + 1, tape := MultiplyEffect(m.tape, m.pointer, Body(code, p, q)))
  {
    MultiplyLoopShape(code, jm, m, p, q);
    MultiplyPasses(code, jm, input, m, p, q);
  }

  /** How many passes a clear loop makes from a cell holding `v`: `v` for
      `[-]`, and for `[+]` as many as it takes to wrap round to zero. */
  function ClearPasses(c: char, v: Byte): nat
  {
    if c == '-' then v else (256 - v) % 256
  }

  /** `[-]` and `[+]` nest like a loop: the `]` two places on matches the `[`. */
  lemma ClearLoopMatches(code: string, p: nat)
    requires p + 2 < |code| && IsClearLoop(code[p..p + 3])
    ensures code[p] == '[' && code[p + 2] == ']' && (code[p + 1] == '-' || code[p + 1] == '+')
    ensures Matches(code, p, p + 2)
  {
    assert code[p..p + 3][0] == code[p] && code[p..p + 3][1] == code[p + 1] && code[p..p + 3][2] == code[p + 2];
    assert Depth(code, p + 1) == Depth(code, p) + 1;
    assert Depth(code, p + 2) == Depth(code, p) + 1;
    assert Depth(code, p + 3) == Depth(code, p);
  }

  /** A one-command body changes only the cell it starts on. */
  lemma OneCommandBody(c: char, o: int)
    ensures Offset([c], 1) == Shift(c)
    ensures DeltaUpTo([c], 1, o) == if o == 0 then Bump(c) else 0
  {
    assert [c][0] == c;
  }

  /** The counter of a clear loop is nonzero before its last pass and zero after it. */
  lemma ClearCountdown(c: char, v: Byte)
    requires c == '-' || c == '+'
    ensures forall j :: 0 <= j < ClearPasses(c, v) ==> CellAfter(v, Bump(c), j) != 0
    ensures CellAfter(v, Bump(c), ClearPasses(c, v)) == 0
  {
    var k := ClearPasses(c, v);
    forall j | 0 <= j <= k
      ensures CellAfter(v, Bump(c), j) == if c == '-' then (v - j) % 256 else (v + j) % 256
    {
    }
  }

  /** After a clear loop's passes only the counter has changed, to zero. */
  lemma ClearTape(tape: seq<Byte>, ptr: nat, c: char, k: nat)
    requires ptr < |tape| && (c == '-' || c == '+') && CellAfter(tape[ptr], Bump(c), k) == 0
    ensures AddScaled(tape, ptr, [c], 1, k) == tape[ptr := 0]
  {
    forall x | 0 <= x < |tape|
      ensures AddScaled(tape, ptr, [c], 1, k)[x] == tape[ptr := 0][x]
    {
      AddScaledAt(tape, ptr, [c], 1, k, x);
      OneCommandBody(c, x - ptr);
    }
  }

  /** The text of a clear loop: a matched pair around one command that
      leaves the pointer in place and bumps the counter. */
  lemma ClearLoopShape(code: string, p: nat, ptr: nat, n: nat)
    requires p + 2 < |code| && IsClearLoop(code[p..p + 3]) && ptr < n
    ensures (code[p + 1] == '-' || code[p + 1] == '+') && Matches(code, p, p + 2)
    ensures Body(code, p, p + 2) == [code[p + 1]] && IsStraight(Body(code, p, p + 2))
    ensures Offset(Body(code, p, p + 2), 1) == 0 && Fits(Body(code, p, p + 2), ptr, n)
    ensures Delta(Body(code, p, p + 2), 0) == Bump(code[p + 1])
  {
    ClearLoopMatches(code, p);
    var c := code[p + 1];
    assert Body(code, p, p + 2) == [c];
    OneCommandBody(c, 0);
    assert Offset([c], 0) == 0;
  }

  /** A clear loop run from its `]` makes its passes and leaves with only
      the counter changed, to zero. */
  lemma ClearPassesRun(code: string, jm: map<nat, nat>, input: seq<Byte>, m: Machine, p: nat)
    requires CoversBrackets(code, jm) && OnTape(m) && m.pc == p + 2 && ArithmeticLoop(code, jm, p, p + 2, m)
    requires (code[p + 1] == '-' || code[p + 1] == '+') && Body(code, p, p + 2) == [code[p + 1]]
    requires Delta(Body(code, p, p + 2), 0) == Bump(code[p + 1])
    ensures Exec(code, jm, input, m, 2 * ClearPasses(code[p + 1], m.tape[m.pointer]) + 1)
         == m.(pc := p + 3, tape := m.tape[m.pointer := 0])
  {
    var c := code[p + 1];
    var k := ClearPasses(c, m.tape[m.pointer]);
    ClearCountdown(c, m.tape[m.pointer]);
    LoopExits(code, jm, input, m, p, p + 2, k);
    LapsIsProduct(k, 2);
    ClearTape(m.tape, m.pointer, c, k);
  }

  /** The clear shortcut is sound: from the `]` of `[-]` or `[+]`, the
      reference semantics reaches, after its passes and the final test, the
      state past the `]` with the current cell zeroed and nothing else
      changed. */
  lemma ClearLoopSound(code: string, jm: map<nat, nat>, input: seq<Byte>, m: Machine, p: nat)
    requires IsJumpTable(code, jm) && OnTape(m) && p + 2 < |code| && IsClearLoop(code[p..p + 3]) && m.pc == p + 2
    ensures CoversBrackets(code, jm)
    ensures Exec(code, jm, input, m, 2 * ClearPasses(code[p + 1], m.tape[m.pointer]) + 1)
         == m.(pc := p + 3, tape := m.tape[m.pointer := 0])
  {
    ClearLoopShape(code, p, m.pointer, |m.tape|);
    ClosePartner(code, jm, p, p + 2);
    assert ArithmeticLoop(code, jm, p, p + 2, m);
    ClearPassesRun(code, jm, input, m, p);
  }

  /** Adding after a reduction modulo 256 is reducing after adding. */
  lemma ModAdd(a: int, d: int)
    ensures ((a % 256) + d) % 256 == (a + d) % 256
  {
    var r := a % 256;
    assert a == 256 * (a / 256) + r;
    assert (r + d) % 256 == (256 * (a / 256) + r + d) % 256 by {
      ModShift(r + d, a / 256);
    }
  }

  /** `k` times `d` is `k - 1` times `d`, plus `d`. */
  lemma MulPred(k: nat, d: int)
    requires k > 0
    ensures (k - 1) * d + d == k * d
    ensures d >= 0 ==> (k - 1) * d >= 0
  {
  }

  /** Adding a multiple of 256 does not change the residue. */
  lemma ModShift(a: int, k: int)
    ensures (256 * k + a) % 256 == a % 256
  {
  }

  // ---------------------------------------------------------------------
  // A body read in pieces: its offsets and per-pass changes add up.

  /** The commands after `a` do not change the offsets within `a`. */
  lemma {:induction false} OffsetPrefix(a: string, b: string, i: nat)
    requires i <= |a|
    ensures Offset(a + b, i) == Offset(a, i)
  {
    if i > 0 {
      OffsetPrefix(a, b, i - 1);
      assert (a + b)[i - 1] == a[i - 1];
    }
  }

  /** Within `b`, the offset of `a + b` is that of `a` plus that of `b`. */
  lemma {:induction false} OffsetAppend(a: string, b: string, j: nat)
    requires j <= |b|
    ensures Offset(a + b, |a| + j) == Offset(a, |a|) + Offset(b, j)
  {
    if j == 0 {
      OffsetPrefix(a, b, |a|);
    } else {
      OffsetAppend(a, b, j - 1);
      assert (a + b)[|a| + j - 1] == b[j - 1];
    }
  }

  /** The commands after `a` do not change what the first commands of `a` do. */
  lemma {:induction false} DeltaPrefix(a: string, b: string, i: nat, o: int)
    requires i <= |a|
    ensures DeltaUpTo(a + b, i, o) == DeltaUpTo(a, i, o)
  {
    if i > 0 {
      DeltaPrefix(a, b, i - 1, o);
      OffsetPrefix(a, b, i - 1);
      assert (a + b)[i - 1] == a[i - 1];
    }
  }

  /** The first `j` commands of `b`, run after `a`, change a cell as they
      would from where `a` leaves the pointer. */
  lemma {:induction false} DeltaAppendUpTo(a: string, b: string, j: nat, o: int)
    requires j <= |b|
    ensures DeltaUpTo(a + b, |a| + j, o) == DeltaUpTo(a, |a|, o) + DeltaUpTo(b, j, o - Offset(a, |a|))
  {
    if j == 0 {
      DeltaPrefix(a, b, |a|, o);
    } else {
      DeltaAppendUpTo(a, b, j - 1, o);
      OffsetAppend(a, b, j - 1);
      assert (a + b)[|a| + j - 1] == b[j - 1];
    }
  }

  /** One pass of `a + b` changes a cell by what `a` does to it plus what
      `b` does to it from where `a` leaves the pointer. */
  lemma DeltaAppend(a: string, b: string, o: int)
    ensures Delta(a + b, o) == Delta(a, o) + Delta(b, o - Offset(a, |a|))
  {
    DeltaAppendUpTo(a, b, |b|, o);
  }
}
