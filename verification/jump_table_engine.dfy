/**
 * The precomputed-table engine of brainfuck_optimized.py: an interpreter
 * object whose fields the run loop updates in place, with `[` and `]`
 * jumping through the bracket map built once by the constructor.
 */
module JumpTableEngine {
  import opened Wrappers
  import opened Tokenizer
  import opened Tape
  import opened JumpResolver
  import opened Semantics

  class BrainfuckInterpreter {
    /** The filtered program, the input and the bracket map, fixed at construction. */
    const code: string
    const inputStr: seq<Byte>
    const bracketMap: map<nat, nat>

    /** The run state: tape, data pointer, input cursor, output so far, program counter. */
    var tape: seq<Byte>
    var pointer: nat
    var inputPointer: nat
    var output: seq<Byte>
    var pc: nat

    /** The object invariant: a filtered program with a correct bracket map,
        the pointer on the tape, the cursors within their sequences. */
    ghost predicate Valid()
      reads this
    {
      && IsProgram(code)
      && IsJumpTable(code, bracketMap)
      && pointer < |tape|
      && inputPointer <= |inputStr|
      && pc <= |code|
    }

    /** The run state as a value of the reference semantics. */
    function State(): (m: Machine)
      reads this
      ensures m.pc == pc && m.pointer == pointer && m.tape == tape
      ensures m.inPos == inputPointer && m.output == output
    {
      Machine(pc, pointer, tape, inputPointer, output)
    }

    /** Sets up the fields for an already built bracket map. */
    constructor (code: string, inputStr: seq<Byte>, tapeSize: nat, bracketMap: map<nat, nat>)
      requires IsProgram(code) && IsJumpTable(code, bracketMap) && tapeSize > 0
      ensures Valid()
      ensures this.code == code && this.inputStr == inputStr && this.bracketMap == bracketMap
      ensures State() == Initial(tapeSize)
    {
      this.code := code;
      this.inputStr := inputStr;
      this.bracketMap := bracketMap;
      tape := Zeros(tapeSize);
      pointer := 0;
      inputPointer := 0;
      output := [];
      pc := 0;
    }

    /** Construction from source text: keep only the eight commands, then
        build the bracket map, which fails on an unmatched bracket. */
    static method Create(source: string, inputStr: seq<Byte>, tapeSize: nat)
      returns (r: Result<BrainfuckInterpreter, BracketError>)
      requires tapeSize > 0
      ensures r.Success? <==> WellFormed(Filter(source))
      ensures r.Success? ==> && fresh(r.value) && r.value.Valid()
                             && r.value.code == Filter(source) && r.value.inputStr == inputStr
                             && r.value.State() == Initial(tapeSize)
    {
      var code := Filter(source);
      var built := BuildBracketMap(code);
      match built
      case Failure(e) =>
        r := Failure(e);
      case Success(bm) =>
        var interp := new BrainfuckInterpreter(code, inputStr, tapeSize, bm);
        r := Success(interp);
    }

    /** The run loop, bounded by `fuel` iterations: the new state is `fuel`
        steps of the reference semantics from the old one, and the result is
        the output collected so far. */
    method Run(fuel: nat) returns (result: seq<Byte>)
      requires Valid()
      modifies this
      ensures Valid()
      ensures State() == Exec(code, bracketMap, inputStr, old(State()), fuel)
      ensures result == output
    {
      assert CoversBrackets(code, bracketMap);
      ghost var start := State();
      var n: nat := 0;
      while pc < |code| && n < fuel
        invariant Valid() && n <= fuel
        invariant Exec(code, bracketMap, inputStr, start, fuel) == Exec(code, bracketMap, inputStr, State(), fuel - n)
        decreases fuel - n
      {
        Cycle();
        n := n + 1;
      }
      result := output;
    }

    /** One iteration of the run loop: execute the command at `pc`, jumping
        through the bracket map, then advance `pc`. */
    method Cycle()
      requires Valid() && pc < |code|
      modifies this
      ensures Valid()
      ensures State() == Step(code, bracketMap, inputStr, old(State()))
    {
      ghost var before := State();
      StepLanding(code, bracketMap, inputStr, before);
      JumpTarget(code, bracketMap, pc);
      var command := code[pc];
      if command == '>' {
        pointer := pointer + 1;
        if pointer >= |tape| {
          tape := tape + [0];
        }
      } else if command == '<' {
        var moved: int := pointer - 1;
        if moved < 0 {
          tape := [0] + tape;
          moved := 0;
        }
        pointer := moved;
      } else if command == '+' {
        tape := tape[pointer := (tape[pointer] as int + 1) % 256];
      } else if command == '-' {
        tape := tape[pointer := (tape[pointer] as int - 1) % 256];
      } else if command == '.' {
        output := output + [tape[pointer]];
      } else if command == ',' {
        if inputPointer < |inputStr| {
          tape := tape[pointer := inputStr[inputPointer]];
          inputPointer := inputPointer + 1;
        } else {
          tape := tape[pointer := 0];
        }
      } else if command == '[' {
        if tape[pointer] == 0 {
          pc := bracketMap[pc];
        }
      } else if command == ']' {
        if tape[pointer] != 0 {
          pc := bracketMap[pc];
        }
      }
      pc := pc + 1;
    }

    /** Resets the run state for another run of the same program and input;
        the tape keeps its current length, grown or not. */
    method Clear()
      requires Valid()
      modifies this
      ensures Valid()
      ensures State() == Initial(|old(tape)|)
    {
      tape := Zeros(|tape|);
      pointer := 0;
      pc := 0;
      output := [];
      inputPointer := 0;
    }
  }
}
