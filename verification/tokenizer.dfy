/**
 * The tokenizer shared by both engines: source text is reduced to the eight
 * command characters, in their original order.
 */
module Tokenizer {
  /** The command alphabet. */
  predicate IsCommand(c: char) {
    c == '>' || c == '<' || c == '+' || c == '-' || c == '.' || c == ',' || c == '[' || c == ']'
  }

  /** A program text made of commands only. */
  predicate IsProgram(s: string) {
    forall i :: 0 <= i < |s| ==> IsCommand(s[i])
  }

  /** Keep the command characters of `text`, in order. */
  function Filter(text: string): (code: string)
    ensures IsProgram(code)
    ensures |code| <= |text|
    ensures forall i :: 0 <= i < |code| ==> code[i] in text
  {
    if text == [] then []
    else (if IsCommand(text[0]) then [text[0]] else []) + Filter(text[1..])
  }

  /** Filtering distributes over concatenation: together with the one-character
      case this pins `Filter` down as "the subsequence of commands". */
  lemma {:induction false} FilterAppend(a: string, b: string)
    ensures Filter(a + b) == Filter(a) + Filter(b)
  {
    if a == [] {
      assert a + b == b;
    } else {
      assert (a + b)[0] == a[0];
      assert (a + b)[1..] == a[1..] + b;
      FilterAppend(a[1..], b);
    }
  }

  /** One character survives exactly when it is a command. */
  lemma FilterSingle(c: char)
    ensures Filter([c]) == if IsCommand(c) then [c] else []
  {
    assert [c][1..] == [];
  }

  /** Text that is already a program passes unchanged, so filtering is idempotent. */
  lemma {:induction false} FilterKeepsPrograms(s: string)
    requires IsProgram(s)
    ensures Filter(s) == s
  {
    if s != [] {
      assert IsProgram(s[1..]);
      FilterKeepsPrograms(s[1..]);
    }
  }

  lemma FilterIdempotent(text: string)
    ensures Filter(Filter(text)) == Filter(text)
  {
    FilterKeepsPrograms(Filter(text));
  }

  /** Every command occurrence of the text is kept: the filtered code has as
      many copies of each command as the text. */
  lemma {:induction false} FilterKeepsCommandCounts(text: string, c: char)
    requires IsCommand(c)
    ensures multiset(Filter(text))[c] == multiset(text)[c]
  {
    if text != [] {
      var rest := text[1..];
      var head := if IsCommand(text[0]) then [text[0]] else [];
      FilterKeepsCommandCounts(rest, c);
      assert Filter(text) == head + Filter(rest);
      assert text == [text[0]] + rest;
      assert multiset(text) == multiset([text[0]]) + multiset(rest);
      assert multiset(Filter(text)) == multiset(head) + multiset(Filter(rest));
      assert multiset(head)[c] == multiset([text[0]])[c];
    }
  }
}
