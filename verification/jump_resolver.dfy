/**
 * The jump resolver: `build_bracket_map` pairs every `[` with its `]` in one
 * left-to-right pass over the code, using a stack of open positions.
 *
 * A bracket pair is characterised independently of the algorithm through the
 * nesting depth of code prefixes: `[` at p matches `]` at q when the depth
 * first returns to its level before p just after q.
 */
module JumpResolver {
  import opened Wrappers

  predicate IsBracket(c: char) {
    c == '[' || c == ']'
  }

  /** Contribution of one character to the nesting depth. */
  function Nesting(c: char): int {
    if c == '[' then 1 else if c == ']' then -1 else 0
  }

  /** Opens minus closes in `code[..k]`. */
  function Depth(code: string, k: nat): int
    requires k <= |code|
  {
    if k == 0 then 0 else Depth(code, k - 1) + Nesting(code[k - 1])
  }

  /** No prefix closes more than it opens, and the whole code is balanced. */
  ghost predicate WellFormed(code: string) {
    (forall k :: 0 <= k <= |code| ==> Depth(code, k) >= 0) && Depth(code, |code|) == 0
  }

  /** `[` at p and `]` at q enclose a bracket-balanced span, and q is the first
      position after p where the nesting comes back to the level of p. */
  ghost predicate Matches(code: string, p: nat, q: nat) {
    && p < q < |code|
    && code[p] == '[' && code[q] == ']'
    && Depth(code, q + 1) == Depth(code, p)
    && forall k :: p < k <= q ==> Depth(code, k) > Depth(code, p)
  }

  /** A correct jump table: its keys are exactly the bracket positions and each
      key is mapped to its matching partner. */
  ghost predicate IsJumpTable(code: string, jm: map<nat, nat>) {
    && (forall p :: p in jm ==>
          && p < |code| && IsBracket(code[p])
          && (code[p] == '[' ==> Matches(code, p, jm[p]))
          && (code[p] == ']' ==> Matches(code, jm[p], p)))
    && (forall p {:trigger IsBracket(code[p])} :: 0 <= p < |code| && IsBracket(code[p]) ==> p in jm)
  }

  /** The stack of still-open `[` positions after scanning `code[..k]`, as
      `temp_stack` holds it (a `]` on an empty stack leaves it empty). */
  function Open(code: string, k: nat): seq<nat>
    requires k <= |code|
  {
    if k == 0 then []
    else
      var s := Open(code, k - 1);
      if code[k - 1] == '[' then s + [k - 1]
      else if code[k - 1] == ']' && |s| > 0 then s[..|s| - 1]
      else s
  }

  ghost predicate PrefixesNonNegative(code: string, n: nat)
    requires n <= |code|
  {
    forall k :: 0 <= k <= n ==> Depth(code, k) >= 0
  }

  /** While no prefix has gone negative, the open stack holds exactly one
      `[` per level of nesting, in increasing order, and each of them is still
      open: the nesting has stayed above its level ever since. */
  lemma {:induction false} OpenShape(code: string, n: nat)
    requires n <= |code| && PrefixesNonNegative(code, n)
    ensures |Open(code, n)| == Depth(code, n)
    ensures forall i :: 0 <= i < |Open(code, n)| ==>
      && Open(code, n)[i] < n
      && code[Open(code, n)[i]] == '['
      && Depth(code, Open(code, n)[i]) == i
      && (forall k :: Open(code, n)[i] < k <= n ==> Depth(code, k) > i)
    ensures forall i, j :: 0 <= i < j < |Open(code, n)| ==> Open(code, n)[i] < Open(code, n)[j]
  {
    if n > 0 {
      OpenShape(code, n - 1);
    }
  }

  /** Across a stretch where the nesting never drops below its starting level
      and ends at it, the open stack ends as it started. */
  lemma {:induction false} OpenStable(code: string, a: nat, b: nat)
    requires a <= b <= |code| && PrefixesNonNegative(code, b)
    requires forall k :: a <= k <= b ==> Depth(code, k) >= Depth(code, a)
    ensures |Open(code, b)| >= Depth(code, a)
    ensures Open(code, b)[..Depth(code, a)] == Open(code, a)
  {
    OpenShape(code, a);
    OpenShape(code, b);
    if a < b {
      OpenStable(code, a, b - 1);
      OpenShape(code, b - 1);
      var s := Open(code, b - 1);
      var d := Depth(code, a);
      if code[b - 1] == '[' {
        assert Open(code, b) == s + [b - 1];
        assert (s + [b - 1])[..d] == s[..d];
      } else if code[b - 1] == ']' {
        assert Open(code, b) == s[..|s| - 1];
        assert s[..|s| - 1][..d] == s[..d];
      }
    } else {
      assert Open(code, b)[..Depth(code, a)] == Open(code, b);
    }
  }

  /** The `]` at q closes the `[` on top of the open stack, and popping it
      restores the stack seen just before that `[`. */
  lemma CloseMatchesTop(code: string, q: nat)
    requires q < |code| && code[q] == ']' && PrefixesNonNegative(code, q + 1)
    ensures |Open(code, q)| > 0
    ensures Matches(code, Open(code, q)[|Open(code, q)| - 1], q)
    ensures Open(code, q) == Open(code, Open(code, q)[|Open(code, q)| - 1]) + [Open(code, q)[|Open(code, q)| - 1]]
  {
    OpenShape(code, q);
    var s := Open(code, q);
    var d := |s|;
    assert Depth(code, q + 1) == d - 1;
    var p := s[d - 1];
    assert Depth(code, p) == d - 1;
    assert Depth(code, p + 1) == d;
    OpenStable(code, p + 1, q);
    assert Open(code, p + 1) == Open(code, p) + [p];
    OpenShape(code, p + 1);
    assert s[..d] == s;
  }

  /** Skipping a whole loop leaves the open stack as it was at its `[`. */
  lemma OpenAcrossLoop(code: string, p: nat, q: nat)
    requires Matches(code, p, q) && PrefixesNonNegative(code, q + 1)
    ensures Open(code, q + 1) == Open(code, p)
  {
    var d := Depth(code, p);
    assert forall k :: p <= k <= q + 1 ==> Depth(code, k) >= d by {
      forall k | p <= k <= q + 1
        ensures Depth(code, k) >= d
      {
        if p < k <= q {
          assert Depth(code, k) > d;
        }
      }
    }
    OpenStable(code, p, q + 1);
    OpenShape(code, q + 1);
    var s := Open(code, q + 1);
    assert |s| == d;
    assert s[..d] == s;
  }

  /** A `[` has at most one partner. */
  lemma MatchUniqueClose(code: string, p: nat, q1: nat, q2: nat)
    requires Matches(code, p, q1) && Matches(code, p, q2)
    ensures q1 == q2
  {
  }

  /** A `]` has at most one partner. */
  lemma MatchUniqueOpen(code: string, p1: nat, p2: nat, q: nat)
    requires Matches(code, p1, q) && Matches(code, p2, q)
    ensures p1 == p2
  {
  }

  /** In well-formed code, the nesting comes back down after every `[`. */
  lemma {:induction false} CloseExists(code: string, p: nat)
    requires WellFormed(code) && p < |code| && code[p] == '['
    ensures exists q :: Matches(code, p, q)
  {
    SearchClose(code, p, p + 1);
  }

  lemma {:induction false} SearchClose(code: string, p: nat, k: nat)
    requires WellFormed(code) && p < k <= |code| && code[p] == '['
    requires forall j :: p < j <= k ==> Depth(code, j) > Depth(code, p)
    ensures exists q :: Matches(code, p, q)
    decreases |code| - k
  {
    assert k < |code| by {
      assert Depth(code, |code|) == 0 <= Depth(code, p);
    }
    assert Depth(code, k + 1) == Depth(code, k) + Nesting(code[k]);
    if Depth(code, k + 1) == Depth(code, p) {
      assert Matches(code, p, k);
    } else {
      SearchClose(code, p, k + 1);
    }
  }

  /** The partner of a bracket in well-formed code. */
  ghost function Partner(code: string, p: nat): (r: nat)
    requires WellFormed(code) && p < |code| && IsBracket(code[p])
    ensures code[p] == '[' ==> Matches(code, p, r)
    ensures code[p] == ']' ==> Matches(code, r, p)
  {
    if code[p] == '[' then
      CloseExists(code, p);
      var q :| Matches(code, p, q); q
    else
      CloseMatchesTop(code, p);
      Open(code, p)[|Open(code, p)| - 1]
  }

  /** The jump table of well-formed code. */
  ghost function JumpTableOf(code: string): (jm: map<nat, nat>)
    requires WellFormed(code)
    ensures IsJumpTable(code, jm)
  {
    map p | 0 <= p < |code| && IsBracket(code[p]) :: Partner(code, p)
  }

  /** The jump table is symmetric: `map[map[p]] == p`. */
  lemma JumpTableSymmetric(code: string, jm: map<nat, nat>, p: nat)
    requires IsJumpTable(code, jm) && p in jm
    ensures jm[p] in jm && jm[p] != p && jm[jm[p]] == p
  {
    var r := jm[p];
    if code[p] == '[' {
      assert Matches(code, p, r);
      assert IsBracket(code[r]);
      MatchUniqueOpen(code, jm[r], p, r);
    } else {
      assert Matches(code, r, p);
      assert IsBracket(code[r]);
      MatchUniqueClose(code, r, jm[r], p);
    }
  }

  /** There is only one correct jump table for a given code. */
  lemma JumpTableUnique(code: string, a: map<nat, nat>, b: map<nat, nat>)
    requires IsJumpTable(code, a) && IsJumpTable(code, b)
    ensures a == b
  {
    forall p | p in a
      ensures p in b && a[p] == b[p]
    {
      if code[p] == '[' {
        MatchUniqueClose(code, p, a[p], b[p]);
      } else {
        MatchUniqueOpen(code, a[p], b[p], p);
      }
    }
  }

  datatype BracketError =
    | UnmatchedClose(at: nat)         // `temp_stack.pop()` on an empty stack
    | UnmatchedOpen(open: seq<nat>)   // the ValueError listing the open `[`

  /** The loop invariant of `BuildBracketMap` after `pos` characters. */
  ghost predicate ScanInvariant(code: string, bm: map<nat, nat>, stack: seq<nat>, pos: nat) {
    && pos <= |code|
    && PrefixesNonNegative(code, pos)
    && stack == Open(code, pos)
    && TableUpTo(code, bm, stack, pos)
  }

  /** The table built so far pairs every bracket of `code[..pos]` that is no
      longer on the stack. */
  ghost predicate TableUpTo(code: string, bm: map<nat, nat>, stack: seq<nat>, pos: nat) {
    && pos <= |code|
    && (forall p :: p in bm ==>
          && p < pos && IsBracket(code[p]) && p !in stack
          && (code[p] == '[' ==> Matches(code, p, bm[p]))
          && (code[p] == ']' ==> Matches(code, bm[p], p)))
    && (forall p :: 0 <= p < pos && IsBracket(code[p]) && p !in stack ==> p in bm)
  }

  lemma OpenStep(code: string, k: nat)
    requires k < |code|
    ensures Open(code, k + 1) ==
      if code[k] == '[' then Open(code, k) + [k]
      else if code[k] == ']' && |Open(code, k)| > 0 then Open(code, k)[..|Open(code, k)| - 1]
      else Open(code, k)
  {
  }

  lemma ScanPush(code: string, bm: map<nat, nat>, stack: seq<nat>, pos: nat)
    requires ScanInvariant(code, bm, stack, pos) && pos < |code| && code[pos] == '['
    ensures ScanInvariant(code, bm, stack + [pos], pos + 1)
  {
    OpenShape(code, pos);
    OpenStep(code, pos);
    assert Depth(code, pos + 1) == Depth(code, pos) + 1;
  }

  lemma ScanSkip(code: string, bm: map<nat, nat>, stack: seq<nat>, pos: nat)
    requires ScanInvariant(code, bm, stack, pos) && pos < |code| && !IsBracket(code[pos])
    ensures ScanInvariant(code, bm, stack, pos + 1)
  {
    OpenStep(code, pos);
    assert Depth(code, pos + 1) == Depth(code, pos);
  }

  lemma ScanPair(code: string, bm: map<nat, nat>, stack: seq<nat>, pos: nat)
    requires ScanInvariant(code, bm, stack, pos) && pos < |code| && code[pos] == ']' && |stack| > 0
    ensures ScanInvariant(code, bm[stack[|stack| - 1] := pos][pos := stack[|stack| - 1]], stack[..|stack| - 1], pos + 1)
  {
    OpenShape(code, pos);
    OpenStep(code, pos);
    assert Depth(code, pos + 1) == Depth(code, pos) - 1;
    assert PrefixesNonNegative(code, pos + 1);
    CloseMatchesTop(code, pos);
    var last := |stack| - 1;
    assert pos !in stack;
    assert stack[last] !in stack[..last];
    TablePair(code, bm, stack, pos);
  }

  /** Popping the `[` that the `]` at `pos` closes records the pair both ways. */
  lemma TablePair(code: string, bm: map<nat, nat>, stack: seq<nat>, pos: nat)
    requires pos < |code| && code[pos] == ']' && |stack| > 0 && pos !in stack
    requires TableUpTo(code, bm, stack, pos)
    requires Matches(code, stack[|stack| - 1], pos) && stack[|stack| - 1] !in stack[..|stack| - 1]
    ensures TableUpTo(code, bm[stack[|stack| - 1] := pos][pos := stack[|stack| - 1]], stack[..|stack| - 1], pos + 1)
  {
    var start := stack[|stack| - 1];
    var rest := stack[..|stack| - 1];
    assert stack == rest + [start];
    var bm' := bm[start := pos][pos := start];
    forall p | p in bm'
      ensures p < pos + 1 && IsBracket(code[p]) && p !in rest
      ensures code[p] == '[' ==> Matches(code, p, bm'[p])
      ensures code[p] == ']' ==> Matches(code, bm'[p], p)
    {
      if p != pos && p != start {
        assert p in bm && bm'[p] == bm[p];
      }
    }
    forall p | 0 <= p < pos + 1 && IsBracket(code[p]) && p !in rest
      ensures p in bm'
    {
      if p != pos && p != start {
        assert p !in stack;
      }
    }
  }

  /** A `]` met with an empty stack is the first prefix that goes negative. */
  lemma ScanUnmatchedClose(code: string, bm: map<nat, nat>, pos: nat)
    requires ScanInvariant(code, bm, [], pos) && pos < |code| && code[pos] == ']'
    ensures Depth(code, pos + 1) < 0 && !WellFormed(code)
  {
    OpenShape(code, pos);
  }

  lemma ScanDone(code: string, bm: map<nat, nat>, stack: seq<nat>)
    requires ScanInvariant(code, bm, stack, |code|)
    ensures WellFormed(code) <==> |stack| == 0
    ensures |stack| == Depth(code, |code|)
    ensures forall i :: 0 <= i < |stack| ==> stack[i] < |code| && code[stack[i]] == '['
    ensures |stack| == 0 ==> IsJumpTable(code, bm)
  {
    OpenShape(code, |code|);
  }

  /** `build_bracket_map`: one pass with a position stack. */
  method BuildBracketMap(code: string) returns (r: Result<map<nat, nat>, BracketError>)
    ensures r.Success? <==> WellFormed(code)
    ensures r.Success? ==> IsJumpTable(code, r.value)
    ensures r.Failure? && r.error.UnmatchedClose? ==>
      && r.error.at < |code| && code[r.error.at] == ']'
      && Depth(code, r.error.at + 1) < 0
      && PrefixesNonNegative(code, r.error.at)
    ensures r.Failure? && r.error.UnmatchedOpen? ==>
      && PrefixesNonNegative(code, |code|)
      && r.error.open == Open(code, |code|)
      && |r.error.open| == Depth(code, |code|) > 0
      && (forall i :: 0 <= i < |r.error.open| ==> r.error.open[i] < |code| && code[r.error.open[i]] == '[')
  {
    var tempStack: seq<nat> := [];
    var bracketMap: map<nat, nat> := map[];
    var pos := 0;
    while pos < |code|
      invariant ScanInvariant(code, bracketMap, tempStack, pos)
    {
      var c := code[pos];
      if c == '[' {
        ScanPush(code, bracketMap, tempStack, pos);
        tempStack := tempStack + [pos];
      } else if c == ']' {
        if |tempStack| == 0 {
          ScanUnmatchedClose(code, bracketMap, pos);
          return Failure(UnmatchedClose(pos));
        }
        ScanPair(code, bracketMap, tempStack, pos);
        var start := tempStack[|tempStack| - 1];
        tempStack := tempStack[..|tempStack| - 1];
        bracketMap := bracketMap[start := pos];
        bracketMap := bracketMap[pos := start];
      } else {
        ScanSkip(code, bracketMap, tempStack, pos);
      }
      pos := pos + 1;
    }
    ScanDone(code, bracketMap, tempStack);
    if |tempStack| > 0 {
      return Failure(UnmatchedOpen(tempStack));
    }
    return Success(bracketMap);
  }
}
