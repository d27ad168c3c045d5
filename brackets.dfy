/** The balance checker of brackets.py: the character tables, one scan step,
    the left-to-right scan, the odd-length middle rule, and the imperative
    routine `CheckBalanced` proved equal to its specification `IsBalanced`. */
module Brackets {

  datatype Option<T> = None | Some(value: T)

  /** What a call of is_balanced does: it returns a boolean, or it raises
      IndexError when a closing bracket pops an empty stack. */
  datatype Outcome = Return(value: bool) | IndexError

  /** The state of the scan after some characters: still scanning with a stack
      (top = last element), or stopped early with an outcome. */
  datatype Status = Scanning(stack: seq<char>) | Stopped(outcome: Outcome)

  const OpeningChars: string := "[<({"
  const ClosingChars: string := "]>)}"
  const WildcardChars: string := " |"

  /** The pairing table from each closing bracket to the opening bracket it closes. */
  const ClosePairing: map<char, char> := map[']' := '[', '>' := '<', ')' := '(', '}' := '{']

  // The membership tests of the tables, spelled out character by character
  // (CharacterTables below shows they agree with the tables).
  predicate IsOpening(c: char) { c == '[' || c == '<' || c == '(' || c == '{' }
  predicate IsClosing(c: char) { c == ']' || c == '>' || c == ')' || c == '}' }
  predicate IsWildcard(c: char) { c == ' ' || c == '|' }
  predicate InAlphabet(c: char) { IsOpening(c) || IsClosing(c) || IsWildcard(c) }

  /** The entry of the pairing table for a closing bracket. */
  function OpenerOf(c: char): (o: char)
    requires IsClosing(c)
    ensures IsOpening(o)
  {
    match c
    case ']' => '['
    case '>' => '<'
    case ')' => '('
    case '}' => '{'
  }

  /** The predicates and OpenerOf are the source's tables: the three classes are
      disjoint, and OpenerOf is the pairing table, a bijection onto the openers. */
  lemma CharacterTables()
    ensures forall c :: IsOpening(c) <==> c in OpeningChars
    ensures forall c :: IsClosing(c) <==> c in ClosingChars
    ensures forall c :: IsWildcard(c) <==> c in WildcardChars
    ensures forall c :: !(IsOpening(c) && IsClosing(c)) && !(IsOpening(c) && IsWildcard(c)) && !(IsClosing(c) && IsWildcard(c))
    ensures forall c :: IsClosing(c) <==> c in ClosePairing
    ensures forall c :: IsClosing(c) ==> ClosePairing[c] == OpenerOf(c)
    ensures forall o :: IsOpening(o) ==> exists c :: IsClosing(c) && OpenerOf(c) == o
  {
    forall o | IsOpening(o)
      ensures exists c :: IsClosing(c) && OpenerOf(c) == o
    {
      var c := if o == '[' then ']' else if o == '<' then '>' else if o == '(' then ')' else '}';
      assert IsClosing(c) && OpenerOf(c) == o;
    }
  }

  /** `a` followed directly by `b` cancel on the stack: an opening bracket and
      the closing bracket paired with it, or twice the same wildcard. */
  predicate Cancels(a: char, b: char) {
    (IsOpening(a) && IsClosing(b) && OpenerOf(b) == a) || (IsWildcard(a) && a == b)
  }

  /** The stack the scan keeps: only opening brackets and wildcards, and never
      the same wildcard twice in a row (the second one would have popped the first). */
  predicate WellFormedStack(st: seq<char>) {
    (forall k :: 0 <= k < |st| ==> IsOpening(st[k]) || IsWildcard(st[k])) &&
    (forall k :: 0 < k < |st| ==> !(IsWildcard(st[k]) && st[k - 1] == st[k]))
  }

  /** One iteration of the for loop on character `c`. */
  function Step(stack: seq<char>, c: char): Status {
    if !IsOpening(c) && !IsClosing(c) && !IsWildcard(c) then
      Stopped(Return(false))
    else if IsWildcard(c) then
      if |stack| > 0 && c == stack[|stack| - 1] then Scanning(stack[..|stack| - 1])
      else Scanning(stack + [c])
    else if IsOpening(c) then
      Scanning(stack + [c])
    else if stack == [] then
      Stopped(IndexError)  // stack.pop() on an empty list
    else if OpenerOf(c) != stack[|stack| - 1] then
      Stopped(Return(false))
    else
      Scanning(stack[..|stack| - 1])
  }

  /** What one step can do to the stack, and how it can stop. */
  lemma StepShape(stack: seq<char>, c: char)
    // a step that goes on either pushes c, or removes a top that c cancels
    ensures Step(stack, c).Scanning? ==>
              Step(stack, c).stack == stack + [c] ||
              (|stack| > 0 && Step(stack, c).stack == stack[..|stack| - 1] && Cancels(stack[|stack| - 1], c))
    // a closing bracket is never pushed
    ensures Step(stack, c) == Scanning(stack + [c]) ==> !IsClosing(c)
    ensures Step(stack, c).Scanning? && WellFormedStack(stack) ==> WellFormedStack(Step(stack, c).stack)
    // a step stops with IndexError exactly on a closing bracket and an empty
    // stack, and with False exactly on an illegal character or a mismatch
    ensures Step(stack, c) == Stopped(IndexError) <==> IsClosing(c) && stack == []
    ensures Step(stack, c) == Stopped(Return(false)) <==>
              !InAlphabet(c) || (IsClosing(c) && stack != [] && stack[|stack| - 1] != OpenerOf(c))
    ensures Step(stack, c) != Stopped(Return(true))
  {
  }

  /** The for loop over `s`, starting from `stack`. */
  function Run(s: seq<char>, stack: seq<char>): Status
    decreases |s|
  {
    if s == [] then Scanning(stack)
    else
      match Step(stack, s[0])
      case Scanning(next) => Run(s[1..], next)
      case Stopped(o) => Stopped(o)
  }

  /** Throughout the scan the stack stays well formed: in particular it holds
      only opening brackets and wildcards. */
  lemma {:induction false} RunKeepsWellFormed(s: seq<char>, stack: seq<char>)
    requires WellFormedStack(stack)
    ensures Run(s, stack).Scanning? ==> WellFormedStack(Run(s, stack).stack)
    decreases |s|
  {
    if s != [] {
      StepShape(stack, s[0]);
      if Step(stack, s[0]).Scanning? {
        RunKeepsWellFormed(s[1..], Step(stack, s[0]).stack);
      }
    }
  }

  /** The scan never stops early with True, and it gets through `s` only when
      every character of `s` is in the alphabet. */
  lemma {:induction false} RunStopsOnlyWithFalseOrError(s: seq<char>, stack: seq<char>)
    ensures Run(s, stack) != Stopped(Return(true))
    ensures Run(s, stack).Scanning? ==> forall i :: 0 <= i < |s| ==> InAlphabet(s[i])
    decreases |s|
  {
    if s != [] {
      StepShape(stack, s[0]);
      if Step(stack, s[0]).Scanning? {
        var next := Step(stack, s[0]).stack;
        RunStopsOnlyWithFalseOrError(s[1..], next);
        if Run(s, stack).Scanning? {
          forall i | 0 <= i < |s|
            ensures InAlphabet(s[i])
          {
            if i > 0 {
              assert s[i] == s[1..][i - 1];
            }
          }
        }
      }
    }
  }

  /** The final return statement: balanced exactly when the stack is empty. */
  function Verdict(status: Status): Outcome {
    match status
    case Scanning(stack) => Return(stack == [])
    case Stopped(o) => o
  }

  /** The pre-step for odd lengths: drop a wildcard in the middle, or give up. */
  function MiddleRule(e: seq<char>): (r: Option<seq<char>>)
    // the rule leaves an even length, so it never applies twice
    ensures r.Some? ==> |r.value| % 2 == 0
    ensures r.None? <==> |e| % 2 != 0 && !IsWildcard(e[|e| / 2])
    // an even-length expression is kept as it is
    ensures |e| % 2 == 0 ==> r == Some(e)
    // an odd-length one loses exactly its middle character; the rest keeps its order
    ensures |e| % 2 != 0 && r.Some? ==>
              |r.value| == |e| - 1 &&
              (forall i :: 0 <= i < |e| / 2 ==> r.value[i] == e[i]) &&
              (forall i :: |e| / 2 < i < |e| ==> r.value[i - 1] == e[i])
  {
    if |e| % 2 != 0 then
      var middle := |e| / 2;
      if IsWildcard(e[middle]) then Some(e[..middle] + e[middle + 1..]) else None
    else Some(e)
  }

  /** What is_balanced(e) does. */
  function IsBalanced(e: seq<char>): Outcome {
    match MiddleRule(e)
    case None => Return(false)
    case Some(reduced) => Verdict(Run(reduced, []))
  }

  /** is_balanced as the source writes it: a local stack, a loop with early exits. */
  method CheckBalanced(expression: seq<char>) returns (r: Outcome)
    ensures r == IsBalanced(expression)
  {
    var stack: seq<char> := [];
    var expr := expression;
    if |expr| % 2 != 0 {
      var middle := |expr| / 2;
      if IsWildcard(expr[middle]) {
        expr := expr[..middle] + expr[middle + 1..];
      } else {
        return Return(false);
      }
    }
    assert MiddleRule(expression) == Some(expr);
    for i := 0 to |expr|
      // the stack invariant of RunKeepsWellFormed, restated for the loop; it is
      // not needed for the proof, and is kept to document the loop's stack
      invariant WellFormedStack(stack)
      invariant Run(expr[i..], stack) == Run(expr, [])
    {
      var c := expr[i];
      assert expr[i..] == [c] + expr[i + 1..];
      StepShape(stack, c);
      if !IsOpening(c) && !IsClosing(c) && !IsWildcard(c) {
        return Return(false);
      } else if IsWildcard(c) {
        if |stack| > 0 && c == stack[|stack| - 1] {
          stack := stack[..|stack| - 1];
        } else {
          stack := stack + [c];
        }
      } else if IsOpening(c) {
        stack := stack + [c];
      } else {
        if stack == [] {
          return IndexError;
        }
        var top := stack[|stack| - 1];
        stack := stack[..|stack| - 1];
        if OpenerOf(c) != top {
          return Return(false);
        }
      }
    }
    assert expr[|expr|..] == [];
    r := if stack != [] then Return(false) else Return(true);
  }
}
