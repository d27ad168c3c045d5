/** A reference definition of balance that does not scan: an expression is
    erasable when it can be reduced to nothing by repeatedly deleting two
    adjacent characters that cancel (an opening bracket directly followed by its
    closing bracket, or twice the same wildcard). The scan of brackets.py accepts
    exactly the erasable expressions. */
module Erasure {
  import opened Brackets

  /** Apply deletions in order; `steps[j]` is the index of the left character
      of the pair deleted at step j. None when a step names no cancelling pair. */
  function Erase(s: seq<char>, steps: seq<nat>): (r: Option<seq<char>>)
    ensures r.Some? ==> |r.value| == |s| - 2 * |steps|
    decreases |steps|
  {
    if steps == [] then Some(s)
    else
      var i := steps[0];
      if i + 1 < |s| && Cancels(s[i], s[i + 1]) then Erase(s[..i] + s[i + 2..], steps[1..])
      else None
  }

  ghost predicate Erasable(s: seq<char>) {
    exists steps :: Erase(s, steps) == Some([])
  }

  /** Running `a + b` is running `a`, then `b` from where `a` left the stack. */
  lemma {:induction false} RunAppend(a: seq<char>, b: seq<char>, st: seq<char>)
    ensures Run(a + b, st) == match Run(a, st)
                              case Scanning(x) => Run(b, x)
                              case Stopped(o) => Stopped(o)
    decreases |a|
  {
    if a != [] {
      assert (a + b)[0] == a[0];
      assert (a + b)[1..] == a[1..] + b;
      match Step(st, a[0])
      case Scanning(next) => RunAppend(a[1..], b, next);
      case Stopped(_) =>
    } else {
      assert a + b == b;
    }
  }

  /** Scanning one character is one step. */
  lemma RunSingle(c: char, st: seq<char>)
    ensures Run([c], st) == Step(st, c)
  {
    assert [c][0] == c && [c][1..] == [];
  }

  /** The first character of a cancelling pair is pushed when the top is not
      its twin, and the second one pops it. */
  lemma PushThenPop(a: char, b: char, st: seq<char>)
    requires Cancels(a, b) && !(IsWildcard(a) && |st| > 0 && st[|st| - 1] == a)
    ensures Step(st, a) == Scanning(st + [a]) && Step(st + [a], b) == Scanning(st)
  {
    var up := st + [a];
    assert |up| > 0 && up[|up| - 1] == a && up[..|up| - 1] == st;
    if IsWildcard(a) {
      assert b == a;
    } else {
      assert IsClosing(b) && !IsWildcard(b) && !IsOpening(b) && OpenerOf(b) == a;
    }
  }

  /** A wildcard on its twin pops it, and the second wildcard is pushed back,
      because a well-formed stack never holds the same wildcard twice in a row. */
  lemma PopThenPush(w: char, st: seq<char>)
    requires IsWildcard(w) && WellFormedStack(st) && |st| > 0 && st[|st| - 1] == w
    ensures Step(st, w) == Scanning(st[..|st| - 1]) && Step(st[..|st| - 1], w) == Scanning(st)
  {
    var below := st[..|st| - 1];
    assert below == [] || below[|below| - 1] != w by {
      if below != [] {
        var k := |st| - 1;
        assert !(IsWildcard(st[k]) && st[k - 1] == st[k]);
        assert below[|below| - 1] == st[k - 1];
      }
    }
    assert below + [w] == st;
  }

  /** A cancelling pair leaves any stack the scan can hold unchanged. */
  lemma CancellingPair(a: char, b: char, st: seq<char>)
    requires Cancels(a, b) && WellFormedStack(st)
    ensures Run([a, b], st) == Scanning(st)
  {
    RunAppend([a], [b], st);
    assert [a] + [b] == [a, b];
    RunSingle(a, st);
    if IsWildcard(a) && |st| > 0 && st[|st| - 1] == a {
      PopThenPush(a, st);
      RunSingle(b, st[..|st| - 1]);
    } else {
      PushThenPop(a, b, st);
      RunSingle(b, st + [a]);
    }
  }

  /** Deleting one cancelling pair does not change what the scan does. */
  lemma DeletePairKeepsRun(s: seq<char>, i: nat, st: seq<char>)
    requires i + 1 < |s| && Cancels(s[i], s[i + 1]) && WellFormedStack(st)
    ensures Run(s, st) == Run(s[..i] + s[i + 2..], st)
  {
    var p, q := s[..i], s[i + 2..];
    var pair := [s[i], s[i + 1]];
    assert s == p + pair + q;
    RunAppend(p + pair, q, st);
    RunAppend(p, pair, st);
    RunAppend(p, q, st);
    match Run(p, st)
    case Scanning(y) =>
      RunKeepsWellFormed(p, st);
      CancellingPair(s[i], s[i + 1], y);
    case Stopped(_) =>
  }

  /** Soundness of erasure: a string that erases to `x` runs from any
      well-formed stack exactly as `x` does. */
  lemma {:induction false} EraseKeepsRun(s: seq<char>, steps: seq<nat>, st: seq<char>)
    requires Erase(s, steps).Some? && WellFormedStack(st)
    ensures Run(s, st) == Run(Erase(s, steps).value, st)
    decreases |steps|
  {
    if steps != [] {
      var i := steps[0];
      DeletePairKeepsRun(s, i, st);
      EraseKeepsRun(s[..i] + s[i + 2..], steps[1..], st);
    }
  }

  /** Deletions inside `s` stay valid when more text follows. */
  lemma {:induction false} EraseAppendSuffix(s: seq<char>, steps: seq<nat>, t: seq<char>)
    requires Erase(s, steps).Some?
    ensures Erase(s + t, steps) == Some(Erase(s, steps).value + t)
    decreases |steps|
  {
    if steps != [] {
      var i := steps[0];
      assert (s + t)[i] == s[i] && (s + t)[i + 1] == s[i + 1];
      assert (s + t)[..i] + (s + t)[i + 2..] == (s[..i] + s[i + 2..]) + t;
      EraseAppendSuffix(s[..i] + s[i + 2..], steps[1..], t);
    }
  }

  /** Doing the deletions `a` and then the deletions `b`. */
  lemma {:induction false} EraseConcat(s: seq<char>, a: seq<nat>, b: seq<nat>)
    requires Erase(s, a).Some?
    ensures Erase(s, a + b) == Erase(Erase(s, a).value, b)
    decreases |a|
  {
    if a != [] {
      var i := a[0];
      assert (a + b)[0] == i && (a + b)[1..] == a[1..] + b;
      EraseConcat(s[..i] + s[i + 2..], a[1..], b);
    } else {
      assert a + b == b;
    }
  }

  /** Deleting the top of a stack together with a character that cancels it. */
  lemma EraseTop(y: seq<char>, c: char)
    requires |y| > 0 && Cancels(y[|y| - 1], c)
    ensures Erase(y + [c], [|y| - 1]) == Some(y[..|y| - 1])
  {
    var k := |y| - 1;
    var s := y + [c];
    assert s[k] == y[k] && s[k + 1] == c;
    assert s[..k] + s[k + 2..] == y[..k];
    assert Erase(s[..k] + s[k + 2..], []) == Some(y[..k]);
  }

  /** Completeness of erasure: whatever the scan from the empty stack leaves
      on the stack, the input erases to it. The deletions are returned. */
  lemma {:induction false} EraseToStack(s: seq<char>) returns (steps: seq<nat>)
    requires Run(s, []).Scanning?
    ensures Erase(s, steps) == Some(Run(s, []).stack)
    decreases |s|
  {
    if s == [] {
      steps := [];
    } else {
      var p, c := s[..|s| - 1], s[|s| - 1];
      assert s == p + [c];
      RunAppend(p, [c], []);
      var y := Run(p, []).stack;
      var x := Run(s, []).stack;
      assert Run([c], y) == Run([], x);
      StepShape(y, c);
      var sp := EraseToStack(p);
      EraseAppendSuffix(p, sp, [c]);
      if x == y + [c] {
        steps := sp;
      } else {
        EraseTop(y, c);
        EraseConcat(s, sp, [|y| - 1]);
        steps := sp + [|y| - 1];
      }
    }
  }

  /** The stack left by a scan from the empty stack summarises the whole input:
      from any stack the scan can hold, the input acts as that stack would. */
  lemma RunFactorsThroughStack(s: seq<char>, st: seq<char>)
    requires Run(s, []).Scanning? && WellFormedStack(st)
    ensures Run(s, st) == Run(Run(s, []).stack, st)
  {
    var steps := EraseToStack(s);
    EraseKeepsRun(s, steps, st);
  }

  /** The scan, started on the empty stack, accepts exactly the erasable strings. */
  lemma ScanAcceptsIffErasable(s: seq<char>)
    ensures Verdict(Run(s, [])) == Return(true) <==> Erasable(s)
  {
    RunStopsOnlyWithFalseOrError(s, []);
    if Verdict(Run(s, [])) == Return(true) {
      var steps := EraseToStack(s);
      assert Erase(s, steps) == Some([]);
    }
    if Erasable(s) {
      var steps :| Erase(s, steps) == Some([]);
      EraseKeepsRun(s, steps, []);
      assert Run([], []) == Scanning([]);
    }
  }

  /** A string the scan accepts leaves every stack the scan can hold as it was. */
  lemma AcceptedIsNeutral(s: seq<char>, st: seq<char>)
    requires Verdict(Run(s, [])) == Return(true) && WellFormedStack(st)
    ensures Run(s, st) == Scanning(st)
  {
    RunStopsOnlyWithFalseOrError(s, []);
    RunFactorsThroughStack(s, st);
  }
}
