/** What is_balanced promises, stated about the model: the alphabet, the middle
    rule, the stack discipline of wildcards and closing brackets, the closure
    properties of balanced expressions, the unit tests of brackets.py, and the
    boolean-only variant that turns the empty-stack IndexError into False. */
module BalanceProperties {
  import opened Brackets
  import opened Erasure

  /** A scan over `p` that keeps going leaves a stack; the first illegal
      character after it stops the scan with False, whatever follows. */
  lemma IllegalCharStops(p: seq<char>, c: char, q: seq<char>, st: seq<char>)
    requires !InAlphabet(c) && Run(p, st).Scanning?
    ensures Run(p + [c] + q, st) == Stopped(Return(false))
  {
    RunAppend(p + [c], q, st);
    RunAppend(p, [c], st);
    RunSingle(c, Run(p, st).stack);
  }

  /** Only expressions over the ten-character alphabet can be balanced. */
  lemma AcceptedOnlyOverAlphabet(e: seq<char>)
    requires IsBalanced(e) == Return(true)
    ensures forall i :: 0 <= i < |e| ==> InAlphabet(e[i])
  {
    var r := MiddleRule(e).value;
    RunStopsOnlyWithFalseOrError(r, []);
    forall i | 0 <= i < |e|
      ensures InAlphabet(e[i])
    {
      if |e| % 2 != 0 && i > |e| / 2 {
        assert e[i] == r[i - 1];
      }
    }
  }

  /** The odd-length pre-step: a non-wildcard middle gives False, and a wildcard
      middle gives what is_balanced gives on the expression without it. */
  lemma OddLength(e: seq<char>)
    requires |e| % 2 != 0
    ensures !IsWildcard(e[|e| / 2]) ==> IsBalanced(e) == Return(false)
    ensures IsWildcard(e[|e| / 2]) ==>
              var middle := |e| / 2;
              var reduced := e[..middle] + e[middle + 1..];
              |reduced| == |e| - 1 && IsBalanced(e) == IsBalanced(reduced)
  {
    if IsWildcard(e[|e| / 2]) {
      var middle := |e| / 2;
      var reduced := e[..middle] + e[middle + 1..];
      assert MiddleRule(reduced) == Some(reduced);
    }
  }

  /** A wildcard never ends the scan; it pops exactly when the top is the same
      wildcard (it cancels nothing else), and otherwise it is pushed. */
  lemma WildcardStep(st: seq<char>, w: char)
    requires IsWildcard(w)
    ensures forall x :: Cancels(x, w) <==> x == w
    ensures Step(st, w).Scanning?
    ensures |st| > 0 && st[|st| - 1] == w ==> Step(st, w).stack == st[..|st| - 1]
    ensures !(|st| > 0 && st[|st| - 1] == w) ==> Step(st, w).stack == st + [w]
  {
  }

  /** A closing bracket goes on exactly when the top is its opener, and then it
      removes just that top; a wildcard on top makes the result False. */
  lemma ClosingStep(st: seq<char>, c: char)
    requires IsClosing(c)
    ensures Step(st, c).Scanning? <==> |st| > 0 && st[|st| - 1] == OpenerOf(c)
    ensures Step(st, c).Scanning? ==> Step(st, c).stack == st[..|st| - 1]
    ensures |st| > 0 && IsWildcard(st[|st| - 1]) ==> Step(st, c) == Stopped(Return(false))
  {
  }

  /** Opening brackets only push. */
  lemma {:induction false} RunOpeners(s: seq<char>, st: seq<char>)
    requires forall i :: 0 <= i < |s| ==> IsOpening(s[i])
    ensures Run(s, st) == Scanning(st + s)
    decreases |s|
  {
    if s != [] {
      assert Step(st, s[0]) == Scanning(st + [s[0]]);
      RunOpeners(s[1..], st + [s[0]]);
      assert st + [s[0]] + s[1..] == st + s;
    }
  }

  /** A non-empty expression of opening brackets only is not balanced. */
  lemma AllOpenersRejected(e: seq<char>)
    requires |e| > 0 && forall i :: 0 <= i < |e| ==> IsOpening(e[i])
    ensures IsBalanced(e) == Return(false)
  {
    if |e| % 2 == 0 {
      RunOpeners(e, []);
      assert [] + e == e;
    }
  }

  /** is_balanced with the empty-stack pop turned into False: the boolean the
      routine is documented to return. */
  function Balanced(e: seq<char>): bool {
    match IsBalanced(e)
    case Return(v) => v
    case IndexError => false
  }

  /** Balanced agrees with is_balanced wherever is_balanced returns, and holds
      exactly for the expressions whose reduced form is erasable. */
  lemma BalancedCharacterization(e: seq<char>)
    ensures IsBalanced(e).Return? ==> Balanced(e) == IsBalanced(e).value
    ensures IsBalanced(e) == IndexError ==> !Balanced(e)
    ensures Balanced(e) <==> MiddleRule(e).Some? && Erasable(MiddleRule(e).value)
  {
    if MiddleRule(e).Some? {
      ScanAcceptsIffErasable(MiddleRule(e).value);
    }
  }

  /** As written: after a balanced even-length prefix, a closing bracket pops the
      empty stack and the call raises IndexError instead of returning False. */
  lemma EmptyPopRaises(p: seq<char>, c: char, q: seq<char>)
    requires Run(p, []) == Scanning([]) && IsClosing(c) && |p + [c] + q| % 2 == 0
    ensures IsBalanced(p + [c] + q) == IndexError
    ensures !Balanced(p + [c] + q)
  {
    var e := p + [c] + q;
    assert MiddleRule(e) == Some(e);
    RunAppend(p + [c], q, []);
    RunAppend(p, [c], []);
    RunSingle(c, []);
  }

  /** The middle of `a` is the middle of `o + a + c`, so the pre-step on the
      wrapped expression wraps the pre-step on `a`. */
  lemma MiddleRuleWrap(o: char, a: seq<char>, c: char)
    requires MiddleRule(a).Some?
    ensures MiddleRule([o] + a + [c]) == Some([o] + MiddleRule(a).value + [c])
  {
    var e := [o] + a + [c];
    if |a| % 2 != 0 {
      var m := |a| / 2;
      assert e[|e| / 2] == a[m];
      assert e[..|e| / 2] + e[|e| / 2 + 1..] == [o] + (a[..m] + a[m + 1..]) + [c];
    }
  }

  /** A scan that accepts `r` also accepts `r` between a cancelling pair. */
  lemma RunWrap(o: char, r: seq<char>, c: char)
    requires Verdict(Run(r, [])) == Return(true) && Cancels(o, c)
    ensures Run([o] + r + [c], []) == Scanning([])
  {
    assert Step([], o) == Scanning([o]) && Step([o], c) == Scanning([]) by {
      PushThenPop(o, c, []);
      assert [] + [o] == [o];
    }
    RunSingle(o, []);
    RunSingle(c, [o]);
    AcceptedIsNeutral(r, [o]);
    RunAppend([o], r, []);
    RunAppend([o] + r, [c], []);
  }

  /** Wrapping a balanced expression in a cancelling pair (an opening bracket and
      its closing bracket, or twice the same wildcard) keeps it balanced. */
  lemma WrapBalanced(o: char, a: seq<char>, c: char)
    requires Balanced(a) && Cancels(o, c)
    ensures Balanced([o] + a + [c])
  {
    MiddleRuleWrap(o, a, c);
    RunWrap(o, MiddleRule(a).value, c);
  }

  /** Two balanced expressions of even length stay balanced side by side. */
  lemma ConcatBalanced(a: seq<char>, b: seq<char>)
    requires Balanced(a) && Balanced(b) && |a| % 2 == 0 && |b| % 2 == 0
    ensures Balanced(a + b)
  {
    assert MiddleRule(a) == Some(a) && MiddleRule(b) == Some(b);
    assert MiddleRule(a + b) == Some(a + b);
    RunAppend(a, b, []);
  }

  /** The even lengths are needed: an odd balanced expression owes its balance to
      its own middle wildcard, which is no longer in the middle of the whole. */
  lemma ConcatNeedsEvenLength()
    ensures Balanced("(|)") && Balanced("()") && !Balanced("(|)" + "()")
  {
    assert "(|)"[..1] + "(|)"[2..] == "()";
    assert "(|)" + "()" == "(|)()";
  }
}
