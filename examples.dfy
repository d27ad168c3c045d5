/** The assertions of the unit tests in brackets.py (class MatchingBracketsTest),
    the assertions of each test method in one or two lemmas, plus a few further
    cases. The balanced cases are built from the closure lemmas rather than by
    running the scan; the builder lemmas (NestedChain, SecondSiblingChain,
    SiblingChain) return the string they build, and the test lemmas state the
    test's literal. */
module BracketsExamples {
  import opened Brackets
  import opened BalanceProperties

  lemma EmptyExpressionIsValid()
    ensures IsBalanced("") == Return(true)
  {
  }

  lemma CharNotAllowedIsInvalid()
    ensures IsBalanced("aa") == Return(false)
  {
    IllegalCharStops([], 'a', "a", []);
    assert [] + ['a'] + "a" == "aa";
  }

  lemma SingleBracketPairsAreValid()
    ensures Balanced("[]") && Balanced("<>") && Balanced("()") && Balanced("{}")
  {
    var empty: seq<char> := [];
    assert Balanced(empty);
    WrapBalanced('[', empty, ']');
    WrapBalanced('<', empty, '>');
    WrapBalanced('(', empty, ')');
    WrapBalanced('{', empty, '}');
    assert ['['] + empty + [']'] == "[]" && ['<'] + empty + ['>'] == "<>";
    assert ['('] + empty + [')'] == "()" && ['{'] + empty + ['}'] == "{}";
  }

  /** Builds "{<([])>}" by wrapping, and returns it. */
  lemma NestedChain() returns (e: seq<char>)
    ensures e == "{<([])>}" && Balanced(e)
  {
    var s0: seq<char> := [];
    assert Balanced(s0);
    WrapBalanced('[', s0, ']');
    var s1 := ['['] + s0 + [']'];
    WrapBalanced('(', s1, ')');
    var s2 := ['('] + s1 + [')'];
    WrapBalanced('<', s2, '>');
    var s3 := ['<'] + s2 + ['>'];
    WrapBalanced('{', s3, '}');
    e := ['{'] + s3 + ['}'];
  }

  /** Builds "[(<{}>)]" by wrapping, and returns it. */
  lemma SecondSiblingChain() returns (e: seq<char>)
    ensures e == "[(<{}>)]" && Balanced(e)
  {
    var s0: seq<char> := [];
    assert Balanced(s0);
    WrapBalanced('{', s0, '}');
    var s1 := ['{'] + s0 + ['}'];
    WrapBalanced('<', s1, '>');
    var s2 := ['<'] + s1 + ['>'];
    WrapBalanced('(', s2, ')');
    var s3 := ['('] + s2 + [')'];
    WrapBalanced('[', s3, ']');
    e := ['['] + s3 + [']'];
  }

  /** Builds "{<([])>}[(<{}>)]" from its two siblings, and returns it. */
  lemma SiblingChain() returns (e: seq<char>)
    ensures e == "{<([])>}[(<{}>)]" && Balanced(e)
  {
    var a := NestedChain();
    var b := SecondSiblingChain();
    ConcatBalanced(a, b);
    e := a + b;
  }

  lemma NestedBracketsAreValid()
    ensures Balanced("{<([])>}")
  {
    var e := NestedChain();
  }

  lemma SiblingBracketsAreValid()
    ensures Balanced("{<([])>}[(<{}>)]")
  {
    var e := SiblingChain();
  }

  /** Two wrappings at once, as in the wrapped-sibling test. */
  lemma WrapBalancedTwice(o1: char, o2: char, a: seq<char>, c2: char, c1: char)
    requires Balanced(a) && Cancels(o2, c2) && Cancels(o1, c1)
    ensures Balanced([o1, o2] + a + [c2, c1])
  {
    WrapBalanced(o2, a, c2);
    WrapBalanced(o1, [o2] + a + [c2], c1);
    assert [o1, o2] + a + [c2, c1] == [o1] + ([o2] + a + [c2]) + [c1];
  }

  lemma WrappedSiblingBracketsAreValid()
    ensures Balanced("{<{<([])>}[(<{}>)]>}")
  {
    var a := NestedChain();
    var b := SecondSiblingChain();
    ConcatBalanced(a, b);
    WrapBalancedTwice('{', '<', a + b, '>', '}');
    assert ['{', '<'] + (a + b) + ['>', '}'] == "{<{<([])>}[(<{}>)]>}";
  }

  lemma WildcardsAreAccepted()
    ensures Balanced("||") && Balanced("<||>") && Balanced("<  >")
  {
    var empty: seq<char> := [];
    assert Balanced(empty);
    WrapBalanced('|', empty, '|');
    var pipes := ['|'] + empty + ['|'];
    WrapBalanced('<', pipes, '>');
    WrapBalanced(' ', empty, ' ');
    var spaces := [' '] + empty + [' '];
    WrapBalanced('<', spaces, '>');
    assert pipes == "||" && ['<'] + pipes + ['>'] == "<||>";
    assert ['<'] + spaces + ['>'] == "<  >";
  }

  lemma MixedWildcardsAreAccepted()
    ensures Balanced(" |  {}  | ")
  {
    var s0: seq<char> := [];
    assert Balanced(s0);
    WrapBalanced('{', s0, '}');
    var s1 := ['{'] + s0 + ['}'];
    WrapBalanced(' ', s1, ' ');
    var s2 := [' '] + s1 + [' '];
    WrapBalanced(' ', s2, ' ');
    var s3 := [' '] + s2 + [' '];
    WrapBalanced('|', s3, '|');
    var s4 := ['|'] + s3 + ['|'];
    WrapBalanced(' ', s4, ' ');
    var s5 := [' '] + s4 + [' '];
    assert s5 == " |  {}  | ";
  }

  lemma MiddleWildcardIsValid()
    ensures Balanced("|") && Balanced("{ }")
  {
    SingleBracketPairsAreValid();
    OddLength("|");
    assert "|"[..0] + "|"[1..] == "";
    OddLength("{ }");
    assert "{ }"[..1] + "{ }"[2..] == "{}";
  }

  lemma NoClosingBracketsIsInvalid()
    ensures IsBalanced("<({[") == Return(false)
  {
    AllOpenersRejected("<({[");
  }

  lemma UnmatchingWildcardsIsInvalid()
    ensures IsBalanced("|<||>") == Return(false)
  {
    var e := "|<||>";
    assert e[..2] + e[3..] == "|<|>";
    assert MiddleRule(e) == Some("|<|>");
    assert Run(">", "|<|") == Stopped(Return(false));
    assert Run("|>", "|<") == Run(">", "|<|") by {
      assert "|<" + ['|'] == "|<|";
      assert "|>"[1..] == ">";
    }
    assert Run("<|>", "|") == Run("|>", "|<") by {
      assert "|" + ['<'] == "|<";
      assert "<|>"[1..] == "|>";
    }
    assert Run("|<|>", []) == Run("<|>", "|") by {
      assert [] + ['|'] == "|";
      assert "|<|>"[1..] == "<|>";
    }
  }

  /** Further cases: interleaved pairs, and a closing bracket on a wildcard. */
  lemma InterleavedPairsAreInvalid()
    ensures IsBalanced("([)]") == Return(false)
  {
    assert Run("([)]", []) == Run("[)]", "(");
    assert Run("[)]", "(") == Run(")]", "([");
  }

  lemma ClosingOnWildcardIsInvalid()
    ensures IsBalanced("|)") == Return(false)
  {
    assert Run("|)", []) == Run(")", "|");
  }

  /** The empty-stack pop at its smallest. */
  lemma ClosingFirstRaises()
    ensures IsBalanced(")(") == IndexError
  {
    EmptyPopRaises([], ')', "(");
    assert [] + [')'] + "(" == ")(";
  }
}
