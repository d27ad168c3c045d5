# matching-brackets: a verified model of `is_balanced`

`brackets.py` decides whether a string is balanced. The alphabet has ten
characters: four opening brackets `[<({`, the four closing brackets `]>)}`
paired with them, and two wildcards, space and `|`. A wildcard opens or closes
depending on the context. The function works in two stages:

1. If the length is odd, it looks at the middle character. A wildcard there is
   deleted. Any other character makes the answer False.
2. It scans the string once from the left, keeping a stack.
   - An illegal character makes the answer False.
   - A wildcard pops the stack when the top is the same wildcard. Otherwise it
     is pushed.
   - An opening bracket is pushed.
   - A closing bracket pops the top, and the answer is False unless the popped
     character is the bracket's opener.

   After the scan, the answer is True exactly when the stack is empty.

The project has four modules:

- `Brackets` (`brackets.dfy`) holds the model itself:
  - the character tables;
  - one scan step `Step`, the scan `Run`, and the final `Verdict`;
  - the odd-length pre-step `MiddleRule`;
  - the specification `IsBalanced`;
  - the imperative routine `CheckBalanced`. It mirrors the source's local stack,
    `for` loop and early returns, and is proved equal to `IsBalanced`.
- `Erasure` (`erasure.dfy`) gives a second definition of balance that does not
  scan: a string is erasable when you can reduce it to nothing by repeatedly
  deleting two adjacent characters that cancel. An opening bracket cancels its
  closing bracket, and a wildcard cancels itself. The module proves that the
  scan accepts exactly the erasable strings.
- `BalanceProperties` (`properties.dfy`) proves how the scan treats illegal
  characters, the middle rule, wildcards and closing brackets. It also proves that
  balance is preserved by wrapping and by concatenation, and states the
  empty-stack fault.
- `BracketsExamples` (`examples.dfy`) restates every assertion of the unit tests
  in `brackets.py` as a lemma, and adds a few more cases.

A call of `is_balanced` has three possible outcomes, modelled as
`Outcome = Return(bool) | IndexError`. A closing bracket on an empty stack makes
`stack.pop()` raise `IndexError` (brackets.py:48), so `")("` does not return False.
The model keeps that outcome as written. `BalanceProperties.Balanced` is the
boolean that the docstring describes, with the fault read as False (see
"## Findings").

## Model

| member | source | states |
|---|---|---|
| Brackets.CheckBalanced | brackets.py:16-51 | the routine, with its pre-step, loop, early returns and empty-stack fault, returns exactly the outcome of the specification `IsBalanced` on every input |
| Brackets.CharacterTables | brackets.py:5-13 | the membership tests are the four tables; opening, closing and wildcard characters are disjoint; the pairing table is defined on exactly the closing brackets, and every opening bracket is the image of some closing bracket |
| Brackets.OpenerOf | brackets.py:7-12 | the pairing table maps each closing bracket to an opening bracket |
| Brackets.MiddleRule | brackets.py:30-36 | the pre-step gives up exactly when the length is odd and the middle character is not a wildcard; it keeps an even-length expression unchanged; from an odd-length one it removes exactly the character at index `len / 2` and keeps the rest in order; whatever it keeps has even length |
| Brackets.Step | brackets.py:39-49 | one iteration of the loop; no contract of its own: its behaviour is stated by `Brackets.StepShape`, `BalanceProperties.WildcardStep` and `BalanceProperties.ClosingStep` |
| Brackets.Run | brackets.py:38-49 | the `for` loop from a given stack; no contract of its own: its behaviour is stated by `Brackets.RunKeepsWellFormed`, `Brackets.RunStopsOnlyWithFalseOrError`, `Erasure.RunAppend` and `Erasure.ScanAcceptsIffErasable` |
| Brackets.Verdict | brackets.py:51 | the final return; no contract of its own: `BalanceProperties.BalancedCharacterization` and `Erasure.ScanAcceptsIffErasable` state what it gives |
| Brackets.IsBalanced | brackets.py:16-51 | the specification that `Brackets.CheckBalanced` is proved equal to; no contract of its own: `BalanceProperties.BalancedCharacterization` states what it gives |
| Brackets.StepShape | brackets.py:38-49 | a step either pushes the character (never a closing bracket) or pops a top that the character cancels; it keeps the stack well formed; it raises IndexError exactly on a closing bracket with an empty stack; it returns False exactly on an illegal character or a mismatched top; it never returns True early |
| Brackets.RunKeepsWellFormed | brackets.py:41-47 | throughout the scan the stack holds only opening brackets and wildcards, never the same wildcard twice in a row |
| Brackets.RunStopsOnlyWithFalseOrError | brackets.py:38-49 | the scan never stops early with True, and it gets to the end only when every character is in the alphabet |
| Erasure.RunAppend | brackets.py:38-49 | scanning `a + b` is scanning `a`, then scanning `b` from the stack `a` left; an early exit in `a` is final |
| Erasure.CancellingPair | brackets.py:41-49 | an opening bracket followed by its closing bracket, or a wildcard twice, leaves every well-formed stack unchanged |
| Erasure.DeletePairKeepsRun | brackets.py:38-49 | deleting one adjacent cancelling pair anywhere does not change the scan from a well-formed stack |
| Erasure.EraseKeepsRun | brackets.py:38-49 | a string that erases to `x` scans exactly as `x` does |
| Erasure.EraseToStack | brackets.py:38-49 | whenever the scan from the empty stack gets to the end, the input erases to the stack it leaves |
| Erasure.RunFactorsThroughStack | brackets.py:38-49 | from any well-formed stack, an input behaves as the stack it leaves when scanned from the empty stack |
| Erasure.ScanAcceptsIffErasable | brackets.py:38-51 | the scan from the empty stack ends with an empty stack if and only if the input is erasable |
| Erasure.AcceptedIsNeutral | brackets.py:38-51 | an accepted string leaves every well-formed stack as it was |
| BalanceProperties.IllegalCharStops | brackets.py:39-40 | an illegal character reached by the scan makes the result False, whatever follows it |
| BalanceProperties.AcceptedOnlyOverAlphabet | brackets.py:30-40 | an expression that is_balanced accepts consists of alphabet characters only, the middle one included |
| BalanceProperties.OddLength | brackets.py:30-36 | with odd length, a non-wildcard middle gives False, and a wildcard middle gives the result of the expression with that one character removed |
| BalanceProperties.WildcardStep | brackets.py:41-45 | a wildcard cancels only itself; it pops exactly when the top is the same wildcard and is pushed otherwise, and it never ends the scan |
| BalanceProperties.ClosingStep | brackets.py:48-49 | a closing bracket lets the scan go on exactly when the top is its opener, and then removes just that top; a wildcard on top gives False |
| BalanceProperties.RunOpeners | brackets.py:46-47 | opening brackets are only pushed, in order |
| BalanceProperties.AllOpenersRejected | brackets.py:46-51 | a non-empty string of opening brackets only is not balanced |
| BalanceProperties.Balanced | brackets.py:16-51 | the corrected boolean of the Findings row, with the IndexError read as False; no contract of its own: `BalanceProperties.BalancedCharacterization` states what it gives |
| BalanceProperties.BalancedCharacterization | brackets.py:16-51 | the boolean `Balanced` agrees with is_balanced wherever it returns, is False where it raises, and holds exactly when the pre-step succeeds and leaves an erasable string |
| BalanceProperties.EmptyPopRaises | brackets.py:48 | in an expression of even length, a closing bracket right after a prefix that empties the stack makes is_balanced raise IndexError instead of returning False |
| BalanceProperties.MiddleRuleWrap | brackets.py:30-34 | the middle of `a` is the middle of `o + a + c`, so the pre-step commutes with wrapping |
| BalanceProperties.RunWrap | brackets.py:38-51 | an accepted string between a cancelling pair is still accepted by the scan |
| BalanceProperties.WrapBalanced | brackets.py:16-51 | wrapping a balanced expression in a bracket pair or twice the same wildcard keeps it balanced |
| BalanceProperties.ConcatBalanced | brackets.py:16-51 | two balanced expressions of even length are balanced side by side |
| BalanceProperties.ConcatNeedsEvenLength | brackets.py:30-34 | the even lengths are needed: a pipe between parentheses and an empty pair of parentheses are each balanced, but the two side by side are not |
| BracketsExamples.EmptyExpressionIsValid | brackets.py:62 | `""` is balanced |
| BracketsExamples.CharNotAllowedIsInvalid | brackets.py:65 | `"aa"` gives False |
| BracketsExamples.SingleBracketPairsAreValid | brackets.py:68-71 | `"[]"`, `"<>"`, `"()"` and `"{}"` are balanced |
| BracketsExamples.NestedChain | brackets.py:74 | builds `"{<([])>}"` by wrapping and shows it balanced |
| BracketsExamples.SecondSiblingChain | brackets.py:77 | builds `"[(<{}>)]"` by wrapping and shows it balanced |
| BracketsExamples.SiblingChain | brackets.py:77 | builds the two siblings side by side and shows the result balanced |
| BracketsExamples.NestedBracketsAreValid | brackets.py:74 | `"{<([])>}"` is balanced |
| BracketsExamples.SiblingBracketsAreValid | brackets.py:77 | `"{<([])>}[(<{}>)]"` is balanced |
| BracketsExamples.WrapBalancedTwice | brackets.py:80 | two nested wrappings keep an expression balanced |
| BracketsExamples.WrappedSiblingBracketsAreValid | brackets.py:80 | `"{<{<([])>}[(<{}>)]>}"` is balanced |
| BracketsExamples.WildcardsAreAccepted | brackets.py:83-85 | two pipes, two pipes between angle brackets, and two spaces between angle brackets are balanced |
| BracketsExamples.MixedWildcardsAreAccepted | brackets.py:86 | the ten-character mix of spaces, pipes and braces of the test is balanced |
| BracketsExamples.MiddleWildcardIsValid | brackets.py:89-90 | a single pipe, and a space between braces, are balanced |
| BracketsExamples.NoClosingBracketsIsInvalid | brackets.py:93 | `"<({["` gives False |
| BracketsExamples.UnmatchingWildcardsIsInvalid | brackets.py:96 | a pipe followed by two pipes between angle brackets gives False: the middle pipe is removed and the closing angle bracket meets a pipe on top |
| BracketsExamples.InterleavedPairsAreInvalid | brackets.py:48-49 | `"([)]"` gives False |
| BracketsExamples.ClosingOnWildcardIsInvalid | brackets.py:48-49 | a pipe followed by a closing parenthesis gives False: a wildcard on top never matches a closing bracket |
| BracketsExamples.ClosingFirstRaises | brackets.py:48 | `")("` raises IndexError |

## Left out

- The unittest class `MatchingBracketsTest` and the `unittest.main()` runner (brackets.py:59-100) are test scaffolding. Each of their assertions is a lemma in `BracketsExamples` instead.
- The float division in `math.floor(len(expression)/2)` (brackets.py:31) is modelled as natural-number division `|e| / 2`. The two agree for every length below 2^53; the first length where they differ is 2^53 + 3.
- The identity comparisons `is` / `is not` (brackets.py:30, 42, 48) are modelled as value equality. This assumes that CPython interns small integers and one-character strings, which is what makes the source work.
- The exception mechanism is not modelled. The empty-stack `stack.pop()` (brackets.py:48) becomes the explicit outcome `IndexError`.
- Where the docstring describes is_balanced as a function returning a boolean, the model follows the code: it keeps the IndexError outcome and gives the boolean reading separately as `Balanced`.
- General closure under concatenation, which one may expect of balanced expressions, does not hold for the code. Only the even-length case is proved (`ConcatBalanced`), and `ConcatNeedsEvenLength` shows the counterexample.
- Python's dynamic typing is not modelled (a non-string argument, for instance). The input is a sequence of characters.

## Findings

| source | as written | input that shows it | evidently intended | confidence | as-written member | corrected member |
|---|---|---|---|---|---|---|
| brackets.py:48 | `stack.pop()` is called on a closing bracket without checking for an empty stack, so the call raises IndexError | `")("` (and every even-length expression whose stack empties just before a closing bracket) | is_balanced returns False, as the docstring says it verifies and returns a truth value | not executed | BalanceProperties.EmptyPopRaises | BalanceProperties.BalancedCharacterization |
