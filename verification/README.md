# A model of gonutz/calc's Calculator

gonutz/calc is a pocket calculator. Its core is the `Calculator` in
`calc.go`. It takes one key at a time (`0`-`9`, `.`, `+ - * /`, `=`, `C` and
`N`) and keeps five pieces of state:

- the short output: the number or operator being edited;
- the long output: the equation entered so far;
- whether the last key was an operator;
- the numbers collected so far, as text;
- the operators collected so far.

On `=` it evaluates the collected equation in two passes: first `*` and `/`,
then `+` and `-`, each left to right. It formats results like Go's `%f`, then
trims trailing zeros and a trailing point.

The model is written as pure functions over an immutable state
`Calc(short, long, lastWasOp, nums, ops)`:

- `Numbers` holds the number text: reading text as a number (`ToNum`), and
  `%f` formatting with six decimals and round-half-to-even (`Format`). It
  also holds the trimming (`TrimZeros`, `TrimPoint`, `ToString`) and their
  value-preservation lemmas.
- `Reducer` holds the evaluation:
  - `SolveFor` models one pass of `solveFor` index by index, including the
    splicing of both lists and the early return on division by zero.
  - `Reduce` is an independent reference pass, recursive on the last
    operator; `SolveForIsReduce` ties the two together.
  - `Evaluate` chains the two passes. For whole numbers, `EvaluateIntegers`
    proves the result is the textbook value `Value`, where `*` binds tighter
    than `+` and `-`.
- `Calculator` holds `Step`, one call of `Input`, and `Run`, a key sequence.
  `Step` keeps an invariant `Inv`: the state is either the error sentinel,
  a completed equation, or an equation being entered whose numbers and
  operators alternate.
- `Keys` states what each kind of key does to the state.
- `Typing` proves that typing any equation of positive whole numbers with
  `+ - *` and then `=` shows its textbook value.
- `Examples` states the cases from `calc_test.go` as lemmas about `Run`
  from the initial state.

Where the code and its documentation disagree, the model follows the code.
The short output can become empty: `-` on a fresh calculator shows `-`, and
`N` then negates it to `""`. `NegatedSignIsEmpty` states this.

## Model

| member | source | states |
|---|---|---|
| Calculator.Negate | calc.go:149-155 | negation toggles the sign: unless the text starts with `--`, the result starts with a minus exactly when the text does not, and the text after the sign is unchanged |
| Calculator.NegateValue | calc.go:149-155 | negating a numeral that does not start with `--` negates the value it reads as |
| Calculator.Edit | calc.go:95-132 | after the edit, the long output never ends in `=`; an operator key leaves one more number than operators, other keys leave them equally many; numbers stay numerals; an operator key is shown as the short output, and a digit or point leaves a non-empty numeral |
| Calculator.Step | calc.go:59-143 | every key keeps the state well formed: the error sentinel, a completed equation, or an equation being entered with alternating numbers and operators |
| Calculator.Run | calc.go:59-143 | any key sequence keeps the state well formed |
| Calculator.SolveOutcome | calc.go:157-200 | solving appends `=` to the long output; it shows the division-by-zero error exactly when some `/` has a divisor that reads as 0; otherwise it leaves one numeral result and empties both lists |
| Calculator.NegateKeyInv | calc.go:78-88 | `N` keeps a completed or open equation well formed |
| Calculator.EnterInv | calc.go:95-142 | an edit, with `=` solving, keeps the state well formed; any key but `=` leaves an equation being entered |
| Calculator.ValidKey | calc.go:60-63 | every accepted character is a digit, a point, an operator, `=`, `C` or `N` |
| Calculator.KeyValid | calc.go:60-63 | every digit, point, operator, `C` and `N` is accepted |
| Calculator.TrimPointNumeral | calc.go:114 | dropping a trailing point keeps the text a numeral |
| Calculator.AppendNumeral | calc.go:124-132 | appending a digit, or a point to text without one, keeps the text a numeral |
| Calculator.NegateNumeral | calc.go:149-155 | negating a numeral gives a numeral |
| Keys.InvalidKeyIgnored | calc.go:60-63 | a character outside the accepted set leaves the state unchanged |
| Keys.ClearResets | calc.go:69-72 | `C` returns to the initial state from any state |
| Keys.ErrorSelfClears | calc.go:65-67 | after the error, an accepted key acts as on a fresh calculator |
| Keys.ErrorForgotten | calc.go:65-67 | after the error, a key sequence that starts with an accepted key runs as on a fresh calculator |
| Keys.PristineOperatorIgnored | calc.go:74-76 | `+`, `*` and `/` on a fresh 0 with an empty equation change nothing |
| Keys.MinusOnZeroIsSign | calc.go:90-93 | `-` on a short output of 0 starts a negative number and changes nothing else |
| Keys.StepEnters | calc.go:65-95 | a digit, point, operator or `=` that none of the early returns catches goes to the editing code |
| Keys.DigitKey | calc.go:124-132 | a digit replaces a lone 0 and is otherwise appended to the number |
| Keys.PointKey | calc.go:124-136 | a point is ignored if the number already has one; a point on 0, on an empty number or on a lone point shows `0.`; nothing else changes |
| Keys.DigitKeepsEditing | calc.go:124-132 | appending a digit keeps a number being edited |
| Keys.TypingDigits | calc.go:124-132 | typing digits into a number being edited appends them all, in order |
| Keys.RunAppend | calc_test.go:12-14 | running two key sequences one after the other is running their concatenation |
| Keys.OperatorAfterNumber | calc.go:111-117 | an operator after a number drops a trailing point, appends the number to the list and to the long output, and shows the operator; the lists stay aligned |
| Keys.TrimmedNumber | calc.go:114 | the appended number is the typed one, with at most one trailing point removed, and it never ends in a point |
| Keys.NumberAfterOperator | calc.go:118-123 | a digit or point after an operator collects the operator, appends it to the long output, and starts the number (`.` becomes `0.`) |
| Keys.LastOperatorWins | calc.go:108-117 | two operators in a row act as the second one alone |
| Keys.EnterOperatorTwice | calc.go:108-110 | a second operator only replaces the first |
| Keys.OperatorAfterResult | calc.go:95-107 | an operator after `=` starts a new equation whose first number is the result |
| Keys.NumberAfterResult | calc.go:95-107 | a digit or point after `=` forgets the result and the equation and starts a new number |
| Keys.ResultForgotten | calc.go:95-107 | after `=`, a key sequence that starts with a digit or a point runs as on a fresh calculator |
| Keys.NegateAfterResult | calc.go:78-88 | `N` after `=` clears the long output and the operator flag, and negates the result unless it is 0 |
| Keys.NegateWhileEditing | calc.go:78-88 | while entering an equation, `N` negates the number unless it is a plain 0 or an operator is shown |
| Keys.NegateTwice | calc.go:149-155 | negating twice gives back any text that does not start with `--` |
| Keys.EqualsKey | calc.go:138-140 | `=` closes the equation with the number being edited (not with a dangling operator), appends `=`, and shows either the evaluation's one result or the error |
| Keys.LoneNumberEquals | calc.go:111-117 | `=` after a lone number shows that number, without a trailing point, and closes the long output with it |
| Keys.EqualsAfterNumber | calc.go:111-140 | `=` after a number appends it like an operator would, then solves |
| Keys.EqualsShowsValue | calc.go:138-200 | `=` after a number, on an equation whose lists reduce to one value, shows that value and closes the equation with `=` in the long output |
| Keys.ZeroDivisorEquals | calc.go:176-180 | `=` after dividing by a number that reads as 0 shows the error, and the long output still records the equation |
| Keys.OperatorBeforeEqualsIgnored | calc.go:108-140 | an operator directly before `=` is dropped: the result is that of `=` alone |
| Keys.OperatorBeforeEqualsRun | calc.go:108-140 | the same, stated on key sequences |
| Keys.EqualsAfterOperator | calc.go:108-110 | `=` after an operator replaces it and solves what was collected |
| Reducer.SolveFor | calc.go:160-192 | one pass keeps the lists aligned and numeral; on success, the remaining operators are exactly those the pass does not pick, in order |
| Reducer.SolveForFails | calc.go:177-180 | a pass fails exactly when its own left-to-right reduction divides by a number that reads as 0 |
| Reducer.SolveForIsReduce | calc.go:160-192 | the index-based pass, with its splicing, agrees with the independent reference pass `Reduce` in outcome and result |
| Reducer.WithoutKeeps | calc.go:161-171 | a pass removes exactly the operators it picks: every one left is an original one it does not pick, and every original one it does not pick is left |
| Reducer.WithoutNone | calc.go:161-171 | a pass over operators it all picks removes them all |
| Reducer.Evaluate | calc.go:193-199 | evaluation fails exactly when some `/` has a divisor that reads as 0; on success, one number and no operators are left |
| Reducer.EvaluateIsEvaluation | calc.go:193-196 | the two passes agree with the reference passes run in the same order |
| Reducer.CombineIntegers | calc.go:173-187 | combining two whole numbers as text with `+`, `-`, `*`, or a `/` that divides exactly, never divides by 0 and gives the text of the integer result |
| Reducer.CombineValue | calc.go:173-187 | one operation's printed result reads back as the exact result rounded to six decimals, within half a millionth of it |
| Reducer.EvaluateSingle | calc.go:160-199 | an equation of one operator and two numbers, unless it divides by a number that reads as 0, leaves exactly the printed result of that one operation |
| Reducer.ReduceIntegers | calc.go:160-192 | on whole numbers, a pass whose divisions are all exact agrees with the same pass on integers |
| Reducer.IntValue | calc.go:193-196 | on integers, a `*` pass then a `+`/`-` pass gives the textbook value |
| Reducer.ReferenceValue | calc.go:193-196 | the reference passes over the text of whole numbers give the text of their textbook value |
| Reducer.EvaluateIntegers | calc.go:193-199 | evaluating whole numbers with `+ - *` gives exactly the text of the textbook value |
| Reducer.EvaluateExact | calc.go:157-215 | round trip: evaluating whole numbers with all four operators, where every division divides exactly, gives the plain text of one integer, the result of the same two passes on the integers |
| Numbers.NatToString | calc.go:208 | the decimal digits of a natural number: no leading zero, and they read back as the number |
| Numbers.RoundHalfEven | calc.go:208 | the nearest whole number, with ties going to the even one |
| Numbers.TrimZeros | calc.go:210-212 | a prefix of the text, with only zeros removed and no trailing zero left |
| Numbers.ToString | calc.go:207-215 | the text is a non-empty numeral; it never ends in a point, and never ends in a zero when it has a point |
| Numbers.FormatValue | calc.go:208 | the `%f` text reads back as the value rounded to six decimals |
| Numbers.RoundingError | calc.go:208 | rounding to six decimals moves a value by at most half a millionth |
| Numbers.ToStringValue | calc.go:207-215 | the trimmed text reads back as the rounded value, within half a millionth of the exact one |
| Numbers.IntegerText | calc.go:207-215 | a whole number prints as its plain digits and reads back as itself |
| Typing.TypingNumber | calc.go:124-132 | typing a positive whole number over a 0 shows it |
| Typing.NumberAfterOperatorKey | calc.go:118-132 | typing a positive whole number after an operator collects the operator and shows the number |
| Typing.OperatorKey | calc.go:111-117 | an operator after a whole number collects the number |
| Typing.TypedOpen | calc.go:108-132 | a typed equation is an equation being entered |
| Typing.TypedState | calc.go:59-143 | typing an equation of positive whole numbers and any operators, without its `=`, reaches the expected state: all numbers but the last collected, all operators collected, the last number shown |
| Typing.EquationResult | calc.go:138-200 | typing an equation of positive whole numbers with `+ - *`, then `=`, shows its textbook value and keeps the equation with `=` in the long output |
| Typing.TypedEquals | calc.go:138-200 | `=` on a typed equation, however it was reached, shows its textbook value and closes the equation with `=` in the long output |
| Typing.TrailingOperatorIgnored | calc.go:108-140 | an operator typed between such an equation and `=` changes neither output |
| Typing.ExactEquationResult | calc.go:59-215 | typing positive whole numbers with all four operators, where every division divides exactly, then `=`, shows the plain text of one integer, the result of the two passes on the integers, and closes the equation with `=` in the long output |
| Typing.TypedExactEquals | calc.go:138-215 | `=` on such a typed equation, however it was reached, shows that integer and closes the equation |
| Examples.TwoNumbersCanBeAdded | calc_test.go:25-32 | `1+2=` shows 3 with long output `1+2=` |
| Examples.MulAndDivComeBeforePlusAndMinus | calc_test.go:34-37 | `1+2*3=` shows 7 |
| Examples.ExactDivisionsShowIntegers | calc.go:157-215 | `9/3+8/2=` shows 7: divisions that come out whole print as whole numbers |
| Examples.EqualsAfterOnlyANumberResultsInThatNumber | calc_test.go:40 | `=` on a fresh calculator shows 0 with long output `0=` |
| Examples.EqualsAfterOneDigit | calc_test.go:41 | `1=` shows 1 with long output `1=` |
| Examples.LastEnteredOperatorIsUsed | calc_test.go:44-46 | `5+*-7=` shows -2 with long output `5-7=` |
| Examples.FirstNumberCanBeNegative | calc_test.go:48-50 | `-22=` shows -22 |
| Examples.FirstNumberCanBePositive | calc_test.go:52-56 | `+3=` shows 3 with long output `3=` |
| Examples.DivByZeroIsError | calc_test.go:58-60 | `1/0=` shows the error with long output `1/0=` |
| Examples.LastOperatorIsIgnoredIfNotFollowedByNumber | calc_test.go:70-72 | `1+2+=` shows 3 with long output `1+2=` |
| Examples.NumberAfterEqualsResetsCalculation | calc_test.go:74-78 | `1+2=50` shows 50 with an empty long output |
| Examples.OperatorAfterEqualsContinuesWithLastResult | calc_test.go:80-84 | `1+2=*` shows `*` with long output `3` |
| Examples.PlusWorks | calc_test.go:98 | `3+4=` shows 7 |
| Examples.SubtractionWorks | calc_test.go:99 | on the same calculator, `3-4=` after `3+4=` shows -1 with long output `3-4=` |
| Examples.MultiplicationWorks | calc_test.go:100 | then `3*4=` shows 12 with long output `3*4=` |
| Examples.QuarterText | calc.go:207-215 | 0.75 prints as `0.75`: the zeros `%f` pads it with are trimmed |
| Examples.DivisionWorks | calc_test.go:101 | then `3/4=` shows 0.75 with long output `3/4=` |
| Examples.AfterResult | calc.go:95-107 | a session that ends in a result, followed by keys that start with a digit, ends where those keys alone end |
| Examples.AfterDivErrorNewCalculationStarts | calc_test.go:108 | `1/0=5+6=` shows 11 with long output `5+6=` |
| Examples.AfterDivErrorNegativeNumberStarts | calc_test.go:109 | `1/0=-5=` shows -5 with long output `-5=`: after the error, `-` starts a negative number |
| Examples.AfterError | calc.go:65-67 | a session that ends in the error, followed by keys that start with an accepted key, ends where those keys alone end |
| Examples.OperatorsAtStartAreIgnoredExceptForMinus | calc_test.go:112-117 | `*/+` on a fresh calculator leaves it unchanged |
| Examples.ClearingWillResetCalculator | calc_test.go:119-121 | `1+C` returns to the initial state |
| Examples.LastResultIsUsedForNextCalculation | calc_test.go:123-127 | `2*3=+3=` shows 9 with long output `6+3=` |
| Examples.SingleCommaAfterNumberIsRemoved | calc_test.go:129-131 | `1.+2=` shows 3 with long output `1+2=` |
| Examples.SubtractionWorksLeftToRight | calc_test.go:133-135 | `1-1-1=` shows -1 |
| Examples.NumbersStartingWithDecimalArePrependedWithZero | calc_test.go:137-141 | `.5=` shows 0.5 with long output `0.5=` |
| Examples.NegatedSignIsEmpty | calc.go:78-93 | `-N` on a fresh calculator leaves an empty short output |
| Examples.LeadingZeroOperatorIgnored | calc.go:74-76 | `0*5=` shows 5 with long output `5=`: a 0 typed first leaves the display fresh, so the `*` is ignored |
| Examples.ZeroOperandMinusIsSign | calc.go:90-93 | `5*0-3=` shows -15 with long output `5*-3=`: the `-` after a typed 0 becomes a sign, not a subtraction |

## Left out

- The graphical front end (`gui/`) is not part of this model. It only forwards key presses and displays both outputs.
- The model uses exact rationals where the code uses float64. There is no binary rounding, overflow to infinity, NaN or negative zero. `%f` is applied to the exact value, with round-half-to-even on ties.
- `ToNum` reads only plain decimals: an optional sign, digits and at most one point. `strconv.ParseFloat` also accepts exponents, hexadecimal floats, `inf` and `nan`. Without overflow, which is left out above, a calculator never holds those in its lists, so they read as 0 here, as a parse error does in the code. In the code, a typed number too long for float64 reads as `+Inf`, which then prints as `+Inf` and can be carried into the lists.
- The disabled test of 43-digit numbers (calc_test.go:86-94) is not stated. It documents float64 precision loss, which the exact model does not have.
- Two tests with decimal operands are not stated as concrete lemmas: the decimal test at calc_test.go:62-68 (`1.56*2.0=`) and `+.1-.2=` at calc_test.go:142. No lemma states their final displays. What the model proves toward them is how points are typed (`Keys.PointKey`, `Keys.OperatorAfterNumber`) and the value of one operation (`Reducer.CombineValue`). `3/4=` is stated by `Examples.DivisionWorks`.
- Examples.DivByZeroIsError: states only the short and long outputs, as the test checks them. The lists the failed solve leaves behind are defined by `Calculator.Solve` and `Reducer.SolveFor`; no contract states more about them than that they stay aligned and numeral.
- Typing.EquationResult: covers positive whole numbers with `+`, `-` and `*` only; with `/` it is `Typing.ExactEquationResult` that states the result, and only when every division is exact.
  - Division can leave a fraction, which goes through `%f` rounding, so the display is not the whole-number `Value`. Divisions that all come out whole are stated by `Typing.ExactEquationResult`. A division with a fractional result is stated only one operation at a time, by `Reducer.CombineValue`, and in `Examples.DivisionWorks`.
  - A 0 operand is excluded because the code treats a typed 0 specially, so such an equation does not show its textbook value. After a 0 typed first, `+`, `*` and `/` are ignored (calc.go:74-76): `0*5=` shows 5 (`Examples.LeadingZeroOperatorIgnored`). After any typed 0, `-` becomes a sign (calc.go:90-93): `5*0-3=` shows -15 (`Examples.ZeroOperandMinusIsSign`).
  - A negative operand needs a typed `-` sign, which the typing lemmas do not cover. `Examples.FirstNumberCanBeNegative` and `Examples.ZeroOperandMinusIsSign` state two such cases.
- Typing.TypedState: requires positive whole operands, for the same reason as `Typing.EquationResult`: a typed 0 is treated specially.
- Typing.TypedEquals: requires positive whole operands, for the same reason as `Typing.EquationResult`.
- Typing.TrailingOperatorIgnored: requires positive whole operands, for the same reason as `Typing.EquationResult`.
- `LongOutput`, `ShortOutput` and `NewCalculator` are plain accessors and the constructor. They appear as the fields of `Calc` and as `Init`.
