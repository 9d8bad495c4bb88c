# js-calculator: a Dafny model of the calculator core

js-calculator is a browser calculator. Its core is `script.js`, which has two
parts:

- **`ExprEval`** evaluates a space-separated infix expression such as
  `"2 + 3 * 4"`. It turns the expression into postfix form with a stack of
  pending operators. `*` and `/` bind tighter than `+` and `-`, and there are
  no parentheses. It then evaluates the postfix form with a stack of numbers.
- **`Calculator`** holds the input buffer `_expr` and the flag
  `_pressedEquals`. Digit keys append to the buffer. Operator keys append
  `" + "`, `" - "`, `" * "` or `" / "`, and a second operator replaces the
  first. The other keys are sign change, percentage, delete, clear and `=`.
  The `=` key replaces the buffer with the rounded value of the expression.

The model has six modules, one per file:

- `JsString` (`js_string.dfy`): `split(" ")` and `join(" ")`, with their
  round-trip lemmas.
- `JsNumber` (`js_number.dfy`): JavaScript numbers and the operations the
  core uses on them. Values are `Finite(real)`, the two infinities and `NaN`.
  The module covers `Number(s)`, truthiness, the four operators, `Math.abs`
  and `Math.round`.
- `ExprEval` (`expr_eval.dfy`): `_toPostfix`, `_evalPostfix`, `_doMath` and
  `calculate`.
  - The loops are the source's loops. `ToPostfix`, `EvalPostfix` and
    `Calculate` are methods, proved against the functions `Shunt`, `Run` and
    `CalculateValue`.
  - Whether a token is a number is a parameter `isNumber`.
    `NumberByTruthiness` is the source's test, the truthiness of
    `Number(token)`. `NumberUnlessOperator` is the corrected test (see
    Findings).
- `InfixSemantics` (`infix_semantics.dfy`): an independent reference
  meaning for the evaluator.
  - `Parse` builds the conventional tree of an operand/operator list: `*`
    and `/` first, left to right. `Eval` evaluates that tree.
  - The main result: on every well-formed list, the postfix output is the
    tree's post-order walk, and evaluating it gives the tree's value.
- `EvaluatorExamples` (`evaluator_examples.dfy`): the behaviour the source's
  comments promise, such as `2 + 3 * 4` becoming `2 3 4 * +`, stated for
  all nonzero digits. It also holds the zero-operand finding.
- `CalculatorState` (`calculator.dfy`): the `Calculator` class.
  - Its fields are the buffer and the flag, and each key is a method stating
    the new state.
  - `Valid()` is the buffer invariant, `Shape`: fields separated by single
    spaces that alternate operand, operator, operand, and so on. Every key
    keeps it.
  - `String(v)` and `v.toExponential(5)` are constructor parameters. The
    model only assumes that each gives a nonempty text without a space.

## Model

| member | source | states |
|---|---|---|
| JsString.Split | script.js:25 | `split(" ")` gives at least one field, and no field contains a space |
| JsString.SplitJoin | script.js:85-87 | splitting the join of a nonempty list of space-free fields, empty ones included, gives back that list, so the postfix string passed between the two steps of `calculate` carries the same tokens |
| JsString.JoinSplit | script.js:151-157 | joining the fields of a split gives back the original string |
| JsString.SplitAtSpace | script.js:142 | splitting `a + " " + b` gives the fields of `a` followed by the fields of `b` |
| JsString.SplitAppendSpaceFree | script.js:131 | appending space-free text extends the last field and leaves the others as they were |
| JsString.SplitLastField | script.js:151-157 | the popped field is the text after the last space; pushing `x` in its place and joining keeps everything up to that space and then `x` |
| JsNumber.Abs | script.js:154-156 | `Math.abs` returns the argument or its negation, and the result is never negative |
| JsNumber.FlipSign | script.js:153-156 | `v > 0 ? -Math.abs(v) : Math.abs(v)` is unary minus, and flipping a value twice gives it back |
| JsNumber.Round | script.js:176 | `Math.round` gives an integer within one half of a finite argument (halves go up); non-finite values are unchanged |
| JsNumber.Round7 | script.js:176 | the result is a multiple of 10^-7 within 5·10^-8 of the value; non-finite values are unchanged |
| JsNumber.DigitsToNumber | script.js:31 | `Number` of a nonempty string of decimal digits is the value of those digits |
| JsNumber.SingleCharacterTruthy | script.js:111 | `Number(c)` of one character is truthy exactly for the digits 1 to 9 |
| JsNumber.OtherCharacterIsNaN | script.js:31 | `Number(c)` of a character that is neither a digit nor white space is NaN |
| ExprEval.OperatorsAreNotNumbers | script.js:31 | `Number` of `+`, `-`, `*` and `/` is not truthy, so under both number tests they are taken as operators |
| ExprEval.DoMath | script.js:74-83 | `+`, `-` and `*` give the sum, difference and product, and every other token divides; a NaN operand, which also stands for `undefined`, gives NaN |
| ExprEval.ToPostfix | script.js:13-47 | the loop over the fields, its inner popping loop and the final unwinding loop produce the join of the conversion function `PostfixFields` |
| ExprEval.EvalPostfix | script.js:50-71 | the stack loop gives the value `PostfixValue` assigns; popping an empty stack gives NaN |
| ExprEval.Calculate | script.js:85-87 | `_evalPostfix(_toPostfix(expr))` is the value of the postfix fields of `expr` |
| ExprEval.Reversed | script.js:44-45 | emptying the stack outputs its elements top first |
| ExprEval.PopWhileBindingPermutes | script.js:36-39 | the inner loop moves operators from the stack to the output; none is lost or added |
| ExprEval.PostfixPermutes | script.js:27-46 | the postfix list holds exactly the infix tokens, each as often as in the input |
| ExprEval.PostfixKeepsNumberOrder | script.js:27-46 | the number tokens reach the postfix list in their infix order |
| InfixSemantics.ParseExtend | script.js:15-20 | appending an operator and an operand to a list with an odd number of fields: a `*` or `/` after a root `+` or `-` takes that root's right term as its left operand; any other operator takes the whole tree |
| InfixSemantics.ShuntOperatorNumber | script.js:36-41 | one operator plus one number moves the conversion from the pending state of the old tree to the pending state of the new tree |
| InfixSemantics.PostfixIsPostOrder | script.js:11-47 | on a well-formed infix list, the postfix list is the post-order walk of the conventional tree |
| InfixSemantics.PostfixLeavesOneValue | script.js:50-71 | evaluating that postfix list never pops an empty stack and leaves exactly one value |
| InfixSemantics.PostfixValueIsConventional | script.js:50-71 | evaluating that postfix list gives the value of the conventional tree |
| InfixSemantics.CalculateIsConventional | script.js:85-87 | `calculate` on a well-formed expression gives its conventional value: `*` and `/` before `+` and `-`, left to right |
| EvaluatorExamples.ZeroDigit | script.js:31 | `Number("0")` is 0: the source's test rejects `"0"` as a number, while the corrected test accepts it |
| EvaluatorExamples.PrecedenceShape | script.js:15-20 | `a + b * c` becomes `a b c * +` and is worth `a + (b * c)` |
| EvaluatorExamples.LeftAssociativeShape | script.js:36-37 | `a - b - c` becomes `a b - c -` and is worth `(a - b) - c`, because an equal precedence pops |
| EvaluatorExamples.SumShape | script.js:13-71 | `a + b` becomes `a b +` and is worth `a + b` |
| EvaluatorExamples.PrecedenceExample | script.js:11-12 | with nonzero digits, `"a + b * c"` is converted to `"a b c * +"` and evaluated to `Number(a) + Number(b) * Number(c)`, as in the comment's `2 + 3 * 4` |
| EvaluatorExamples.LeftAssociativeExample | script.js:36-37 | with nonzero digits, `"a - b - c"` is converted to `"a b - c -"` and evaluated to `(Number(a) - Number(b)) - Number(c)` |
| EvaluatorExamples.UnreadOperand | script.js:31-41 | an operand that the number test rejects and the precedence table lacks, such as `0` under the source's test, is stacked like an operator: `a op z` becomes `a z op`, and its value is NaN |
| EvaluatorExamples.LoneUnreadOperand | script.js:31-70 | a lone operand that the number test rejects and the precedence table lacks is stacked, stays the whole postfix list, and evaluates to NaN |
| EvaluatorExamples.LoneZeroAsWritten | script.js:31-70 | under the source's test the buffer `"0"` (what `5 - 5 =` leaves) converts to `"0"` and evaluates to NaN |
| EvaluatorExamples.ZeroOperandAsWritten | script.js:31 | under the source's test, `"a + 0"` converts to `"a 0 +"` with the `0` read as an operator, and the result is NaN |
| EvaluatorExamples.ZeroOperandCorrected | script.js:31 | under the corrected test, `"a + 0"` evaluates to `Number(a)` |
| EvaluatorExamples.CorrectedRuleIsConventional | script.js:85-87 | under the corrected test, every well-formed expression, zeros included, gets its conventional value |
| CalculatorState.LastFieldEmpty | script.js:105-107 | `_isLastOperator` holds exactly when the buffer is nonempty and its last field is empty |
| CalculatorState.DigitKey | script.js:110-112 | among single characters, `_isNumberOrDecimal` accepts exactly the ten digits and the point |
| CalculatorState.DigitAccepted | script.js:124-128 | a one-character key is accepted exactly when it is a digit or a point, the buffer is under 24 characters, and it is not a point right after a point |
| CalculatorState.SliceTo | script.js:141 | `slice(0, end)` is a prefix; a negative end counts back from the end and stops at the start; an end past the length gives the whole string |
| CalculatorState.LastField | script.js:151-152 | the popped field is everything after the last space, and it has no space |
| CalculatorState.ReplaceLastField | script.js:151-157 | split, pop, push `x` and join keeps the buffer up to its last space and then adds `x` |
| CalculatorState.FieldsShapeAlternates | script.js:136-144 | a buffer layout has an odd number of fields, every odd-position field is an operator, and every operand but the last is nonempty |
| CalculatorState.AlternationIsFieldsShape | script.js:136-144 | conversely, such an alternation is a buffer layout |
| CalculatorState.ShapeAppendText | script.js:131 | appending a digit extends the last operand and keeps the layout |
| CalculatorState.ShapeAppendOperator | script.js:142 | an operator key after a nonempty operand adds the operator field and an empty operand |
| CalculatorState.ShapeDropOperator | script.js:141 | cutting a trailing operator key removes its two fields and leaves a nonempty buffer that does not end in an operator |
| CalculatorState.ShapeDropCharacter | script.js:191 | cutting the last character of a nonempty last operand shortens exactly that operand |
| CalculatorState.ShapeReplaceLast | script.js:157 | a space-free replacement of the last operand keeps the layout |
| CalculatorState.ShapeIsWellFormed | script.js:175 | a buffer with this layout whose operands are all truthy under `Number` is a well-formed infix list for the source's number test |
| CalculatorState.Calculator.Display | script.js:176-180 | a rounded result above 999999999 is shown by `toExponential(5)`, any other by `String`; the text is one field |
| CalculatorState.Calculator.constructor | script.js:100-102 | the buffer starts empty with the flag set, and satisfies the layout invariant |
| CalculatorState.Calculator.GetExpr | script.js:119-121 | returns the buffer |
| CalculatorState.Calculator.AddDigit | script.js:124-133 | a rejected key changes nothing. After `=` the key replaces the buffer; otherwise it extends it. The flag is cleared. The buffer stays within 24 characters. The last operand is extended, and the layout is kept |
| CalculatorState.Calculator.AddOperator | script.js:136-144 | an empty buffer is unchanged. Otherwise a trailing operator key is cut, the new one is appended, and the flag is cleared. The fields gain the operator and an empty operand, and the layout is kept |
| CalculatorState.Calculator.PosNeg | script.js:148-158 | on an empty buffer, or after an operator, nothing changes. Otherwise the last operand is replaced by the text of its negation and the other fields stay. The flag and the layout are kept |
| CalculatorState.Calculator.Percentage | script.js:161-168 | as for `PosNeg`, except that the last operand is replaced by the text of its value divided by 100 |
| CalculatorState.Calculator.Calculate | script.js:172-182 | on an empty buffer, or after an operator, nothing changes. Otherwise the buffer becomes the displayed rounded value that `ExprEval.calculate` gives, with the source's number test, and the flag is set. On a well-formed buffer, in particular a laid-out one whose operands are all truthy, that value is the conventional one. The layout is kept |
| CalculatorState.Calculator.DeleteLast | script.js:185-193 | a trailing operator key is cut whole; otherwise one character goes. The fields lose the operator and its empty operand, or the last operand loses its last character. The flag and the layout are kept |
| CalculatorState.Calculator.ClearExpr | script.js:195-197 | the buffer becomes empty, the flag is unchanged, and the layout is kept |

Some predicates and functions model source lines directly but carry no
contract of their own. The lemmas in the rows above describe them:

- `CalculatorState.IsLastOperator` (script.js:105-107) is described by
  `LastFieldEmpty`.
- `CalculatorState.IsNumberOrDecimal` (script.js:110-112) is described by
  `DigitKey`.
- `CalculatorState.RepeatsDecimal` (script.js:115-117), together with the
  other two, is described by `DigitAccepted`.
- `ExprEval.Precedence` and `ExprEval.PopsBefore` (script.js:15-20, 36-37)
  are described by `ParseExtend`, `ShuntOperatorNumber`, `PrecedenceShape`
  and `LeftAssociativeShape`.
- `JsNumber.ToNumber` (`Number`, script.js:31 and 59) is described by
  `DigitsToNumber`, `SingleCharacterTruthy` and `OtherCharacterIsNaN`. In
  the examples, `Number` of a one-digit string is that digit's decimal
  value (`JsNumber.DigitCharacter`).

## Left out

- The DOM wiring (button handlers, display updates and keyboard input,
  script.js:215-310) is not modelled. It maps key presses to the methods
  above and shows `getExpr()`.
- Floating point: finite doubles are exact reals. There is no rounding
  error, no overflow to infinity and no negative zero. `0.1 + 0.2` is
  exactly `0.3` here, and `-Math.abs(0)` is `0`.
- `Number(s)` covers white space trimming, the empty string, a sign,
  `Infinity`, and decimals with a point and an exponent. Hexadecimal, octal
  and binary literals are not modelled, because no key produces them.
- `String(v)` and `toExponential(5)` are parameters of the class, not
  digit-by-digit formatters. All the model assumes is that their text is
  nonempty and space-free. So the exact texts `"0.3333333"` and
  `"1.23457e+9"` are not derived.
- JavaScript `undefined` from a pop of an empty stack in `_evalPostfix` is
  merged with NaN. It only ever reaches arithmetic, which turns it into NaN.
  A token missing from the precedence table has no precedence (`None` in
  `Precedence`). It only meets the comparison in `PopsBefore`, which is then
  false, as a comparison with `undefined` is.
- PosNeg writes `String` of the flipped value into the buffer, and the next
  press reads it back with `Number`. `String` is a parameter, and nothing
  relates `Number(String(v))` to `v`. So the buffer-level round trip
  `"7"` → `"-7"` → `"7"` is not derived; only `FlipSign(FlipSign(v)) == v`
  is.
- The comment at script.js:170 says eight decimal places. The code rounds
  to seven, and the model follows the code.
- The switch to exponential form is modelled as the code writes it: a
  rounded result above 999999999, not one at or above 10^9.
- The point test of `addDigit` is modelled as the code writes it. It looks
  only at the last character, so `"1.5"` followed by `.` is accepted. The
  length test is on the buffer before the append, so the buffer can reach
  24 characters.
- CalculatorState.Calculator.AddDigit: the layout invariant is guaranteed
  only for keys without a space. The length bound of 24 is guaranteed only
  for keys of at most one character. Every key the page sends is a digit,
  the point, or a key the guard rejects (`DigitKey`), so the restriction
  loses nothing.
- CalculatorState.Calculator.AddOperator: the layout invariant is
  guaranteed only for the four padded operator keys the page sends.
- CalculatorState.Calculator.Calculate: it evaluates with the source's
  number test, so the conventional value is proved only for buffers whose
  operands are truthy numbers. A buffer with a zero operand, a lone `.` or
  an empty operand is still evaluated as the code does, stacking that
  operand as an operator. The model proves no meaning for it beyond the
  NaN cases in Findings. The corrected test appears only in the evaluator
  lemmas `ZeroOperandCorrected` and `CorrectedRuleIsConventional`.

## Findings

| source | as written | input that shows it | evidently intended | confidence | as-written member | corrected member |
|---|---|---|---|---|---|---|
| script.js:31 | a token is a number when `Number(token)` is truthy, so the operand `0` counts as an operator, is pushed onto the operator stack, and the evaluation then pops a missing operand | `calculate("5 + 0")`: conversion gives `"5 0 +"` with `0` read as an operator, and the result is NaN; the buffer `"0"` left by `5 - 5 =` also evaluates to NaN (`LoneZeroAsWritten`) | every token other than `+ - * /` is a number, so `"5 + 0"` is 5 and every alternating expression gets its conventional value (`CorrectedRuleIsConventional`) | not executed | EvaluatorExamples.ZeroOperandAsWritten | EvaluatorExamples.ZeroOperandCorrected |
