/** The calculator's expression evaluator (`ExprEval` in script.js): an
    infix expression of space-separated tokens is converted to postfix by
    operator precedence, with no parentheses, and the postfix form is
    evaluated with a stack of numbers.

    The source decides that a token is a number by the truthiness of
    `Number(token)`, so a zero operand is taken for an operator. Every
    operation here takes that decision as a parameter `isNumber`:
    `NumberByTruthiness` is the rule as written, `NumberUnlessOperator`
    the corrected one. */
module ExprEval {
  import opened JsNumber
  import opened JsString

  /** How the source tells a number token: `if (Number(token))`. A zero
      operand is therefore not a number. */
  predicate NumberByTruthiness(token: string) {
    Truthy(ToNumber(token))
  }

  /** The corrected rule: every token other than + - * / is a number. */
  predicate NumberUnlessOperator(token: string) {
    !IsOperator(token)
  }

  predicate IsOperator(token: string) {
    token == "+" || token == "-" || token == "*" || token == "/"
  }

  /** `+ - * /` are never read as numbers, under either rule. */
  lemma OperatorsAreNotNumbers(token: string)
    requires IsOperator(token)
    ensures !NumberByTruthiness(token) && !NumberUnlessOperator(token)
  {
    var c := token[0];
    assert token == [c];
    assert !IsDigit(c) && !IsJsWhitespace(c);
    OtherCharacterIsNaN(c);
  }

  /** The order-of-operations table; a token outside it has no precedence. */
  function Precedence(token: string): Option<nat> {
    if token == "*" || token == "/" then Some(2)
    else if token == "+" || token == "-" then Some(1)
    else None
  }

  /** `opOrder[top] >= opOrder[incoming]`; a comparison with `undefined` is false. */
  predicate PopsBefore(top: string, incoming: string) {
    Precedence(top).Some? && Precedence(incoming).Some?
    && Precedence(top).value >= Precedence(incoming).value
  }

  /** `_doMath`: the four-way arithmetic dispatch; every token other than
      + - * divides. NaN operands, which stand for `undefined` too, give NaN. */
  function DoMath(a: Value, op: string, b: Value): (r: Value)
    ensures op == "+" ==> r == Add(a, b)
    ensures op == "-" ==> r == Sub(a, b)
    ensures op == "*" ==> r == Mul(a, b)
    ensures op != "+" && op != "-" && op != "*" ==> r == Div(a, b)
    ensures a.NaN? || b.NaN? ==> r == NaN
  {
    if op == "+" then Add(a, b)
    else if op == "-" then Sub(a, b)
    else if op == "*" then Mul(a, b)
    else Div(a, b)
  }

  // ---------------------------------------------------------------------------
  // Infix to postfix
  // ---------------------------------------------------------------------------

  /** The inner loop of the conversion: move operators from the top of the
      stack (its last element) to the output while they bind at least as
      tightly as `incoming`. */
  function PopWhileBinding(output: seq<string>, stack: seq<string>, incoming: string): (seq<string>, seq<string>)
    decreases |stack|
  {
    if |stack| > 0 && PopsBefore(stack[|stack| - 1], incoming) then
      PopWhileBinding(output + [stack[|stack| - 1]], stack[..|stack| - 1], incoming)
    else (output, stack)
  }

  /** One token of the conversion loop. */
  function ShuntStep(output: seq<string>, stack: seq<string>, token: string, isNumber: string -> bool): (seq<string>, seq<string>) {
    if isNumber(token) then (output + [token], stack)
    else
      var (o, s) := PopWhileBinding(output, stack, token);
      (o, s + [token])
  }

  /** The conversion loop over the remaining tokens. */
  function Shunt(tokens: seq<string>, output: seq<string>, stack: seq<string>, isNumber: string -> bool): (seq<string>, seq<string>)
    decreases |tokens|
  {
    if tokens == [] then (output, stack)
    else
      var (o, s) := ShuntStep(output, stack, tokens[0], isNumber);
      Shunt(tokens[1..], o, s, isNumber)
  }

  /** A stack popped to the end: its elements, top first. */
  function Reversed<T>(s: seq<T>): (r: seq<T>)
    ensures |r| == |s|
    ensures forall k :: 0 <= k < |s| ==> r[k] == s[|s| - 1 - k]
  {
    if s == [] then [] else [s[|s| - 1]] + Reversed(s[..|s| - 1])
  }

  /** The postfix token list of an infix token list. */
  function PostfixFields(tokens: seq<string>, isNumber: string -> bool): seq<string> {
    var (o, s) := Shunt(tokens, [], [], isNumber);
    o + Reversed(s)
  }

  lemma ShuntAt(tokens: seq<string>, i: nat, output: seq<string>, stack: seq<string>, isNumber: string -> bool)
    requires i < |tokens|
    ensures var (o, s) := ShuntStep(output, stack, tokens[i], isNumber);
      Shunt(tokens[i..], output, stack, isNumber) == Shunt(tokens[i + 1..], o, s, isNumber)
  {
    assert tokens[i..][1..] == tokens[i + 1..];
  }

  /** `_toPostfix`. */
  method ToPostfix(expr: string, isNumber: string -> bool) returns (postfix: string)
    ensures postfix == Join(PostfixFields(Split(expr), isNumber))
  {
    var output: seq<string> := [];
    var opStack: seq<string> := [];
    var exprArr := Split(expr);
    for i := 0 to |exprArr|
      invariant Shunt(exprArr, [], [], isNumber) == Shunt(exprArr[i..], output, opStack, isNumber)
    {
      var token := exprArr[i];
      ShuntAt(exprArr, i, output, opStack, isNumber);
      if isNumber(token) {
        output := output + [token];
      } else {
        ghost var output0, opStack0 := output, opStack;
        while |opStack| > 0 && PopsBefore(opStack[|opStack| - 1], token)
          invariant PopWhileBinding(output, opStack, token) == PopWhileBinding(output0, opStack0, token)
          decreases |opStack|
        {
          output := output + [opStack[|opStack| - 1]];
          opStack := opStack[..|opStack| - 1];
        }
        assert PopWhileBinding(output, opStack, token) == (output, opStack);
        opStack := opStack + [token];
      }
    }
    assert exprArr[|exprArr|..] == [];
    ghost var final := PostfixFields(exprArr, isNumber);
    assert output + Reversed(opStack) == final;
    while |opStack| > 0
      invariant output + Reversed(opStack) == final
      decreases |opStack|
    {
      output := output + [opStack[|opStack| - 1]];
      opStack := opStack[..|opStack| - 1];
    }
    assert output == final;
    postfix := Join(output);
  }

  // ---------------------------------------------------------------------------
  // Postfix evaluation
  // ---------------------------------------------------------------------------

  /** `stack.pop()`; popping an empty stack gives `undefined`, which every
      arithmetic operator turns into NaN. */
  function Pop(stack: seq<Value>): (Value, seq<Value>) {
    if stack == [] then (NaN, []) else (stack[|stack| - 1], stack[..|stack| - 1])
  }

  /** One token of the evaluation loop: a number is pushed; otherwise the
      first value popped is the right operand and the second the left. */
  function EvalStep(stack: seq<Value>, token: string, isNumber: string -> bool): seq<Value> {
    if isNumber(token) then stack + [ToNumber(token)]
    else
      var (right, s1) := Pop(stack);
      var (left, s2) := Pop(s1);
      s2 + [DoMath(left, token, right)]
  }

  /** The evaluation loop over the remaining tokens. */
  function Run(tokens: seq<string>, stack: seq<Value>, isNumber: string -> bool): seq<Value>
    decreases |tokens|
  {
    if tokens == [] then stack else Run(tokens[1..], EvalStep(stack, tokens[0], isNumber), isNumber)
  }

  /** The value of a postfix token list: what is on top of the stack at the end. */
  function PostfixValue(tokens: seq<string>, isNumber: string -> bool): Value {
    Pop(Run(tokens, [], isNumber)).0
  }

  /** `_evalPostfix`. */
  method EvalPostfix(expr: string, isNumber: string -> bool) returns (result: Value)
    ensures result == PostfixValue(Split(expr), isNumber)
  {
    var stack: seq<Value> := [];
    var exprArr := Split(expr);
    for i := 0 to |exprArr|
      invariant Run(exprArr, [], isNumber) == Run(exprArr[i..], stack, isNumber)
    {
      var token := exprArr[i];
      assert exprArr[i..][1..] == exprArr[i + 1..];
      if isNumber(token) {
        stack := stack + [ToNumber(token)];
      } else {
        var op1, op2 := NaN, NaN;
        if |stack| > 0 {
          op2 := stack[|stack| - 1];
          stack := stack[..|stack| - 1];
        }
        if |stack| > 0 {
          op1 := stack[|stack| - 1];
          stack := stack[..|stack| - 1];
        }
        stack := stack + [DoMath(op1, token, op2)];
      }
    }
    result := NaN;
    if |stack| > 0 {
      result := stack[|stack| - 1];
    }
  }

  // ---------------------------------------------------------------------------
  // calculate
  // ---------------------------------------------------------------------------

  /** The value `calculate(expr)` computes. The postfix string that passes
      between the two steps is joined and split again, which gives back the
      same tokens (see `Calculate`). */
  function CalculateValue(expr: string, isNumber: string -> bool): Value {
    PostfixValue(PostfixFields(Split(expr), isNumber), isNumber)
  }

  /** `calculate`: `_evalPostfix(_toPostfix(expr))`. */
  method Calculate(expr: string, isNumber: string -> bool) returns (result: Value)
    ensures result == CalculateValue(expr, isNumber)
  {
    var postfix := ToPostfix(expr, isNumber);
    PostfixPermutes(Split(expr), isNumber);
    ghost var fields := PostfixFields(Split(expr), isNumber);
    forall k | 0 <= k < |fields| ensures ' ' !in fields[k] {
      assert fields[k] in multiset(Split(expr));
    }
    SplitJoin(fields);
    result := EvalPostfix(postfix, isNumber);
  }

  // ---------------------------------------------------------------------------
  // The conversion rearranges its input
  // ---------------------------------------------------------------------------

  lemma {:induction false} PopWhileBindingPermutes(output: seq<string>, stack: seq<string>, incoming: string)
    ensures var (o, s) := PopWhileBinding(output, stack, incoming);
      multiset(o) + multiset(s) == multiset(output) + multiset(stack)
    decreases |stack|
  {
    if |stack| > 0 && PopsBefore(stack[|stack| - 1], incoming) {
      PopWhileBindingPermutes(output + [stack[|stack| - 1]], stack[..|stack| - 1], incoming);
      assert stack == stack[..|stack| - 1] + [stack[|stack| - 1]];
    }
  }

  lemma {:induction false} ShuntPermutes(tokens: seq<string>, output: seq<string>, stack: seq<string>, isNumber: string -> bool)
    ensures var (o, s) := Shunt(tokens, output, stack, isNumber);
      multiset(o) + multiset(s) == multiset(output) + multiset(stack) + multiset(tokens)
    decreases |tokens|
  {
    if tokens != [] {
      var (o, s) := ShuntStep(output, stack, tokens[0], isNumber);
      ShuntStepPermutes(output, stack, tokens[0], isNumber);
      ShuntPermutes(tokens[1..], o, s, isNumber);
      assert tokens == [tokens[0]] + tokens[1..];
      assert multiset(tokens) == multiset{tokens[0]} + multiset(tokens[1..]);
    }
  }

  lemma ShuntStepPermutes(output: seq<string>, stack: seq<string>, token: string, isNumber: string -> bool)
    ensures var (o, s) := ShuntStep(output, stack, token, isNumber);
      multiset(o) + multiset(s) == multiset(output) + multiset(stack) + multiset{token}
  {
    if !isNumber(token) {
      PopWhileBindingPermutes(output, stack, token);
    }
  }

  lemma {:induction false} ReversedPermutes<T>(s: seq<T>)
    ensures multiset(Reversed(s)) == multiset(s)
  {
    if s != [] {
      ReversedPermutes(s[..|s| - 1]);
      assert s == s[..|s| - 1] + [s[|s| - 1]];
    }
  }

  /** The postfix list holds exactly the tokens of the infix list, each as
      often as there. */
  lemma PostfixPermutes(tokens: seq<string>, isNumber: string -> bool)
    ensures multiset(PostfixFields(tokens, isNumber)) == multiset(tokens)
  {
    ShuntPermutes(tokens, [], [], isNumber);
    var (o, s) := Shunt(tokens, [], [], isNumber);
    ReversedPermutes(s);
  }

  /** The number tokens of a list, in order. */
  function Numbers(tokens: seq<string>, isNumber: string -> bool): seq<string> {
    if tokens == [] then []
    else
      var last := tokens[|tokens| - 1];
      Numbers(tokens[..|tokens| - 1], isNumber) + (if isNumber(last) then [last] else [])
  }

  lemma {:induction false} NumbersAppend(a: seq<string>, b: seq<string>, isNumber: string -> bool)
    ensures Numbers(a + b, isNumber) == Numbers(a, isNumber) + Numbers(b, isNumber)
    decreases |b|
  {
    if b != [] {
      assert (a + b)[..|a + b| - 1] == a + b[..|b| - 1];
      assert (a + b)[|a + b| - 1] == b[|b| - 1];
      NumbersAppend(a, b[..|b| - 1], isNumber);
    } else {
      assert a + b == a;
    }
  }

  predicate NoNumbers(stack: seq<string>, isNumber: string -> bool) {
    forall k :: 0 <= k < |stack| ==> !isNumber(stack[k])
  }

  lemma {:induction false} NoNumbersReversed(s: seq<string>, isNumber: string -> bool)
    requires NoNumbers(s, isNumber)
    ensures Numbers(Reversed(s), isNumber) == []
  {
    if s != [] {
      NoNumbersReversed(s[..|s| - 1], isNumber);
      NumbersAppend([s[|s| - 1]], Reversed(s[..|s| - 1]), isNumber);
      assert [s[|s| - 1]][..0] == [];
    }
  }

  lemma {:induction false} PopWhileBindingKeepsNumbers(output: seq<string>, stack: seq<string>, incoming: string, isNumber: string -> bool)
    requires NoNumbers(stack, isNumber)
    ensures var (o, s) := PopWhileBinding(output, stack, incoming);
      Numbers(o, isNumber) == Numbers(output, isNumber) && NoNumbers(s, isNumber)
    decreases |stack|
  {
    if |stack| > 0 && PopsBefore(stack[|stack| - 1], incoming) {
      NumbersAppend(output, [stack[|stack| - 1]], isNumber);
      assert [stack[|stack| - 1]][..0] == [];
      PopWhileBindingKeepsNumbers(output + [stack[|stack| - 1]], stack[..|stack| - 1], incoming, isNumber);
    }
  }

  lemma NumbersSingle(t: string, isNumber: string -> bool)
    ensures Numbers([t], isNumber) == if isNumber(t) then [t] else []
  {
    assert [t][..0] == [];
  }

  lemma {:induction false} ShuntStepKeepsNumbers(output: seq<string>, stack: seq<string>, t: string, isNumber: string -> bool)
    requires NoNumbers(stack, isNumber)
    ensures var (o, s) := ShuntStep(output, stack, t, isNumber);
      Numbers(o, isNumber) == Numbers(output, isNumber) + Numbers([t], isNumber) && NoNumbers(s, isNumber)
  {
    NumbersSingle(t, isNumber);
    if isNumber(t) {
      NumbersAppend(output, [t], isNumber);
    } else {
      PopWhileBindingKeepsNumbers(output, stack, t, isNumber);
    }
  }

  lemma {:induction false} ShuntKeepsNumbers(tokens: seq<string>, output: seq<string>, stack: seq<string>, isNumber: string -> bool)
    requires NoNumbers(stack, isNumber)
    ensures var (o, s) := Shunt(tokens, output, stack, isNumber);
      Numbers(o, isNumber) == Numbers(output, isNumber) + Numbers(tokens, isNumber) && NoNumbers(s, isNumber)
    decreases |tokens|
  {
    if tokens != [] {
      var t := tokens[0];
      var (o, s) := ShuntStep(output, stack, t, isNumber);
      ShuntStepKeepsNumbers(output, stack, t, isNumber);
      ShuntKeepsNumbers(tokens[1..], o, s, isNumber);
      NumbersAppend([t], tokens[1..], isNumber);
      assert tokens == [t] + tokens[1..];
    }
  }

  /** The number tokens reach the postfix list in their original order. */
  lemma PostfixKeepsNumberOrder(tokens: seq<string>, isNumber: string -> bool)
    ensures Numbers(PostfixFields(tokens, isNumber), isNumber) == Numbers(tokens, isNumber)
  {
    ShuntKeepsNumbers(tokens, [], [], isNumber);
    var (o, s) := Shunt(tokens, [], [], isNumber);
    NoNumbersReversed(s, isNumber);
    NumbersAppend(o, Reversed(s), isNumber);
  }
}
