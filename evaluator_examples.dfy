/** The evaluator on the expressions of its own documentation, and the zero
    operand that the truthiness test mistakes for an operator. */
module EvaluatorExamples {
  import opened JsNumber
  import opened JsString
  import opened ExprEval
  import opened InfixSemantics

  /** A one-character nonzero digit is a number under either rule. */
  lemma NonzeroDigitIsNumber(c: char)
    requires '1' <= c <= '9'
    ensures NumberByTruthiness([c]) && NumberUnlessOperator([c])
    ensures ToNumber([c]) == Finite(DigitsValue([c]) as real)
  {
    SingleCharacterTruthy(c);
    DigitCharacter(c);
  }

  /** `0` is zero, which the truthiness rule does not take for a number and
      the corrected rule does. */
  lemma ZeroDigit()
    ensures !NumberByTruthiness("0") && NumberUnlessOperator("0")
    ensures ToNumber("0") == Finite(0.0)
  {
    SingleCharacterTruthy('0');
    DigitCharacter('0');
  }

  /** Five tokens are well formed when the first, third and fifth are
      numbers and the other two are operators. */
  lemma WellFormedFive(ts: seq<string>, isNumber: string -> bool)
    requires |ts| == 5 && isNumber(ts[0]) && isNumber(ts[2]) && isNumber(ts[4])
    requires IsOperator(ts[1]) && !isNumber(ts[1]) && IsOperator(ts[3]) && !isNumber(ts[3])
    ensures WellFormedInfix(ts, isNumber)
  {
  }

  /** Three tokens are well formed when the first and last are numbers and
      the middle one is an operator. */
  lemma WellFormedThree(ts: seq<string>, isNumber: string -> bool)
    requires |ts| == 3 && isNumber(ts[0]) && isNumber(ts[2]) && IsOperator(ts[1]) && !isNumber(ts[1])
    ensures WellFormedInfix(ts, isNumber)
  {
  }

  /** Tokens of one character other than a space survive `join` and `split`. */
  lemma SplitJoinTokens(ts: seq<string>)
    requires |ts| >= 1
    requires forall k :: 0 <= k < |ts| ==> |ts[k]| == 1 && ts[k][0] != ' '
    ensures Split(Join(ts)) == ts
  {
    forall k | 0 <= k < |ts| ensures ' ' !in ts[k] {
      assert ts[k] == [ts[k][0]];
    }
    SplitJoin(ts);
  }

  /** Five one-character fields joined by spaces. */
  lemma {:induction false} JoinFive(a: char, p: char, b: char, q: char, c: char)
    ensures Join([[a], [p], [b], [q], [c]]) == [a, ' ', p, ' ', b, ' ', q, ' ', c]
  {
    var ts := [[a], [p], [b], [q], [c]];
    assert ts[1..] == [[p], [b], [q], [c]];
    JoinThree(b, q, c);
    assert ts[1..][1..] == [[b], [q], [c]];
    assert Join(ts[1..]) == [p] + " " + [b, ' ', q, ' ', c];
  }

  /** Three one-character fields joined by spaces. */
  lemma {:induction false} JoinThree(a: char, p: char, b: char)
    ensures Join([[a], [p], [b]]) == [a, ' ', p, ' ', b]
  {
    var ts := [[a], [p], [b]];
    assert ts[1..] == [[p], [b]] && ts[1..][1..] == [[b]];
    assert Join(ts[1..]) == [p] + " " + [b];
  }

  /** The fields of `a p b q c`, five characters between single spaces. */
  lemma FiveFields(a: char, p: char, b: char, q: char, c: char)
    requires a != ' ' && p != ' ' && b != ' ' && q != ' ' && c != ' '
    ensures Split([a, ' ', p, ' ', b, ' ', q, ' ', c]) == [[a], [p], [b], [q], [c]]
  {
    JoinFive(a, p, b, q, c);
    SplitJoinTokens([[a], [p], [b], [q], [c]]);
  }

  /** The fields of `a p b`. */
  lemma ThreeFields(a: char, p: char, b: char)
    requires a != ' ' && p != ' ' && b != ' '
    ensures Split([a, ' ', p, ' ', b]) == [[a], [p], [b]]
  {
    JoinThree(a, p, b);
    SplitJoinTokens([[a], [p], [b]]);
  }

  /** The tree of one operator between two numbers. */
  lemma SimpleNode(op: string, a: string, b: string)
    ensures PostOrder(Node(op, Leaf(a), Leaf(b))) == [a, b, op]
    ensures Eval(Node(op, Leaf(a), Leaf(b))) == DoMath(ToNumber(a), op, ToNumber(b))
  {
    assert [a] + [b] + [op] == [a, b, op];
  }

  /** The tree `a op1 (b op2 c)`. */
  lemma RightNestedNode(op1: string, a: string, op2: string, b: string, c: string)
    ensures PostOrder(Node(op1, Leaf(a), Node(op2, Leaf(b), Leaf(c)))) == [a, b, c, op2, op1]
    ensures Eval(Node(op1, Leaf(a), Node(op2, Leaf(b), Leaf(c))))
      == DoMath(ToNumber(a), op1, DoMath(ToNumber(b), op2, ToNumber(c)))
  {
    var right := Node(op2, Leaf(b), Leaf(c));
    SimpleNode(op2, b, c);
    assert PostOrder(Node(op1, Leaf(a), right)) == [a] + PostOrder(right) + [op1];
    FivePieces(a, b, c, op2, op1);
  }

  /** The tree `(a op1 b) op2 c`. */
  lemma LeftNestedNode(op1: string, a: string, b: string, op2: string, c: string)
    ensures PostOrder(Node(op2, Node(op1, Leaf(a), Leaf(b)), Leaf(c))) == [a, b, op1, c, op2]
    ensures Eval(Node(op2, Node(op1, Leaf(a), Leaf(b)), Leaf(c)))
      == DoMath(DoMath(ToNumber(a), op1, ToNumber(b)), op2, ToNumber(c))
  {
    var left := Node(op1, Leaf(a), Leaf(b));
    SimpleNode(op1, a, b);
    assert PostOrder(Node(op2, left, Leaf(c))) == PostOrder(left) + [c] + [op2];
    FivePieces(a, b, op1, c, op2);
  }

  /** Proof step: the two ways the nested trees' post-order walks are
      assembled from pieces. Kept apart so that the sequence equalities are
      solved in a small context. */
  lemma FivePieces(t0: string, t1: string, t2: string, t3: string, t4: string)
    ensures [t0] + [t1, t2, t3] + [t4] == [t0, t1, t2, t3, t4]
    ensures [t0, t1, t2] + [t3] + [t4] == [t0, t1, t2, t3, t4]
  {
  }

  /** `a + b * c` is `a + (b * c)`. */
  lemma PrecedenceShape(a: string, b: string, c: string, isNumber: string -> bool)
    requires isNumber(a) && isNumber(b) && isNumber(c) && !isNumber("+") && !isNumber("*")
    ensures PostfixFields([a, "+", b, "*", c], isNumber) == [a, b, c, "*", "+"]
    ensures PostfixValue(PostfixFields([a, "+", b, "*", c], isNumber), isNumber)
      == Add(ToNumber(a), Mul(ToNumber(b), ToNumber(c)))
  {
    var ts := [a, "+", b, "*", c];
    WellFormedFive(ts, isNumber);
    ParseExtend([a], "+", b);
    assert [a] + ["+", b] == [a, "+", b];
    ParseExtend([a, "+", b], "*", c);
    assert [a, "+", b] + ["*", c] == ts;
    var product := Node("*", Leaf(b), Leaf(c));
    var e := Node("+", Leaf(a), product);
    assert Parse(ts) == e;
    RightNestedNode("+", a, "*", b, c);
    PostfixIsPostOrder(ts, isNumber);
    PostfixValueIsConventional(ts, isNumber);
  }

  /** `a - b - c` is `(a - b) - c`. */
  lemma LeftAssociativeShape(a: string, b: string, c: string, isNumber: string -> bool)
    requires isNumber(a) && isNumber(b) && isNumber(c) && !isNumber("-")
    ensures PostfixFields([a, "-", b, "-", c], isNumber) == [a, b, "-", c, "-"]
    ensures PostfixValue(PostfixFields([a, "-", b, "-", c], isNumber), isNumber)
      == Sub(Sub(ToNumber(a), ToNumber(b)), ToNumber(c))
  {
    var ts := [a, "-", b, "-", c];
    WellFormedFive(ts, isNumber);
    ParseExtend([a], "-", b);
    assert [a] + ["-", b] == [a, "-", b];
    ParseExtend([a, "-", b], "-", c);
    assert [a, "-", b] + ["-", c] == ts;
    var difference := Node("-", Leaf(a), Leaf(b));
    var e := Node("-", difference, Leaf(c));
    assert Parse(ts) == e;
    LeftNestedNode("-", a, b, "-", c);
    PostfixIsPostOrder(ts, isNumber);
    PostfixValueIsConventional(ts, isNumber);
  }

  /** Adding the number 0 to a digit leaves its value. */
  lemma PlusZero(a: char)
    requires IsDigit(a)
    ensures Add(ToNumber([a]), ToNumber("0")) == ToNumber([a])
  {
    DigitCharacter(a);
    ZeroDigit();
  }

  /** With nonzero digits, `a + b * c` (such as `2 + 3 * 4`) becomes
      `a b c * +` (`2 3 4 * +`) and evaluates to a + b * c (14). */
  lemma PrecedenceExample(a: char, b: char, c: char)
    requires '1' <= a <= '9' && '1' <= b <= '9' && '1' <= c <= '9'
    ensures var expr := [a, ' ', '+', ' ', b, ' ', '*', ' ', c];
      Join(PostfixFields(Split(expr), NumberByTruthiness)) == [a, ' ', b, ' ', c, ' ', '*', ' ', '+']
      && CalculateValue(expr, NumberByTruthiness)
        == Add(ToNumber([a]), Mul(ToNumber([b]), ToNumber([c])))
  {
    FiveFields(a, '+', b, '*', c);
    NonzeroDigitIsNumber(a);
    NonzeroDigitIsNumber(b);
    NonzeroDigitIsNumber(c);
    OperatorsAreNotNumbers("+");
    OperatorsAreNotNumbers("*");
    var expr := [a, ' ', '+', ' ', b, ' ', '*', ' ', c];
    var ts := [[a], "+", [b], "*", [c]];
    assert Split(expr) == ts;
    PrecedenceShape([a], [b], [c], NumberByTruthiness);
    var post := PostfixFields(ts, NumberByTruthiness);
    assert post == [[a], [b], [c], ['*'], ['+']];
    JoinFive(a, b, c, '*', '+');
    assert Join(post) == [a, ' ', b, ' ', c, ' ', '*', ' ', '+'];
    assert CalculateValue(expr, NumberByTruthiness) == Add(ToNumber([a]), Mul(ToNumber([b]), ToNumber([c])));
  }

  /** Operators of one tier group to the left: with nonzero digits, `a - b - c`
      (such as `8 - 3 - 2`) becomes `a b - c -` (`8 3 - 2 -`) and evaluates to
      (a - b) - c (3). */
  lemma LeftAssociativeExample(a: char, b: char, c: char)
    requires '1' <= a <= '9' && '1' <= b <= '9' && '1' <= c <= '9'
    ensures var expr := [a, ' ', '-', ' ', b, ' ', '-', ' ', c];
      Join(PostfixFields(Split(expr), NumberByTruthiness)) == [a, ' ', b, ' ', '-', ' ', c, ' ', '-']
      && CalculateValue(expr, NumberByTruthiness)
        == Sub(Sub(ToNumber([a]), ToNumber([b])), ToNumber([c]))
  {
    FiveFields(a, '-', b, '-', c);
    NonzeroDigitIsNumber(a);
    NonzeroDigitIsNumber(b);
    NonzeroDigitIsNumber(c);
    OperatorsAreNotNumbers("-");
    var expr := [a, ' ', '-', ' ', b, ' ', '-', ' ', c];
    var ts := [[a], "-", [b], "-", [c]];
    assert Split(expr) == ts;
    LeftAssociativeShape([a], [b], [c], NumberByTruthiness);
    var post := PostfixFields(ts, NumberByTruthiness);
    assert post == [[a], [b], ['-'], [c], ['-']];
    JoinFive(a, b, '-', c, '-');
    assert Join(post) == [a, ' ', b, ' ', '-', ' ', c, ' ', '-'];
    assert CalculateValue(expr, NumberByTruthiness) == Sub(Sub(ToNumber([a]), ToNumber([b])), ToNumber([c]));
  }

  /** An operand that is not read as a number is stacked like an operator:
      `a op z` becomes `a z op`, and both steps of its evaluation pop an
      empty stack, so the result is NaN. */
  lemma UnreadOperand(a: string, op: string, z: string, isNumber: string -> bool)
    requires isNumber(a) && !isNumber(op) && !isNumber(z) && Precedence(z) == None
    ensures PostfixFields([a, op, z], isNumber) == [a, z, op]
    ensures PostfixValue([a, z, op], isNumber) == NaN
  {
    UnreadOperandShunt(a, op, z, isNumber);
    UnreadOperandRun(a, op, z, isNumber);
  }

  lemma UnreadOperandShunt(a: string, op: string, z: string, isNumber: string -> bool)
    requires isNumber(a) && !isNumber(op) && !isNumber(z) && Precedence(z) == None
    ensures PostfixFields([a, op, z], isNumber) == [a, z, op]
  {
    var ts := [a, op, z];
    assert ts[1..] == [op, z] && ts[1..][1..] == [z] && ts[1..][1..][1..] == [];
    assert [] + [a] == [a] && [] + [op] == [op] && [op] + [z] == [op, z];
    assert ShuntStep([], [], a, isNumber) == ([a], []);
    assert ShuntStep([a], [], op, isNumber) == ([a], [op]);
    assert !PopsBefore(op, z);
    assert ShuntStep([a], [op], z, isNumber) == ([a], [op, z]);
    assert Shunt([z], [a], [op], isNumber) == ([a], [op, z]);
    assert Shunt([op, z], [a], [], isNumber) == ([a], [op, z]);
    assert Shunt(ts, [], [], isNumber) == ([a], [op, z]);
    assert Reversed([op, z]) == [z, op];
    assert [a] + [z, op] == [a, z, op];
  }

  lemma UnreadOperandRun(a: string, op: string, z: string, isNumber: string -> bool)
    requires isNumber(a) && !isNumber(op) && !isNumber(z)
    ensures PostfixValue([a, z, op], isNumber) == NaN
  {
    var post := [a, z, op];
    assert post[1..] == [z, op] && post[1..][1..] == [op] && post[1..][1..][1..] == [];
    var v := ToNumber(a);
    assert [] + [v] == [v] && [] + [NaN] == [NaN];
    assert Pop([v]) == (v, []) && Pop([NaN]) == (NaN, []);
    assert EvalStep([], a, isNumber) == [v];
    assert EvalStep([v], z, isNumber) == [NaN];
    assert EvalStep([NaN], op, isNumber) == [NaN];
    assert Run([op], [NaN], isNumber) == [NaN];
    assert Run([z, op], [v], isNumber) == [NaN];
    assert Run(post, [], isNumber) == [NaN];
  }

  /** A lone operand that the number test rejects and the precedence table
      lacks is stacked, and evaluating it pops two missing operands. */
  lemma LoneUnreadOperand(z: string, isNumber: string -> bool)
    requires !isNumber(z) && Precedence(z) == None
    ensures PostfixFields([z], isNumber) == [z]
    ensures PostfixValue([z], isNumber) == NaN
  {
    var ts := [z];
    assert ts[1..] == [];
    assert [] + [z] == [z];
    assert ShuntStep([], [], z, isNumber) == ([], [z]);
    assert Shunt(ts, [], [], isNumber) == ([], [z]);
    assert Reversed([z]) == [z];
    assert [] + [NaN] == [NaN];
    assert EvalStep([], z, isNumber) == [NaN];
    assert Run(ts, [], isNumber) == [NaN];
  }

  /** As written, a buffer holding just `0` (what `5 - 5 =` leaves) is
      evaluated to NaN. */
  lemma LoneZeroAsWritten(c: char)
    requires c == '0'
    ensures PostfixFields(Split([c]), NumberByTruthiness) == [[c]]
    ensures CalculateValue([c], NumberByTruthiness) == NaN
  {
    ZeroDigit();
    assert [c] == "0";
    SplitSpaceFree([c]);
    LoneUnreadOperand([c], NumberByTruthiness);
  }

  /** As written, `Number("0")` is falsy, so the operand `0` is stacked as
      an operator: `a + 0` (such as `5 + 0`) becomes `a 0 +` and evaluates
      to NaN. */
  lemma ZeroOperandAsWritten(a: char)
    requires '1' <= a <= '9'
    ensures PostfixFields(Split([a, ' ', '+', ' ', '0']), NumberByTruthiness) == [[a], "0", "+"]
    ensures CalculateValue([a, ' ', '+', ' ', '0'], NumberByTruthiness) == NaN
  {
    ThreeFields(a, '+', '0');
    NonzeroDigitIsNumber(a);
    OperatorsAreNotNumbers("+");
    ZeroDigit();
    UnreadOperand([a], "+", "0", NumberByTruthiness);
  }

  /** With the corrected rule, the same expression is a + 0 = a. */
  lemma ZeroOperandCorrected(a: char)
    requires '1' <= a <= '9'
    ensures PostfixFields(Split([a, ' ', '+', ' ', '0']), NumberUnlessOperator) == [[a], "0", "+"]
    ensures CalculateValue([a, ' ', '+', ' ', '0'], NumberUnlessOperator) == ToNumber([a])
  {
    ThreeFields(a, '+', '0');
    NonzeroDigitIsNumber(a);
    ZeroDigit();
    SumShape([a], "0", NumberUnlessOperator);
    assert CalculateValue([a, ' ', '+', ' ', '0'], NumberUnlessOperator) == Add(ToNumber([a]), ToNumber("0"));
    PlusZero(a);
  }

  /** `a + b` is `a b +`. */
  lemma SumShape(a: string, b: string, isNumber: string -> bool)
    requires isNumber(a) && isNumber(b) && !isNumber("+")
    ensures PostfixFields([a, "+", b], isNumber) == [a, b, "+"]
    ensures PostfixValue(PostfixFields([a, "+", b], isNumber), isNumber) == Add(ToNumber(a), ToNumber(b))
  {
    var ts := [a, "+", b];
    WellFormedThree(ts, isNumber);
    ParseExtend([a], "+", b);
    assert [a] + ["+", b] == ts;
    var e := Node("+", Leaf(a), Leaf(b));
    assert Parse(ts) == e;
    SimpleNode("+", a, b);
    PostfixIsPostOrder(ts, isNumber);
    PostfixValueIsConventional(ts, isNumber);
  }

  /** The corrected rule gives the conventional value to every expression
      that alternates operands and operators, zero operands included. */
  lemma CorrectedRuleIsConventional(expr: string)
    requires |Split(expr)| % 2 == 1
    requires forall k :: 0 <= k < |Split(expr)| ==> (k % 2 == 1 <==> IsOperator(Split(expr)[k]))
    ensures CalculateValue(expr, NumberUnlessOperator) == Eval(Parse(Split(expr)))
  {
    CalculateIsConventional(expr, NumberUnlessOperator);
  }
}
