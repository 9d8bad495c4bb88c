/** The calculator's input buffer (`Calculator` in script.js): a string that
    the keys edit, and a flag that records whether `=` was the last key.

    A buffer built by the keys is a list of fields separated by single
    spaces: operand, operator, operand, ..., operand, where each operator
    key appends `" + "` (or `-`, `*`, `/`) and so leaves an empty last
    operand until the next digit. `Shape` states that layout; every key
    keeps it. The number formatting of `String(v)` and `v.toExponential(5)`
    is not modelled: the calculator is given both as functions, and all it
    relies on is that their text is nonempty and has no space. */
module CalculatorState {
  import opened JsNumber
  import opened JsString
  import ExprEval
  import InfixSemantics

  /** `_isLastOperator`: the buffer ends in a space, which only the padding of
      an operator key puts there. */
  predicate IsLastOperator(expr: string) {
    |expr| > 0 && expr[|expr| - 1] == ' '
  }

  /** `_isNumberOrDecimal`: `Number(value)` is truthy, or the value is `"0"`
      or `"."`. */
  predicate IsNumberOrDecimal(value: string) {
    Truthy(ToNumber(value)) || value == "0" || value == "."
  }

  /** `_checkRepeatingDecimal`: the buffer ends in a point and the new
      value is a point. */
  predicate RepeatsDecimal(expr: string, value: string) {
    |expr| > 0 && expr[|expr| - 1] == '.' && value == "."
  }

  /** The guard of `addDigit`: a number or point, a buffer shorter than the
      24 characters of the display, and no second point in a row. */
  predicate AcceptsDigit(expr: string, digit: string) {
    IsNumberOrDecimal(digit) && |expr| < 24 && !RepeatsDecimal(expr, digit)
  }

  /** An operator key's text: one of + - * / padded by a space on each side. */
  predicate IsOperatorKey(op: string) {
    |op| == 3 && op[0] == ' ' && op[2] == ' ' && ExprEval.IsOperator(op[1..2])
  }

  /** The text of a whole field: nonempty, without a space. */
  predicate FieldText(s: string) {
    s != "" && ' ' !in s
  }

  /** `s.slice(0, end)`: a negative `end` counts back from the end of `s`,
      and is cut at the start. */
  function SliceTo(s: string, end: int): (r: string)
    ensures |r| <= |s| && r == s[..|r|]
    ensures 0 <= end <= |s| ==> r == s[..end]
    ensures end < 0 ==> |r| == if |s| + end < 0 then 0 else |s| + end
    ensures end > |s| ==> r == s
  {
    var n := if end < 0 then (if |s| + end < 0 then 0 else |s| + end)
             else if end > |s| then |s| else end;
    s[..n]
  }

  /** `exprArr.pop()` after `_expr.split(" ")`: the last field, which is
      what follows the last space. */
  function LastField(s: string): (t: string)
    ensures t == s[LastSpaceEnd(s)..]
    ensures ' ' !in t
  {
    SplitLastField(s, "");
    var f := Split(s);
    f[|f| - 1]
  }

  /** The buffer after `exprArr.pop()`, `exprArr.push(x)` and
      `exprArr.join(" ")`: everything up to and including the last space is
      kept, and `x` follows it. */
  function ReplaceLastField(s: string, x: string): (r: string)
    ensures r == s[..LastSpaceEnd(s)] + x
  {
    SplitLastField(s, x);
    var f := Split(s);
    Join(f[..|f| - 1] + [x])
  }

  // ---------------------------------------------------------------------------
  // The layout of a buffer
  // ---------------------------------------------------------------------------

  /** Fields of a buffer the keys build: the last one is an operand, and
      before it, an operator that follows a nonempty operand. Read from the
      end: every second field is an operator and every operand but the last
      is nonempty. */
  predicate FieldsShape(f: seq<string>)
    decreases |f|
  {
    if |f| < 3 then |f| == 1
    else ExprEval.IsOperator(f[|f| - 2]) && f[|f| - 3] != "" && FieldsShape(f[..|f| - 2])
  }

  predicate Shape(expr: string) {
    FieldsShape(Split(expr))
  }

  /** The recursive layout is the alternation it describes. */
  lemma {:induction false} FieldsShapeAlternates(f: seq<string>)
    requires FieldsShape(f)
    ensures |f| % 2 == 1
    ensures forall k :: 0 <= k < |f| && k % 2 == 1 ==> ExprEval.IsOperator(f[k])
    ensures forall k :: 0 <= k < |f| - 1 && k % 2 == 0 ==> f[k] != ""
    decreases |f|
  {
    if |f| >= 3 {
      var g := f[..|f| - 2];
      FieldsShapeAlternates(g);
      assert forall k :: 0 <= k < |g| ==> f[k] == g[k];
    }
  }

  /** And the alternation has the recursive layout. */
  lemma {:induction false} AlternationIsFieldsShape(f: seq<string>)
    requires |f| % 2 == 1
    requires forall k :: 0 <= k < |f| && k % 2 == 1 ==> ExprEval.IsOperator(f[k])
    requires forall k :: 0 <= k < |f| - 1 && k % 2 == 0 ==> f[k] != ""
    ensures FieldsShape(f)
    decreases |f|
  {
    if |f| >= 3 {
      var g := f[..|f| - 2];
      assert forall k :: 0 <= k < |g| ==> g[k] == f[k];
      assert (|f| - 2) % 2 == 1 && (|f| - 3) % 2 == 0;
      AlternationIsFieldsShape(g);
    }
  }

  /** The last field may be replaced by anything without breaking the layout. */
  lemma FieldsShapeReplaceLast(f: seq<string>, x: string)
    requires FieldsShape(f)
    ensures FieldsShape(f[..|f| - 1] + [x])
  {
    var g := f[..|f| - 1] + [x];
    if |f| >= 3 {
      assert g[..|g| - 2] == f[..|f| - 2];
      assert g[|g| - 2] == f[|f| - 2] && g[|g| - 3] == f[|f| - 3];
    }
  }

  /** `_isLastOperator` tells exactly whether the last field of a nonempty
      buffer is empty, that is, whether an operator key was the last to add
      text. */
  lemma LastFieldEmpty(s: string)
    ensures LastField(s) == "" <==> s == "" || IsLastOperator(s)
  {
    if s != [] && s[|s| - 1] != ' ' {
      assert LastSpaceEnd(s) == LastSpaceEnd(s[..|s| - 1]);
    }
  }

  lemma EmptyShape()
    ensures Split("") == [""] && Shape("")
  {
  }

  /** One field of text is a whole buffer. */
  lemma FieldTextShape(s: string)
    requires FieldText(s)
    ensures Split(s) == [s] && Shape(s) && !IsLastOperator(s)
  {
    SplitSpaceFree(s);
    assert s[|s| - 1] in s;
  }

  /** Text without a space extends the last operand. */
  lemma ShapeAppendText(expr: string, t: string)
    requires Shape(expr) && ' ' !in t
    ensures var f := Split(expr); Split(expr + t) == f[..|f| - 1] + [f[|f| - 1] + t]
    ensures Shape(expr + t)
  {
    SplitAppendSpaceFree(expr, t);
    var f := Split(expr);
    FieldsShapeReplaceLast(f, f[|f| - 1] + t);
  }

  /** An operator key after a nonempty operand adds the operator and an
      empty operand. */
  lemma ShapeAppendOperator(expr: string, op: string)
    requires Shape(expr) && expr != "" && !IsLastOperator(expr) && IsOperatorKey(op)
    ensures Split(expr + op) == Split(expr) + [op[1..2], ""]
    ensures Shape(expr + op) && IsLastOperator(expr + op)
  {
    var sym := op[1..2];
    assert op == " " + sym + " ";
    SplitOperatorKey(expr, sym);
    var f := Split(expr);
    LastFieldEmpty(expr);
    FieldsShapeAppendOperator(f, sym);
    assert (expr + op)[|expr + op| - 1] == op[2];
  }

  /** The padded operator splits into the operator and an empty field. */
  lemma SplitOperatorKey(expr: string, sym: string)
    requires ' ' !in sym
    ensures Split(expr + (" " + sym + " ")) == Split(expr) + [sym, ""]
  {
    assert expr + (" " + sym + " ") == expr + " " + (sym + " " + "");
    SplitAtSpace(expr, sym + " " + "");
    SplitAtSpace(sym, "");
    SplitSpaceFree(sym);
  }

  lemma FieldsShapeAppendOperator(f: seq<string>, sym: string)
    requires FieldsShape(f) && f[|f| - 1] != "" && ExprEval.IsOperator(sym)
    ensures FieldsShape(f + [sym, ""])
  {
    var g := f + [sym, ""];
    assert g[..|g| - 2] == f;
  }

  /** Removing the three characters of a trailing operator key leaves the
      buffer as it was before the key: its fields lose the operator and the
      empty operand. */
  lemma ShapeDropOperator(expr: string)
    requires Shape(expr) && IsLastOperator(expr)
    ensures var f := Split(expr); |f| >= 3 && Split(SliceTo(expr, |expr| - 3)) == f[..|f| - 2]
    ensures var p := SliceTo(expr, |expr| - 3); Shape(p) && p != "" && !IsLastOperator(p)
  {
    var f := Split(expr);
    LastFieldEmpty(expr);
    JoinSplit(expr);
    var g, sym := f[..|f| - 2], f[|f| - 2];
    FieldsBeforeOperator(f);
    JoinOperatorKey(g, sym);
    var p := Join(g);
    DropPadded(p, sym);
    SplitJoin(g);
    LastFieldEmpty(p);
    assert Split(p) == g;
  }

  /** Fields ending in an operator and an empty operand: what comes before
      them is itself a layout of fields, whose last operand is nonempty. */
  lemma FieldsBeforeOperator(f: seq<string>)
    requires FieldsShape(f) && f[|f| - 1] == "" && |f| >= 2
    ensures var g := f[..|f| - 2];
      |f| >= 3 && f == g + [f[|f| - 2]] + [""] && FieldsShape(g) && g[|g| - 1] != ""
      && ExprEval.IsOperator(f[|f| - 2])
      && forall k :: 0 <= k < |g| ==> g[k] == f[k]
  {
    var g := f[..|f| - 2];
    assert f == g + [f[|f| - 2]] + [""];
    assert forall k :: 0 <= k < |g| ==> g[k] == f[k];
  }

  lemma DropPadded(p: string, sym: string)
    requires |sym| == 1
    ensures var expr := p + " " + sym + " "; SliceTo(expr, |expr| - 3) == p
  {
    var expr := p + " " + sym + " ";
    assert expr[..|p|] == p;
  }

  /** Joining the fields of an operator key appends the padded operator. */
  lemma JoinOperatorKey(g: seq<string>, sym: string)
    requires |g| >= 1
    ensures Join(g + [sym] + [""]) == Join(g) + " " + sym + " "
  {
    JoinAppend(g + [sym], "");
    JoinAppend(g, sym);
  }

  /** Removing the last character of a nonempty last operand shortens it. */
  lemma ShapeDropCharacter(expr: string)
    requires Shape(expr) && expr != "" && !IsLastOperator(expr)
    ensures var f := Split(expr); var last := f[|f| - 1];
      last != "" && Split(SliceTo(expr, |expr| - 1)) == f[..|f| - 1] + [last[..|last| - 1]]
    ensures Shape(SliceTo(expr, |expr| - 1))
  {
    var p, c := expr[..|expr| - 1], expr[|expr| - 1];
    assert expr == p + [c];
    assert SliceTo(expr, |expr| - 1) == p;
    SplitAppendSpaceFree(p, [c]);
    var f, g := Split(expr), Split(p);
    LastFieldEmpty(expr);
    ExtendLastInverse(g, c);
    FieldsShapeReplaceLast(f, f[|f| - 1][..|f[|f| - 1]| - 1]);
  }

  /** Dropping the character just added to the last field. */
  lemma ExtendLastInverse(g: seq<string>, c: char)
    requires |g| >= 1
    ensures var f := g[..|g| - 1] + [g[|g| - 1] + [c]]; var last := f[|f| - 1];
      last != "" && f[..|f| - 1] + [last[..|last| - 1]] == g
  {
    var f := g[..|g| - 1] + [g[|g| - 1] + [c]];
    var last := f[|f| - 1];
    assert last[..|last| - 1] == g[|g| - 1];
    assert f[..|f| - 1] == g[..|g| - 1];
  }

  /** A space-free last operand in place of the old one keeps the layout. */
  lemma ShapeReplaceLast(expr: string, x: string)
    requires Shape(expr) && ' ' !in x
    ensures var f := Split(expr); Split(ReplaceLastField(expr, x)) == f[..|f| - 1] + [x]
    ensures Shape(ReplaceLastField(expr, x))
  {
    var f := Split(expr);
    var g := f[..|f| - 1] + [x];
    assert forall k :: 0 <= k < |g| ==> ' ' !in g[k];
    SplitJoin(g);
    FieldsShapeReplaceLast(f, x);
  }

  /** A buffer whose operands are all truthy numbers (no zero, no lone point)
      is a well-formed infix list for the source's number test. */
  lemma ShapeIsWellFormed(expr: string)
    requires Shape(expr)
    requires forall k :: 0 <= k < |Split(expr)| && k % 2 == 0 ==> ExprEval.NumberByTruthiness(Split(expr)[k])
    ensures InfixSemantics.WellFormedInfix(Split(expr), ExprEval.NumberByTruthiness)
  {
    var f := Split(expr);
    FieldsShapeAlternates(f);
    forall k | 0 <= k < |f| && k % 2 == 1
      ensures ExprEval.IsOperator(f[k]) && !ExprEval.NumberByTruthiness(f[k])
    {
      ExprEval.OperatorsAreNotNumbers(f[k]);
    }
  }

  /** For a single key: a digit or a point is accepted unless the display is
      full or it would be a second point in a row. */
  lemma DigitAccepted(expr: string, c: char)
    ensures AcceptsDigit(expr, [c]) <==>
      (IsDigit(c) || c == '.') && |expr| < 24 && !(c == '.' && |expr| > 0 && expr[|expr| - 1] == '.')
  {
    DigitKey(c);
    OneCharacter(c, '.');
  }

  /** `_isNumberOrDecimal` accepts exactly the ten digits and the point
      among single characters: `Number` makes 1 to 9 truthy, and `0` and `.`
      are named. */
  lemma DigitKey(c: char)
    ensures IsNumberOrDecimal([c]) <==> IsDigit(c) || c == '.'
  {
    SingleCharacterTruthy(c);
    OneCharacter(c, '0');
    OneCharacter(c, '.');
    if '1' <= c <= '9' {
      assert Truthy(ToNumber([c]));
    } else {
      assert !Truthy(ToNumber([c]));
      assert IsNumberOrDecimal([c]) <==> [c] == "0" || [c] == ".";
    }
  }

  lemma OneCharacter(c: char, d: char)
    ensures [c] == [d] <==> c == d
  {
    if [c] == [d] {
      assert [c][0] == [d][0];
    }
  }

  // ---------------------------------------------------------------------------
  // The calculator
  // ---------------------------------------------------------------------------

  class Calculator {
    /** `_expr`: the expression being built. */
    var expr: string
    /** `_pressedEquals`: the buffer shows a result, so a digit starts afresh. */
    var pressedEquals: bool
    /** `String(v)`. */
    const show: Value -> string
    /** `v.toExponential(5)`. */
    const exponential: Value -> string

    /** Both formats give a nonempty text without a space. */
    ghost predicate Formats() {
      forall v :: FieldText(show(v)) && FieldText(exponential(v))
    }

    ghost predicate Valid()
      reads this
    {
      Shape(expr) && Formats()
    }

    /** The result as the buffer shows it: rounded to seven decimal places,
        in exponential form above 999999999. */
    function Display(v: Value): (s: string)
      ensures Formats() ==> FieldText(s)
      ensures GreaterThan(Round7(v), 999999999.0) ==> s == exponential(Round7(v))
      ensures !GreaterThan(Round7(v), 999999999.0) ==> s == show(Round7(v))
    {
      var r := Round7(v);
      if GreaterThan(r, 999999999.0) then exponential(r) else show(r)
    }

    /** The initial state: an empty buffer, as after `=`. */
    constructor (show: Value -> string, exponential: Value -> string)
      requires forall v :: FieldText(show(v)) && FieldText(exponential(v))
      ensures Valid()
      ensures expr == "" && pressedEquals
      ensures this.show == show && this.exponential == exponential
    {
      this.show := show;
      this.exponential := exponential;
      expr := "";
      pressedEquals := true;
      EmptyShape();
    }

    /** `getExpr`. */
    method GetExpr() returns (e: string)
      ensures e == expr
    {
      e := expr;
    }

    /** `addDigit`: ignored unless the guard accepts it; after `=` the digit
        replaces the result, otherwise it extends the last operand. */
    method AddDigit(digit: string)
      modifies this
      ensures expr == if !AcceptsDigit(old(expr), digit) then old(expr)
                      else if old(pressedEquals) then digit
                      else old(expr) + digit
      ensures pressedEquals == if AcceptsDigit(old(expr), digit) then false else old(pressedEquals)
      ensures |digit| <= 1 && old(|expr|) <= 24 ==> |expr| <= 24
      ensures old(Valid()) && ' ' !in digit ==> Valid()
      ensures old(Valid()) && ' ' !in digit && AcceptsDigit(old(expr), digit) && !old(pressedEquals) ==>
        var f := Split(old(expr)); Split(expr) == f[..|f| - 1] + [f[|f| - 1] + digit]
    {
      ghost var wasValid := Valid();
      if !IsNumberOrDecimal(digit) || |expr| >= 24 || RepeatsDecimal(expr, digit) {
        return;
      }
      if pressedEquals {
        expr := "";
      }
      if wasValid && ' ' !in digit {
        EmptyShape();
        ShapeAppendText(expr, digit);
      }
      expr := expr + digit;
      pressedEquals := false;
    }

    /** `addOperator`: ignored on an empty buffer; an operator key replaces
        a trailing one, so two operators never follow each other. */
    method AddOperator(op: string)
      modifies this
      ensures old(expr) == "" ==> expr == old(expr) && pressedEquals == old(pressedEquals)
      ensures old(expr) != "" ==>
        expr == (if IsLastOperator(old(expr)) then SliceTo(old(expr), |old(expr)| - 3) else old(expr)) + op
        && !pressedEquals
      ensures old(Valid()) && IsOperatorKey(op) ==> Valid()
      ensures old(Valid()) && IsOperatorKey(op) && old(expr) != "" ==>
        var f := Split(old(expr));
        Split(expr) == (if IsLastOperator(old(expr)) then f[..|f| - 2] else f) + [op[1..2], ""]
    {
      ghost var wasValid := Valid();
      if expr == "" {
        return;
      } else if IsLastOperator(expr) {
        if wasValid { ShapeDropOperator(expr); }
        expr := SliceTo(expr, |expr| - 3);
      }
      if wasValid && IsOperatorKey(op) {
        ShapeAppendOperator(expr, op);
      }
      expr := expr + op;
      pressedEquals := false;
    }

    /** `posNeg`: the last operand, read as a number, changes sign. */
    method PosNeg()
      modifies this
      ensures pressedEquals == old(pressedEquals)
      ensures old(expr) == "" || IsLastOperator(old(expr)) ==> expr == old(expr)
      ensures !(old(expr) == "" || IsLastOperator(old(expr))) ==>
        expr == ReplaceLastField(old(expr), show(Neg(ToNumber(LastField(old(expr))))))
      ensures old(Valid()) ==> Valid()
      ensures old(Valid()) && !(old(expr) == "" || IsLastOperator(old(expr))) ==>
        var f := Split(old(expr)); Split(expr) == f[..|f| - 1] + [show(Neg(ToNumber(f[|f| - 1])))]
    {
      ghost var wasValid := Valid();
      if expr == "" || IsLastOperator(expr) {
        return;
      }
      ghost var before := expr;
      var exprArr := Split(expr);
      var lastNumber := exprArr[|exprArr| - 1];
      exprArr := exprArr[..|exprArr| - 1];
      var n := ToNumber(lastNumber);
      if GreaterThan(n, 0.0) {
        exprArr := exprArr + [show(Neg(Abs(n)))];
      } else {
        exprArr := exprArr + [show(Abs(n))];
      }
      assert exprArr == Split(before)[..|Split(before)| - 1] + [show(FlipSign(n))];
      expr := Join(exprArr);
      if wasValid {
        ShapeReplaceLast(before, show(Neg(n)));
      }
    }

    /** `percentage`: the last operand, read as a number, is divided by 100. */
    method Percentage()
      modifies this
      ensures pressedEquals == old(pressedEquals)
      ensures old(expr) == "" || IsLastOperator(old(expr)) ==> expr == old(expr)
      ensures !(old(expr) == "" || IsLastOperator(old(expr))) ==>
        expr == ReplaceLastField(old(expr), show(Div(ToNumber(LastField(old(expr))), Finite(100.0))))
      ensures old(Valid()) ==> Valid()
      ensures old(Valid()) && !(old(expr) == "" || IsLastOperator(old(expr))) ==>
        var f := Split(old(expr)); Split(expr) == f[..|f| - 1] + [show(Div(ToNumber(f[|f| - 1]), Finite(100.0)))]
    {
      ghost var wasValid := Valid();
      if expr == "" || IsLastOperator(expr) {
        return;
      }
      ghost var before := expr;
      var exprArr := Split(expr);
      var lastNumber := exprArr[|exprArr| - 1];
      exprArr := exprArr[..|exprArr| - 1];
      exprArr := exprArr + [show(Div(ToNumber(lastNumber), Finite(100.0)))];
      expr := Join(exprArr);
      if wasValid {
        ShapeReplaceLast(before, show(Div(ToNumber(lastNumber), Finite(100.0))));
      }
    }

    /** `calculate`: the buffer's value, rounded and formatted, replaces the
        buffer; on a well-formed buffer it is the conventional value of the
        expression. */
    method Calculate()
      modifies this
      ensures old(expr) == "" || IsLastOperator(old(expr)) ==>
        expr == old(expr) && pressedEquals == old(pressedEquals)
      ensures !(old(expr) == "" || IsLastOperator(old(expr))) ==>
        expr == Display(ExprEval.CalculateValue(old(expr), ExprEval.NumberByTruthiness)) && pressedEquals
      ensures (!(old(expr) == "" || IsLastOperator(old(expr)))
               && InfixSemantics.WellFormedInfix(Split(old(expr)), ExprEval.NumberByTruthiness)) ==>
        expr == Display(InfixSemantics.Eval(InfixSemantics.Parse(Split(old(expr)))))
      ensures (old(Valid()) && !(old(expr) == "" || IsLastOperator(old(expr)))
               && forall k :: 0 <= k < |Split(old(expr))| && k % 2 == 0 ==>
                    ExprEval.NumberByTruthiness(Split(old(expr))[k])) ==>
        expr == Display(InfixSemantics.Eval(InfixSemantics.Parse(Split(old(expr)))))
      ensures old(Valid()) ==> Valid()
    {
      ghost var wasValid := Valid();
      if expr == "" || IsLastOperator(expr) {
        return;
      }
      ghost var before := expr;
      var result := ExprEval.Calculate(expr, ExprEval.NumberByTruthiness);
      result := Round7(result);
      if GreaterThan(result, 999999999.0) {
        expr := exponential(result);
      } else {
        expr := show(result);
      }
      pressedEquals := true;
      if wasValid && forall k :: 0 <= k < |Split(before)| && k % 2 == 0 ==> ExprEval.NumberByTruthiness(Split(before)[k]) {
        ShapeIsWellFormed(before);
      }
      if InfixSemantics.WellFormedInfix(Split(before), ExprEval.NumberByTruthiness) {
        InfixSemantics.CalculateIsConventional(before, ExprEval.NumberByTruthiness);
      }
      if wasValid {
        FieldTextShape(expr);
      }
    }

    /** `deleteLast`: a trailing operator key goes as a whole, otherwise one
        character. */
    method DeleteLast()
      modifies this
      ensures pressedEquals == old(pressedEquals)
      ensures old(expr) == "" ==> expr == ""
      ensures old(expr) != "" ==>
        expr == SliceTo(old(expr), |old(expr)| - if IsLastOperator(old(expr)) then 3 else 1)
      ensures old(Valid()) ==> Valid()
      ensures old(Valid()) && old(expr) != "" ==>
        var f := Split(old(expr)); var last := f[|f| - 1];
        Split(expr) == if IsLastOperator(old(expr)) then f[..|f| - 2] else f[..|f| - 1] + [SliceTo(last, |last| - 1)]
    {
      ghost var wasValid := Valid();
      if expr == "" {
        return;
      } else if IsLastOperator(expr) {
        if wasValid { ShapeDropOperator(expr); }
        expr := SliceTo(expr, |expr| - 3);
      } else {
        if wasValid { ShapeDropCharacter(expr); }
        expr := SliceTo(expr, |expr| - 1);
      }
    }

    /** `clearExpr`: the flag is left as it was. */
    method ClearExpr()
      modifies this
      ensures expr == "" && pressedEquals == old(pressedEquals)
      ensures old(Valid()) ==> Valid()
    {
      expr := "";
      EmptyShape();
    }
  }
}
