/** The conventional meaning of an infix expression without parentheses,
    given independently of the evaluator: `*` and `/` bind tighter than `+`
    and `-`, and operators of one tier group to the left. It is the grammar

        Expr ::= Expr AddOp Term | Term
        Term ::= Term MulOp Number | Number

    read as a tree. The lemmas prove that the evaluator's postfix list is the
    post-order walk of that tree, that evaluating it leaves exactly one value,
    and that this value is the tree's value. */
module InfixSemantics {
  import opened JsNumber
  import opened JsString
  import opened ExprEval

  datatype Expr = Leaf(token: string) | Node(op: string, left: Expr, right: Expr)

  /** The value of a tree: a leaf is its token read as a number. */
  function Eval(e: Expr): Value {
    match e
    case Leaf(t) => ToNumber(t)
    case Node(op, l, r) => DoMath(Eval(l), op, Eval(r))
  }

  /** The tokens of a tree in postfix order. */
  function PostOrder(e: Expr): seq<string> {
    match e
    case Leaf(t) => [t]
    case Node(op, l, r) => PostOrder(l) + PostOrder(r) + [op]
  }

  predicate IsAdditive(token: string) {
    token == "+" || token == "-"
  }

  /** An infix token list: number, operator, number, ..., number, with every
      operator one of + - * / and not itself read as a number. */
  predicate WellFormedInfix(tokens: seq<string>, isNumber: string -> bool) {
    |tokens| % 2 == 1
    && (forall k :: 0 <= k < |tokens| && k % 2 == 0 ==> isNumber(tokens[k]))
    && (forall k :: 0 <= k < |tokens| && k % 2 == 1 ==> IsOperator(tokens[k]) && !isNumber(tokens[k]))
  }

  /** The position of the last + or - of an infix list, or 0 when there is
      none. Like `ParseTerm` and `Parse` it gives some answer for every list;
      only the answers for well-formed lists matter. */
  function LastAdditive(tokens: seq<string>): (k: nat)
    ensures k == 0 || (k < |tokens| && IsAdditive(tokens[k]))
    decreases |tokens|
  {
    if |tokens| < 3 then 0
    else if IsAdditive(tokens[|tokens| - 2]) then |tokens| - 2
    else LastAdditive(tokens[..|tokens| - 2])
  }

  /** `Term ::= Term MulOp Number | Number`. */
  function ParseTerm(tokens: seq<string>): Expr
    decreases |tokens|
  {
    if |tokens| < 2 then Leaf(if tokens == [] then "" else tokens[0])
    else Node(tokens[|tokens| - 2], ParseTerm(tokens[..|tokens| - 2]), Leaf(tokens[|tokens| - 1]))
  }

  /** `Expr ::= Expr AddOp Term | Term`: the last + or - is the root. */
  function Parse(tokens: seq<string>): Expr
    decreases |tokens|
  {
    var k := LastAdditive(tokens);
    if k == 0 then ParseTerm(tokens)
    else Node(tokens[k], Parse(tokens[..k]), ParseTerm(tokens[k + 1..]))
  }

  // ---------------------------------------------------------------------------
  // Growing an infix list by one operator and one number
  // ---------------------------------------------------------------------------

  lemma LastAdditiveExtend(p: seq<string>, op: string, x: string)
    requires |p| >= 1
    ensures LastAdditive(p + [op, x]) == if IsAdditive(op) then |p| else LastAdditive(p)
  {
    var q := p + [op, x];
    assert q[..|q| - 2] == p;
    assert q[|q| - 2] == op;
  }

  lemma ParseTermExtend(p: seq<string>, op: string, x: string)
    ensures ParseTerm(p + [op, x]) == Node(op, ParseTerm(p), Leaf(x))
  {
    var q := p + [op, x];
    assert q[..|q| - 2] == p;
    assert q[|q| - 2] == op && q[|q| - 1] == x;
  }

  /** The root of a tree is a + or - exactly when the list has one. */
  lemma ParseRoot(p: seq<string>)
    requires |p| % 2 == 1
    ensures var e := Parse(p); e.Node? && IsAdditive(e.op) <==> LastAdditive(p) > 0
  {
    if |p| > 1 {
      assert LastAdditive(p) == if IsAdditive(p[|p| - 2]) then |p| - 2 else LastAdditive(p[..|p| - 2]);
    }
  }

  /** A +/- becomes the new root; a * or / joins the rightmost term. */
  lemma ParseExtend(p: seq<string>, op: string, x: string)
    requires |p| % 2 == 1
    ensures var e := Parse(p);
      Parse(p + [op, x]) ==
        if IsAdditive(op) || !(e.Node? && IsAdditive(e.op)) then Node(op, e, Leaf(x))
        else Node(e.op, e.left, Node(op, e.right, Leaf(x)))
  {
    ParseRoot(p);
    if IsAdditive(op) {
      ParseExtendAdditive(p, op, x);
    } else if LastAdditive(p) == 0 {
      ParseExtendTerm(p, op, x);
    } else {
      ParseExtendInner(p, op, x);
    }
  }

  lemma ParseExtendAdditive(p: seq<string>, op: string, x: string)
    requires |p| >= 1 && IsAdditive(op)
    ensures Parse(p + [op, x]) == Node(op, Parse(p), Leaf(x))
  {
    var q := p + [op, x];
    LastAdditiveExtend(p, op, x);
    assert q[..|p|] == p && q[|p|] == op;
    assert q[|p| + 1..] == [x];
  }

  lemma ParseExtendTerm(p: seq<string>, op: string, x: string)
    requires |p| >= 1 && !IsAdditive(op) && LastAdditive(p) == 0
    ensures Parse(p + [op, x]) == Node(op, Parse(p), Leaf(x))
  {
    LastAdditiveExtend(p, op, x);
    ParseTermExtend(p, op, x);
  }

  lemma ParseExtendInner(p: seq<string>, op: string, x: string)
    requires !IsAdditive(op) && LastAdditive(p) > 0
    ensures var e := Parse(p); Parse(p + [op, x]) == Node(e.op, e.left, Node(op, e.right, Leaf(x)))
  {
    var q := p + [op, x];
    var k := LastAdditive(p);
    var r := p[k + 1..];
    LastAdditiveExtend(p, op, x);
    ParseAtAdditive(p);
    ParseAtAdditive(q);
    AppendSlices(p, [op, x], k);
    ParseTermExtend(r, op, x);
    var left, term := Parse(p[..k]), ParseTerm(r);
    assert Parse(p) == Node(p[k], left, term);
    assert Parse(q) == Node(p[k], left, Node(op, term, Leaf(x)));
  }

  /** Cutting a concatenation inside its first part. */
  lemma AppendSlices(a: seq<string>, b: seq<string>, k: nat)
    requires k < |a|
    ensures (a + b)[..k] == a[..k] && (a + b)[k] == a[k]
    ensures (a + b)[k + 1..] == a[k + 1..] + b
  {
  }

  /** The tree of a list with a + or - is split at the last one. */
  lemma ParseAtAdditive(p: seq<string>)
    requires LastAdditive(p) > 0
    ensures var k := LastAdditive(p); Parse(p) == Node(p[k], Parse(p[..k]), ParseTerm(p[k + 1..]))
  {
  }

  // ---------------------------------------------------------------------------
  // The conversion builds the post-order walk
  // ---------------------------------------------------------------------------

  /** The shape of a prefix's tree: a root +/- whose right side is a term, or
      a term; a term is a number or `term * number` / `term / number`. */
  predicate TopTerm(t: Expr) {
    t.Leaf? || (t.Node? && IsOperator(t.op) && !IsAdditive(t.op) && t.right.Leaf?)
  }

  predicate PrefixShape(e: Expr) {
    if e.Node? && IsAdditive(e.op) then TopTerm(e.right) else TopTerm(e)
  }

  function TermPending(output: seq<string>, stack: seq<string>, t: Expr): (seq<string>, seq<string>) {
    match t
    case Leaf(x) => (output + [x], stack)
    case Node(m, l, r) => (output + PostOrder(l) + PostOrder(r), stack + [m])
  }

  /** The output list and operator stack the conversion holds after an infix
      prefix whose tree is `e`: a pending +/- and a pending * or / stay on
      the stack, everything else is already output. */
  function Pending(e: Expr): (seq<string>, seq<string>) {
    if e.Node? && IsAdditive(e.op) then TermPending(PostOrder(e.left), [e.op], e.right)
    else TermPending([], [], e)
  }

  lemma {:induction false} ShuntAppend(a: seq<string>, b: seq<string>, output: seq<string>, stack: seq<string>, isNumber: string -> bool)
    ensures var (o, s) := Shunt(a, output, stack, isNumber); Shunt(a + b, output, stack, isNumber) == Shunt(b, o, s, isNumber)
    decreases |a|
  {
    if a != [] {
      assert (a + b)[1..] == a[1..] + b;
      var (o, s) := ShuntStep(output, stack, a[0], isNumber);
      ShuntAppend(a[1..], b, o, s, isNumber);
    } else {
      assert a + b == b;
    }
  }

  lemma PopOne(output: seq<string>, rest: seq<string>, top: string, incoming: string)
    requires PopsBefore(top, incoming)
    ensures PopWhileBinding(output, rest + [top], incoming) == PopWhileBinding(output + [top], rest, incoming)
  {
    assert (rest + [top])[..|rest|] == rest;
  }

  /** One operator and then one number, from the pending state of `e`. */
  lemma ShuntOperatorNumber(e: Expr, op: string, x: string, isNumber: string -> bool)
    requires PrefixShape(e) && IsOperator(op) && !isNumber(op) && isNumber(x)
    ensures var (o, s) := Pending(e);
      Shunt([op, x], o, s, isNumber) ==
        if IsAdditive(op) || !(e.Node? && IsAdditive(e.op)) then Pending(Node(op, e, Leaf(x)))
        else Pending(Node(e.op, e.left, Node(op, e.right, Leaf(x))))
  {
    var (o, s) := Pending(e);
    ShuntPair(o, s, op, x, isNumber);
    if e.Node? && IsAdditive(e.op) {
      if e.right.Leaf? {
        PendingAfterSum(e, op, x);
      } else {
        PendingAfterSumOfProduct(e, op, x);
      }
    } else if e.Node? {
      PendingAfterProduct(e, op, x);
    } else {
      PendingAfterNumber(e, op, x);
    }
  }

  /** An operator pops what binds at least as tightly and is stacked; the
      number after it is output. */
  lemma ShuntPair(o: seq<string>, s: seq<string>, op: string, x: string, isNumber: string -> bool)
    requires !isNumber(op) && isNumber(x)
    ensures var (o1, s1) := PopWhileBinding(o, s, op); Shunt([op, x], o, s, isNumber) == (o1 + [x], s1 + [op])
  {
    var (o1, s1) := PopWhileBinding(o, s, op);
    assert ShuntStep(o, s, op, isNumber) == (o1, s1 + [op]);
    assert ShuntStep(o1, s1 + [op], x, isNumber) == (o1 + [x], s1 + [op]);
    assert [op, x][1..] == [x] && [x][1..] == [];
    assert Shunt([x], o1, s1 + [op], isNumber) == (o1 + [x], s1 + [op]);
  }

  /** The pending state of `l a y` with `a` a + or -. */
  lemma PendingAfterSum(e: Expr, op: string, x: string)
    requires e.Node? && IsAdditive(e.op) && e.right.Leaf? && IsOperator(op)
    ensures var (o, s) := Pending(e); var (o1, s1) := PopWhileBinding(o, s, op);
      (o1 + [x], s1 + [op]) ==
        if IsAdditive(op) then Pending(Node(op, e, Leaf(x)))
        else Pending(Node(e.op, e.left, Node(op, e.right, Leaf(x))))
  {
    var (o, s) := Pending(e);
    assert s == [] + [e.op];
    if IsAdditive(op) {
      PopOne(o, [], e.op, op);
      assert o + [e.op] == PostOrder(e);
      var (o1, s1) := PopWhileBinding(o, s, op);
      assert o1 == PostOrder(e) && s1 + [op] == [op];
    } else {
      assert s[|s| - 1] == e.op;
    }
  }

  /** The pending state of `l a t m y` with `a` a + or - and `m` a * or /. */
  lemma PendingAfterSumOfProduct(e: Expr, op: string, x: string)
    requires e.Node? && IsAdditive(e.op) && TopTerm(e.right) && e.right.Node? && IsOperator(op)
    ensures var (o, s) := Pending(e); var (o1, s1) := PopWhileBinding(o, s, op);
      (o1 + [x], s1 + [op]) ==
        if IsAdditive(op) then Pending(Node(op, e, Leaf(x)))
        else Pending(Node(e.op, e.left, Node(op, e.right, Leaf(x))))
  {
    var t := e.right;
    var (o, s) := Pending(e);
    assert o == PostOrder(e.left) + PostOrder(t.left) + PostOrder(t.right);
    assert s == [e.op] + [t.op];
    PopOne(o, [e.op], t.op, op);
    var o2 := o + [t.op];
    assert PostOrder(e.left) + PostOrder(t) == o2;
    if IsAdditive(op) {
      SumOfProductThenSum(e, o2, op, x);
    } else {
      assert !PopsBefore(e.op, op);
      assert PopWhileBinding(o, s, op) == (o2, [e.op]);
    }
  }

  /** The second half of the case above when the incoming operator is a + or -:
      the pending + or - is popped too. */
  lemma SumOfProductThenSum(e: Expr, o2: seq<string>, op: string, x: string)
    requires e.Node? && IsAdditive(e.op) && IsAdditive(op)
    requires o2 == PostOrder(e.left) + PostOrder(e.right)
    ensures var (o1, s1) := PopWhileBinding(o2, [e.op], op);
      (o1 + [x], s1 + [op]) == Pending(Node(op, e, Leaf(x)))
  {
    PopOne(o2, [], e.op, op);
    assert o2 + [e.op] == PostOrder(e);
    assert PopWhileBinding(o2, [e.op], op) == (PostOrder(e), []);
    assert [] + [op] == [op];
  }

  /** The pending state of a term `t m y` with `m` a * or /. */
  lemma PendingAfterProduct(e: Expr, op: string, x: string)
    requires TopTerm(e) && e.Node? && IsOperator(op)
    ensures var (o, s) := Pending(e); var (o1, s1) := PopWhileBinding(o, s, op);
      (o1 + [x], s1 + [op]) == Pending(Node(op, e, Leaf(x)))
  {
    var (o, s) := Pending(e);
    assert s == [] + [e.op];
    assert o + [e.op] == PostOrder(e);
    PopOne(o, [], e.op, op);
    var (o1, s1) := PopWhileBinding(o, s, op);
    assert o1 == PostOrder(e) && s1 + [op] == [op];
    if !IsAdditive(op) {
      assert [] + PostOrder(e) + [x] == PostOrder(e) + [x];
    }
  }

  /** The pending state of a single number. */
  lemma PendingAfterNumber(e: Expr, op: string, x: string)
    requires e.Leaf?
    ensures var (o, s) := Pending(e); var (o1, s1) := PopWhileBinding(o, s, op);
      (o1 + [x], s1 + [op]) == Pending(Node(op, e, Leaf(x)))
  {
    var (o, s) := Pending(e);
    assert o == [e.token] && s == [];
    var (o1, s1) := PopWhileBinding(o, s, op);
    assert s1 + [op] == [op];
    if !IsAdditive(op) {
      assert [] + [e.token] + [x] == [e.token] + [x];
    }
  }

  /** A well-formed list of three or more tokens is a shorter one followed
      by an operator and a number. */
  lemma WellFormedPrefix(p: seq<string>, isNumber: string -> bool)
    requires WellFormedInfix(p, isNumber) && |p| > 1
    ensures p == p[..|p| - 2] + [p[|p| - 2], p[|p| - 1]]
    ensures WellFormedInfix(p[..|p| - 2], isNumber)
    ensures IsOperator(p[|p| - 2]) && !isNumber(p[|p| - 2]) && isNumber(p[|p| - 1])
  {
    var q := p[..|p| - 2];
    assert (|p| - 1) % 2 == 0;
    forall k | 0 <= k < |q| ensures q[k] == p[k] { }
  }

  /** After every well-formed infix prefix, the conversion holds `Pending`
      of its tree. */
  lemma {:induction false} ShuntPrefix(p: seq<string>, isNumber: string -> bool)
    requires WellFormedInfix(p, isNumber)
    ensures PrefixShape(Parse(p))
    ensures Shunt(p, [], [], isNumber) == Pending(Parse(p))
    decreases |p|
  {
    if |p| == 1 {
      assert p[1..] == [];
    } else {
      var q, op, x := p[..|p| - 2], p[|p| - 2], p[|p| - 1];
      WellFormedPrefix(p, isNumber);
      ShuntPrefix(q, isNumber);
      ShuntAppend(q, [op, x], [], [], isNumber);
      ParseExtend(q, op, x);
      ShuntOperatorNumber(Parse(q), op, x, isNumber);
    }
  }

  lemma PendingClosed(e: Expr)
    requires PrefixShape(e)
    ensures var (o, s) := Pending(e); o + Reversed(s) == PostOrder(e)
  {
  }

  /** The postfix list of a well-formed infix list is the post-order walk of
      its tree (`2 + 3 * 4` gives `2 3 4 * +`, `8 - 3 - 2` gives `8 3 - 2 -`). */
  lemma PostfixIsPostOrder(tokens: seq<string>, isNumber: string -> bool)
    requires WellFormedInfix(tokens, isNumber)
    ensures PostfixFields(tokens, isNumber) == PostOrder(Parse(tokens))
  {
    ShuntPrefix(tokens, isNumber);
    PendingClosed(Parse(tokens));
  }

  // ---------------------------------------------------------------------------
  // Evaluating the post-order walk
  // ---------------------------------------------------------------------------

  /** Every leaf of the tree is read as a number and no operator is. */
  predicate TokensRead(e: Expr, isNumber: string -> bool) {
    match e
    case Leaf(t) => isNumber(t)
    case Node(op, l, r) => !isNumber(op) && TokensRead(l, isNumber) && TokensRead(r, isNumber)
  }

  lemma {:induction false} ParseTokensRead(p: seq<string>, isNumber: string -> bool)
    requires WellFormedInfix(p, isNumber)
    ensures TokensRead(Parse(p), isNumber)
    decreases |p|
  {
    if |p| == 1 {
    } else {
      var q, op, x := p[..|p| - 2], p[|p| - 2], p[|p| - 1];
      WellFormedPrefix(p, isNumber);
      ParseTokensRead(q, isNumber);
      ParseExtend(q, op, x);
    }
  }

  lemma {:induction false} RunAppend(a: seq<string>, b: seq<string>, stack: seq<Value>, isNumber: string -> bool)
    ensures Run(a + b, stack, isNumber) == Run(b, Run(a, stack, isNumber), isNumber)
    decreases |a|
  {
    if a != [] {
      assert (a + b)[1..] == a[1..] + b;
      RunAppend(a[1..], b, EvalStep(stack, a[0], isNumber), isNumber);
    } else {
      assert a + b == b;
    }
  }

  /** Running the post-order walk of a tree pushes exactly the tree's value;
      at each operator the second value popped is the left operand. */
  lemma {:induction false} RunPostOrder(e: Expr, stack: seq<Value>, isNumber: string -> bool)
    requires TokensRead(e, isNumber)
    ensures Run(PostOrder(e), stack, isNumber) == stack + [Eval(e)]
  {
    match e
    case Leaf(t) =>
    case Node(op, l, r) =>
      RunAppend(PostOrder(l) + PostOrder(r), [op], stack, isNumber);
      RunAppend(PostOrder(l), PostOrder(r), stack, isNumber);
      RunPostOrder(l, stack, isNumber);
      RunPostOrder(r, stack + [Eval(l)], isNumber);
      var s := stack + [Eval(l)] + [Eval(r)];
      assert Pop(s) == (Eval(r), stack + [Eval(l)]);
      assert Pop(stack + [Eval(l)]) == (Eval(l), stack);
      assert [op][1..] == [];
  }

  /** How many values a postfix list leaves on a stack of `depth` values, or
      None when some operator finds fewer than two. */
  function StackDepth(tokens: seq<string>, depth: nat, isNumber: string -> bool): Option<nat>
    decreases |tokens|
  {
    if tokens == [] then Some(depth)
    else if isNumber(tokens[0]) then StackDepth(tokens[1..], depth + 1, isNumber)
    else if depth >= 2 then StackDepth(tokens[1..], depth - 1, isNumber)
    else None
  }

  /** A postfix list that never pops an empty stack ends with as many values
      as `StackDepth` counts: each number adds one, each operator removes one. */
  lemma {:induction false} RunDepth(tokens: seq<string>, stack: seq<Value>, isNumber: string -> bool)
    requires StackDepth(tokens, |stack|, isNumber).Some?
    ensures |Run(tokens, stack, isNumber)| == StackDepth(tokens, |stack|, isNumber).value
    decreases |tokens|
  {
    if tokens != [] {
      var next := EvalStep(stack, tokens[0], isNumber);
      EvalStepDepth(stack, tokens[0], isNumber);
      RunDepth(tokens[1..], next, isNumber);
    }
  }

  /** A number adds one value; an operator on two or more values leaves one fewer. */
  lemma EvalStepDepth(stack: seq<Value>, token: string, isNumber: string -> bool)
    ensures |EvalStep(stack, token, isNumber)| ==
      if isNumber(token) then |stack| + 1 else if |stack| >= 2 then |stack| - 1 else 1
  {
  }

  lemma {:induction false} PostOrderDepth(e: Expr, rest: seq<string>, depth: nat, isNumber: string -> bool)
    requires TokensRead(e, isNumber)
    ensures StackDepth(PostOrder(e) + rest, depth, isNumber) == StackDepth(rest, depth + 1, isNumber)
  {
    match e
    case Leaf(t) =>
      assert ([t] + rest)[1..] == rest;
    case Node(op, l, r) =>
      assert PostOrder(e) + rest == PostOrder(l) + (PostOrder(r) + ([op] + rest));
      PostOrderDepth(l, PostOrder(r) + ([op] + rest), depth, isNumber);
      PostOrderDepth(r, [op] + rest, depth + 1, isNumber);
      assert ([op] + rest)[1..] == rest;
  }

  /** The postfix list of a well-formed infix list never pops an empty stack
      and leaves exactly one value. */
  lemma PostfixLeavesOneValue(tokens: seq<string>, isNumber: string -> bool)
    requires WellFormedInfix(tokens, isNumber)
    ensures StackDepth(PostfixFields(tokens, isNumber), 0, isNumber) == Some(1)
    ensures |Run(PostfixFields(tokens, isNumber), [], isNumber)| == 1
  {
    PostfixIsPostOrder(tokens, isNumber);
    ParseTokensRead(tokens, isNumber);
    PostOrderLeavesOneValue(Parse(tokens), isNumber);
  }

  lemma PostOrderLeavesOneValue(e: Expr, isNumber: string -> bool)
    requires TokensRead(e, isNumber)
    ensures StackDepth(PostOrder(e), 0, isNumber) == Some(1)
    ensures |Run(PostOrder(e), [], isNumber)| == 1
  {
    var post := PostOrder(e);
    PostOrderDepth(e, [], 0, isNumber);
    assert post + [] == post;
    var empty: seq<Value> := [];
    RunDepth(post, empty, isNumber);
  }

  /** Converting a well-formed infix list to postfix and evaluating it gives
      the value of its tree. */
  lemma PostfixValueIsConventional(tokens: seq<string>, isNumber: string -> bool)
    requires WellFormedInfix(tokens, isNumber)
    ensures PostfixValue(PostfixFields(tokens, isNumber), isNumber) == Eval(Parse(tokens))
  {
    PostfixIsPostOrder(tokens, isNumber);
    ParseTokensRead(tokens, isNumber);
    RunPostOrder(Parse(tokens), [], isNumber);
    assert [] + [Eval(Parse(tokens))] == [Eval(Parse(tokens))];
  }

  /** `calculate` computes the conventional value of a well-formed infix
      expression: postfix conversion followed by postfix evaluation equals
      the value of the precedence-respecting, left-associative tree. */
  lemma CalculateIsConventional(expr: string, isNumber: string -> bool)
    requires WellFormedInfix(Split(expr), isNumber)
    ensures CalculateValue(expr, isNumber) == Eval(Parse(Split(expr)))
  {
    PostfixValueIsConventional(Split(expr), isNumber);
  }
}
