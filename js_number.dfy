/** The part of JavaScript's number semantics that the calculator relies on:
    number values, the four arithmetic operators, the string-to-number
    conversion `Number(s)`, truthiness, comparison with a constant,
    `Math.abs` and `Math.round`.

    Finite doubles are modelled as exact reals: there is no rounding, no
    overflow to infinity and no negative zero. The three non-finite values
    are kept, with the IEEE 754 rules for them. */
module JsNumber {

  import opened JsString

  datatype Option<T> = None | Some(value: T)

  /** A JavaScript number. */
  datatype Value = Finite(r: real) | PosInf | NegInf | NaN

  /** Boolean coercion `if (v)`: zero and NaN are falsy, all else is truthy. */
  predicate Truthy(v: Value) {
    match v
    case Finite(x) => x != 0.0
    case NaN => false
    case _ => true
  }

  /** -1, 0 or 1; NaN counts as 0. */
  function Sign(v: Value): int {
    match v
    case Finite(x) => if x > 0.0 then 1 else if x < 0.0 then -1 else 0
    case PosInf => 1
    case NegInf => -1
    case NaN => 0
  }

  function InfinityWithSign(s: int): Value {
    if s >= 0 then PosInf else NegInf
  }

  /** Unary minus. */
  function Neg(v: Value): Value {
    match v
    case Finite(x) => Finite(-x)
    case PosInf => NegInf
    case NegInf => PosInf
    case NaN => NaN
  }

  /** `a + b` on numbers. */
  function Add(a: Value, b: Value): Value {
    if a.NaN? || b.NaN? then NaN
    else if a.Finite? && b.Finite? then Finite(a.r + b.r)
    else if a.Finite? then b
    else if b.Finite? || a == b then a
    else NaN  // Infinity + -Infinity
  }

  /** `a - b`, which IEEE 754 defines as `a + (-b)`. */
  function Sub(a: Value, b: Value): Value {
    Add(a, Neg(b))
  }

  /** `a * b`. */
  function Mul(a: Value, b: Value): Value {
    if a.NaN? || b.NaN? then NaN
    else if a.Finite? && b.Finite? then Finite(a.r * b.r)
    else if Sign(a) == 0 || Sign(b) == 0 then NaN  // 0 * Infinity
    else InfinityWithSign(Sign(a) * Sign(b))
  }

  /** `a / b`; a zero divisor is taken to be +0. */
  function Div(a: Value, b: Value): Value {
    if a.NaN? || b.NaN? then NaN
    else if a.Finite? && b.Finite? then
      if b.r != 0.0 then Finite(a.r / b.r)
      else if a.r == 0.0 then NaN
      else InfinityWithSign(Sign(a))
    else if !a.Finite? && !b.Finite? then NaN  // Infinity / Infinity
    else if a.Finite? then Finite(0.0)         // finite / Infinity
    else InfinityWithSign(Sign(a) * (if Sign(b) == 0 then 1 else Sign(b)))
  }

  /** `v > c` for a number `v` and a finite constant `c`. */
  predicate GreaterThan(v: Value, c: real) {
    match v
    case Finite(x) => x > c
    case PosInf => true
    case _ => false
  }

  /** `Math.abs(v)`. */
  function Abs(v: Value): (r: Value)
    ensures !GreaterThan(Neg(r), 0.0)
    ensures r == v || r == Neg(v)
  {
    match v
    case Finite(x) => Finite(if x < 0.0 then -x else x)
    case NaN => NaN
    case _ => PosInf
  }

  /** The sign flip of the calculator's +/- key: `v > 0 ? -Math.abs(v) : Math.abs(v)`.
      Without negative zero this is exactly unary minus, so it is an involution. */
  function FlipSign(v: Value): (r: Value)
    ensures r == Neg(v)
    ensures Neg(r) == v
  {
    if GreaterThan(v, 0.0) then Neg(Abs(v)) else Abs(v)
  }

  /** `Math.round(v)`: the nearest integer, halves rounded up. */
  function Round(v: Value): (r: Value)
    ensures v.Finite? <==> r.Finite?
    ensures v.Finite? ==> r.r == r.r.Floor as real && v.r - 0.5 < r.r <= v.r + 0.5
    ensures !v.Finite? ==> r == v
  {
    match v
    case Finite(x) => Finite((x + 0.5).Floor as real)
    case _ => v
  }

  /** `Math.round(v * 10000000) / 10000000`: `v` rounded to seven decimal places. */
  function Round7(v: Value): (r: Value)
    ensures v.Finite? <==> r.Finite?
    ensures v.Finite? ==> v.r - 0.00000005 < r.r <= v.r + 0.00000005
    ensures v.Finite? ==> (r.r * 10000000.0) == (r.r * 10000000.0).Floor as real
    ensures !v.Finite? ==> r == v
  {
    Div(Round(Mul(v, Finite(10000000.0))), Finite(10000000.0))
  }

  // ---------------------------------------------------------------------------
  // Number(s): the StringToNumber conversion
  // ---------------------------------------------------------------------------

  /** The white space and line terminators that `Number(s)` trims. */
  predicate IsJsWhitespace(c: char) {
    c == '\t' || c == '\n' || c == '\U{B}' || c == '\U{C}' || c == '\r' || c == ' '
    || c == '\U{A0}' || c == '\U{1680}' || ('\U{2000}' <= c <= '\U{200A}')
    || c == '\U{2028}' || c == '\U{2029}' || c == '\U{202F}' || c == '\U{205F}'
    || c == '\U{3000}' || c == '\U{FEFF}'
  }

  function TrimStart(s: string): (t: string)
    ensures |t| <= |s| && t == s[|s| - |t|..]
    ensures t != [] ==> !IsJsWhitespace(t[0])
  {
    if s != [] && IsJsWhitespace(s[0]) then TrimStart(s[1..]) else s
  }

  function TrimEnd(s: string): (t: string)
    ensures |t| <= |s| && t == s[..|t|]
    ensures t != [] ==> !IsJsWhitespace(t[|t| - 1])
  {
    if s != [] && IsJsWhitespace(s[|s| - 1]) then TrimEnd(s[..|s| - 1]) else s
  }

  function Trim(s: string): string {
    TrimEnd(TrimStart(s))
  }

  predicate IsDigit(c: char) {
    '0' <= c <= '9'
  }

  predicate AllDigits(s: string) {
    forall i :: 0 <= i < |s| ==> IsDigit(s[i])
  }

  /** The value of a string of decimal digits. */
  function DigitsValue(s: string): nat
    requires AllDigits(s)
  {
    if s == [] then 0 else DigitsValue(s[..|s| - 1]) * 10 + (s[|s| - 1] as int - '0' as int)
  }

  function Pow10(n: nat): (p: nat)
    ensures p >= 1
  {
    if n == 0 then 1 else 10 * Pow10(n - 1)
  }

  /** The mantissa of a decimal literal: digits with at most one point and
      at least one digit (`"12"`, `"1.5"`, `"1."`, `".5"`). */
  function Mantissa(m: string): Option<real> {
    var i := Find(m, '.');
    if i == |m| then
      if m != [] && AllDigits(m) then Some(DigitsValue(m) as real) else None
    else
      var whole, fraction := m[..i], m[i + 1..];
      if AllDigits(whole) && AllDigits(fraction) && |whole| + |fraction| > 0 then
        Some(DigitsValue(whole) as real + DigitsValue(fraction) as real / Pow10(|fraction|) as real)
      else None
  }

  /** The exponent of a decimal literal, after its `e` or `E`. */
  function Exponent(x: string): Option<int> {
    if x != [] && (x[0] == '+' || x[0] == '-') then
      if |x| > 1 && AllDigits(x[1..]) then
        var n: int := DigitsValue(x[1..]);
        Some(if x[0] == '-' then -n else n)
      else None
    else if x != [] && AllDigits(x) then Some(DigitsValue(x))
    else None
  }

  function Scale(m: real, e: int): real {
    if e >= 0 then m * Pow10(e) as real else m / Pow10(-e) as real
  }

  /** An unsigned decimal literal with an optional exponent. */
  function UnsignedDecimal(t: string): Option<real> {
    var j := if Find(t, 'e') < Find(t, 'E') then Find(t, 'e') else Find(t, 'E');
    if j == |t| then Mantissa(t)
    else
      match (Mantissa(t[..j]), Exponent(t[j + 1..]))
      case (Some(m), Some(e)) => Some(Scale(m, e))
      case _ => None
  }

  function Unsigned(t: string): Value {
    if t == "Infinity" then PosInf
    else match UnsignedDecimal(t)
      case Some(x) => Finite(x)
      case None => NaN
  }

  /** `Number(s)` for a string `s`. */
  function ToNumber(s: string): Value {
    TrimmedToNumber(Trim(s))
  }

  /** `Number(s)` once white space is trimmed: empty is zero, and a sign may
      precede an unsigned literal. */
  function TrimmedToNumber(t: string): Value {
    if t == "" then Finite(0.0)
    else if t[0] == '-' then Neg(Unsigned(t[1..]))
    else if t[0] == '+' then Unsigned(t[1..])
    else Unsigned(t)
  }

  /** A string of decimal digits converts to its value. */
  lemma {:induction false} DigitsToNumber(s: string)
    requires s != [] && AllDigits(s)
    ensures ToNumber(s) == Finite(DigitsValue(s) as real)
  {
    assert !IsJsWhitespace(s[0]) && !IsJsWhitespace(s[|s| - 1]);
    assert TrimStart(s) == s;
    assert TrimEnd(s) == s;
    assert Find(s, '.') == |s| by { NotFound(s, '.'); }
    assert Find(s, 'e') == |s| by { NotFound(s, 'e'); }
    assert Find(s, 'E') == |s| by { NotFound(s, 'E'); }
    assert s != "Infinity" by { assert !IsDigit(s[0]) || s[0] != 'I'; }
  }

  lemma {:induction false} NotFound(s: string, c: char)
    requires AllDigits(s) && !IsDigit(c)
    ensures Find(s, c) == |s|
  {
    if s != [] {
      assert AllDigits(s[1..]) by { assert forall i :: 0 <= i < |s| - 1 ==> s[1..][i] == s[i + 1]; }
      NotFound(s[1..], c);
    }
  }

  /** A one-character string converts to a truthy number exactly when it is
      a nonzero digit. */
  lemma SingleCharacterTruthy(c: char)
    ensures Truthy(ToNumber([c])) <==> '1' <= c <= '9'
  {
    if IsDigit(c) {
      DigitCharacter(c);
    } else if IsJsWhitespace(c) {
      WhitespaceCharacter(c);
    } else {
      OtherCharacterIsNaN(c);
    }
  }

  lemma DigitCharacter(c: char)
    requires IsDigit(c)
    ensures ToNumber([c]) == Finite(DigitsValue([c]) as real)
    ensures DigitsValue([c]) == c as int - '0' as int
  {
    DigitsToNumber([c]);
    SingleDigitValue(c);
  }

  lemma SingleDigitValue(c: char)
    requires IsDigit(c)
    ensures DigitsValue([c]) == c as int - '0' as int
  {
    assert [c][..0] == [];
  }

  lemma WhitespaceCharacter(c: char)
    requires IsJsWhitespace(c)
    ensures ToNumber([c]) == Finite(0.0)
  {
    assert [c][1..] == [];
    assert TrimStart([c]) == TrimStart([]);
  }

  lemma NonWhitespaceCharacter(c: char)
    requires !IsJsWhitespace(c)
    ensures Trim([c]) == [c]
  {
    var s := [c];
    assert s[0] == c && s[|s| - 1] == c;
    assert TrimStart(s) == s;
    assert TrimEnd(s) == s;
  }

  /** A character that is neither a digit nor white space is not a number:
      `Number("+")` and `Number("x")` are NaN. */
  lemma OtherCharacterIsNaN(c: char)
    requires !IsDigit(c) && !IsJsWhitespace(c)
    ensures ToNumber([c]) == NaN
  {
    NonDigitIsNaN(c);
    assert TrimmedToNumber([c]) == NaN;
    NonWhitespaceCharacter(c);
  }

  lemma NonDigitIsNaN(c: char)
    requires !IsDigit(c) && !IsJsWhitespace(c)
    ensures Unsigned([c]) == NaN
    ensures c == '-' || c == '+' ==> Unsigned([c][1..]) == NaN
  {
    assert [c][1..] == "" && [c][..0] == "";
    assert Find("", '.') == 0 && Find("", 'e') == 0 && Find("", 'E') == 0;
    assert UnsignedDecimal("") == None;
    assert [c] != "Infinity";
    assert !AllDigits([c]) by { assert !IsDigit([c][0]); }
    assert Find([c], '.') == (if c == '.' then 0 else 1);
    assert Find([c], 'e') == (if c == 'e' then 0 else 1);
    assert Find([c], 'E') == (if c == 'E' then 0 else 1);
  }
}
