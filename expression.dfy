/** The expression tree of a pipeline step, its two capabilities (Num and
    Bool), its evaluation at an integer, its polynomial normal form and its
    printed form. */
module Expressions {
  import opened Outcomes
  import opened Polynomials
  import PolynomialFacts

  /** The operator of a `BinaryOperator` node, with the name it prints. */
  datatype Op = Add | Sub | Mul | Greater | Less | Equal | Conj | Disj {
    predicate IsArithmetic() {
      this == Add || this == Sub || this == Mul
    }

    predicate IsLogical() {
      this == Conj || this == Disj
    }

    function Name(): string {
      match this
      case Add => "+"
      case Sub => "-"
      case Mul => "*"
      case Greater => ">"
      case Less => "<"
      case Equal => "="
      case Conj => "&"
      case Disj => "|"
    }
  }

  /** `Const` keeps the digit string it was written with; `GtPoly(p)` and
      `EqPoly(p)` are the normalised atoms p > 0 and p = 0. */
  datatype Expr =
    | Const(number: string)
    | Element
    | Bin(op: Op, l: Expr, r: Expr)
    | GtPoly(poly: seq<int>)
    | EqPoly(poly: seq<int>)

  /** The Num capability: constants, `element`, `+ - *`. */
  predicate IsNum(e: Expr) {
    e.Const? || e.Element? || (e.Bin? && e.op.IsArithmetic())
  }

  /** The Bool capability: comparisons, `& |` and the normalised atoms. */
  predicate IsBool(e: Expr) {
    e.GtPoly? || e.EqPoly? || (e.Bin? && !e.op.IsArithmetic())
  }

  /** Every operand has the capability its operator's declared field type demands. */
  predicate WellTyped(e: Expr) {
    match e
    case Bin(op, l, r) =>
      (if op.IsLogical() then IsBool(l) && IsBool(r) else IsNum(l) && IsNum(r)) &&
      WellTyped(l) && WellTyped(r)
    case _ => true
  }

  /** Built only from the node kinds that text can denote (no normalised atoms). */
  predicate NoAtoms(e: Expr) {
    match e
    case GtPoly(_) => false
    case EqPoly(_) => false
    case Bin(_, l, r) => NoAtoms(l) && NoAtoms(r)
    case _ => true
  }

  /** The sentinels: TRUE is (1=1) and FALSE is (1=0). */
  const TRUE: Expr := Bin(Equal, Const("1"), Const("1"))
  const FALSE: Expr := Bin(Equal, Const("1"), Const("0"))

  // ---------------------------------------------------------------------
  // Numerals

  predicate IsDigit(c: char) {
    '0' <= c <= '9'
  }

  predicate AllDigits(s: string) {
    forall i :: 0 <= i < |s| ==> IsDigit(s[i])
  }

  function DigitsValue(s: string): nat
    requires AllDigits(s)
  {
    if |s| == 0 then 0 else DigitsValue(s[..|s| - 1]) * 10 + (s[|s| - 1] as int - '0' as int)
  }

  /** What `toBigInteger` reads: an optional sign and one or more decimal digits. */
  function NumeralValue(s: string): Result<int> {
    if |s| > 0 && (s[0] == '-' || s[0] == '+') then
      if |s| > 1 && AllDigits(s[1..]) then
        var magnitude: int := DigitsValue(s[1..]);
        Ok(if s[0] == '-' then -magnitude else magnitude)
      else Err(NumberFormat)
    else if |s| > 0 && AllDigits(s) then Ok(DigitsValue(s))
    else Err(NumberFormat)
  }

  // ---------------------------------------------------------------------
  // Evaluation with `element` bound to x

  /** The value of a Num expression; a numeral BigInteger cannot read and a
      Bool node have no value in the source and evaluate to 0 here. */
  function EvalNum(e: Expr, x: int): int {
    match e
    case Const(s) => (match NumeralValue(s) case Ok(v) => v case Err(_) => 0)
    case Element => x
    case Bin(op, l, r) =>
      (match op
       case Add => EvalNum(l, x) + EvalNum(r, x)
       case Sub => EvalNum(l, x) - EvalNum(r, x)
       case Mul => EvalNum(l, x) * EvalNum(r, x)
       case _ => 0)
    case _ => 0
  }

  /** The truth of a Bool expression; Num nodes are false. */
  function EvalBool(e: Expr, x: int): bool {
    match e
    case GtPoly(p) => EvalPoly(p, x) > 0
    case EqPoly(p) => EvalPoly(p, x) == 0
    case Bin(op, l, r) =>
      (match op
       case Greater => EvalNum(l, x) > EvalNum(r, x)
       case Less => EvalNum(l, x) < EvalNum(r, x)
       case Equal => EvalNum(l, x) == EvalNum(r, x)
       case Conj => EvalBool(l, x) && EvalBool(r, x)
       case Disj => EvalBool(l, x) || EvalBool(r, x)
       case _ => false)
    case _ => false
  }

  lemma SentinelsEval(x: int)
    ensures EvalBool(TRUE, x) && !EvalBool(FALSE, x)
  {
    assert NumeralValue("1") == Ok(1) by {
      assert "1"[..0] == "";
    }
    assert NumeralValue("0") == Ok(0) by {
      assert "0"[..0] == "";
    }
  }

  // ---------------------------------------------------------------------
  // Polynomial normal form

  /** `toPolynomial`: element is [0, 1], a constant k is [k], and `+ - *`
      combine the operands' polynomials with plus, minus and times. */
  function ToPolynomial(e: Expr): Result<seq<int>>
    requires IsNum(e) && WellTyped(e)
  {
    match e
    case Const(s) =>
      var v :- NumeralValue(s);
      Ok(Monomial(v, 0))
    case Element => Ok(Monomial(1, 1))
    case Bin(op, l, r) =>
      var lp :- ToPolynomial(l);
      var rp :- ToPolynomial(r);
      if op == Add then Sum(lp, rp)
      else if op == Sub then Difference(lp, rp)
      else Product(lp, rp)
  }

  /** The leaves: element maps to [0, 1], and a constant to [k] or, when its
      digit string is not a numeral, to a number-format failure. */
  lemma ToPolynomialLeaves(s: string)
    ensures ToPolynomial(Element) == Ok([0, 1])
    ensures NumeralValue(s).Ok? ==> ToPolynomial(Const(s)) == Ok([NumeralValue(s).value])
    ensures NumeralValue(s).Err? ==> ToPolynomial(Const(s)) == Err(NumberFormat)
  {
    assert Monomial(1, 1) == [0, 1];
    if NumeralValue(s).Ok? {
      assert Monomial(NumeralValue(s).value, 0) == [NumeralValue(s).value];
    }
  }

  /** The normal form denotes the expression: it evaluates to the same value at every x. */
  lemma {:induction false} ToPolynomialSound(e: Expr, x: int)
    requires IsNum(e) && WellTyped(e) && ToPolynomial(e).Ok?
    ensures EvalPoly(ToPolynomial(e).value, x) == EvalNum(e, x)
  {
    match e
    case Const(s) =>
      PolynomialFacts.MonomialEval(NumeralValue(s).value, 0, x);
    case Element =>
      PolynomialFacts.MonomialEval(1, 1, x);
    case Bin(op, l, r) =>
      ToPolynomialSound(l, x);
      ToPolynomialSound(r, x);
      var lp, rp := ToPolynomial(l).value, ToPolynomial(r).value;
      if op == Add {
        PolynomialFacts.SumCorrect(lp, rp);
      } else if op == Sub {
        PolynomialFacts.DifferenceCorrect(lp, rp);
      } else {
        PolynomialFacts.ProductEval(lp, rp, x);
      }
  }

  // ---------------------------------------------------------------------
  // Printing

  /** `toString`: a constant prints its digit string, `element` its name, and
      a binary node "(" left name right ")". */
  function ToString(e: Expr): string
    requires NoAtoms(e)
  {
    match e
    case Const(s) => s
    case Element => "element"
    case Bin(op, l, r) => "(" + ToString(l) + op.Name() + ToString(r) + ")"
  }
}
