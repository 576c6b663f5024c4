/** The Boolean simplifier: comparisons are normalised to the atoms p > 0 and
    p = 0, atoms of degree 0 or less are decided, and conjunctions and
    disjunctions apply identity, absorption, duplicate and sign-negation rules.

    `orSignRule` selects whether a disjunction of p > 0 and -p > 0 is
    rewritten to TRUE (as the source does) or left alone (the corrected
    simplifier): the rewrite is wrong wherever p evaluates to 0. */
module Simplifier {
  import opened Outcomes
  import opened Polynomials
  import opened Expressions
  import PolynomialFacts

  /** `GtPoly.simplify`. */
  function SimplifyGtPoly(p: seq<int>): (r: Expr)
    ensures IsBool(r) && WellTyped(r)
  {
    var d := Degree(p);
    if d == -1 then FALSE
    else if d == 0 then (if p[0] > 0 then TRUE else FALSE)
    else GtPoly(p)
  }

  /** `EqPoly.simplify`. */
  function SimplifyEqPoly(p: seq<int>): (r: Expr)
    ensures IsBool(r) && WellTyped(r)
  {
    var d := Degree(p);
    if d == -1 then TRUE
    else if d == 0 then (if p[0] == 0 then TRUE else FALSE)
    else EqPoly(p)
  }

  /** The rule chain of `And.simplify` applied to the simplified operands. */
  function CombineAnd(sl: Expr, sr: Expr): (r: Expr)
    requires IsBool(sl) && WellTyped(sl) && IsBool(sr) && WellTyped(sr)
    ensures IsBool(r) && WellTyped(r)
  {
    if sl == FALSE || sr == FALSE then FALSE
    else if sl == TRUE then sr
    else if sr == TRUE then sl
    else if sl == sr then sr
    else AndPair(sl, sr)
  }

  /** The last rules of `And.simplify`, on two atoms of the same kind. */
  function AndPair(sl: Expr, sr: Expr): (r: Expr)
    requires IsBool(sl) && WellTyped(sl) && IsBool(sr) && WellTyped(sr)
    ensures IsBool(r) && WellTyped(r)
  {
    if sl.GtPoly? && sr.GtPoly? then
      if Negated(sl.poly, sr.poly) then FALSE
      else if SameCoefficients(sl.poly, sr.poly) then sl
      else Bin(Conj, sl, sr)
    else if sl.EqPoly? && sr.EqPoly? then
      if Negated(sl.poly, sr.poly) || SameCoefficients(sl.poly, sr.poly) then sl
      else Bin(Conj, sl, sr)
    else Bin(Conj, sl, sr)
  }

  /** The rule chain of `Or.simplify` applied to the simplified operands. */
  function CombineOr(sl: Expr, sr: Expr, orSignRule: bool): (r: Expr)
    requires IsBool(sl) && WellTyped(sl) && IsBool(sr) && WellTyped(sr)
    ensures IsBool(r) && WellTyped(r)
  {
    if sl == FALSE then sr
    else if sr == FALSE then sl
    else if sl == TRUE || sr == TRUE then TRUE
    else if sl == sr then sr
    else OrPair(sl, sr, orSignRule)
  }

  /** The last rules of `Or.simplify`, on two atoms of the same kind. */
  function OrPair(sl: Expr, sr: Expr, orSignRule: bool): (r: Expr)
    requires IsBool(sl) && WellTyped(sl) && IsBool(sr) && WellTyped(sr)
    ensures IsBool(r) && WellTyped(r)
  {
    if sl.GtPoly? && sr.GtPoly? then
      if orSignRule && Negated(sl.poly, sr.poly) then TRUE
      else if SameCoefficients(sl.poly, sr.poly) then sl
      else Bin(Disj, sl, sr)
    else if sl.EqPoly? && sr.EqPoly? then
      if Negated(sl.poly, sr.poly) || SameCoefficients(sl.poly, sr.poly) then sl
      else Bin(Disj, sl, sr)
    else Bin(Disj, sl, sr)
  }

  /** `simplify` on a Bool expression. Normalising a comparison fails when its
      operands' polynomials fail (an unreadable numeral, or a difference of two
      polynomials of degree -1). */
  function Simplify(b: Expr, orSignRule: bool): (r: Result<Expr>)
    requires IsBool(b) && WellTyped(b)
    ensures r.Ok? ==> IsBool(r.value) && WellTyped(r.value)
  {
    match b
    case GtPoly(p) => Ok(SimplifyGtPoly(p))
    case EqPoly(p) => Ok(SimplifyEqPoly(p))
    case Bin(op, l, r) =>
      if op == Greater then
        var p :- ToPolynomial(Bin(Sub, l, r));
        Ok(SimplifyGtPoly(p))
      else if op == Less then
        var p :- ToPolynomial(Bin(Sub, r, l));
        Ok(SimplifyGtPoly(p))
      else if op == Equal then
        var p :- ToPolynomial(Bin(Sub, l, r));
        Ok(SimplifyEqPoly(p))
      else
        var sl :- Simplify(l, orSignRule);
        var sr :- Simplify(r, orSignRule);
        if op == Conj then Ok(CombineAnd(sl, sr)) else Ok(CombineOr(sl, sr, orSignRule))
  }

  // ---------------------------------------------------------------------
  // Meaning of the atom rules

  /** A p > 0 atom keeps its truth value at every x; it is decided to a
      sentinel exactly when its degree is at most 0, and kept otherwise. */
  lemma SimplifyGtPolyMeaning(p: seq<int>, x: int)
    ensures EvalBool(SimplifyGtPoly(p), x) == (EvalPoly(p, x) > 0)
    ensures Degree(p) <= 0 ==> SimplifyGtPoly(p) == TRUE || SimplifyGtPoly(p) == FALSE
    ensures Degree(p) > 0 ==> SimplifyGtPoly(p) == GtPoly(p)
  {
    SentinelsEval(x);
    if Degree(p) <= 0 {
      PolynomialFacts.ConstantEval(p, x);
    }
  }

  /** A p = 0 atom keeps its truth value at every x; it is decided to a
      sentinel exactly when its degree is at most 0, and kept otherwise. */
  lemma SimplifyEqPolyMeaning(p: seq<int>, x: int)
    ensures EvalBool(SimplifyEqPoly(p), x) == (EvalPoly(p, x) == 0)
    ensures Degree(p) <= 0 ==> SimplifyEqPoly(p) == TRUE || SimplifyEqPoly(p) == FALSE
    ensures Degree(p) > 0 ==> SimplifyEqPoly(p) == EqPoly(p)
  {
    SentinelsEval(x);
    if Degree(p) <= 0 {
      PolynomialFacts.ConstantEval(p, x);
    }
  }

  // ---------------------------------------------------------------------
  // Meaning of the connective rules

  /** Every rule of `And.simplify` preserves the conjunction's truth value. */
  lemma CombineAndMeaning(sl: Expr, sr: Expr, x: int)
    requires IsBool(sl) && WellTyped(sl) && IsBool(sr) && WellTyped(sr)
    ensures EvalBool(CombineAnd(sl, sr), x) == (EvalBool(sl, x) && EvalBool(sr, x))
  {
    SentinelsEval(x);
    if PastSentinels(sl, sr) {
      AndPairMeaning(sl, sr, x);
    }
  }

  lemma AndPairMeaning(sl: Expr, sr: Expr, x: int)
    requires IsBool(sl) && WellTyped(sl) && IsBool(sr) && WellTyped(sr)
    ensures EvalBool(AndPair(sl, sr), x) == (EvalBool(sl, x) && EvalBool(sr, x))
  {
    SentinelsEval(x);
    if (sl.GtPoly? && sr.GtPoly?) || (sl.EqPoly? && sr.EqPoly?) {
      PairFacts(sl.poly, sr.poly, x);
    }
  }

  /** What the pair rules' two tests say about the values of p and q. */
  lemma PairFacts(p: seq<int>, q: seq<int>, x: int)
    ensures Negated(p, q) ==> EvalPoly(p, x) == -EvalPoly(q, x)
    ensures SameCoefficients(p, q) ==> EvalPoly(p, x) == EvalPoly(q, x)
  {
    if Negated(p, q) {
      PolynomialFacts.NegatedEval(p, q, x);
    }
    if SameCoefficients(p, q) {
      PolynomialFacts.SameCoefficientsEval(p, q, x);
    }
  }

  /** The rules of `Or.simplify` never lose a true disjunction, and without
      the sign rule they preserve its truth value exactly. */
  lemma CombineOrMeaning(sl: Expr, sr: Expr, orSignRule: bool, x: int)
    requires IsBool(sl) && WellTyped(sl) && IsBool(sr) && WellTyped(sr)
    ensures EvalBool(sl, x) || EvalBool(sr, x) ==> EvalBool(CombineOr(sl, sr, orSignRule), x)
    ensures !orSignRule ==> EvalBool(CombineOr(sl, sr, orSignRule), x) == (EvalBool(sl, x) || EvalBool(sr, x))
  {
    SentinelsEval(x);
    if PastSentinels(sl, sr) {
      OrPairMeaning(sl, sr, orSignRule, x);
    }
  }

  lemma OrPairMeaning(sl: Expr, sr: Expr, orSignRule: bool, x: int)
    requires IsBool(sl) && WellTyped(sl) && IsBool(sr) && WellTyped(sr)
    ensures EvalBool(sl, x) || EvalBool(sr, x) ==> EvalBool(OrPair(sl, sr, orSignRule), x)
    ensures !orSignRule ==> EvalBool(OrPair(sl, sr, orSignRule), x) == (EvalBool(sl, x) || EvalBool(sr, x))
  {
    SentinelsEval(x);
    if (sl.GtPoly? && sr.GtPoly?) || (sl.EqPoly? && sr.EqPoly?) {
      PairFacts(sl.poly, sr.poly, x);
    }
  }

  // ---------------------------------------------------------------------
  // Soundness and idempotence of the whole simplifier

  /** Simplifying never turns a true condition false; the corrected
      simplifier preserves the truth value at every x. */
  lemma {:induction false} SimplifySound(b: Expr, orSignRule: bool, x: int)
    requires IsBool(b) && WellTyped(b) && Simplify(b, orSignRule).Ok?
    ensures EvalBool(b, x) ==> EvalBool(Simplify(b, orSignRule).value, x)
    ensures !orSignRule ==> EvalBool(Simplify(b, orSignRule).value, x) == EvalBool(b, x)
  {
    match b
    case GtPoly(p) => SimplifyGtPolyMeaning(p, x);
    case EqPoly(p) => SimplifyEqPolyMeaning(p, x);
    case Bin(op, l, r) =>
      if op.IsLogical() {
        assert Simplify(l, orSignRule).Ok? && Simplify(r, orSignRule).Ok?;
        SimplifySound(l, orSignRule, x);
        SimplifySound(r, orSignRule, x);
        var sl, sr := Simplify(l, orSignRule).value, Simplify(r, orSignRule).value;
        SimplifyConnective(op, l, r, orSignRule);
        if op == Conj {
          CombineAndMeaning(sl, sr, x);
        } else {
          CombineOrMeaning(sl, sr, orSignRule, x);
        }
      } else {
        ComparisonSound(b, orSignRule, x);
      }
  }

  /** A comparison is replaced by the decided polynomial atom of l - r
      (r - l for `<`), with the same truth value. */
  lemma ComparisonSound(b: Expr, orSignRule: bool, x: int)
    requires b.Bin? && !b.op.IsLogical() && IsBool(b) && WellTyped(b) && Simplify(b, orSignRule).Ok?
    ensures b.op == Greater ==>
              ToPolynomial(Bin(Sub, b.l, b.r)).Ok? &&
              Simplify(b, orSignRule).value == SimplifyGtPoly(ToPolynomial(Bin(Sub, b.l, b.r)).value)
    ensures b.op == Less ==>
              ToPolynomial(Bin(Sub, b.r, b.l)).Ok? &&
              Simplify(b, orSignRule).value == SimplifyGtPoly(ToPolynomial(Bin(Sub, b.r, b.l)).value)
    ensures b.op == Equal ==>
              ToPolynomial(Bin(Sub, b.l, b.r)).Ok? &&
              Simplify(b, orSignRule).value == SimplifyEqPoly(ToPolynomial(Bin(Sub, b.l, b.r)).value)
    ensures EvalBool(Simplify(b, orSignRule).value, x) == EvalBool(b, x)
  {
    var l, r := b.l, b.r;
    if b.op == Less {
      var p := ToPolynomial(Bin(Sub, r, l)).value;
      ToPolynomialSound(Bin(Sub, r, l), x);
      SimplifyGtPolyMeaning(p, x);
    } else {
      var p := ToPolynomial(Bin(Sub, l, r)).value;
      ToPolynomialSound(Bin(Sub, l, r), x);
      if b.op == Greater {
        SimplifyGtPolyMeaning(p, x);
      } else {
        SimplifyEqPolyMeaning(p, x);
      }
    }
  }

  /** The sentinels are fixed points: TRUE is (1-1) = 0 and FALSE is (1-0) = 0. */
  lemma SentinelsFixed(orSignRule: bool)
    ensures Simplify(TRUE, orSignRule) == Ok(TRUE)
    ensures Simplify(FALSE, orSignRule) == Ok(FALSE)
  {
    ToPolynomialLeaves("1");
    ToPolynomialLeaves("0");
    assert NumeralValue("1") == Ok(1) by {
      assert "1"[..0] == "";
    }
    assert NumeralValue("0") == Ok(0) by {
      assert "0"[..0] == "";
    }
    ConstantDifferences();
  }

  /** The zero literal's polynomial has degree -1 here, as `degree()` would
      give it if it compared by value, so a comparison of two zero literals
      fails when its difference is formed; against `element` the difference
      has degree 1 and the comparison is kept as an atom. */
  lemma ZeroLiteralComparison(orSignRule: bool)
    ensures Simplify(Bin(Equal, Const("0"), Const("0")), orSignRule) == Err(SizeError)
    ensures Simplify(Bin(Greater, Const("0"), Const("0")), orSignRule) == Err(SizeError)
    ensures Simplify(Bin(Greater, Element, Const("0")), orSignRule) == Ok(GtPoly([0, 1]))
  {
    ToPolynomialLeaves("0");
    assert NumeralValue("0") == Ok(0) by {
      assert "0"[..0] == "";
    }
    ConstantDifferences();
  }

  /** The differences of the constant polynomials met by the sentinels and by
      (element>0)|(element<0). */
  lemma ConstantDifferences()
    ensures Difference([1], [1]) == Ok([0])
    ensures Difference([1], [0]) == Ok([1])
    ensures Difference([0, 1], [0]) == Ok([0, 1])
    ensures Difference([0], [0, 1]) == Ok([0, -1])
    ensures Degree([0]) == -1 && Degree([1]) == 0
    ensures Degree([0, 1]) == 1 && Degree([0, -1]) == 1
  {
    assert [0][..0] == [];
    assert Degree([0]) == -1;
    var d1 := Difference([1], [1]).value;
    assert |d1| == 1 && d1[0] == 0;
    assert d1 == [0];
    var d2 := Difference([1], [0]).value;
    assert |d2| == 1 && d2[0] == 1;
    assert d2 == [1];
    var d3 := Difference([0, 1], [0]).value;
    assert |d3| == 2 && d3[0] == 0 && d3[1] == 1;
    assert d3 == [0, 1];
    var d4 := Difference([0], [0, 1]).value;
    assert |d4| == 2 && d4[0] == 0 && d4[1] == -1;
    assert d4 == [0, -1];
  }

  /** Simplifying a simplified condition changes nothing. */
  lemma {:induction false} SimplifyIdempotent(b: Expr, orSignRule: bool)
    requires IsBool(b) && WellTyped(b) && Simplify(b, orSignRule).Ok?
    ensures Simplify(Simplify(b, orSignRule).value, orSignRule) == Simplify(b, orSignRule)
  {
    match b
    case GtPoly(p) => AtomsFixed(p, orSignRule);
    case EqPoly(p) => AtomsFixed(p, orSignRule);
    case Bin(op, l, r) =>
      if op.IsLogical() {
        SimplifyIdempotent(l, orSignRule);
        SimplifyIdempotent(r, orSignRule);
        var sl, sr := Simplify(l, orSignRule).value, Simplify(r, orSignRule).value;
        CombineFixed(op, sl, sr, orSignRule);
      } else if op == Less {
        AtomsFixed(ToPolynomial(Bin(Sub, r, l)).value, orSignRule);
      } else {
        AtomsFixed(ToPolynomial(Bin(Sub, l, r)).value, orSignRule);
      }
  }

  /** A simplified atom is a fixed point. */
  lemma AtomsFixed(p: seq<int>, orSignRule: bool)
    ensures Simplify(SimplifyGtPoly(p), orSignRule) == Ok(SimplifyGtPoly(p))
    ensures Simplify(SimplifyEqPoly(p), orSignRule) == Ok(SimplifyEqPoly(p))
  {
    SentinelsFixed(orSignRule);
  }

  /** Combining two fixed points gives a fixed point. */
  lemma CombineFixed(op: Op, sl: Expr, sr: Expr, orSignRule: bool)
    requires op.IsLogical()
    requires IsBool(sl) && WellTyped(sl) && IsBool(sr) && WellTyped(sr)
    requires Simplify(sl, orSignRule) == Ok(sl) && Simplify(sr, orSignRule) == Ok(sr)
    ensures op == Conj ==> Simplify(CombineAnd(sl, sr), orSignRule) == Ok(CombineAnd(sl, sr))
    ensures op == Disj ==> Simplify(CombineOr(sl, sr, orSignRule), orSignRule) == Ok(CombineOr(sl, sr, orSignRule))
  {
    SentinelsFixed(orSignRule);
    if PastSentinels(sl, sr) {
      if op == Conj {
        AndPairFixed(sl, sr, orSignRule);
      } else {
        OrPairFixed(sl, sr, orSignRule);
      }
    }
  }

  /** The guards before the pair rules. */
  predicate PastSentinels(sl: Expr, sr: Expr) {
    sl != FALSE && sr != FALSE && sl != TRUE && sr != TRUE && sl != sr
  }

  lemma AndPairFixed(sl: Expr, sr: Expr, orSignRule: bool)
    requires IsBool(sl) && WellTyped(sl) && IsBool(sr) && WellTyped(sr) && PastSentinels(sl, sr)
    requires Simplify(sl, orSignRule) == Ok(sl) && Simplify(sr, orSignRule) == Ok(sr)
    ensures Simplify(AndPair(sl, sr), orSignRule) == Ok(AndPair(sl, sr))
  {
    var r := AndPair(sl, sr);
    if r == FALSE {
      SentinelsFixed(orSignRule);
    } else if r != sl {
      assert r == Bin(Conj, sl, sr);
      assert CombineAnd(sl, sr) == r;
    }
  }

  lemma OrPairFixed(sl: Expr, sr: Expr, orSignRule: bool)
    requires IsBool(sl) && WellTyped(sl) && IsBool(sr) && WellTyped(sr) && PastSentinels(sl, sr)
    requires Simplify(sl, orSignRule) == Ok(sl) && Simplify(sr, orSignRule) == Ok(sr)
    ensures Simplify(OrPair(sl, sr, orSignRule), orSignRule) == Ok(OrPair(sl, sr, orSignRule))
  {
    var r := OrPair(sl, sr, orSignRule);
    if r == TRUE {
      SentinelsFixed(orSignRule);
    } else if r != sl {
      assert r == Bin(Disj, sl, sr);
      assert CombineOr(sl, sr, orSignRule) == r;
    }
  }

  /** The two halves of (element>0)|(element<0) normalise to the atoms
      element > 0 and -element > 0. */
  lemma SignPairAtoms(orSignRule: bool)
    ensures Simplify(Bin(Greater, Element, Const("0")), orSignRule) == Ok(GtPoly([0, 1]))
    ensures Simplify(Bin(Less, Element, Const("0")), orSignRule) == Ok(GtPoly([0, -1]))
  {
    ToPolynomialLeaves("0");
    assert NumeralValue("0") == Ok(0) by {
      assert "0"[..0] == "";
    }
    ConstantDifferences();
    assert ToPolynomial(Bin(Sub, Element, Const("0"))) == Ok([0, 1]);
    assert ToPolynomial(Bin(Sub, Const("0"), Element)) == Ok([0, -1]);
  }

  /** element and -element have negated, different coefficients. */
  lemma SignPairCoefficients()
    ensures Negated([0, 1], [0, -1])
    ensures !SameCoefficients([0, 1], [0, -1])
  {
    ConstantDifferences();
    assert Trim([0, 1]) == [0, 1];
    assert Trim([0, -1]) == [0, -1];
  }

  /** The sign rule collapses p > 0 | q > 0 with q = -p to TRUE, while that
      disjunction is false wherever p evaluates to 0; without the rule the
      disjunction is kept. */
  lemma SignRuleCollapses(p: seq<int>, q: seq<int>, x: int)
    requires Negated(p, q) && !SameCoefficients(p, q)
    ensures CombineOr(GtPoly(p), GtPoly(q), true) == TRUE
    ensures CombineOr(GtPoly(p), GtPoly(q), false) == Bin(Disj, GtPoly(p), GtPoly(q))
    ensures EvalPoly(p, x) == 0 ==> !EvalBool(Bin(Disj, GtPoly(p), GtPoly(q)), x)
  {
    PolynomialFacts.NegatedEval(p, q, x);
  }

  /** The condition (element>0)|(element<0). */
  const SignPair := Bin(Disj, Bin(Greater, Element, Const("0")), Bin(Less, Element, Const("0")))

  /** A conjunction or disjunction simplifies to the rule chain applied to
      its simplified operands. */
  lemma SimplifyConnective(op: Op, l: Expr, r: Expr, orSignRule: bool)
    requires op.IsLogical() && IsBool(l) && WellTyped(l) && IsBool(r) && WellTyped(r)
    requires Simplify(l, orSignRule).Ok? && Simplify(r, orSignRule).Ok?
    ensures var sl, sr := Simplify(l, orSignRule).value, Simplify(r, orSignRule).value;
            Simplify(Bin(op, l, r), orSignRule) ==
              Ok(if op == Conj then CombineAnd(sl, sr) else CombineOr(sl, sr, orSignRule))
  {
  }

  /** The source's sign rule turns (element>0)|(element<0), which is false at
      x = 0, into TRUE. */
  lemma OrSignRuleUnsound(b: Expr)
    requires b == SignPair
    ensures IsBool(b) && WellTyped(b)
    ensures Simplify(b, true) == Ok(TRUE) && EvalBool(TRUE, 0) && !EvalBool(b, 0)
  {
    SignPairShape(b);
    SentinelsEval(0);
    SignPairAtoms(true);
    SignPairCoefficients();
    SignDisjunction(b.l, b.r, [0, 1], [0, -1], true);
  }

  /** (element>0)|(element<0) is a well-typed disjunction of two comparisons,
      false at x = 0. */
  lemma SignPairShape(b: Expr)
    requires b == SignPair
    ensures b.Bin? && b.op == Disj && IsBool(b) && WellTyped(b)
    ensures IsBool(b.l) && WellTyped(b.l) && IsBool(b.r) && WellTyped(b.r)
    ensures !EvalBool(b, 0)
  {
    assert EvalNum(Const("0"), 0) == 0 by {
      assert NumeralValue("0") == Ok(0) by {
        assert "0"[..0] == "";
      }
    }
  }

  /** The corrected simplifier keeps that condition, normalised to
      (element > 0) | (-element > 0). */
  lemma OrSignRuleDropped(b: Expr)
    requires b == SignPair
    ensures Simplify(b, false) == Ok(Bin(Disj, GtPoly([0, 1]), GtPoly([0, -1])))
  {
    SignPairShape(b);
    SignPairAtoms(false);
    SignPairCoefficients();
    SignDisjunction(b.l, b.r, [0, 1], [0, -1], false);
  }

  /** A disjunction whose operands normalise to p > 0 and q > 0, q the
      negation of p, becomes TRUE under the sign rule and is kept without it. */
  lemma SignDisjunction(l: Expr, r: Expr, p: seq<int>, q: seq<int>, orSignRule: bool)
    requires IsBool(l) && WellTyped(l) && IsBool(r) && WellTyped(r)
    requires Simplify(l, orSignRule) == Ok(GtPoly(p)) && Simplify(r, orSignRule) == Ok(GtPoly(q))
    requires Negated(p, q) && !SameCoefficients(p, q)
    ensures Simplify(Bin(Disj, l, r), orSignRule) == Ok(if orSignRule then TRUE else Bin(Disj, GtPoly(p), GtPoly(q)))
  {
    SimplifyConnective(Disj, l, r, orSignRule);
    SignRuleCollapses(p, q, 0);
  }

}
