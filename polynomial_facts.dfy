/** What the polynomial operations mean: evaluated at any integer, `Sum`,
    `Difference` and `Product` add, subtract and multiply; their failure
    cases; the degree of a product; and what `eq` / `negEq` say about values. */
module PolynomialFacts {
  import opened Outcomes
  import opened Polynomials

  // ---------------------------------------------------------------------
  // Evaluation helpers

  lemma {:induction false} PowAdd(x: int, m: nat, n: nat)
    ensures Pow(x, m + n) == Pow(x, m) * Pow(x, n)
  {
    if m > 0 {
      PowAdd(x, m - 1, n);
      assert Pow(x, m + n) == x * Pow(x, m - 1 + n);
      assert x * (Pow(x, m - 1) * Pow(x, n)) == (x * Pow(x, m - 1)) * Pow(x, n);
    }
  }

  /** Coefficient-wise linear combinations evaluate to the same combination. */
  lemma {:induction false} EvalCombination(c: seq<int>, a: seq<int>, b: seq<int>, u: int, v: int, n: nat, x: int)
    requires forall i :: Coef(c, i) == u * Coef(a, i) + v * Coef(b, i)
    ensures EvalTo(c, n, x) == u * EvalTo(a, n, x) + v * EvalTo(b, n, x)
  {
    if n > 0 {
      EvalCombination(c, a, b, u, v, n - 1, x);
      CombinationStep(EvalTo(a, n - 1, x), EvalTo(b, n - 1, x), Coef(a, n - 1), Coef(b, n - 1), u, v, Pow(x, n - 1));
    }
  }

  lemma CombinationStep(ea: int, eb: int, ca: int, cb: int, u: int, v: int, p: int)
    ensures u * ea + v * eb + (u * ca + v * cb) * p == u * (ea + ca * p) + v * (eb + cb * p)
  {
    assert (u * ca + v * cb) * p == u * (ca * p) + v * (cb * p);
    assert u * (ea + ca * p) == u * ea + u * (ca * p);
    assert v * (eb + cb * p) == v * eb + v * (cb * p);
  }

  /** A polynomial whose first n coefficients are zero sums to zero over them. */
  lemma {:induction false} EvalZero(p: seq<int>, n: nat, x: int)
    requires forall i :: 0 <= i < n ==> Coef(p, i) == 0
    ensures EvalTo(p, n, x) == 0
  {
    if n > 0 {
      EvalZero(p, n - 1, x);
    }
  }

  /** Only the coefficients up to the degree contribute. */
  lemma {:induction false} EvalToPastDegree(p: seq<int>, n: nat, x: int)
    requires n > Degree(p)
    ensures EvalTo(p, n, x) == EvalTo(p, Degree(p) + 1, x)
  {
    if n > Degree(p) + 1 {
      EvalToPastDegree(p, n - 1, x);
      assert Coef(p, n - 1) == 0;
    }
  }

  lemma EvalPolyUpToDegree(p: seq<int>, n: nat, x: int)
    requires n > Degree(p)
    ensures EvalTo(p, n, x) == EvalPoly(p, x)
  {
    EvalToPastDegree(p, n, x);
    EvalToPastDegree(p, |p|, x);
  }

  /** A polynomial of degree at most 0 evaluates to its constant coefficient. */
  lemma ConstantEval(p: seq<int>, x: int)
    requires Degree(p) <= 0
    ensures EvalPoly(p, x) == Coef(p, 0)
  {
    EvalPolyUpToDegree(p, 1, x);
  }

  /** `Polynomial(a, b)` is the monomial a * x^b. */
  lemma MonomialEval(a: int, b: nat, x: int)
    ensures EvalPoly(Monomial(a, b), x) == a * Pow(x, b)
  {
    var m := Monomial(a, b);
    EvalZero(m, b, x);
    assert Coef(m, b) == a;
  }

  // ---------------------------------------------------------------------
  // plus and minus

  lemma SumCoefficients(a: seq<int>, b: seq<int>)
    requires Sum(a, b).Ok?
    ensures forall i :: Coef(Sum(a, b).value, i) == 1 * Coef(a, i) + 1 * Coef(b, i)
  {
    var c := Sum(a, b).value;
    forall i ensures Coef(c, i) == 1 * Coef(a, i) + 1 * Coef(b, i) {
      if i >= |c| && i >= 0 {
        assert Coef(a, i) == 0 && Coef(b, i) == 0;
      }
    }
  }

  /** `plus` fails exactly when both operands are zero; otherwise evaluation adds. */
  lemma SumCorrect(a: seq<int>, b: seq<int>)
    ensures Sum(a, b).Err? <==> Degree(a) == -1 && Degree(b) == -1
    ensures Sum(a, b).Ok? ==> forall x :: EvalPoly(Sum(a, b).value, x) == EvalPoly(a, x) + EvalPoly(b, x)
  {
    if Sum(a, b).Ok? {
      var c := Sum(a, b).value;
      SumCoefficients(a, b);
      forall x ensures EvalPoly(c, x) == EvalPoly(a, x) + EvalPoly(b, x) {
        var n := |a| + |b| + |c|;
        EvalCombination(c, a, b, 1, 1, n, x);
        EvalPolyUpToDegree(a, n, x);
        EvalPolyUpToDegree(b, n, x);
        EvalPolyUpToDegree(c, n, x);
      }
    }
  }

  lemma DifferenceCoefficients(a: seq<int>, b: seq<int>)
    requires Difference(a, b).Ok?
    ensures forall i :: Coef(Difference(a, b).value, i) == 1 * Coef(a, i) + (-1) * Coef(b, i)
  {
    var c := Difference(a, b).value;
    forall i ensures Coef(c, i) == 1 * Coef(a, i) + (-1) * Coef(b, i) {
      if i >= |c| && i >= 0 {
        assert Coef(a, i) == 0 && Coef(b, i) == 0;
      }
    }
  }

  /** `minus` fails exactly when both operands are zero; otherwise evaluation subtracts. */
  lemma DifferenceCorrect(a: seq<int>, b: seq<int>)
    ensures Difference(a, b).Err? <==> Degree(a) == -1 && Degree(b) == -1
    ensures Difference(a, b).Ok? ==> forall x :: EvalPoly(Difference(a, b).value, x) == EvalPoly(a, x) - EvalPoly(b, x)
  {
    if Difference(a, b).Ok? {
      var c := Difference(a, b).value;
      DifferenceCoefficients(a, b);
      forall x ensures EvalPoly(c, x) == EvalPoly(a, x) - EvalPoly(b, x) {
        var n := |a| + |b| + |c|;
        EvalCombination(c, a, b, 1, -1, n, x);
        EvalPolyUpToDegree(a, n, x);
        EvalPolyUpToDegree(b, n, x);
        EvalPolyUpToDegree(c, n, x);
      }
    }
  }

  /** p - p is the zero polynomial (degree -1) whenever it can be built. */
  lemma DifferenceSelf(p: seq<int>)
    requires Degree(p) >= 0
    ensures Difference(p, p).Ok? && Degree(Difference(p, p).value) == -1
  {
  }

  // ---------------------------------------------------------------------
  // times

  lemma {:induction false} EvalToUpdate(p: seq<int>, m: nat, w: int, n: nat, x: int)
    requires m < |p|
    ensures EvalTo(p[m := p[m] + w], n, x) == EvalTo(p, n, x) + (if m < n then w * Pow(x, m) else 0)
  {
    if n > 0 {
      EvalToUpdate(p, m, w, n - 1, x);
      var q := p[m := p[m] + w];
      if n - 1 == m {
        assert Coef(q, m) == Coef(p, m) + w;
        Distribute(Coef(p, m), w, Pow(x, m));
      } else {
        assert Coef(q, n - 1) == Coef(p, n - 1);
      }
    }
  }

  lemma Distribute(c: int, w: int, p: int)
    ensures (c + w) * p == c * p + w * p
  {
  }

  /** Each step of a convolution row adds ai * x^i * b[j] * x^j. */
  lemma {:induction false} RowUpdateEval(c: seq<int>, ai: int, i: nat, b: seq<int>, j: nat, x: int)
    requires j <= |b| && i + j <= |c|
    ensures EvalPoly(RowUpdate(c, ai, i, b, j), x) == EvalPoly(c, x) + ai * Pow(x, i) * EvalTo(b, j, x)
  {
    if j > 0 {
      RowUpdateEval(c, ai, i, b, j - 1, x);
      var p := RowUpdate(c, ai, i, b, j - 1);
      var k, bj := i + j - 1, b[j - 1];
      EvalToUpdate(p, k, ai * bj, |p|, x);
      PowAdd(x, i, j - 1);
      assert Coef(b, j - 1) == bj;
      RowStepArith(ai, bj, Pow(x, i), Pow(x, j - 1), EvalTo(b, j - 1, x));
    }
  }

  lemma RowStepArith(ai: int, bj: int, pi: int, pj: int, eb: int)
    ensures ai * pi * (eb + bj * pj) == ai * pi * eb + ai * bj * (pi * pj)
  {
    assert ai * pi * (bj * pj) == ai * bj * (pi * pj);
  }

  lemma {:induction false} ConvolveEval(a: seq<int>, b: seq<int>, i: nat, x: int)
    requires Degree(a) + Degree(b) >= 0 && i <= Degree(a) + 1
    ensures EvalPoly(Convolve(a, b, i), x) == EvalTo(a, i, x) * EvalTo(b, Degree(b) + 1, x)
  {
    var n := Degree(a) + Degree(b) + 1;
    if i == 0 {
      EvalZero(Zeros(n), n, x);
    } else {
      ConvolveEval(a, b, i - 1, x);
      RowUpdateEval(Convolve(a, b, i - 1), a[i - 1], i - 1, b, Degree(b) + 1, x);
      var eb, ea, ai, pi := EvalTo(b, Degree(b) + 1, x), EvalTo(a, i - 1, x), a[i - 1], Pow(x, i - 1);
      assert Coef(a, i - 1) == ai;
      RowSumArith(ea, eb, ai, pi);
    }
  }

  lemma RowSumArith(ea: int, eb: int, ai: int, pi: int)
    ensures ea * eb + ai * pi * eb == (ea + ai * pi) * eb
  {
  }

  /** `times` evaluates to the product of the operands' values. */
  lemma ProductEval(a: seq<int>, b: seq<int>, x: int)
    requires Product(a, b).Ok?
    ensures EvalPoly(Product(a, b).value, x) == EvalPoly(a, x) * EvalPoly(b, x)
  {
    ConvolveEval(a, b, Degree(a) + 1, x);
    EvalPolyUpToDegree(a, Degree(a) + 1, x);
    EvalPolyUpToDegree(b, Degree(b) + 1, x);
  }

  lemma {:induction false} RowUpdateAt(c: seq<int>, ai: int, i: nat, b: seq<int>, j: nat, k: nat)
    requires j <= |b| && i + j <= |c| && k < |c|
    ensures RowUpdate(c, ai, i, b, j)[k] == c[k] + (if i <= k < i + j then ai * b[k - i] else 0)
  {
    if j > 0 {
      RowUpdateAt(c, ai, i, b, j - 1, k);
    }
  }

  lemma {:induction false} ConvolveTop(a: seq<int>, b: seq<int>, i: nat)
    requires Degree(a) >= 0 && Degree(b) >= 0 && i <= Degree(a) + 1
    ensures Convolve(a, b, i)[Degree(a) + Degree(b)]
         == if i == Degree(a) + 1 then a[Degree(a)] * b[Degree(b)] else 0
  {
    if i > 0 {
      ConvolveTop(a, b, i - 1);
      RowUpdateAt(Convolve(a, b, i - 1), a[i - 1], i - 1, b, Degree(b) + 1, Degree(a) + Degree(b));
    }
  }

  lemma MulNonZero(u: int, v: int)
    requires u != 0 && v != 0
    ensures u * v != 0
  {
    if u > 0 && v > 0 {
      assert u * v >= v;
    } else if u > 0 {
      assert u * v <= v;
    } else if v > 0 {
      assert u * v <= u;
    } else {
      assert u * v >= -u;
    }
  }

  /** `times` fails exactly when deg a + deg b < 0, and for non-zero operands
      the degree of the product is the sum of the degrees. */
  lemma ProductCorrect(a: seq<int>, b: seq<int>)
    ensures Product(a, b).Err? <==> Degree(a) + Degree(b) < 0
    ensures Degree(a) >= 0 && Degree(b) >= 0 ==> Degree(Product(a, b).value) == Degree(a) + Degree(b)
  {
    if Degree(a) >= 0 && Degree(b) >= 0 {
      var c := Product(a, b).value;
      ConvolveTop(a, b, Degree(a) + 1);
      MulNonZero(a[Degree(a)], b[Degree(b)]);
      assert c[|c| - 1] != 0;
    }
  }

  // ---------------------------------------------------------------------
  // eq and negEq

  /** Equal trimmed coefficients: the same value at every x. */
  lemma SameCoefficientsEval(p: seq<int>, q: seq<int>, x: int)
    requires SameCoefficients(p, q)
    ensures EvalPoly(p, x) == EvalPoly(q, x)
  {
    assert Degree(p) == Degree(q) by {
      assert |Trim(p)| == |Trim(q)|;
    }
    forall i ensures Coef(p, i) == 1 * Coef(q, i) + 0 * Coef(q, i) {
      if 0 <= i <= Degree(p) {
        assert p[i] == Trim(p)[i] == Trim(q)[i] == q[i];
      }
    }
    var n := |p| + |q|;
    EvalCombination(p, q, q, 1, 0, n, x);
    EvalPolyUpToDegree(p, n, x);
    EvalPolyUpToDegree(q, n, x);
  }

  /** p == -q on trimmed coefficients: opposite values at every x. */
  lemma NegatedEval(p: seq<int>, q: seq<int>, x: int)
    requires Negated(p, q)
    ensures EvalPoly(p, x) == -EvalPoly(q, x)
  {
    assert Degree(p) == Degree(q) by {
      assert |Trim(p)| == |Trim(q)|;
    }
    forall i ensures Coef(p, i) == (-1) * Coef(q, i) + 0 * Coef(q, i) {
      if 0 <= i <= Degree(p) {
        assert p[i] == Trim(p)[i] == -Trim(q)[i] == -q[i];
      }
    }
    var n := |p| + |q|;
    EvalCombination(p, q, q, -1, 0, n, x);
    EvalPolyUpToDegree(p, n, x);
    EvalPolyUpToDegree(q, n, x);
  }
}
