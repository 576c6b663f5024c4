/** The polynomial normal form of arithmetic expressions in `element`.

    A polynomial is its coefficient buffer, indexed by power. The buffer is
    not trimmed: operations size it from the operands' degrees, so it may end
    in zero coefficients, and `Degree` (the highest index holding a non-zero
    coefficient, -1 for none) is what the rest of the optimiser looks at.

    The specification functions (`Sum`, `Difference`, `Product`) are what
    the expression layer uses; the class `Polynomial` is the buffer that the
    source fills in place with loops, proved to compute them. */
module Polynomials {
  import opened Outcomes

  // ---------------------------------------------------------------------
  // Coefficients and degree

  /** Highest index holding a non-zero coefficient, or -1 if there is none. */
  function Degree(s: seq<int>): (d: int)
    ensures -1 <= d < |s|
    ensures d >= 0 ==> s[d] != 0
    ensures forall i :: d < i < |s| ==> s[i] == 0
  {
    if |s| == 0 then -1
    else if s[|s| - 1] != 0 then |s| - 1
    else Degree(s[..|s| - 1])
  }

  /** Coefficient of power `i`; powers past the buffer are zero. */
  function Coef(p: seq<int>, i: int): int {
    if 0 <= i < |p| then p[i] else 0
  }

  function Max(a: int, b: int): int {
    if a < b then b else a
  }

  /** The buffer built by the source's constructor `Polynomial(a, b)`. */
  function Monomial(a: int, b: nat): seq<int> {
    seq(b + 1, i => if i == b then a else 0)
  }

  function Zeros(n: nat): seq<int> {
    seq(n, _ => 0)
  }

  /** `plus`: a buffer sized by the larger degree, holding the coefficient-wise sum.
      Creating it fails when both degrees are -1 (a buffer with top index -1). */
  function Sum(a: seq<int>, b: seq<int>): Result<seq<int>> {
    var m := Max(Degree(a), Degree(b));
    if m < 0 then Err(SizeError) else Ok(seq(m + 1, i => Coef(a, i) + Coef(b, i)))
  }

  /** `minus`: as `Sum`, subtracting coefficient-wise. */
  function Difference(a: seq<int>, b: seq<int>): Result<seq<int>> {
    var m := Max(Degree(a), Degree(b));
    if m < 0 then Err(SizeError) else Ok(seq(m + 1, i => Coef(a, i) - Coef(b, i)))
  }

  /** Row `i` of the convolution after its first `j` steps: each step adds
      `ai * b[j']` into index `i + j'`. */
  function RowUpdate(c: seq<int>, ai: int, i: nat, b: seq<int>, j: nat): (r: seq<int>)
    requires j <= |b| && i + j <= |c|
    ensures |r| == |c|
  {
    if j == 0 then c
    else
      var p := RowUpdate(c, ai, i, b, j - 1);
      p[i + j - 1 := p[i + j - 1] + ai * b[j - 1]]
  }

  /** The convolution buffer after its first `i` complete rows. */
  function Convolve(a: seq<int>, b: seq<int>, i: nat): (r: seq<int>)
    requires Degree(a) + Degree(b) >= 0 && i <= Degree(a) + 1
    ensures |r| == Degree(a) + Degree(b) + 1
  {
    if i == 0 then Zeros(Degree(a) + Degree(b) + 1)
    else RowUpdate(Convolve(a, b, i - 1), a[i - 1], i - 1, b, Degree(b) + 1)
  }

  /** `times`: a buffer with top index deg a + deg b, filled by convolution.
      Creating it fails when that index is negative. */
  function Product(a: seq<int>, b: seq<int>): Result<seq<int>> {
    if Degree(a) + Degree(b) < 0 then Err(SizeError)
    else Ok(Convolve(a, b, Degree(a) + 1))
  }

  /** The coefficients up to the degree. */
  function Trim(p: seq<int>): seq<int> {
    p[..Degree(p) + 1]
  }

  /** `eq`: equal trimmed coefficient sequences. */
  predicate SameCoefficients(p: seq<int>, q: seq<int>) {
    Trim(p) == Trim(q)
  }

  /** `negEq`: p == -q on the trimmed coefficient sequences. */
  predicate Negated(p: seq<int>, q: seq<int>) {
    var tp, tq := Trim(p), Trim(q);
    |tp| == |tq| && forall i :: 0 <= i < |tp| ==> tp[i] == -tq[i]
  }

  // ---------------------------------------------------------------------
  // Evaluation at an integer

  function Pow(x: int, n: nat): int {
    if n == 0 then 1 else x * Pow(x, n - 1)
  }

  /** Sum of the coefficients of the powers below `n`, weighted by x^power. */
  function EvalTo(p: seq<int>, n: nat, x: int): int {
    if n == 0 then 0 else EvalTo(p, n - 1, x) + Coef(p, n - 1) * Pow(x, n - 1)
  }

  /** The value of the polynomial at x. */
  function EvalPoly(p: seq<int>, x: int): int {
    EvalTo(p, |p|, x)
  }

  // ---------------------------------------------------------------------
  // The coefficient buffer of the source, updated in place

  class Polynomial {
    var coeffs: array<int>
    var deg: int

    ghost predicate Valid()
      reads this, coeffs
    {
      deg == Degree(coeffs[..])
    }

    /** `Polynomial(a, b)`: b + 1 coefficients, all zero but coefficient b, which is a.
        A negative b makes the source fail; callers check for it first. */
    constructor (a: int, b: nat)
      ensures Valid() && fresh(coeffs)
      ensures coeffs[..] == Monomial(a, b)
    {
      var buffer := new int[b + 1](_ => 0);
      buffer[b] := a;
      coeffs := buffer;
      new;
      deg := ComputeDegree();
    }

    /** `degree()`: a forward scan remembering the last non-zero index. */
    method ComputeDegree() returns (d: int)
      ensures d == Degree(coeffs[..])
    {
      d := -1;
      for i := 0 to coeffs.Length
        invariant d == Degree(coeffs[..i])
      {
        assert coeffs[..i + 1][..i] == coeffs[..i];
        if coeffs[i] != 0 {
          d := i;
        }
      }
      assert coeffs[..coeffs.Length] == coeffs[..];
    }

    /** `plus`: neither operand is changed; only the fresh result is written. */
    method Plus(b: Polynomial) returns (r: Result<Polynomial>)
      requires Valid() && b.Valid()
      ensures Sum(coeffs[..], b.coeffs[..]).Err? ==> r == Err(SizeError)
      ensures Sum(coeffs[..], b.coeffs[..]).Ok? ==>
                r.Ok? && fresh(r.value) && fresh(r.value.coeffs) && r.value.Valid() &&
                r.value.coeffs[..] == Sum(coeffs[..], b.coeffs[..]).value
    {
      var a := this;
      var m := Max(a.deg, b.deg);
      if m < 0 {
        return Err(SizeError);
      }
      var c := new Polynomial(0, m);
      Accumulate(c.coeffs, a.coeffs, a.deg + 1, false);
      Accumulate(c.coeffs, b.coeffs, b.deg + 1, false);
      PassesCompute(a.coeffs[..], b.coeffs[..], false);
      c.deg := c.ComputeDegree();
      r := Ok(c);
    }

    /** `minus`: neither operand is changed; only the fresh result is written. */
    method Minus(b: Polynomial) returns (r: Result<Polynomial>)
      requires Valid() && b.Valid()
      ensures Difference(coeffs[..], b.coeffs[..]).Err? ==> r == Err(SizeError)
      ensures Difference(coeffs[..], b.coeffs[..]).Ok? ==>
                r.Ok? && fresh(r.value) && fresh(r.value.coeffs) && r.value.Valid() &&
                r.value.coeffs[..] == Difference(coeffs[..], b.coeffs[..]).value
    {
      var a := this;
      var m := Max(a.deg, b.deg);
      if m < 0 {
        return Err(SizeError);
      }
      var c := new Polynomial(0, m);
      Accumulate(c.coeffs, a.coeffs, a.deg + 1, false);
      Accumulate(c.coeffs, b.coeffs, b.deg + 1, true);
      PassesCompute(a.coeffs[..], b.coeffs[..], true);
      c.deg := c.ComputeDegree();
      r := Ok(c);
    }

    /** `times`: the nested convolution loop; only the fresh result is written. */
    method Times(b: Polynomial) returns (r: Result<Polynomial>)
      requires Valid() && b.Valid()
      ensures Product(coeffs[..], b.coeffs[..]).Err? ==> r == Err(SizeError)
      ensures Product(coeffs[..], b.coeffs[..]).Ok? ==>
                r.Ok? && fresh(r.value) && fresh(r.value.coeffs) && r.value.Valid() &&
                r.value.coeffs[..] == Product(coeffs[..], b.coeffs[..]).value
    {
      var a := this;
      if a.deg + b.deg < 0 {
        return Err(SizeError);
      }
      ghost var sa, sb := a.coeffs[..], b.coeffs[..];
      var c := new Polynomial(0, a.deg + b.deg);
      ZeroMonomial(a.deg + b.deg);
      for i := 0 to a.deg + 1
        invariant fresh(c) && fresh(c.coeffs)
        invariant c.coeffs[..] == Convolve(sa, sb, i)
      {
        assert a.coeffs[i] == sa[i] && b.coeffs[..] == sb;
        AddRow(c.coeffs, a.coeffs[i], i, b.coeffs, b.deg + 1);
      }
      assert c.coeffs[..] == Product(sa, sb).value;
      c.deg := c.ComputeDegree();
      r := Ok(c);
    }
  }

  /** One pass of `plus` or `minus`: adds (or subtracts) the first n entries
      of `src` into `c` at the same index. */
  method Accumulate(c: array<int>, src: array<int>, n: nat, subtract: bool)
    requires c != src && n <= src.Length && n <= c.Length
    modifies c
    ensures c[..] == Accumulated(old(c[..]), src[..], n, subtract)
  {
    for i := 0 to n
      invariant c[..] == Accumulated(old(c[..]), src[..], i, subtract)
    {
      if subtract {
        c[i] := c[i] - src[i];
      } else {
        c[i] := c[i] + src[i];
      }
    }
  }

  /** The buffer c after one pass of `plus` (or `minus`) over the first n
      entries of src. */
  function Accumulated(c: seq<int>, src: seq<int>, n: nat, subtract: bool): (r: seq<int>)
    ensures |r| == |c|
  {
    seq(|c|, k requires 0 <= k < |c| =>
      c[k] + (if k >= n || k >= |src| then 0 else if subtract then -src[k] else src[k]))
  }

  /** The buffer `Polynomial(0, n)` is all zeros. */
  lemma ZeroMonomial(n: nat)
    ensures Monomial(0, n) == Zeros(n + 1)
  {
  }

  /** A pass up to the source's degree adds every coefficient of the source. */
  lemma PassAt(c: seq<int>, src: seq<int>, subtract: bool, k: nat)
    requires k < |c|
    ensures Accumulated(c, src, Degree(src) + 1, subtract)[k] ==
            c[k] + (if subtract then -Coef(src, k) else Coef(src, k))
  {
  }

  /** The two passes over zeroed storage sized by the larger degree compute
      the sum (or the difference). */
  lemma PassesCompute(a: seq<int>, b: seq<int>, subtract: bool)
    requires Max(Degree(a), Degree(b)) >= 0
    ensures var m := Max(Degree(a), Degree(b));
            var c := Accumulated(Accumulated(Monomial(0, m), a, Degree(a) + 1, false), b, Degree(b) + 1, subtract);
            (!subtract ==> c == Sum(a, b).value) && (subtract ==> c == Difference(a, b).value)
  {
    var m := Max(Degree(a), Degree(b));
    var c0 := Monomial(0, m);
    var c1 := Accumulated(c0, a, Degree(a) + 1, false);
    var c := Accumulated(c1, b, Degree(b) + 1, subtract);
    var expected := if subtract then Difference(a, b).value else Sum(a, b).value;
    forall k | 0 <= k < m + 1
      ensures c[k] == expected[k]
    {
      ZeroMonomial(m);
      PassAt(c0, a, false, k);
      PassAt(c1, b, subtract, k);
      CoefficientWise(a, b, subtract, k);
    }
    assert c == expected;
  }

  /** Entry k of the sum (difference) buffer. */
  lemma CoefficientWise(a: seq<int>, b: seq<int>, subtract: bool, k: nat)
    requires k <= Max(Degree(a), Degree(b))
    ensures var e := if subtract then Difference(a, b).value else Sum(a, b).value;
            |e| == Max(Degree(a), Degree(b)) + 1 &&
            e[k] == if subtract then Coef(a, k) - Coef(b, k) else Coef(a, k) + Coef(b, k)
  {
  }


  /** One row of `times`: adds `ai * b[j]` into index `i + j` for the first n
      entries of b. */
  method AddRow(c: array<int>, ai: int, i: nat, b: array<int>, n: nat)
    requires c != b && n <= b.Length && i + n <= c.Length
    modifies c
    ensures c[..] == RowUpdate(old(c[..]), ai, i, b[..], n)
  {
    for j := 0 to n
      invariant c[..] == RowUpdate(old(c[..]), ai, i, b[..], j)
    {
      c[i + j] := c[i + j] + ai * b[j];
    }
  }
}
